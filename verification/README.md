# trade-engine: a Dafny model of the matching core

This project models the core of the trade-engine order-matching server. The
engine keeps one book per stock, and each book has a buy side and a sell side
in price-time priority. Order nodes come from a slab and go back to it.

When an order arrives, `process` takes a node from the slab, fills it from the
order message and dispatches on the order's kind:

- `addBuy` / `addSell` cross the incoming order against the best resting
  orders of the other side (`fillableBuy` / `fillableSell`) and rest what is
  left;
- `cancel` removes the resting order with the request's identity (its "guid":
  the trader id and the trade id packed into 64 bits).

Every trade and every cancel answer becomes a notification to a connected
trader. The model also covers:

- the binary envelope (`Packet`) that carries messages: its `Pack` and
  `Unpack`, in the server's copy and the client's copy;
- the session's framing: `packetSlit`, the split function that cuts one
  packet out of the bytes read so far, and `Session.Pack`;
- the session registry (`Registry`): the `sessions` map that `NewMatcher`
  sets up and `addToSessions` fills, one trader id per connection.

The model has three layers.

- **Matching** states the rules on values. `CrossBuy` and `CrossSell` are the
  crossing loops, `InsertBuy` and `InsertSell` rest an order, `CancelIn`
  cancels by guid, and `TradeNotes`, `FillNotes` and `CancelNotes` are the
  notifications. `Step` is one whole instruction over a `Market`, the books by
  stock.
- **Pqueue** is the heap model. `OrderNode` is a class whose fields the
  engine updates in place. `MatchQueues` is a book holding two sequences of
  nodes, and `Slab` is a free list.
- **Matcher** holds `TradeMatcher`, with the books map, the slab and the
  connected sessions. Each of its methods is proved to change the books
  exactly as the value-level step does, and to keep the engine's invariant.

The invariant says:

- every book is valid: each resting node is linked into its book once, on one
  side;
- no two stocks share a book;
- the free list holds distinct, unlinked nodes.

Beside the invariant, the model tracks the nodes the engine holds: those on
the slab's free list and those resting in a book (`Live`). Each instruction
takes one node from the slab, and the nodes the engine holds afterwards are
the ones it held before plus that node: whatever a trade or a cancel uses up
goes back onto the free list, in the order the code frees it.

`Envelope` is the value-level specification of the wire format. The `Packet`
classes in `ServerProto` and `ClientProto` are shown to write and read it
step by step. `Binary` writes out what the program relies on from Go's
`encoding/binary` and `io`.

## Behaviour a reader might not expect

The model follows the code in each case below.

- **Trade price.** One might expect the price to be rounded toward the
  resting order's price. The code always computes `sell + (buy - sell) / 2`,
  so it rounds toward the sell price whichever order was resting
  (`TradePrice`).
- **Fill statuses.** One might expect each party to be told PARTIAL or FULL
  according to whether its own order is used up. The code always passes
  PARTIAL for the buyer and FULL for the seller, so when a buy and a sell of
  equal quantity use each other up, the buyer is still told PARTIAL
  (`ScenarioEqualQuantities`).
- **Kind codes.** The client's copy of the wire package numbers the kinds
  from NONE, so each shared kind is one higher than the server's code for it
  (`ClientProto.KindCodesShifted`).

## Model

| member | source | states |
|---|---|---|
| Fmath.HalvesOfCombine | server/matcher/pqueue/order.go:46-52 | Uuid and TradeId of a guid built from a trader id and a trade id give both ids back |
| Fmath.CombineOfHalves | server/matcher/pqueue/order.go:24-31 | every 64-bit guid is the packing of its high and low halves |
| Fmath.CombineInjective | server/matcher/pqueue/order.go:21 | two packed guids are equal exactly when both trader ids and both trade ids are |
| Binary.Uint32OfLE32 | server/proto/packet.go:37 | reading back the four little-endian bytes of a word gives the word |
| Binary.LE32OfUint32 | server/matcher/session.go:78 | four bytes read as a little-endian word and written back give the same four bytes |
| Binary.Write | server/proto/packet.go:37-43 | one writer call stores what fits in the room left, and fails with ShortWrite exactly when not all of it fits |
| Binary.ReadFull | server/proto/packet.go:49-58 | a read of n bytes succeeds exactly when n bytes are left; otherwise it reports EOF (nothing read) or UnexpectedEOF (part read) and consumes the rest |
| Binary.ReadU32 | server/proto/packet.go:49 | a 32-bit read succeeds exactly when 4 bytes are left, yields their little-endian value, and leaves the destination as it was on failure |
| Binary.ReadBytes | server/proto/packet.go:50-51 | a read into `make([]byte, n)` yields the next n bytes when they are all there and n zero bytes otherwise |
| Binary.Zeros | server/proto/packet.go:50 | `make([]byte, n)` holds n zero bytes |
| Envelope.Encode | server/proto/packet.go:35-45 | the encoding of a packet is 16 bytes of length and timestamp words plus the version, tag and payload bytes |
| Envelope.EncodeIsConcat | server/proto/packet.go:37-43 | the encoding is the seven pieces Pack writes, concatenated in wire order |
| Envelope.WriteEachPrefix | server/proto/packet.go:36-44 | a run of writes stores a prefix of the concatenated pieces: all of it if it fits, otherwise as much as the room allows |
| Envelope.WriteEachError | server/proto/packet.go:36-44 | the error of a run of overwriting writes is nil exactly when the last piece fits in the room the earlier ones left |
| Envelope.EmitUnrolled | server/proto/packet.go:37-43 | what Pack does to a writer is the seven writes of the fields, in order |
| Envelope.EmitWritesPrefix | server/proto/packet.go:35-45 | Pack writes a prefix of the encoding, all of it when the writer has room |
| Envelope.EmitErrorIsLastWrite | server/proto/packet.go:36-44 | Pack reports nil exactly when the payload write fits, which includes every packet with an empty payload however much of the header was cut off |
| Envelope.Decode | server/proto/packet.go:47-60 | after Unpack each byte slice's length equals the length field read before it |
| Envelope.DecodeEncode | server/proto/packet.go:35-60 | unpacking a packed consistent packet, followed by anything, gives the packet back, leaves the rest unread and reports no error, whatever the receiver held |
| Envelope.NilErrorWithPayload | server/proto/packet.go:47-59 | a nil error from Unpack with a non-empty payload means the input began with the encoding of the consistent packet read |
| Envelope.EmptyInputReportsNoError | server/proto/packet.go:47-59 | on an empty reader, a receiver whose DataLen is 0 gets zeroed slices and Unpack reports no error |
| ServerProto.Packet.constructor | server/matcher/session.go:101 | `new(Packet)` has every field zero or empty |
| ServerProto.Packet.Pack | server/proto/packet.go:35-45 | the writer gets the encoding's prefix that fits; the error is nil exactly when the payload fits or is empty |
| ServerProto.Packet.Unpack | server/proto/packet.go:47-60 | the receiver's new fields, the unread rest and the error are those of the value-level Decode of the old fields, with each slice as long as its length field |
| ClientProto.KindCodesShifted | proto/packet.go:9-18 | each client kind code is the server's plus one, so a client BUY reads as SELL on the server, a client SELL as CANCEL and a client CANCEL as NOT_CANCELLED |
| ClientProto.Packet.constructor | proto/packet.go:28-36 | a fresh client packet has every field zero or empty |
| ClientProto.Packet.Pack | proto/packet.go:38-48 | the writer gets the prefix of the encoding that fits; the error is nil exactly when the payload fits or is empty |
| ClientProto.Packet.Unpack | proto/packet.go:50-63 | the new fields, the unread rest and the error are those of Decode of the old fields, each slice as long as its length field |
| Session.PacketSlitAsWritten | server/matcher/session.go:75-92 | a token the as-written split hands out is a prefix of the data, no longer than the data |
| Session.PacketSlit | server/matcher/session.go:75-92 | the intended split never panics, and cuts a token exactly when the whole header and the announced payload have arrived; the token is the frame |
| Session.Frame | server/matcher/session.go:99-108 | the packet Session.Pack fills is consistent when the payload is shorter than 2^32 and the tag is 6 bytes |
| Session.Pack | server/matcher/session.go:99-112 | Session.Pack returns the encoding of the packet with version "V1", tag length 6, the given tag and timestamp, and the payload |
| Session.SplitFindsFrame | server/matcher/session.go:75-92 | the intended split cuts exactly one packed frame off the front of the input, whatever follows it |
| Session.PackedFrameRoundTrip | server/matcher/session.go:75-112 | what Session.Pack sends is cut back out as one frame, and unpacking that frame gives back the packet packed, with no error |
| Session.ShortBufferPanics | server/matcher/session.go:76 | three bytes not at EOF crash the as-written split on `data[4]`; the intended one waits for more |
| Session.WrappedTagLenCutsHeader | server/matcher/session.go:78-87 | a tag length of 0xFFFFFFF2 wraps the header arithmetic, and the as-written split cuts a 6-byte token out of a header; the intended one waits |
| Session.LongTagLenPanics | server/matcher/session.go:78-82 | a tag length beyond the buffer's capacity crashes the as-written split on a slice out of range; the intended one waits |
| Session.AsWrittenWithoutWrap | server/matcher/session.go:77-89 | when the lengths stay below 2^31 the as-written split panics if the header runs past the capacity, and otherwise cuts exactly when payload and header have arrived |
| Session.AsWrittenAgrees | server/matcher/session.go:75-92 | outside those three cases (no panic, lengths below 2^31) the as-written split cuts what the intended split cuts |
| Session.AgreesOnWholeHeader | server/matcher/session.go:75-92 | once the whole header is in the data, the two splits agree |
| Matching.RecOf | server/matcher/pqueue/order.go:17-22 | CopyFrom keeps price, quantity, stock and kind, and packs the trader id and the trade id into the guid's halves |
| Matching.OrderOf | server/matcher/pqueue/order.go:24-31 | CopyTo's message carries the node's fields and repacks to the node's guid |
| Matching.CopyToAfterCopyFrom | matcher/pqueue/order.go:17-31 | CopyTo after CopyFrom gives back all six fields of the order message (the same holds for this older copy, which reads the trade id through GetTradeId) |
| Matching.GuidIdentifiesTrade | server/matcher/pqueue/order.go:21 | two orders get the same guid exactly when they have the same trader id and the same trade id |
| Matching.TradePrice | server/matcher/matcher.go:134-137 | for a sell at or below the buy, the trade price lies between the two prices and is the sell price plus half the spread, truncated |
| Matching.BuyProgressStart | server/matcher/matcher.go:95-96 | before fillableBuy's first pass, no fills are made and the whole crossing is still ahead |
| Matching.BuyProgressOutlasts | server/matcher/matcher.go:102-109 | when the buy uses up the best sell, the fill made and the crossing of the reduced buy against the remaining sells make up the whole crossing |
| Matching.BuyProgressStops | server/matcher/matcher.go:97-100 | an empty sell side or a best sell above the buy ends the crossing with the buy resting and the fills made so far |
| Matching.BuyProgressUsedUp | server/matcher/matcher.go:111-117 | when the best sell outlasts the buy, the crossing ends with the buy used up and that sell reduced at the head |
| Matching.BuyProgressMatched | server/matcher/matcher.go:119-126 | equal quantities end the crossing with both used up |
| Matching.SellProgressStart | server/matcher/matcher.go:197-198 | before fillableSell's first pass, the whole crossing is still ahead |
| Matching.SellProgressOutlasts | server/matcher/matcher.go:213-220 | when the sell uses up the best buy, the fill made and the rest of the crossing make up the whole crossing |
| Matching.SellProgressStops | server/matcher/matcher.go:199-202 | an empty buy side or a best buy below the sell ends the crossing with the sell resting |
| Matching.SellProgressUsedUp | server/matcher/matcher.go:204-211 | when the best buy outlasts the sell, the crossing ends with the sell used up and that buy reduced at the head |
| Matching.SellProgressMatched | server/matcher/matcher.go:222-229 | equal quantities end the crossing with both used up |
| Matching.CrossBuyFillsInOrder | server/matcher/matcher.go:96-110 | the k-th fill of a buy is against the k-th best resting sell, each priced at or below the buy |
| Matching.CrossBuyLeaves | server/matcher/matcher.go:95-132 | the crossing of a buy leaves the sells past the last one reached, plus that one reduced if it was not used up; a buy left resting is priced below the best remaining sell |
| Matching.CrossSellFillsInOrder | server/matcher/matcher.go:198-212 | the k-th fill of a sell is against the k-th best resting buy, each priced at or above the sell |
| Matching.CrossSellLeaves | server/matcher/matcher.go:197-235 | the crossing of a sell leaves the buys past the last one reached, plus that one reduced if not used up; a sell left resting is priced above the best remaining buy |
| Matching.CrossBuyConserves | server/matcher/matcher.go:95-132 | quantity is conserved: the fills plus what the sell side keeps make up the old sell side, and the buy is used up or rests with exactly what the fills did not take, otherwise unchanged |
| Matching.CrossSellConserves | server/matcher/matcher.go:197-235 | the same conservation for an incoming sell |
| Matching.CrossBuyFillsAreMin | server/matcher/matcher.go:102-120 | each fill of a buy trades the smaller of what remains of the buy and the quantity of the sell it meets |
| Matching.CrossSellFillsAreMin | server/matcher/matcher.go:204-223 | each fill of a sell trades the smaller of what remains of the sell and the quantity of the buy it meets |
| Matching.FillsCross | server/matcher/matcher.go:101-104 | every trade is priced between the sell's price and the buy's price |
| Matching.CrossBuyPrices | server/matcher/matcher.go:101-121 | every fill of a buy is between a sell priced at or below the buy, at the price rule's price |
| Matching.CrossSellPrices | server/matcher/matcher.go:203-224 | every fill of a sell is between a buy priced at or above the sell, at the price rule's price |
| Matching.BuyPos | server/matcher/matcher.go:91 | PushBuy's position is behind every buy priced at or above the new one and ahead of the first cheaper one |
| Matching.SellPos | server/matcher/matcher.go:193 | PushSell's position is behind every sell priced at or below the new one and ahead of the first dearer one |
| Matching.InsertBuySorted | server/matcher/matcher.go:90-92 | resting a buy keeps the buy side in price priority |
| Matching.InsertSellSorted | server/matcher/matcher.go:192-194 | resting a sell keeps the sell side in price priority |
| Matching.InsertBuyPriority | server/matcher/matcher.go:90-92 | a rested buy goes behind every buy priced at or above it (time priority among equal prices) and ahead of every cheaper one; nothing else moves |
| Matching.InsertSellPriority | server/matcher/matcher.go:192-194 | a rested sell goes behind every sell priced at or below it and ahead of every dearer one; nothing else moves |
| Matching.FindGuid | server/matcher/matcher.go:239 | the lookup finds the first resting order with the guid, and reports -1 exactly when none carries it |
| Matching.DeleteFoundCount | server/matcher/matcher.go:239 | removing the order found takes exactly one order with that guid off the side |
| Matching.NotFoundCount | server/matcher/matcher.go:239 | a failed lookup means no order on the side carries the guid |
| Matching.CancelRemovesOne | server/matcher/matcher.go:237-247 | a cancel reports an order exactly when one with the guid rests, takes out exactly one such order, and otherwise leaves the book unchanged |
| Matching.TradeNotes | server/matcher/matcher.go:249-276 | one notification per party with a session: the buyer's carries kind `partial`, the seller's kind `full`, both the trade's price and quantity and the party's own ids and stock |
| Matching.CancelNotes | server/matcher/matcher.go:278-300 | at most one notification: the removed order with kind CANCEL (tag t_1002), or the request with kind NOT_CANCELLED (tag t_1003) |
| Matching.Step | server/matcher/matcher.go:71-82 | an instruction panics exactly on a kind other than BUY, SELL or CANCEL; otherwise it changes only the book of its own stock, which it creates if missing |
| Matching.CrossBuyLeavesSorted | server/matcher/matcher.go:95-132 | what a buy's crossing leaves of a sorted sell side is sorted, and its best price is no lower than before |
| Matching.CrossSellLeavesSorted | server/matcher/matcher.go:197-235 | what a sell's crossing leaves of a sorted buy side is sorted, and its best price is no higher than before |
| Matching.DeleteKeepsSorted | server/matcher/matcher.go:239 | cancelling one order keeps its side sorted and its best price no better |
| Matching.BuyKeepsOrderly | server/matcher/matcher.go:88-93 | addBuy keeps a book orderly: both sides in price priority and the best buy below the best sell |
| Matching.SellKeepsOrderly | server/matcher/matcher.go:190-195 | addSell keeps a book orderly |
| Matching.CancelKeepsOrderly | server/matcher/matcher.go:237-247 | cancel keeps a book orderly |
| Matching.StepKeepsBooksOrderly | server/matcher/matcher.go:71-82 | every instruction keeps every book orderly |
| Matching.CancelTwice | server/matcher/matcher.go:237-247 | cancelling an identity that rests once reports it, and cancelling it again answers NOT_CANCELLED and leaves the books as they were |
| Matching.ScenarioEqualQuantities | server/matcher/matcher.go:222-229 | a resting buy of 10 at 100 and an incoming sell of 10 at 100 trade 10 at 100, the buyer is told PARTIAL and the seller FULL, and the book is left empty |
| Matching.ScenarioPartialFill | server/matcher/matcher.go:204-211 | a resting buy of 10 at 105 and an incoming sell of 4 at 100 trade 4 at 102, and 6 of the buy stay resting |
| Matching.ScenarioCancelMissing | server/matcher/matcher.go:290-300 | a cancel for an order that does not rest is answered NOT_CANCELLED and the stock gets an empty book |
| Pqueue.OrderNode.constructor | server/matcher/pqueue/order.go:8-15 | a new node is zeroed and linked nowhere |
| Pqueue.OrderNode.CopyFrom | server/matcher/pqueue/order.go:17-22 | the node holds the order's price, quantity, stock and kind, and its Uuid and TradeId read back the order's ids; it is linked nowhere |
| Pqueue.OrderNode.Setup | server/matcher/pqueue/order.go:33-36 | the price and identity entries get their values, unlinked, and nothing else changes |
| Pqueue.OrderNode.CopyTo | server/matcher/pqueue/order.go:24-31 | the message CopyTo fills gives this node's contents back under CopyFrom |
| Pqueue.OrderNode.ReduceQuantity | server/matcher/pqueue/order.go:58-60 | the quantity drops by the amount with 64-bit wrap-around, exactly when the amount is at most the quantity |
| Pqueue.OrderNode.Remove | server/matcher/pqueue/order.go:70-73 | the node leaves both sides of its book, which stays valid, and ends up linked nowhere; an unlinked node is left as it is |
| Pqueue.Without | server/matcher/pqueue/order.go:70-73 | popping a node leaves a side without it and without new nodes, and a side that did not hold it unchanged |
| Pqueue.WithoutAt | server/matcher/pqueue/order.go:70-73 | on a side holding each node once, popping a node is deleting it at its index |
| Pqueue.WithoutKeepsDistinct | server/matcher/pqueue/order.go:70-73 | popping a node keeps every remaining node on the side once |
| Pqueue.MatchQueues.constructor | server/matcher/matcher.go:142 | `&MatchQueues{}` is an empty book |
| Pqueue.MatchQueues.PushBuy | server/matcher/matcher.go:91 | a rested buy is linked into the book at its price-time position, and the contents become the value-level insertion |
| Pqueue.MatchQueues.PushSell | server/matcher/matcher.go:193 | a rested sell is linked at its price-time position, and the contents become the value-level insertion |
| Pqueue.MatchQueues.Link | server/matcher/matcher.go:91 | an unlinked node is pointed at the book without changing the book's contents |
| Pqueue.MatchQueues.SpliceBuy | server/matcher/matcher.go:91 | splicing a linked buy at its position keeps the book valid and gives the value-level insertion |
| Pqueue.MatchQueues.SpliceSell | server/matcher/matcher.go:193 | splicing a linked sell at its position keeps the book valid and gives the value-level insertion |
| Pqueue.MatchQueues.Unlink | server/matcher/pqueue/order.go:71-72 | the two pops take the node out of both sides and keep the book valid |
| Pqueue.MatchQueues.Cancel | server/matcher/matcher.go:239 | the book's contents become the value-level cancel; the node returned is the one removed, now unlinked, or null exactly when none rested |
| Pqueue.MatchQueues.Kept | server/matcher/matcher.go:106 | a book none of whose nodes changed stays valid and keeps its contents |
| Pqueue.MatchQueues.BestBuyUpdated | server/matcher/matcher.go:207 | changing the best buy in place changes only the head of the buy side's contents |
| Pqueue.MatchQueues.BestSellUpdated | server/matcher/matcher.go:114 | changing the best sell in place changes only the head of the sell side's contents |
| Pqueue.MatchQueues.TakeBuy | server/matcher/matcher.go:239 | removing the i-th resting buy deletes its contents at i and unlinks it |
| Pqueue.MatchQueues.TakeSell | server/matcher/matcher.go:239 | removing the i-th resting sell deletes its contents at i and unlinks it |
| Pqueue.InsertNode | server/matcher/matcher.go:91 | splicing a new node into a side keeps each node on it once, and its contents are spliced in at the same place |
| Pqueue.DeleteNode | server/matcher/matcher.go:239 | deleting the i-th node keeps each node on the side once, leaves that node out and deletes its contents from the view |
| Pqueue.Slab.constructor | server/matcher/matcher.go:31 | `NewSlab(size)` puts `size` new unlinked nodes on the free list |
| Pqueue.Slab.Malloc | server/matcher/matcher.go:71 | Malloc hands out the head of the free list, or a new node when it is empty; the node is unlinked and no longer free |
| Pqueue.Slab.Free | server/matcher/matcher.go:106 | Free pushes an unlinked node that is not free onto the free list |
| Matcher.ReduceBestSell | server/matcher/matcher.go:114 | reducing the best resting sell in place keeps its book valid and changes only that sell's quantity |
| Matcher.ReduceBestBuy | server/matcher/matcher.go:207 | reducing the best resting buy in place keeps its book valid and changes only that buy's quantity |
| Matcher.TradeMatcher.constructor | server/matcher/matcher.go:28-36 | NewMatcher starts with no books and a valid slab; the registered trader ids are given, as the corrected registry holds them |
| Registry.NewSessionsAsWritten | server/matcher/matcher.go:28-36 | the struct literal leaves `sessions` nil, and a lookup in it finds no one |
| Registry.NewSessions | server/matcher/matcher.go:28-36 | the intended NewMatcher makes `sessions` empty |
| Registry.AddToSessions | server/matcher/matcher.go:148-171 | a connection panics exactly when the map is nil; otherwise the next trader id is registered and the id goes up by one, wrapping as a uint32 |
| Registry.FirstConnectionPanics | server/matcher/matcher.go:28-36 | as written, the first accepted connection, and so any run of connections, panics on the nil map |
| Registry.AsWrittenTellsNoOne | server/matcher/matcher.go:249-276 | as written, no party of any trade is told, since the nil map holds no session |
| Registry.ConnectionsRegistered | server/matcher/matcher.go:148-171 | with the map made, after ids 0 .. k - 1 are registered, n more connections register ids k .. k + n - 1 and leave the next id at k + n, or 0 once it wraps |
| Registry.ConnectedFromStart | server/matcher/matcher.go:148-171 | with the map made, n connections from the start register trader ids 0 .. n - 1 |
| Registry.ConnectedBuyerIsTold | server/matcher/matcher.go:249-261 | with the map made, a trader just registered is told of a trade it buys in |
| Matcher.TradeMatcher.OtherBooksKept | server/matcher/matcher.go:88-93 | when only one stock's book and its nodes change, every other book stays valid and keeps its contents |
| Matcher.TradeMatcher.LiveSplit | server/matcher/matcher.go:17-25 | the nodes the engine holds are the resting nodes of the other books plus the nodes of one stock's book and the free list |
| Matcher.TradeMatcher.FreeApartFromResting | server/matcher/matcher.go:105-106 | under the invariant no node is both on the free list and resting in a book |
| Matcher.PooledCancel | server/matcher/matcher.go:237-247 | freeing the removed node and the request after taking the removed node out of the book leaves the book's nodes and the free list together with the request node added |
| Matcher.TradeMatcher.Process | server/matcher/matcher.go:71-82 | process panics exactly on an unknown kind; otherwise it keeps the invariant, changes the books and sends the notifications exactly as the value-level Step, and the node it takes from the slab (fresh or from the free list) is held by the engine afterwards, free or resting, beside every node it held before |
| Matcher.TradeMatcher.Take | server/matcher/matcher.go:71-72 | the node taken from the slab holds the order's contents, is unlinked and not free, and no book changes; the engine holds every node it held before except that one |
| Matcher.TradeMatcher.BooksKept | server/matcher/matcher.go:71-72 | when no book and no resting node changed, the invariant holds again and the market is the same |
| Matcher.TradeMatcher.GetMatchQueues | server/matcher/matcher.go:139-146 | the stock's book is returned, created empty and registered when missing; the market gains at most that empty book |
| Matcher.TradeMatcher.NewBook | server/matcher/matcher.go:141-144 | a new empty book is registered under a stock not seen before, keeping the invariant |
| Matcher.TradeMatcher.BookAdded | server/matcher/matcher.go:141-144 | registering a new empty book keeps the invariant and adds an empty book to the market |
| Matcher.TradeMatcher.BooksKeptBesideNew | server/matcher/matcher.go:141-144 | the books there were before a new one is registered stay valid and keep their contents |
| Matcher.TradeMatcher.AddBuy | server/matcher/matcher.go:88-93 | addBuy keeps the invariant and leaves the market and the notifications exactly as the value-level BuyStep; the nodes the engine holds gain exactly the incoming buy, which ends up free or resting |
| Matcher.TradeMatcher.AddBuyAt | server/matcher/matcher.go:88-93 | addBuy in an existing book changes only that book, as BuyStep does, and the nodes the engine holds gain exactly the incoming buy |
| Matcher.TradeMatcher.AddBuyBook | server/matcher/matcher.go:88-93 | addBuy seen book by book: the other books keep their contents and nodes, this book and the free list together gain the buy, and the market and the notifications are those of BuyStep |
| Matcher.TradeMatcher.AddBuyTo | server/matcher/matcher.go:90-92 | the book's new contents are what the crossing leaves of the sells, with what is left of the buy rested by price-time priority; the book's nodes and the free list together gain exactly the buy |
| Matcher.TradeMatcher.RestBuy | server/matcher/matcher.go:90-92 | a buy left over by the crossing is pushed into its book by price-time priority; the free list is unchanged and the book gains just that node |
| Matcher.TradeMatcher.AddSell | server/matcher/matcher.go:190-195 | addSell keeps the invariant and leaves the market and the notifications exactly as SellStep; the nodes the engine holds gain exactly the incoming sell |
| Matcher.TradeMatcher.AddSellAt | server/matcher/matcher.go:190-195 | addSell in an existing book changes only that book, as SellStep does, and the nodes the engine holds gain exactly the incoming sell |
| Matcher.TradeMatcher.AddSellBook | server/matcher/matcher.go:190-195 | addSell seen book by book: the other books keep their contents and nodes, this book and the free list together gain the sell, and the market and the notifications are those of SellStep |
| Matcher.TradeMatcher.AddSellTo | server/matcher/matcher.go:192-194 | the book's new contents are what the crossing leaves of the buys, with what is left of the sell rested; the book's nodes and the free list together gain exactly the sell |
| Matcher.TradeMatcher.RestSell | server/matcher/matcher.go:192-194 | a sell left over by the crossing is pushed into its book by price-time priority; the free list is unchanged and the book gains just that node |
| Matcher.TradeMatcher.FillableBuy | server/matcher/matcher.go:95-132 | the loop returns true exactly when the value-level crossing consumes the buy; the sells it uses up are the front of the sell side and go onto the free list, each in front of the one before, followed by the buy when it is used up, so the book and the free list together gain the buy and lose nothing; the sell side and the notifications are those of CrossBuy, and a resting buy holds what is left |
| Matcher.TradeMatcher.FillBuyOnce | server/matcher/matcher.go:97-130 | one pass either ends the crossing as CrossBuy does, or uses up the best sell, frees it and keeps the rest of the crossing ahead; the free list is the used-up sells pushed in order, plus the buy in front when it is used up |
| Matcher.TradeMatcher.CrossBestSell | server/matcher/matcher.go:101-127 | a buy priced at or above the best sell trades by the three quantity cases: the crossing ends as CrossBuy does or goes on with the best sell used up; the free list gains the used-up sell and then the buy, in the order the code frees them |
| Matcher.TradeMatcher.IncomingBuyOutlasts | server/matcher/matcher.go:102-109 | the best sell is unlinked and freed, the buy is reduced by its quantity, and both parties are told the trade |
| Matcher.TradeMatcher.IncomingBuyUsedUp | server/matcher/matcher.go:111-117 | the best sell is reduced in place by the buy's quantity, the buy is freed, and both parties are told |
| Matcher.TradeMatcher.IncomingBuyMatched | server/matcher/matcher.go:119-126 | equal quantities: both parties are told, the best sell is unlinked and freed, and the buy is freed |
| Matcher.TradeMatcher.RetireBestSell | server/matcher/matcher.go:105-106 | the best sell leaves its book, which stays valid, and goes onto the free list |
| Matcher.TradeMatcher.RetireBestBuy | server/matcher/matcher.go:218-219 | the best buy leaves its book, which stays valid, and goes onto the free list |
| Matcher.TradeMatcher.FillableSell | server/matcher/matcher.go:197-235 | the loop returns true exactly when the value-level crossing consumes the sell; the buys it uses up are the front of the buy side and go onto the free list, each in front of the one before, followed by the sell when it is used up; the buy side and the notifications are those of CrossSell, and a resting sell holds what is left |
| Matcher.TradeMatcher.FillSellOnce | server/matcher/matcher.go:199-233 | one pass either ends the crossing as CrossSell does, or uses up the best buy, frees it and keeps the rest of the crossing ahead; the free list is the used-up buys pushed in order, plus the sell in front when it is used up |
| Matcher.TradeMatcher.CrossBestBuy | server/matcher/matcher.go:203-230 | a sell priced at or below the best buy trades by the three quantity cases: the crossing ends as CrossSell does or goes on with the best buy used up; the free list gains the used-up buy and then the sell, in the order the code frees them |
| Matcher.TradeMatcher.IncomingSellUsedUp | server/matcher/matcher.go:204-211 | the best buy is reduced in place by the sell's quantity, both parties are told, and the sell is freed |
| Matcher.TradeMatcher.ReleaseUnlinked | server/matcher/matcher.go:209-210 | Remove on the unlinked incoming sell changes nothing, and the node goes onto the free list |
| Matcher.TradeMatcher.IncomingSellOutlasts | server/matcher/matcher.go:213-220 | the sell is reduced by the best buy's quantity, both parties are told, and the best buy is unlinked and freed |
| Matcher.TradeMatcher.IncomingSellMatched | server/matcher/matcher.go:222-229 | equal quantities: both parties are told, the best buy is unlinked and freed, and the sell is freed |
| Matcher.TradeMatcher.Cancel | server/matcher/matcher.go:237-247 | cancel keeps the invariant and leaves the market and the notifications exactly as the value-level CancelStep; the nodes the engine holds gain exactly the request node |
| Matcher.TradeMatcher.CancelAt | server/matcher/matcher.go:238-246 | cancel in an existing book changes only that book, as CancelIn does, and the nodes the engine holds gain exactly the request node |
| Matcher.TradeMatcher.CancelBook | server/matcher/matcher.go:238-246 | cancel seen book by book: the other books keep their contents and nodes, this book and the free list together gain the request node, and the market and the answer are those of CancelIn |
| Matcher.TradeMatcher.CancelFrom | server/matcher/matcher.go:239-246 | the book's contents become the value-level cancel and the answer is CancelNotes for what was removed; the book's nodes and the free list together gain exactly the request node |
| Matcher.TradeMatcher.RemoveFromBook | server/matcher/matcher.go:239 | the node with the request's guid leaves the book unlinked, null exactly when none rests, and is neither the request nor free; the book's nodes lose exactly that node |
| Matcher.TradeMatcher.Answer | server/matcher/matcher.go:240-246 | the removed order's owner is told CANCEL and the removed node is freed, or the requester is told NOT_CANCELLED; then the request node is freed, so the free list gains exactly those nodes, the request in front |
| Matcher.TradeMatcher.CompleteTrade | server/matcher/matcher.go:249-276 | the notifications are the value-level TradeNotes of the fill |
| Matcher.TradeMatcher.CompleteCancelled | server/matcher/matcher.go:278-288 | the notification is CancelNotes for a removed order |
| Matcher.TradeMatcher.CompleteNotCancelled | server/matcher/matcher.go:290-300 | the notification is CancelNotes when nothing was removed |

## Left out

- Sockets, goroutines, channels and the read-write mutex (`Start`, the socket half of `addToSessions`, and the session's `Start`, `Stop` and `Send`) are not modelled. The registry half of `addToSessions` (the `sessions` map and the trader id counter) is modelled on values in `Registry`. The matcher is given the registered trader ids as a set, as the corrected registry holds them (see Findings); notifications are returned as a sequence instead of being queued on a session's channel.
- `UnPack` and protobuf marshalling are not modelled. `Process` takes the decoded order message, and the ignored unmarshal error is not modelled either.
- Logging (`fmt.Println`, `log.Println`) has no effect on the state and is left out.
- `getSessionIdentity` (SHA-1 of the peer address) is not called by the core and is left out.
- Session.Pack: the clock reading `time.Now().Unix()` is a parameter.
- The book (`MatchQueues`), its intrusive index nodes (`node`, `initNode`, `pop`) and `Slab` are not part of this model's source. They are given the behaviour the engine relies on:
  - each side is a sequence of nodes, best first, in price-time priority;
  - cancel looks the guid up on the buy side, then on the sell side;
  - the slab is a free list.

  The node's `nextFree` link is represented by that list.
- The fmath library is not part of this model's source. `CombineInt32`, `HighInt32` and `LowInt32` are defined on unsigned bit patterns.
- Pqueue.MatchQueues.Valid: price-time order is not part of the heap-level invariant. It is proved of the value-level contents the heap is shown to hold (`StepKeepsBooksOrderly`).
- Pqueue.Slab.Free: requires an unlinked node that is not already free. The unseen slab does not check this; every call the engine makes satisfies it.
- Matcher.TradeMatcher.Process: says nothing of the state after the panic on an unknown kind, because the processing goroutine dies there.
- The packet helpers `GetTag`, `String`, `Int32`, `Float32` and `String` are left out, as are the generated protobuf code, the client agent and `main.go`: none of them is part of the matching core.

## Findings

| source | as written | input that shows it | evidently intended | confidence | as-written member | corrected member |
|---|---|---|---|---|---|---|
| server/matcher/session.go:76 | `data[4]` is read before the length of `data` is checked | three bytes `[2, 0, 0]` with more input to come: index out of range, and the reading goroutine panics | ask for more input until the header is there | not executed | Session.ShortBufferPanics | Session.PacketSlit |
| server/matcher/session.go:78-87 | the header offsets are summed in 32-bit arithmetic that wraps | a header with tag length 0xFFFFFFF2: the offset wraps to 0, the version-length word is read as the payload length, and a 6-byte token is cut out of the header | add lengths without wrapping and cut only a whole frame | not executed | Session.WrappedTagLenCutsHeader | Session.SplitFindsFrame |
| server/matcher/session.go:78-82 | the payload-length word is sliced before it is known to have arrived | a 10-byte header announcing a tag of 0x1000 bytes: slice bounds out of range, and a panic | wait until the whole header has arrived | not executed | Session.LongTagLenPanics | Session.PacketSlit |
| server/matcher/matcher.go:28-36 | NewMatcher makes the books map but never makes `sessions`, and addToSessions stores into it at matcher.go:165 | the first connection the server accepts: assignment to an entry of a nil map, and the accepting loop panics; no session is ever registered, and every lookup finds no one | make `sessions` beside the books map, so that the k-th connection is registered as trader k - 1 and is told of its trades | not executed | Registry.FirstConnectionPanics | Registry.ConnectedFromStart |
