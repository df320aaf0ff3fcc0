/** The matcher's session registry: the `sessions` map keyed by trader id and
    the next trader id to hand out, as `NewMatcher` sets them up and
    `addToSessions` changes them on each accepted connection. A session
    itself is a socket with goroutines and is not modelled: a registered id
    stands for its session, and the ids are what notifications are addressed
    by (`TradeMatcher.sessions`). */
module Registry {
  import opened Ints
  import opened Fmath
  import opened Matching

  /** A Go map value: nil (never made), or made and holding the ids
      registered so far. */
  datatype SessionMap = NilMap | Made(ids: set<u32>)

  /** The outcome of one or more connections: the registry afterwards, or a
      panic. */
  datatype Connect = Registered(sessions: SessionMap, next: u32) | Panic

  /** The ids a lookup `m.sessions[id]` finds: Go reads a nil map as empty. */
  function Ids(m: SessionMap): (ids: set<u32>)
    ensures m.NilMap? ==> ids == {}
  {
    if m.NilMap? then {} else m.ids
  }

  /** The ids 0, 1, ..., k - 1. */
  function Below(k: nat): set<u32>
    requires k <= TWO_32
  {
    if k == 0 then {} else Below(k - 1) + {k - 1}
  }

  /** `NewMatcher` as written: the struct literal makes the books map and
      the slab but not `sessions`, which stays nil. */
  function NewSessionsAsWritten(): (m: SessionMap)
    ensures Ids(m) == {}
  {
    NilMap
  }

  /** `NewMatcher` as evidently intended: `sessions` made empty beside the
      books map. */
  function NewSessions(): (m: SessionMap)
    ensures m.Made? && Ids(m) == {}
  {
    Made({})
  }

  /** addToSessions: the new session is stored under the next trader id and
      the id goes up by one, wrapping as a `uint32`; storing into a nil map
      panics. */
  function AddToSessions(m: SessionMap, next: u32): (r: Connect)
    ensures r.Panic? <==> m.NilMap?
    ensures r.Registered? ==> Ids(r.sessions) == Ids(m) + {next} && r.next == U32Add(next, 1)
  {
    match m
    case NilMap => Panic
    case Made(ids) => Registered(Made(ids + {next}), U32Add(next, 1))
  }

  /** `n` connections accepted one after the other by Start's loop. */
  function ConnectAll(m: SessionMap, next: u32, n: nat): Connect
    decreases n
  {
    if n == 0 then Registered(m, next)
    else
      match AddToSessions(m, next)
      case Panic => Panic
      case Registered(m', next') => ConnectAll(m', next', n - 1)
  }

  /** As written, the first connection the server accepts panics on the nil
      map, and so does every run of connections: no session is ever
      registered. */
  lemma FirstConnectionPanics(n: nat)
    requires 0 < n
    ensures AddToSessions(NewSessionsAsWritten(), 0).Panic?
    ensures ConnectAll(NewSessionsAsWritten(), 0, n) == Panic
  {
  }

  /** As written, a lookup in the never-made map finds no one, so a trade
      sends no notification to either party. */
  lemma AsWrittenTellsNoOne(partial: i32, full: i32, f: Fill)
    ensures TradeNotes(Ids(NewSessionsAsWritten()), partial, full, f) == []
  {
  }

  /** With the map made, after `k` connections the ids 0 .. k - 1 are
      registered and the next id is `k` (as a `uint32`): `n` more
      connections register the next `n` ids. */
  lemma {:induction false} ConnectionsRegistered(k: nat, n: nat)
    requires k < TWO_32 && k + n <= TWO_32
    ensures ConnectAll(Made(Below(k)), k, n) == Registered(Made(Below(k + n)), if k + n < TWO_32 then k + n else 0)
    decreases n
  {
    if 0 < n {
      var next': u32 := if k + 1 < TWO_32 then k + 1 else 0;
      assert U32Add(k, 1) == next';
      assert ConnectAll(Made(Below(k)), k, n) == ConnectAll(Made(Below(k + 1)), next', n - 1);
      if k + 1 < TWO_32 {
        ConnectionsRegistered(k + 1, n - 1);
      }
    }
  }

  /** With the map made, the `n`-th connection from the start is trader id
      `n - 1`, and every one of the first `n` traders stays registered. */
  lemma ConnectedFromStart(n: nat)
    requires n <= TWO_32
    ensures ConnectAll(NewSessions(), 0, n) == Registered(Made(Below(n)), if n < TWO_32 then n else 0)
  {
    ConnectionsRegistered(0, n);
  }

  /** With the map made, a trader that has connected is told of a trade it
      buys in. */
  lemma ConnectedBuyerIsTold(m: SessionMap, next: u32, partial: i32, full: i32, f: Fill)
    requires m.Made? && HighInt32(f.buy.guid) == next
    ensures var r := AddToSessions(m, next);
            r.Registered? && exists note <- TradeNotes(Ids(r.sessions), partial, full, f) :: note.to == next
  {
    var notes := TradeNotes(Ids(AddToSessions(m, next).sessions), partial, full, f);
    assert notes[0].to == next;
  }
}
