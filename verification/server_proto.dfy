/** The server's wire package: message kind codes, payload tags and the Packet
    envelope with its step-by-step Pack and Unpack. */
module ServerProto {
  import opened Ints
  import opened Binary
  import opened Envelope

  /** Order kinds, numbered from 0 in declaration order. */
  const BUY: i32 := 0
  const SELL: i32 := 1
  const CANCEL: i32 := 2
  const NOT_CANCELLED: i32 := 3
  const PARTIAL: i32 := 4
  const FULL: i32 := 5

  /** Payload tags: the session handshake, a fill, a cancel, a failed cancel. */
  const Tag1000: string := "t_1000"
  const Tag1001: string := "t_1001"
  const Tag1002: string := "t_1002"
  const Tag1003: string := "t_1003"

  /** The order message carried in a packet's payload (generated from the
      protobuf schema): who, which trade, which stock, what kind, how many and
      at what price. */
  datatype Order = Order(uuid: u32, tradeId: u32, stockId: u64, kind: i32, quantity: u64, price: u64)

  class Packet {
    var versionLen: u32
    var version: seq<byte>
    var tagLen: u32
    var tag: seq<byte>
    var timestamp: u32
    var dataLen: u32
    var data: seq<byte>

    /** `new(Packet)`: every field zero or empty. */
    constructor ()
      ensures Value() == Fields(0, [], 0, [], 0, 0, [])
    {
      versionLen, version, tagLen, tag := 0, [], 0, [];
      timestamp, dataLen, data := 0, 0, [];
    }

    function Value(): Fields
      reads this
    {
      Fields(versionLen, version, tagLen, tag, timestamp, dataLen, data)
    }

    /** Writes the seven fields in wire order; each write's error replaces the
        previous one, so only the payload write's error comes back. */
    method Pack(writer: Writer) returns (w: Writer, err: GoError)
      ensures Written(w, err) == Emit(writer, Value())
      ensures var n := Min(|Encode(Value())|, writer.room);
              w == Writer(writer.written + Encode(Value())[..n], writer.room - n)
      ensures err == Nil <==> |data| == 0 || |Encode(Value())| <= writer.room
    {
      var s := Write(writer, LE32(versionLen));
      w, err := s.w, s.err;
      s := Write(w, version);
      w, err := s.w, s.err;
      s := Write(w, LE32(tagLen));
      w, err := s.w, s.err;
      s := Write(w, tag);
      w, err := s.w, s.err;
      s := Write(w, LE32(timestamp));
      w, err := s.w, s.err;
      s := Write(w, LE32(dataLen));
      w, err := s.w, s.err;
      s := Write(w, data);
      w, err := s.w, s.err;
      EmitUnrolled(writer, Value());
      EmitWritesPrefix(writer, Value());
      EmitErrorIsLastWrite(writer, Value());
    }

    /** Reads the seven fields in wire order into this packet, sizing each
        byte slice from the length just read; each read's error replaces the
        previous one. */
    method Unpack(reader: seq<byte>) returns (rest: seq<byte>, err: GoError)
      modifies this
      ensures Decoded(Value(), rest, err) == Decode(old(Value()), reader)
      ensures |version| == versionLen && |tag| == tagLen && |data| == dataLen
    {
      var n := ReadU32(reader, versionLen);
      versionLen, rest, err := n.value, n.rest, n.err;
      version := Zeros(versionLen);
      var b := ReadBytes(rest, |version|);
      version, rest, err := b.value, b.rest, b.err;
      n := ReadU32(rest, tagLen);
      tagLen, rest, err := n.value, n.rest, n.err;
      tag := Zeros(tagLen);
      b := ReadBytes(rest, |tag|);
      tag, rest, err := b.value, b.rest, b.err;
      n := ReadU32(rest, timestamp);
      timestamp, rest, err := n.value, n.rest, n.err;
      n := ReadU32(rest, dataLen);
      dataLen, rest, err := n.value, n.rest, n.err;
      data := Zeros(dataLen);
      b := ReadBytes(rest, |data|);
      data, rest, err := b.value, b.rest, b.err;
    }
  }
}
