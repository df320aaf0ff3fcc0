/** The client's copy of the wire package. The Packet envelope is the same as
    the server's; the kind codes start with NONE, so each shared kind is one
    higher than the server's code for it. */
module ClientProto {
  import opened Ints
  import opened Binary
  import opened Envelope
  import ServerProto

  const NONE: i32 := 0
  const BUY: i32 := 1
  const SELL: i32 := 2
  const CANCEL: i32 := 3
  const NOT_CANCELLED: i32 := 4
  const PARTIAL: i32 := 5
  const FULL: i32 := 6
  const LIST: i32 := 7

  /** Payload tags the client sends: the handshake, a buy, a sell, a cancel,
      and a failed cancel. */
  const TraderID: string := "t_1000"
  const Buy: string := "t_1001"
  const Sell: string := "t_1002"
  const Cancel: string := "t_1003"
  const NotCancelled: string := "t_1004"

  /** The client's code for each shared kind is the server's plus one, so the
      server reads a client BUY as SELL, a client SELL as CANCEL and a client
      CANCEL as NOT_CANCELLED. */
  lemma KindCodesShifted()
    ensures BUY == ServerProto.BUY + 1 && SELL == ServerProto.SELL + 1
    ensures CANCEL == ServerProto.CANCEL + 1 && NOT_CANCELLED == ServerProto.NOT_CANCELLED + 1
    ensures PARTIAL == ServerProto.PARTIAL + 1 && FULL == ServerProto.FULL + 1
    ensures BUY == ServerProto.SELL && SELL == ServerProto.CANCEL && CANCEL == ServerProto.NOT_CANCELLED
  {
  }

  class Packet {
    var versionLen: u32
    var version: seq<byte>
    var tagLen: u32
    var tag: seq<byte>
    var timestamp: u32
    var dataLen: u32
    var data: seq<byte>

    /** `new(Packet)`: every field zero or empty. */
    constructor ()
      ensures Value() == Fields(0, [], 0, [], 0, 0, [])
    {
      versionLen, version, tagLen, tag := 0, [], 0, [];
      timestamp, dataLen, data := 0, 0, [];
    }

    function Value(): Fields
      reads this
    {
      Fields(versionLen, version, tagLen, tag, timestamp, dataLen, data)
    }

    /** Writes the seven fields in wire order; each write's error replaces the
        previous one, so only the payload write's error comes back. */
    method Pack(writer: Writer) returns (w: Writer, err: GoError)
      ensures Written(w, err) == Emit(writer, Value())
      ensures var n := Min(|Encode(Value())|, writer.room);
              w == Writer(writer.written + Encode(Value())[..n], writer.room - n)
      ensures err == Nil <==> |data| == 0 || |Encode(Value())| <= writer.room
    {
      var s := Write(writer, LE32(versionLen));
      w, err := s.w, s.err;
      s := Write(w, version);
      w, err := s.w, s.err;
      s := Write(w, LE32(tagLen));
      w, err := s.w, s.err;
      s := Write(w, tag);
      w, err := s.w, s.err;
      s := Write(w, LE32(timestamp));
      w, err := s.w, s.err;
      s := Write(w, LE32(dataLen));
      w, err := s.w, s.err;
      s := Write(w, data);
      w, err := s.w, s.err;
      EmitUnrolled(writer, Value());
      EmitWritesPrefix(writer, Value());
      EmitErrorIsLastWrite(writer, Value());
    }

    /** Reads the seven fields in wire order into this packet, sizing each
        byte slice from the length just read; each read's error replaces the
        previous one. */
    method Unpack(reader: seq<byte>) returns (rest: seq<byte>, err: GoError)
      modifies this
      ensures Decoded(Value(), rest, err) == Decode(old(Value()), reader)
      ensures |version| == versionLen && |tag| == tagLen && |data| == dataLen
    {
      var n := ReadU32(reader, versionLen);
      versionLen, rest, err := n.value, n.rest, n.err;
      version := Zeros(versionLen);
      var b := ReadBytes(rest, |version|);
      version, rest, err := b.value, b.rest, b.err;
      n := ReadU32(rest, tagLen);
      tagLen, rest, err := n.value, n.rest, n.err;
      tag := Zeros(tagLen);
      b := ReadBytes(rest, |tag|);
      tag, rest, err := b.value, b.rest, b.err;
      n := ReadU32(rest, timestamp);
      timestamp, rest, err := n.value, n.rest, n.err;
      n := ReadU32(rest, dataLen);
      dataLen, rest, err := n.value, n.rest, n.err;
      data := Zeros(dataLen);
      b := ReadBytes(rest, |data|);
      data, rest, err := b.value, b.rest, b.err;
    }
  }
}
