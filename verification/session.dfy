/** A client session's framing: the bufio split function that cuts one packet
    out of the bytes read so far, and the packing of an outgoing message. */
module Session {
  import opened Ints
  import opened Binary
  import opened Envelope
  import ServerProto

  /** The byte 'V' that opens the version field of every frame. */
  const VersionMark: byte := 0x56

  /** What a split function tells the scanner: cut `advance` bytes and hand
      out `token`, or ask for more input (advance 0, no token, no error), or
      crash the reading goroutine with an index or slice out of range. */
  datatype Split = Token(advance: nat, token: seq<byte>) | NeedMore | Panic

  /** packetSlit as written. `data` is the slice the scanner passes; `spare`
      stands for the bytes of its backing array past `len(data)`, which a
      slice expression may reach up to `cap(data)`. The header is read with
      32-bit unsigned arithmetic that wraps, and the version field is assumed
      to be two bytes long. */
  function PacketSlitAsWritten(data: seq<byte>, spare: seq<byte>, atEOF: bool): (r: Split)
    ensures r.Token? ==> r.advance <= |data| && r.token == data[..r.advance]
  {
    if atEOF then NeedMore
    else if |data| <= 4 then Panic
    else if data[4] != VersionMark then NeedMore
    else
      var full := data + spare;
      if |full| < 10 then Panic
      else
        var tagLen := Uint32(full[6..10]);
        var headerLen := U32Add(U32Add(10, tagLen), 4);
        var offset := U32Add(headerLen, 4);
        if !(headerLen <= offset <= |full|) then Panic
        else
          assert offset == headerLen + 4;
          var realLen := Uint32(full[headerLen..offset]);
          var headerLen' := U32Add(headerLen, 4);
          if U32(|data|) > realLen then
            var calSum := U32Add(realLen, headerLen');
            if calSum <= |data| then Token(calSum, data[..calSum]) else NeedMore
          else NeedMore
  }

  /** The tag length a frame at the head of `data` announces. */
  function TagLenAt(data: seq<byte>): u32
    requires |data| >= 10
  {
    Uint32(data[6..10])
  }

  /** The payload length a frame at the head of `data` announces. */
  function DataLenAt(data: seq<byte>): u32
    requires |data| >= 10 && |data| >= 18 + TagLenAt(data)
  {
    Uint32(data[14 + TagLenAt(data)..18 + TagLenAt(data)])
  }

  /** packetSlit as evidently intended: the header is read only once it is
      all there, lengths are added without wrapping, and a frame is cut only
      when every byte of it has arrived. */
  function PacketSlit(data: seq<byte>, atEOF: bool): (r: Split)
    ensures r != Panic
    ensures r.Token? <==>
      !atEOF && |data| >= 10 && data[4] == VersionMark && 18 + TagLenAt(data) <= |data|
      && 18 + TagLenAt(data) + DataLenAt(data) <= |data|
    ensures r.Token? ==>
      r.advance == 18 + TagLenAt(data) + DataLenAt(data) && r.token == data[..r.advance]
  {
    if atEOF || |data| < 10 || data[4] != VersionMark then NeedMore
    else
      var tagLen := Uint32(data[6..10]);
      if |data| < 18 + tagLen then NeedMore
      else
        var realLen := Uint32(data[14 + tagLen..18 + tagLen]);
        if 18 + tagLen + realLen <= |data| then
          Token(18 + tagLen + realLen, data[..18 + tagLen + realLen])
        else NeedMore
  }

  /** The packet Session.Pack builds: version "V1", a tag length of 6 whatever
      the tag, the timestamp given and the payload's length cut to 32 bits. */
  function Frame(data: seq<byte>, tag: seq<byte>, timestamp: u32): (f: Fields)
    ensures |data| < TWO_32 && |tag| == 6 ==> Consistent(f)
  {
    Fields(2, [VersionMark, 0x31], 6, tag, timestamp, U32(|data|), data)
  }

  /** Session.Pack: fills a fresh packet and packs it into a growing buffer,
      whose bytes come back. `tag` is the bytes of the tag string and
      `timestamp` stands for the clock's reading in Unix seconds. */
  method Pack(data: seq<byte>, tag: seq<byte>, timestamp: u32) returns (s: seq<byte>)
    ensures s == Encode(Frame(data, tag, timestamp))
  {
    var resPack := new ServerProto.Packet();
    resPack.versionLen := 2;
    resPack.version := [VersionMark, 0x31];
    resPack.tagLen := 6;
    resPack.tag := tag;
    resPack.timestamp := timestamp;
    resPack.dataLen := U32(|data|);
    resPack.data := data;
    var n := 16 + |resPack.version| + |tag| + |data|;
    var w, _ := resPack.Pack(Writer([], n));
    s := w.written;
  }

  /** The intended split cuts exactly one packed frame off the front of the
      input, whatever follows it. */
  lemma SplitFindsFrame(f: Fields, rest: seq<byte>)
    requires Consistent(f) && f.versionLen == 2 && f.version[0] == VersionMark
    ensures PacketSlit(Encode(f) + rest, false) == Token(|Encode(f)|, Encode(f))
  {
    var e := Encode(f) + rest;
    var t := |f.tag|;
    assert e[6..10] == LE32(f.tagLen);
    Uint32OfLE32(f.tagLen);
    assert e[14 + t..18 + t] == LE32(f.dataLen);
    Uint32OfLE32(f.dataLen);
    assert e[..|Encode(f)|] == Encode(f);
  }

  /** What Session.Pack sends is cut back out as one frame, and unpacking
      that frame gives back the packet that was packed, with no error. */
  lemma PackedFrameRoundTrip(data: seq<byte>, tag: seq<byte>, timestamp: u32, rest: seq<byte>, prior: Fields)
    requires |data| < TWO_32 && |tag| == 6
    ensures var e := Encode(Frame(data, tag, timestamp));
            PacketSlit(e + rest, false) == Token(|e|, e)
            && Decode(prior, e) == Decoded(Frame(data, tag, timestamp), [], Nil)
  {
    var f := Frame(data, tag, timestamp);
    SplitFindsFrame(f, rest);
    DecodeEncode(prior, f, []);
    assert Encode(f) + [] == Encode(f);
  }

  /** A short buffer: fewer than five bytes with more input to come crash the
      as-written split on data[4]; the intended split waits for more. */
  lemma ShortBufferPanics()
    ensures PacketSlitAsWritten([2, 0, 0], [], false) == Panic
    ensures PacketSlit([2, 0, 0], false) == NeedMore
  {
  }

  /** A tag length of 0xFFFFFFF2 wraps the header arithmetic to zero: the
      as-written split reads the version length as the payload length and
      cuts a 6-byte token out of a header, where the intended split waits. */
  lemma WrappedTagLenCutsHeader()
    ensures var data := [2, 0, 0, 0, VersionMark, 0x31, 0xF2, 0xFF, 0xFF, 0xFF];
            PacketSlitAsWritten(data, [], false) == Token(6, data[..6])
            && PacketSlit(data, false) == NeedMore
  {
    var data: seq<byte> := [2, 0, 0, 0, VersionMark, 0x31, 0xF2, 0xFF, 0xFF, 0xFF];
    assert data + [] == data;
    assert Uint32(data[6..10]) == 0xFFFF_FFF2;
    assert U32Add(U32Add(10, 0xFFFF_FFF2), 4) == 0;
    assert U32Add(0, 4) == 4;
    assert Uint32(data[0..4]) == 2;
    assert U32Add(2, 4) == 6;
  }

  /** A header announcing a tag longer than the buffer's capacity crashes the
      as-written split on a slice out of range; the intended split waits. */
  lemma LongTagLenPanics()
    ensures var data := [2, 0, 0, 0, VersionMark, 0x31, 0x00, 0x10, 0x00, 0x00];
            PacketSlitAsWritten(data, [], false) == Panic
            && PacketSlit(data, false) == NeedMore
  {
    var data: seq<byte> := [2, 0, 0, 0, VersionMark, 0x31, 0x00, 0x10, 0x00, 0x00];
    assert Uint32(data[6..10]) == 0x1000;
  }

  /** Go's uint32 addition when the sum stays below 2^32. */
  lemma U32AddExact(a: u32, b: u32)
    requires a + b < TWO_32
    ensures U32Add(a, b) == a + b
  {
  }

  /** The as-written split with the header arithmetic shown not to wrap. */
  lemma AsWrittenWithoutWrap(data: seq<byte>, spare: seq<byte>)
    requires |data| > 4 && data[4] == VersionMark && |data + spare| >= 10
    requires |data| + |spare| < 0x8000_0000
    requires Uint32((data + spare)[6..10]) < 0x8000_0000
    ensures var full := data + spare;
            var tagLen := Uint32(full[6..10]);
            |full| < 18 + tagLen ==> PacketSlitAsWritten(data, spare, false) == Panic
    ensures var full := data + spare;
            var tagLen := Uint32(full[6..10]);
            18 + tagLen <= |full| ==>
              var realLen := Uint32(full[14 + tagLen..18 + tagLen]);
              PacketSlitAsWritten(data, spare, false) ==
                if |data| > realLen && realLen + 18 + tagLen <= |data|
                then Token(realLen + 18 + tagLen, data[..realLen + 18 + tagLen])
                else NeedMore
  {
    var full := data + spare;
    var tagLen := Uint32(full[6..10]);
    U32AddExact(10, tagLen);
    U32AddExact(10 + tagLen, 4);
    U32AddExact(14 + tagLen, 4);
    assert U32(|data|) == |data|;
    if 18 + tagLen <= |full| {
      var realLen := Uint32(full[14 + tagLen..18 + tagLen]);
      if |data| > realLen {
        U32AddExact(realLen, 18 + tagLen);
      }
    }
  }

  /** Away from those three cases the two splits agree: when the as-written
      one does not crash and the tag length it reads stays below 2^31 in a
      buffer shorter than 2^31 bytes, it cuts what the intended one cuts. */
  lemma AsWrittenAgrees(data: seq<byte>, spare: seq<byte>, atEOF: bool)
    requires |data| + |spare| < 0x8000_0000
    requires |data + spare| >= 10 ==> Uint32((data + spare)[6..10]) < 0x8000_0000
    requires PacketSlitAsWritten(data, spare, atEOF) != Panic
    ensures PacketSlitAsWritten(data, spare, atEOF) == PacketSlit(data, atEOF)
  {
    if !atEOF && |data| > 4 && data[4] == VersionMark {
      var full := data + spare;
      AsWrittenWithoutWrap(data, spare);
      var tagLen := Uint32(full[6..10]);
      if |data| < 10 || |data| < 18 + tagLen {
        assert PacketSlitAsWritten(data, spare, atEOF) == NeedMore;
        assert PacketSlit(data, atEOF) == NeedMore;
      } else {
        assert full[6..10] == data[6..10];
        AgreesOnWholeHeader(data, spare);
      }
    }
  }

  /** The two splits agree once the whole header is in `data`. */
  lemma AgreesOnWholeHeader(data: seq<byte>, spare: seq<byte>)
    requires |data| >= 10 && data[4] == VersionMark && |data| + |spare| < 0x8000_0000
    requires Uint32(data[6..10]) < 0x8000_0000 && 18 + Uint32(data[6..10]) <= |data|
    ensures PacketSlitAsWritten(data, spare, false) == PacketSlit(data, false)
  {
    var full := data + spare;
    var tagLen := Uint32(data[6..10]);
    assert full[6..10] == data[6..10];
    assert full[14 + tagLen..18 + tagLen] == data[14 + tagLen..18 + tagLen];
    AsWrittenWithoutWrap(data, spare);
  }
}
