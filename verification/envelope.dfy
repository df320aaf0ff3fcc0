/** The binary envelope that carries every message between client and server:
    a length-prefixed version, a length-prefixed tag naming the payload's type,
    a timestamp and a length-prefixed payload, each 32-bit word little-endian.
    This module is the value-level specification of that format; the two
    `Packet` copies (ServerProto, ClientProto) write and read it step by step. */
module Envelope {
  import opened Ints
  import opened Binary

  /** The seven fields of a Packet, in wire order. */
  datatype Fields = Fields(versionLen: u32, version: seq<byte>, tagLen: u32, tag: seq<byte>,
                           timestamp: u32, dataLen: u32, data: seq<byte>)

  /** Each length field states the length of the byte slice that follows it. */
  predicate Consistent(f: Fields)
  {
    f.versionLen == |f.version| && f.tagLen == |f.tag| && f.dataLen == |f.data|
  }

  /** The bytes of a packet, in the order Pack writes them. */
  function Encode(f: Fields): (bs: seq<byte>)
    ensures |bs| == 16 + |f.version| + |f.tag| + |f.data|
  {
    LE32(f.versionLen) + f.version + LE32(f.tagLen) + f.tag + LE32(f.timestamp) + LE32(f.dataLen) + f.data
  }

  /** The seven pieces Pack writes, in order. */
  function Parts(f: Fields): seq<seq<byte>>
  {
    [LE32(f.versionLen), f.version, LE32(f.tagLen), f.tag, LE32(f.timestamp), LE32(f.dataLen), f.data]
  }

  function Concat(parts: seq<seq<byte>>): seq<byte>
  {
    if parts == [] then [] else parts[0] + Concat(parts[1..])
  }

  /** A run of binary.Write calls, each overwriting the error of the one
      before: the error returned is the last call's alone (nil if there is no
      call, as `var err error` starts nil). */
  function WriteEach(w: Writer, parts: seq<seq<byte>>): (r: Written)
    decreases |parts|
  {
    if parts == [] then Written(w, Nil)
    else if |parts| == 1 then Write(w, parts[0])
    else WriteEach(Write(w, parts[0]).w, parts[1..])
  }

  /** What Pack does to a writer. */
  function Emit(w: Writer, f: Fields): (r: Written)
  {
    WriteEach(w, Parts(f))
  }

  lemma EncodeIsConcat(f: Fields)
    ensures Encode(f) == Concat(Parts(f))
  {
    var p := Parts(f);
    assert p[..0] == [];
    ConcatPrefixStep(p, 0);
    ConcatPrefixStep(p, 1);
    ConcatPrefixStep(p, 2);
    ConcatPrefixStep(p, 3);
    ConcatPrefixStep(p, 4);
    ConcatPrefixStep(p, 5);
    ConcatPrefixStep(p, 6);
    assert p[..7] == p;
  }

  /** The concatenation of the first i + 1 pieces. */
  lemma ConcatPrefixStep(p: seq<seq<byte>>, i: nat)
    requires i < |p|
    ensures Concat(p[..i + 1]) == Concat(p[..i]) + p[i]
  {
    ConcatSnoc(p[..i], p[i]);
    assert p[..i] + [p[i]] == p[..i + 1];
  }

  /** Concatenating one more piece appends it. */
  lemma {:induction false} ConcatSnoc(parts: seq<seq<byte>>, x: seq<byte>)
    ensures Concat(parts + [x]) == Concat(parts) + x
    decreases |parts|
  {
    if parts == [] {
      assert Concat([x]) == x + Concat([]);
    } else {
      assert (parts + [x])[1..] == parts[1..] + [x];
      ConcatSnoc(parts[1..], x);
    }
  }

  lemma ConcatSuffix(parts: seq<seq<byte>>, i: nat)
    requires i < |parts|
    ensures Concat(parts[i..]) == parts[i] + Concat(parts[i + 1..])
  {
    assert parts[i..][1..] == parts[i + 1..];
  }

  /** Whatever the writer's room, a run of writes stores a prefix of the
      concatenated pieces: all of it if it fits, otherwise as much as fits. */
  lemma {:induction false} WriteEachPrefix(w: Writer, parts: seq<seq<byte>>)
    ensures var n := Min(|Concat(parts)|, w.room);
            WriteEach(w, parts).w == Writer(w.written + Concat(parts)[..n], w.room - n)
    decreases |parts|
  {
    if parts == [] {
    } else if |parts| == 1 {
      assert Concat(parts) == parts[0] + Concat([]);
    } else {
      var s := Write(w, parts[0]);
      WriteEachPrefix(s.w, parts[1..]);
      var c := Concat(parts);
      var n := Min(|c|, w.room);
      var k := Min(|parts[0]|, w.room);
      var m := Min(|Concat(parts[1..])|, s.w.room);
      assert c == parts[0] + Concat(parts[1..]);
      if k == |parts[0]| {
        assert c[..n] == parts[0] + Concat(parts[1..])[..m];
      } else {
        assert m == 0 && n == k;
        assert c[..n] == parts[0][..k];
      }
    }
  }

  /** The error of a run of writes is nil exactly when the last piece fits in
      the room left by the pieces before it. */
  lemma {:induction false} WriteEachError(w: Writer, parts: seq<seq<byte>>)
    requires parts != []
    ensures var before := Concat(parts[..|parts| - 1]);
            WriteEach(w, parts).err == Nil <==> |parts[|parts| - 1]| <= w.room - Min(|before|, w.room)
    decreases |parts|
  {
    if |parts| == 1 {
      assert parts[..0] == [];
    } else {
      var s := Write(w, parts[0]);
      WriteEachError(s.w, parts[1..]);
      assert parts[1..][..|parts| - 2] == parts[..|parts| - 1][1..];
      assert Concat(parts[..|parts| - 1]) == parts[0] + Concat(parts[1..][..|parts| - 2]);
    }
  }

  /** Emit spelled out as the seven writes of Pack, in order. */
  lemma EmitUnrolled(w: Writer, f: Fields)
    ensures var s1 := Write(w, LE32(f.versionLen));
            var s2 := Write(s1.w, f.version);
            var s3 := Write(s2.w, LE32(f.tagLen));
            var s4 := Write(s3.w, f.tag);
            var s5 := Write(s4.w, LE32(f.timestamp));
            var s6 := Write(s5.w, LE32(f.dataLen));
            Emit(w, f) == Write(s6.w, f.data)
  {
    var p := Parts(f);
    var s1 := Write(w, p[0]);
    var s2 := Write(s1.w, p[1]);
    var s3 := Write(s2.w, p[2]);
    var s4 := Write(s3.w, p[3]);
    var s5 := Write(s4.w, p[4]);
    var s6 := Write(s5.w, p[5]);
    assert WriteEach(s6.w, p[6..]) == Write(s6.w, f.data);
    assert WriteEach(s5.w, p[5..]) == WriteEach(s6.w, p[6..]) by { assert p[5..][1..] == p[6..]; }
    assert WriteEach(s4.w, p[4..]) == WriteEach(s5.w, p[5..]) by { assert p[4..][1..] == p[5..]; }
    assert WriteEach(s3.w, p[3..]) == WriteEach(s4.w, p[4..]) by { assert p[3..][1..] == p[4..]; }
    assert WriteEach(s2.w, p[2..]) == WriteEach(s3.w, p[3..]) by { assert p[2..][1..] == p[3..]; }
    assert WriteEach(s1.w, p[1..]) == WriteEach(s2.w, p[2..]) by { assert p[1..][1..] == p[2..]; }
  }

  /** Pack writes a prefix of the encoding: all of it if it fits. */
  lemma EmitWritesPrefix(w: Writer, f: Fields)
    ensures var n := Min(|Encode(f)|, w.room);
            Emit(w, f).w == Writer(w.written + Encode(f)[..n], w.room - n)
  {
    EncodeIsConcat(f);
    WriteEachPrefix(w, Parts(f));
  }

  /** Pack's error is the last write's alone: it is nil exactly when the payload
      fits, which includes every packet with an empty payload, however much of
      the header was cut off. */
  lemma EmitErrorIsLastWrite(w: Writer, f: Fields)
    ensures Emit(w, f).err == Nil <==> |f.data| == 0 || |Encode(f)| <= w.room
  {
    var p := Parts(f);
    WriteEachError(w, p);
    var head := p[..6];
    ConcatSuffix(head, 5);
    ConcatSuffix(head, 4);
    ConcatSuffix(head, 3);
    ConcatSuffix(head, 2);
    ConcatSuffix(head, 1);
    ConcatSuffix(head, 0);
    assert head[6..] == [] && head[0..] == head;
    assert |Concat(head)| == 16 + |f.version| + |f.tag|;
  }

  /** The result of Unpack: the receiver's fields, what is left of the reader,
      and the error returned. */
  datatype Decoded = Decoded(fields: Fields, rest: seq<byte>, err: GoError)

  /** What Unpack does to a receiver holding `prior`: seven binary.Read calls.
      Each byte slice is first made with the length just read, then filled; a
      read that fails leaves its destination as it was, and only the last
      read's error is returned. */
  function Decode(prior: Fields, r: seq<byte>): (d: Decoded)
    ensures |d.fields.version| == d.fields.versionLen
    ensures |d.fields.tag| == d.fields.tagLen
    ensures |d.fields.data| == d.fields.dataLen
  {
    var vl := ReadU32(r, prior.versionLen);
    var v := ReadBytes(vl.rest, vl.value);
    var tl := ReadU32(v.rest, prior.tagLen);
    var t := ReadBytes(tl.rest, tl.value);
    var ts := ReadU32(t.rest, prior.timestamp);
    var dl := ReadU32(ts.rest, prior.dataLen);
    var d := ReadBytes(dl.rest, dl.value);
    Decoded(Fields(vl.value, v.value, tl.value, t.value, ts.value, dl.value, d.value), d.rest, d.err)
  }

  /** Unpack(Pack(p)) == p: reading an encoded packet, followed by anything,
      gives back the packet, leaves what follows unread and reports no error,
      whatever the receiver held before. */
  lemma DecodeEncode(prior: Fields, f: Fields, rest: seq<byte>)
    requires Consistent(f)
    ensures Decode(prior, Encode(f) + rest) == Decoded(f, rest, Nil)
  {
    var r6 := f.data + rest;
    var r5 := LE32(f.dataLen) + r6;
    var r4 := LE32(f.timestamp) + r5;
    var r3 := f.tag + r4;
    var r2 := LE32(f.tagLen) + r3;
    var r1 := f.version + r2;
    var r := LE32(f.versionLen) + r1;
    assert r == Encode(f) + rest;
    var vl := ReadU32(r, prior.versionLen);
    ReadU32Of(f.versionLen, r1, prior.versionLen);
    assert vl == Read(f.versionLen, r1, Nil);
    var v := ReadBytes(vl.rest, vl.value);
    ReadBytesOf(f.version, r2);
    assert v == Read(f.version, r2, Nil);
    var tl := ReadU32(v.rest, prior.tagLen);
    ReadU32Of(f.tagLen, r3, prior.tagLen);
    assert tl == Read(f.tagLen, r3, Nil);
    var t := ReadBytes(tl.rest, tl.value);
    ReadBytesOf(f.tag, r4);
    assert t == Read(f.tag, r4, Nil);
    var ts := ReadU32(t.rest, prior.timestamp);
    ReadU32Of(f.timestamp, r5, prior.timestamp);
    assert ts == Read(f.timestamp, r5, Nil);
    var dl := ReadU32(ts.rest, prior.dataLen);
    ReadU32Of(f.dataLen, r6, prior.dataLen);
    assert dl == Read(f.dataLen, r6, Nil);
    var d := ReadBytes(dl.rest, dl.value);
    ReadBytesOf(f.data, rest);
    assert d == Read(f.data, rest, Nil);
  }

  /** The encoding followed by `rest`, grouped from the right as a reader sees it. */
  lemma EncodeNested(f: Fields, rest: seq<byte>)
    ensures Encode(f) + rest
         == LE32(f.versionLen) + (f.version + (LE32(f.tagLen) + (f.tag + (LE32(f.timestamp) + (LE32(f.dataLen) + (f.data + rest))))))
  {
  }

  lemma ReadU32Of(x: u32, rest: seq<byte>, prior: u32)
    ensures ReadU32(LE32(x) + rest, prior) == Read(x, rest, Nil)
  {
    var r := LE32(x) + rest;
    assert r[..4] == LE32(x) && r[4..] == rest;
    Uint32OfLE32(x);
  }

  lemma ReadBytesOf(bs: seq<byte>, rest: seq<byte>)
    ensures ReadBytes(bs + rest, |bs|) == Read(bs, rest, Nil)
  {
    var r := bs + rest;
    assert r[..|bs|] == bs && r[|bs|..] == rest;
  }

  /** A nil error from Unpack proves the whole packet was there only when the
      payload is not empty: then every earlier read must have succeeded too. */
  lemma NilErrorWithPayload(prior: Fields, r: seq<byte>)
    ensures var d := Decode(prior, r);
            d.err == Nil && d.fields.dataLen > 0 ==> Consistent(d.fields) && r == Encode(d.fields) + d.rest
  {
    var vl := ReadU32(r, prior.versionLen);
    var v := ReadBytes(vl.rest, vl.value);
    var tl := ReadU32(v.rest, prior.tagLen);
    var t := ReadBytes(tl.rest, tl.value);
    var ts := ReadU32(t.rest, prior.timestamp);
    var dl := ReadU32(ts.rest, prior.dataLen);
    var d := ReadBytes(dl.rest, dl.value);
    var f := Fields(vl.value, v.value, tl.value, t.value, ts.value, dl.value, d.value);
    assert Decode(prior, r) == Decoded(f, d.rest, d.err);
    if d.err == Nil && dl.value > 0 {
      ReadBytesSplit(dl.rest, dl.value);
      assert dl.rest == f.data + d.rest && dl.rest != [];
      ReadU32Split(ts.rest, prior.dataLen);
      assert ts.rest == LE32(f.dataLen) + dl.rest && ts.rest != [];
      ReadU32Split(t.rest, prior.timestamp);
      assert t.rest == LE32(f.timestamp) + ts.rest && t.rest != [];
      ReadBytesSplit(tl.rest, tl.value);
      assert tl.rest == f.tag + t.rest && tl.rest != [];
      ReadU32Split(v.rest, prior.tagLen);
      assert v.rest == LE32(f.tagLen) + tl.rest && v.rest != [];
      ReadBytesSplit(vl.rest, vl.value);
      assert vl.rest == f.version + v.rest && vl.rest != [];
      ReadU32Split(r, prior.versionLen);
      assert r == LE32(f.versionLen) + vl.rest;
      EncodeNested(f, d.rest);
    }
  }

  /** A 32-bit read that succeeded, or left bytes behind, consumed a whole word. */
  lemma ReadU32Split(x: seq<byte>, prior: u32)
    ensures var res := ReadU32(x, prior);
            res.err == Nil || res.rest != [] ==> res.err == Nil && x == LE32(res.value) + res.rest
  {
    var res := ReadU32(x, prior);
    if res.err == Nil {
      assert x == x[..4] + x[4..];
    }
  }

  /** A byte-slice read that succeeded, or left bytes behind, consumed the slice. */
  lemma ReadBytesSplit(x: seq<byte>, n: nat)
    ensures var res := ReadBytes(x, n);
            res.err == Nil || res.rest != [] ==> res.err == Nil && x == res.value + res.rest
  {
    var res := ReadBytes(x, n);
    if res.err == Nil {
      assert x == x[..n] + x[n..];
    }
  }

  /** The other side of the same coin: an empty reader, given to a receiver
      whose DataLen is 0 (a fresh `new(Packet)`), makes every read fail but the
      last, zero-length one, so Unpack reports no error. */
  lemma EmptyInputReportsNoError(prior: Fields)
    requires prior.dataLen == 0
    ensures Decode(prior, []) == Decoded(prior.(version := Zeros(prior.versionLen), tag := Zeros(prior.tagLen), data := []), [], Nil)
  {
  }
}
