/** The parts of Go's encoding/binary and io packages that the packet codec
    relies on, for little-endian 32-bit words and byte slices.  The library is
    not part of this model; its behaviour is written out here:
    - binary.Write encodes its argument and makes exactly one Write call on the
      writer, returning that call's error;
    - binary.Read fills a buffer of the argument's size with io.ReadFull and
      leaves the destination untouched when ReadFull fails. */
module Binary {
  import opened Ints

  /** The Go error values that can come out of these calls (`Nil` is `nil`). */
  datatype GoError = Nil | EOF | UnexpectedEOF | ShortWrite

  /** binary.LittleEndian.PutUint32: the four bytes of `x`, least significant first. */
  function LE32(x: u32): (bs: seq<byte>)
  {
    [x % 0x100, (x / 0x100) % 0x100, (x / 0x100 / 0x100) % 0x100, x / 0x100 / 0x100 / 0x100]
  }

  /** binary.LittleEndian.Uint32: the word held in the first four bytes. */
  function Uint32(bs: seq<byte>): (x: u32)
    requires |bs| >= 4
  {
    bs[0] as int + 0x100 * (bs[1] as int + 0x100 * (bs[2] as int + 0x100 * (bs[3] as int)))
  }

  /** Decoding an encoded word gives the word back. */
  lemma Uint32OfLE32(x: u32)
    ensures |LE32(x)| == 4 && Uint32(LE32(x)) == x
  {
    var q1 := x / 0x100;
    var q2 := q1 / 0x100;
    var q3 := q2 / 0x100;
    assert x == x % 0x100 + 0x100 * q1;
    assert q1 == q1 % 0x100 + 0x100 * q2;
    assert q2 == q2 % 0x100 + 0x100 * q3;
    assert q3 < 0x100;
  }

  /** Encoding the word held in four bytes gives those bytes back. */
  lemma LE32OfUint32(bs: seq<byte>)
    requires |bs| == 4
    ensures LE32(Uint32(bs)) == bs
  {
    var x := Uint32(bs);
    var q1 := bs[1] as int + 0x100 * (bs[2] as int + 0x100 * (bs[3] as int));
    var q2 := bs[2] as int + 0x100 * (bs[3] as int);
    assert x == bs[0] + 0x100 * q1;
    assert x % 0x100 == bs[0] && x / 0x100 == q1;
    assert q1 % 0x100 == bs[1] && q1 / 0x100 == q2;
    assert q2 % 0x100 == bs[2] && q2 / 0x100 == bs[3];
  }

  /** An io.Writer that accepts at most `room` more bytes: a write that does not
      fit stores what fits and fails with ShortWrite.  A bytes.Buffer, the only
      writer the program passes, is the case where `room` is never exceeded. */
  datatype Writer = Writer(written: seq<byte>, room: nat)

  datatype Written = Written(w: Writer, err: GoError)

  /** w.Write(bs), as called once by binary.Write. */
  function Write(w: Writer, bs: seq<byte>): (r: Written)
    ensures r.err == Nil <==> |bs| <= w.room
    ensures r.w.written == w.written + bs[..Min(|bs|, w.room)]
    ensures r.w.room == w.room - Min(|bs|, w.room)
  {
    if |bs| <= w.room then Written(Writer(w.written + bs, w.room - |bs|), Nil)
    else Written(Writer(w.written + bs[..w.room], 0), ShortWrite)
  }

  /** What is left of an io.Reader over a byte slice (a bytes.Reader). */
  datatype Read<T> = Read(value: T, rest: seq<byte>, err: GoError)

  /** io.ReadFull(r, buf) with len(buf) == n: the bytes obtained, what is left,
      and the error (EOF if nothing was read, UnexpectedEOF if only part was). */
  function ReadFull(r: seq<byte>, n: nat): (res: Read<seq<byte>>)
    ensures res.err == Nil <==> n <= |r|
    ensures res.err == Nil ==> res.value == r[..n] && res.rest == r[n..]
    ensures res.err == EOF <==> 0 < n && r == []
    ensures res.err == UnexpectedEOF <==> 0 < |r| < n
    ensures res.err != Nil ==> res.rest == []
  {
    if n == 0 then Read([], r, Nil)
    else if n <= |r| then Read(r[..n], r[n..], Nil)
    else if |r| == 0 then Read([], r, EOF)
    else Read(r, [], UnexpectedEOF)
  }

  /** binary.Read(r, binary.LittleEndian, &x) for a uint32 `x`: on failure
      `x` keeps its value `prior`. */
  function ReadU32(r: seq<byte>, prior: u32): (res: Read<u32>)
    ensures res.err == Nil <==> 4 <= |r|
    ensures res.err == Nil ==> LE32(res.value) == r[..4] && res.rest == r[4..]
    ensures res.err != Nil ==> res.value == prior && res.rest == []
  {
    var f := ReadFull(r, 4);
    if f.err == Nil then
      LE32OfUint32(f.value);
      Read(Uint32(f.value), f.rest, Nil)
    else Read(prior, f.rest, f.err)
  }

  /** binary.Read(r, binary.LittleEndian, &s) for a byte slice `s` made by
      `make([]byte, n)`: it is filled only if all `n` bytes are there. */
  function ReadBytes(r: seq<byte>, n: nat): (res: Read<seq<byte>>)
    ensures |res.value| == n
    ensures res.err == Nil <==> n <= |r|
    ensures res.err == Nil ==> res.value == r[..n] && res.rest == r[n..]
    ensures res.err != Nil ==> res.value == Zeros(n)
  {
    var f := ReadFull(r, n);
    if f.err == Nil then Read(f.value, f.rest, Nil) else Read(Zeros(n), f.rest, f.err)
  }

  /** The contents of `make([]byte, n)`. */
  function Zeros(n: nat): (z: seq<byte>)
    ensures |z| == n && forall i :: 0 <= i < n ==> z[i] == 0
  {
    seq(n, _ => 0)
  }
}
