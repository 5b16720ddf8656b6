/**
 * Raw PCM16 samples as `readFile` (programa/jack.c) sees them: the bytes read
 * from standard input are reinterpreted as signed 16-bit two's-complement
 * integers (low byte first, the byte order of the usual hosts) and each one
 * becomes the float sample value/32768.
 */
module Pcm {

  /** One octet read from standard input. */
  type byte = x: int | 0 <= x < 256

  /** A value a C `short` can hold. */
  type int16 = x: int | -32768 <= x < 32768

  /** The `short` whose low byte is `lo` and whose high byte is `hi`. */
  function Int16(lo: byte, hi: byte): (v: int16)
    ensures (v - (lo + 256 * hi)) % 65536 == 0
    ensures v < 0 <==> hi >= 128
  {
    var u := lo + 256 * hi;
    if u < 32768 then u else u - 65536
  }

  /** Low byte of the two's-complement encoding of `v`. */
  function LowByte(v: int16): byte
  {
    v % 256
  }

  /** High byte of the two's-complement encoding of `v`. */
  function HighByte(v: int16): byte
  {
    (v % 65536) / 256
  }

  /** Reading back the two bytes of a `short` gives the `short`. */
  lemma Int16OfBytes(v: int16)
    ensures Int16(LowByte(v), HighByte(v)) == v
  {
    var m := v % 65536;
    assert m == v || m == v + 65536;
    assert LowByte(v) == m % 256;
    assert LowByte(v) + 256 * HighByte(v) == m;
  }

  /** Every byte pair is the encoding of the `short` it decodes to. */
  lemma BytesOfInt16(lo: byte, hi: byte)
    ensures LowByte(Int16(lo, hi)) == lo && HighByte(Int16(lo, hi)) == hi
  {
    var u: int := lo + 256 * hi;
    var v: int := Int16(lo, hi);
    assert v == u || v == u - 65536;
    assert v % 65536 == u;
    assert u / 256 == hi && u % 256 == lo;
  }

  /** The float sample a decoded `short` stands for: `(float)v / 32768`. */
  function Normalized(v: int16): (x: real)
    ensures -1.0 <= x < 1.0
    ensures x < 0.0 <==> v < 0
    ensures x == 0.0 <==> v == 0
  {
    v as real / 32768.0
  }

  /** Dividing by 32768 keeps the order of the samples. */
  lemma NormalizedMonotonic(v: int16, w: int16)
    requires v < w
    ensures Normalized(v) < Normalized(w)
  {
  }

  /** `raw` seen as an array of `short`: one sample per pair of bytes. */
  function Decode(raw: seq<byte>): (s: seq<int16>)
    requires |raw| % 2 == 0
    ensures |s| == |raw| / 2
    ensures forall i :: 0 <= i < |s| ==> s[i] == Int16(raw[2 * i], raw[2 * i + 1])
    decreases |raw|
  {
    if raw == [] then [] else [Int16(raw[0], raw[1])] + Decode(raw[2..])
  }

  /** The bytes a sequence of `short`s occupies in memory. */
  function Encode(s: seq<int16>): (raw: seq<byte>)
    ensures |raw| == 2 * |s|
    ensures forall i :: 0 <= i < |s| ==> raw[2 * i] == LowByte(s[i]) && raw[2 * i + 1] == HighByte(s[i])
  {
    if s == [] then [] else [LowByte(s[0]), HighByte(s[0])] + Encode(s[1..])
  }

  /** Decoding the bytes of a sample sequence gives the sequence back. */
  lemma {:induction false} DecodeEncode(s: seq<int16>)
    ensures Decode(Encode(s)) == s
  {
    var d := Decode(Encode(s));
    forall i | 0 <= i < |s|
      ensures d[i] == s[i]
    {
      Int16OfBytes(s[i]);
    }
  }

  /** Encoding the decoded samples gives the bytes back: no byte pattern is lost. */
  lemma {:induction false} EncodeDecode(raw: seq<byte>)
    requires |raw| % 2 == 0
    ensures Encode(Decode(raw)) == raw
  {
    var s := Decode(raw);
    var e := Encode(s);
    forall k | 0 <= k < |raw|
      ensures e[k] == raw[k]
    {
      var i := k / 2;
      assert k == 2 * i || k == 2 * i + 1;
      assert s[i] == Int16(raw[2 * i], raw[2 * i + 1]);
      BytesOfInt16(raw[2 * i], raw[2 * i + 1]);
    }
  }

  /** `raw` followed by zero bytes up to `bytes`: the `memset` after a short read. */
  function ZeroPad(raw: seq<byte>, bytes: nat): (p: seq<byte>)
    requires |raw| <= bytes
    ensures |p| == bytes
    ensures forall i :: 0 <= i < bytes ==> p[i] == if i < |raw| then raw[i] else 0
  {
    raw + seq(bytes - |raw|, _ => 0)
  }
}
