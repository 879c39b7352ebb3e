/** Bytes and the byte-level codecs the converters use: big-endian 32-bit
    integers (`struct.pack('>I')`/`struct.unpack('>I')`), the latin-1 and ASCII
    codecs, and CRC-32 as section 5.5 of the PNG specification defines it. */
module Bytes {
  import opened Wrappers

  newtype byte = x: int | 0 <= x < 256

  const TWO_32: nat := 0x1_0000_0000

  /** `struct.pack('>I', n)`. */
  function Be32(n: nat): (r: seq<byte>)
    requires n < TWO_32
    ensures |r| == 4
  {
    [(n / 0x100_0000) as byte, (n / 0x1_0000 % 0x100) as byte, (n / 0x100 % 0x100) as byte, (n % 0x100) as byte]
  }

  /** `struct.unpack('>I', b)[0]`. */
  function Be32Value(b: seq<byte>): (r: nat)
    requires |b| == 4
    ensures r < TWO_32
  {
    b[0] as nat * 0x100_0000 + b[1] as nat * 0x1_0000 + b[2] as nat * 0x100 + b[3] as nat
  }

  /** Packing then unpacking a 32-bit value gives it back. */
  lemma Be32RoundTrip(n: nat)
    requires n < TWO_32
    ensures Be32Value(Be32(n)) == n
  {
    // the base-256 digits of n, least significant first
    var m1 := n / 0x100;
    var m2 := m1 / 0x100;
    var d, c, b, a := n % 0x100, m1 % 0x100, m2 % 0x100, m2 / 0x100;
    assert n == a * 0x100_0000 + b * 0x1_0000 + c * 0x100 + d;
    assert n / 0x1_0000 == m2;
    assert n / 0x100_0000 == a;
    assert Be32(n) == [a as byte, b as byte, c as byte, d as byte];
  }

  /** Unpacking then packing four bytes gives them back. */
  lemma Be32Inverse(b: seq<byte>)
    requires |b| == 4
    ensures Be32(Be32Value(b)) == b
  {
    var n := Be32Value(b);
    var hi := b[0] as nat * 0x100 + b[1] as nat;
    var lo := b[2] as nat * 0x100 + b[3] as nat;
    assert n == hi * 0x1_0000 + lo;
    assert n / 0x1_0000 == hi;
    assert n % 0x1_0000 == lo;
    assert n / 0x100_0000 == hi / 0x100 == b[0] as nat;
    assert n / 0x100 == hi * 0x100 + b[2] as nat;
    assert n / 0x1_0000 % 0x100 == b[1] as nat;
    assert n / 0x100 % 0x100 == b[2] as nat;
    assert n % 0x100 == b[3] as nat;
  }

  // ---------------------------------------------------------------------
  // Character codecs
  // ---------------------------------------------------------------------

  /** `bytes.decode('latin-1')`: every byte is the code point of the same value. */
  function Latin1Decode(b: seq<byte>): (r: string)
    ensures |r| == |b|
    ensures forall i :: 0 <= i < |b| ==> r[i] as int == b[i] as int
  {
    if |b| == 0 then [] else [b[0] as char] + Latin1Decode(b[1..])
  }

  /** `str.encode('latin-1')`: fails on a code point above 255. */
  function Latin1Encode(s: string): (r: Option<seq<byte>>)
    ensures r.None? <==> exists i :: 0 <= i < |s| && s[i] as int >= 256
    ensures r.Some? ==> |r.value| == |s| && forall i :: 0 <= i < |s| ==> r.value[i] as int == s[i] as int
  {
    if |s| == 0 then Some([])
    else if s[0] as int >= 256 then None
    else match Latin1Encode(s[1..])
      case None => None
      case Some(t) => Some([s[0] as int as byte] + t)
  }

  /** Latin-1 decoding and encoding are inverse to each other. */
  lemma {:induction false} Latin1RoundTrip(b: seq<byte>)
    ensures Latin1Encode(Latin1Decode(b)) == Some(b)
  {
    if |b| > 0 {
      var d := Latin1Decode(b);
      Latin1RoundTrip(b[1..]);
      assert d[1..] == Latin1Decode(b[1..]);
      assert d[0] as int == b[0] as int;
      assert d[0] as int as byte == b[0];
      assert b == [b[0]] + b[1..];
    }
  }

  lemma Latin1EncodeAscii(s: string)
    requires IsAsciiText(s)
    ensures Latin1Encode(s).Some?
  {
  }

  predicate IsAsciiByte(x: byte) { x < 128 }

  predicate IsAsciiText(s: string) { forall i :: 0 <= i < |s| ==> s[i] as int < 128 }

  /** `bytes.decode('ascii')`: fails on a byte above 127. */
  function AsciiDecode(b: seq<byte>): (r: Option<string>)
    ensures r.None? <==> exists i :: 0 <= i < |b| && b[i] >= 128
    ensures r.Some? ==> r.value == Latin1Decode(b) && |r.value| == |b| && IsAsciiText(r.value)
  {
    if forall i :: 0 <= i < |b| ==> b[i] < 128 then Some(Latin1Decode(b)) else None
  }

  /** `bytes.decode('ascii', errors='ignore')`: bytes above 127 are dropped. */
  function AsciiDecodeIgnore(b: seq<byte>): (r: string)
    ensures |r| <= |b|
    ensures IsAsciiText(r)
    ensures (forall i :: 0 <= i < |b| ==> b[i] < 128) ==> r == Latin1Decode(b)
  {
    if |b| == 0 then []
    else if b[0] < 128 then [b[0] as char] + AsciiDecodeIgnore(b[1..])
    else AsciiDecodeIgnore(b[1..])
  }

  /** `str.encode('ascii')`: fails on a code point above 127. */
  function AsciiEncode(s: string): (r: Option<seq<byte>>)
    ensures r.None? <==> !IsAsciiText(s)
    ensures r.Some? ==> Latin1Decode(r.value) == s && |r.value| == |s|
  {
    if IsAsciiText(s) then
      var e := Latin1Encode(s);
      assert e.Some?;
      LatinEncodeDecode(s);
      e
    else None
  }

  lemma LatinEncodeDecode(s: string)
    requires Latin1Encode(s).Some?
    ensures Latin1Decode(Latin1Encode(s).value) == s
  {
    var b := Latin1Encode(s).value;
    var d := Latin1Decode(b);
    assert forall i :: 0 <= i < |s| ==> d[i] == s[i] by {
      forall i | 0 <= i < |s| ensures d[i] == s[i] {
        assert d[i] as int == s[i] as int;
      }
    }
  }

  /** Bytes of an ASCII string. */
  function StrBytes(s: string): (r: seq<byte>)
    requires IsAsciiText(s)
    ensures |r| == |s| && Latin1Decode(r) == s
  {
    AsciiEncode(s).value
  }

  // ---------------------------------------------------------------------
  // CRC-32 (section 5.5 of the PNG specification, as `zlib.crc32`)
  // ---------------------------------------------------------------------

  function CrcShift(c: bv32, k: nat): bv32
    decreases k
  {
    if k == 0 then c
    else CrcShift(if c & 1 == 1 then 0xEDB8_8320 ^ (c >> 1) else c >> 1, k - 1)
  }

  function CrcUpdate(c: bv32, b: seq<byte>): bv32
    decreases |b|
  {
    if |b| == 0 then c else CrcUpdate(CrcShift(c ^ (b[0] as bv32), 8), b[1..])
  }

  /** `zlib.crc32(b)`: the unsigned 32-bit CRC with the reflected polynomial 0xEDB88320. */
  function Crc32(b: seq<byte>): (r: nat)
    ensures r < TWO_32
  {
    (CrcUpdate(0xFFFF_FFFF, b) ^ 0xFFFF_FFFF) as nat
  }
}
