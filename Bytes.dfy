/** Bytes, unsigned 32-bit words, and the big- and little-endian encodings of words that
    the ctypes structures use. */
module Bytes {

  type byte = b: int | 0 <= b < 0x100
  type u32 = n: int | 0 <= n < 0x1_0000_0000

  /** The value a ctypes `c_uint32` field holds after it is assigned the integer `n`:
      the integer is reduced modulo 2^32 (a negative integer wraps, as in two's complement). */
  function Wrap32(n: int): (r: u32)
    ensures 0 <= n < 0x1_0000_0000 ==> r == n
    ensures (n - r) % 0x1_0000_0000 == 0
  {
    n % 0x1_0000_0000
  }

  /** `n` zero bytes, the initial contents of a fresh ctypes array or `array('B', [0] * n)`. */
  function Zeros(n: nat): (r: seq<byte>)
    ensures |r| == n
    ensures forall i :: 0 <= i < n ==> r[i] == 0
  {
    seq(n, _ => 0)
  }

  function Min(a: int, b: int): int { if a <= b then a else b }

  /** A word as four bytes, most significant first. */
  function BE32(v: u32): (r: seq<byte>)
    ensures |r| == 4
  {
    var low24 := v % 0x100_0000;
    var low16 := low24 % 0x1_0000;
    [v / 0x100_0000, low24 / 0x1_0000, low16 / 0x100, low16 % 0x100]
  }

  function FromBE32(s: seq<byte>): u32
    requires |s| == 4
  {
    s[0] as int * 0x100_0000 + s[1] as int * 0x1_0000 + s[2] as int * 0x100 + s[3] as int
  }

  /** A word as four bytes, least significant first. */
  function LE32(v: u32): (r: seq<byte>)
    ensures |r| == 4
  {
    Reverse4(BE32(v))
  }

  function FromLE32(s: seq<byte>): u32
    requires |s| == 4
  {
    FromBE32(Reverse4(s))
  }

  function Reverse4(s: seq<byte>): (r: seq<byte>)
    requires |s| == 4
    ensures |r| == 4
  {
    [s[3], s[2], s[1], s[0]]
  }

  lemma BE32RoundTrip(v: u32)
    ensures FromBE32(BE32(v)) == v
  {
    var low24 := v % 0x100_0000;
    var low16 := low24 % 0x1_0000;
    assert v == v / 0x100_0000 * 0x100_0000 + low24;
    assert low24 == low24 / 0x1_0000 * 0x1_0000 + low16;
    assert low16 == low16 / 0x100 * 0x100 + low16 % 0x100;
  }

  lemma FromBE32RoundTrip(s: seq<byte>)
    requires |s| == 4
    ensures BE32(FromBE32(s)) == s
  {
  }

  lemma LE32RoundTrip(v: u32)
    ensures FromLE32(LE32(v)) == v
  {
    assert Reverse4(Reverse4(BE32(v))) == BE32(v);
    BE32RoundTrip(v);
  }

  lemma FromLE32RoundTrip(s: seq<byte>)
    requires |s| == 4
    ensures LE32(FromLE32(s)) == s
  {
    FromBE32RoundTrip(Reverse4(s));
  }

  /** Consecutive big-endian words, as a ctypes BigEndianStructure of `c_uint32` fields
      packed with `_pack_ = 1` lays them out. */
  function EncodeWordsBE(ws: seq<u32>): (r: seq<byte>)
    ensures |r| == 4 * |ws|
  {
    if ws == [] then [] else BE32(ws[0]) + EncodeWordsBE(ws[1..])
  }

  function DecodeWordsBE(s: seq<byte>): (r: seq<u32>)
    requires |s| % 4 == 0
    ensures 4 * |r| == |s|
  {
    if s == [] then [] else [FromBE32(s[..4])] + DecodeWordsBE(s[4..])
  }

  lemma {:induction false} WordsBERoundTrip(ws: seq<u32>)
    ensures DecodeWordsBE(EncodeWordsBE(ws)) == ws
  {
    if ws != [] {
      var s := EncodeWordsBE(ws);
      assert s[..4] == BE32(ws[0]);
      assert s[4..] == EncodeWordsBE(ws[1..]);
      BE32RoundTrip(ws[0]);
      WordsBERoundTrip(ws[1..]);
    }
  }

  lemma {:induction false} BytesBERoundTrip(s: seq<byte>)
    requires |s| % 4 == 0
    ensures EncodeWordsBE(DecodeWordsBE(s)) == s
  {
    if s != [] {
      var ws := DecodeWordsBE(s);
      assert ws[0] == FromBE32(s[..4]);
      assert ws[1..] == DecodeWordsBE(s[4..]);
      FromBE32RoundTrip(s[..4]);
      BytesBERoundTrip(s[4..]);
      assert s == s[..4] + s[4..];
    }
  }

  lemma {:induction false} EncodeWordsBEAppend(a: seq<u32>, b: seq<u32>)
    ensures EncodeWordsBE(a + b) == EncodeWordsBE(a) + EncodeWordsBE(b)
  {
    if a != [] {
      assert (a + b)[1..] == a[1..] + b;
      EncodeWordsBEAppend(a[1..], b);
    } else {
      assert a + b == b;
    }
  }

  /** Word `i` sits at bytes 4*i .. 4*i+3 of the encoding. */
  lemma {:induction false} EncodeWordsBEAt(ws: seq<u32>, i: nat)
    requires i < |ws|
    ensures EncodeWordsBE(ws)[4 * i .. 4 * i + 4] == BE32(ws[i])
  {
    if i > 0 {
      EncodeWordsBEAt(ws[1..], i - 1);
      assert EncodeWordsBE(ws) == BE32(ws[0]) + EncodeWordsBE(ws[1..]);
      assert EncodeWordsBE(ws)[4 * i .. 4 * i + 4] == EncodeWordsBE(ws[1..])[4 * (i - 1) .. 4 * (i - 1) + 4];
    }
  }
}
