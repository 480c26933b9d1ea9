/**
 Bytes, fixed-width unsigned integers and their little-endian form.

 Every file the stores write is a sequence of bytes, and every number in it is little-endian
 (src/codec.rs, the integer rules of the module documentation).
 */
module Bytes {
  type byte = x: nat | x < 256
  type u32 = x: nat | x < 0x1_0000_0000
  type u64 = x: nat | x < 0x1_0000_0000_0000_0000

  const U64_MODULUS: nat := 0x1_0000_0000_0000_0000

  /** A record id: the sixteen octets of a UUID, most significant first. */
  datatype Uuid = Uuid(octets: Octets)

  type Octets = s: seq<byte> | |s| == 16 witness [0, 0, 0, 0, 0, 0, 0, 0, 0, 0, 0, 0, 0, 0, 0, 0]

  datatype Option<+T> = None | Some(value: T)

  datatype Result<+T, +E> = Ok(value: T) | Err(error: E)

  function Pow256(width: nat): (r: nat)
    ensures r >= 1
  {
    if width == 0 then 1 else 256 * Pow256(width - 1)
  }

  /** The low `width` bytes of `x`, least significant first. */
  function ToLe(x: nat, width: nat): (s: seq<byte>)
    ensures |s| == width
  {
    if width == 0 then [] else [x % 256] + ToLe(x / 256, width - 1)
  }

  function FromLe(s: seq<byte>): (x: nat)
    ensures x < Pow256(|s|)
  {
    if s == [] then 0 else s[0] + 256 * FromLe(s[1..])
  }

  lemma {:induction false} FromToLe(x: nat, width: nat)
    requires x < Pow256(width)
    ensures FromLe(ToLe(x, width)) == x
  {
    if width > 0 {
      FromToLe(x / 256, width - 1);
      assert ToLe(x, width)[1..] == ToLe(x / 256, width - 1);
    }
  }

  lemma {:induction false} ToFromLe(s: seq<byte>)
    ensures ToLe(FromLe(s), |s|) == s
  {
    if s != [] {
      ToFromLe(s[1..]);
      ByteAndRest(s[0], FromLe(s[1..]));
      assert s == [s[0]] + s[1..];
    }
  }

  lemma ByteAndRest(b: byte, rest: nat)
    ensures (b + 256 * rest) % 256 == b && (b + 256 * rest) / 256 == rest
  {
  }

  lemma Widths()
    ensures Pow256(4) == 0x1_0000_0000 && Pow256(8) == U64_MODULUS
  {
    assert Pow256(2) == 0x1_0000;
    assert Pow256(4) == 256 * 256 * Pow256(2);
    assert Pow256(6) == 256 * 256 * Pow256(4);
  }

  function LeU32(x: u32): (s: seq<byte>)
    ensures |s| == 4
  {
    ToLe(x, 4)
  }

  function ReadU32(s: seq<byte>): u32
    requires |s| == 4
  {
    Widths();
    FromLe(s)
  }

  function LeU64(x: u64): (s: seq<byte>)
    ensures |s| == 8
  {
    ToLe(x, 8)
  }

  function ReadU64(s: seq<byte>): u64
    requires |s| == 8
  {
    Widths();
    FromLe(s)
  }

  lemma U32RoundTrip(x: u32)
    ensures ReadU32(LeU32(x)) == x
  {
    Widths();
    FromToLe(x, 4);
  }

  lemma U64RoundTrip(x: u64)
    ensures ReadU64(LeU64(x)) == x
  {
    Widths();
    FromToLe(x, 8);
  }

  /** Two four-byte fields that read the same are the same bytes. */
  lemma ReadU32Injective(s: seq<byte>, t: seq<byte>)
    requires |s| == 4 && |t| == 4 && ReadU32(s) == ReadU32(t)
    ensures s == t
  {
    ToFromLe(s);
    ToFromLe(t);
  }

  lemma ReadU64Injective(s: seq<byte>, t: seq<byte>)
    requires |s| == 8 && |t| == 8 && ReadU64(s) == ReadU64(t)
    ensures s == t
  {
    ToFromLe(s);
    ToFromLe(t);
  }

  /** The first four of eight bytes hold the number modulo 2^32. */
  lemma LowWord(x: u64)
    ensures ReadU32(LeU64(x)[..4]) == x % 0x1_0000_0000
  {
    var s := LeU64(x)[..4];
    assert s == ToLe(x, 4) by { FirstBytes(x, 4, 8); }
    var x1, x2, x3 := x / 256, x / 256 / 256, x / 256 / 256 / 256;
    FromToLeStep(x, 3);
    FromToLeStep(x1, 2);
    FromToLeStep(x2, 1);
    FromToLeStep(x3, 0);
    FourDigits(x);
  }

  lemma FromToLeStep(x: nat, width: nat)
    ensures FromLe(ToLe(x, width + 1)) == x % 256 + 256 * FromLe(ToLe(x / 256, width))
  {
    assert ToLe(x, width + 1)[1..] == ToLe(x / 256, width);
  }

  lemma FourDigits(x: nat)
    ensures
      var x1, x2, x3 := x / 256, x / 256 / 256, x / 256 / 256 / 256;
      x % 256 + 256 * (x1 % 256 + 256 * (x2 % 256 + 256 * (x3 % 256))) == x % 0x1_0000_0000
  {
    LowestDigit(x / 256 / 256, 0x100);
    LowestDigit(x / 256, 0x1_0000);
    LowestDigit(x, 0x100_0000);
  }

  lemma LowestDigit(x: nat, modulus: nat)
    requires modulus > 0
    ensures x % 256 + 256 * (x / 256 % modulus) == x % (256 * modulus)
  {
    var low, high, m := x % 256, x / 256, 256 * modulus;
    var r := low + 256 * (high % modulus);
    assert x == m * (high / modulus) + r by {
      assert high == modulus * (high / modulus) + high % modulus;
      assert 256 * (modulus * (high / modulus)) == m * (high / modulus);
    }
    assert high % modulus <= modulus - 1;
    RemainderIs(x, m, high / modulus, r);
  }

  lemma RemainderIs(x: nat, m: nat, q: nat, r: nat)
    requires m > 0 && x == m * q + r && r < m
    ensures x % m == r
  {
    var d := x / m - q;
    assert m * d == r - x % m;
    MultipleIsFar(m, d);
  }

  lemma MultipleIsFar(m: nat, d: int)
    ensures d >= 1 ==> m * d >= m
    ensures d <= -1 ==> m * d + m <= 0
  {
  }

  lemma {:induction false} FirstBytes(x: nat, n: nat, width: nat)
    requires n <= width
    ensures ToLe(x, width)[..n] == ToLe(x, n)
  {
    if n > 0 {
      FirstBytes(x / 256, n - 1, width - 1);
      assert ToLe(x, width)[..n] == [x % 256] + ToLe(x / 256, width - 1)[..n - 1];
    }
  }

  // ----- cutting and joining -----

  lemma ThreePieces(a: seq<byte>, b: seq<byte>, c: seq<byte>)
    ensures
      var s, i := a + b + c, |a| + |b|;
      && s[..|a|] == a && s[|a|..i] == b && s[i..] == c
      && s[|a|..] == b + c && s == a + (b + c)
  {
  }

  lemma FourPieces(a: seq<byte>, b: seq<byte>, c: seq<byte>, d: seq<byte>)
    ensures
      var s, i, j := a + b + c + d, |a| + |b|, |a| + |b| + |c|;
      && s[..|a|] == a && s[|a|..i] == b && s[i..j] == c && s[j..] == d
      && s[j..|s|] == d && s == a + b + (c + d)
  {
  }

  lemma CutPast(a: seq<byte>, b: seq<byte>, k: nat)
    requires |a| <= k <= |a| + |b|
    ensures (a + b)[..k] == a + b[..k - |a|]
  {
  }

  lemma SliceOfSlice(s: seq<byte>, at: nat, end: nat, i: nat, j: nat)
    requires at <= end <= |s| && i <= j <= end - at
    ensures s[at..end][i..j] == s[at + i..at + j]
  {
    var part, whole := s[at..end][i..j], s[at + i..at + j];
    forall k | 0 <= k < j - i
      ensures part[k] == whole[k]
    {
      assert s[at..end][i + k] == s[at + i + k];
    }
  }

  lemma SliceOfPrefix(s: seq<byte>, end: nat, i: nat, j: nat)
    requires i <= j <= end <= |s|
    ensures s[..end][i..j] == s[i..j]
  {
    SliceOfSlice(s, 0, end, i, j);
  }
}
