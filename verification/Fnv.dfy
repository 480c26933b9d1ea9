/**
 FNV-1a 64, the hash of every companion file's header (src/durability/record_blob.rs): for each
 byte, exclusive-or it into the low end of the state, then multiply by the prime modulo 2^64.
 Both halves of the step can be undone, so the hash never loses track of a single changed byte.
 The offset basis and the prime are those of section 2 of draft-eastlake-fnv.
 */
module Fnv {
  import opened Bytes

  const OFFSET_BASIS: u64 := 0xcbf2_9ce4_8422_2325
  const PRIME: u64 := 0x0000_0100_0000_01b3
  const INVERSE_PRIME: u64 := 0xce96_5057_aff6_957b

  // ----- exclusive or -----

  /** Bitwise exclusive or, lowest bit first. */
  function Xor(a: nat, b: nat): nat {
    if a == 0 && b == 0 then 0 else 2 * Xor(a / 2, b / 2) + (a + b) % 2
  }

  lemma XorUnfold(a: nat, b: nat)
    ensures Xor(a, b) == 2 * Xor(a / 2, b / 2) + (a + b) % 2
  {
  }

  lemma LowBit(x: nat, a: nat, b: nat)
    ensures (2 * x + (a + b) % 2) / 2 == x
    ensures (2 * x + (a + b) % 2 + b) % 2 == a % 2
  {
    var i, j := a / 2, b / 2;
    assert a == 2 * i + a % 2 && b == 2 * j + b % 2;
  }

  lemma {:induction false} XorUndone(a: nat, b: nat)
    ensures Xor(Xor(a, b), b) == a
    decreases a + b
  {
    if a + b > 0 {
      var x := Xor(a / 2, b / 2);
      XorUndone(a / 2, b / 2);
      XorUnfold(a, b);
      LowBit(x, a, b);
      XorUnfold(Xor(a, b), b);
    }
  }

  lemma {:induction false} XorCommutes(a: nat, b: nat)
    ensures Xor(a, b) == Xor(b, a)
  {
    if a != 0 || b != 0 {
      XorCommutes(a / 2, b / 2);
    }
  }

  function Pow2(bits: nat): nat {
    if bits == 0 then 1 else 2 * Pow2(bits - 1)
  }

  lemma {:induction false} XorBound(a: nat, b: nat, bits: nat)
    requires a < Pow2(bits) && b < Pow2(bits)
    ensures Xor(a, b) < Pow2(bits)
  {
    if bits > 0 {
      XorBound(a / 2, b / 2, bits - 1);
    }
  }

  lemma Pow2Of64()
    ensures Pow2(64) == U64_MODULUS
  {
    assert Pow2(0) == 1;
    NextEight(0); NextEight(8); NextEight(16); NextEight(24);
    NextEight(32); NextEight(40); NextEight(48); NextEight(56);
  }

  lemma NextEight(bits: nat)
    ensures Pow2(bits + 8) == 256 * Pow2(bits)
  {
    assert Pow2(bits + 2) == 4 * Pow2(bits);
    assert Pow2(bits + 4) == 4 * Pow2(bits + 2);
    assert Pow2(bits + 6) == 4 * Pow2(bits + 4);
    assert Pow2(bits + 8) == 4 * Pow2(bits + 6);
  }

  function XorByte(h: u64, b: byte): u64 {
    Pow2Of64();
    XorBound(h, b, 64);
    Xor(h, b)
  }

  // ----- multiplication by the prime -----

  function Multiply(x: u64): u64 { (x * PRIME) % U64_MODULUS }

  lemma MultiplyUndone(x: u64)
    ensures (Multiply(x) * INVERSE_PRIME) % U64_MODULUS == x
  {
    var q := (x * 0x100_0000_01b3) / 0x1_0000_0000_0000_0000;
    assert Multiply(x) == x * 0x100_0000_01b3 - q * 0x1_0000_0000_0000_0000;
    assert Multiply(x) * 0xce96_5057_aff6_957b
        == x + 0x1_0000_0000_0000_0000 * (x * 887285111055 - q * 0xce96_5057_aff6_957b);
    ModuloIsUnique(Multiply(x) * INVERSE_PRIME, x, x * 887285111055 - q * 0xce96_5057_aff6_957b);
  }

  lemma ModuloIsUnique(a: int, r: u64, q: int)
    requires a == r + 0x1_0000_0000_0000_0000 * q
    ensures a % U64_MODULUS == r
  {
  }

  // ----- the hash -----

  function Step(h: u64, b: byte): u64 { Multiply(XorByte(h, b)) }

  function HashFrom(h: u64, bytes: seq<byte>): u64
    decreases |bytes|
  {
    if bytes == [] then h else HashFrom(Step(h, bytes[0]), bytes[1..])
  }

  function Hash(bytes: seq<byte>): u64 { HashFrom(OFFSET_BASIS, bytes) }

  /** Hashing in pieces is hashing the whole. */
  lemma {:induction false} HashInPieces(h: u64, a: seq<byte>, b: seq<byte>)
    ensures HashFrom(h, a + b) == HashFrom(HashFrom(h, a), b)
    decreases |a|
  {
    if a == [] {
      assert a + b == b;
    } else {
      HashInPieces(Step(h, a[0]), a[1..], b);
      assert (a + b)[1..] == a[1..] + b;
    }
  }

  /** The same byte after different states gives different states. */
  lemma StepInjectiveInState(g: u64, h: u64, b: byte)
    requires g != h
    ensures Step(g, b) != Step(h, b)
  {
    MultiplyUndone(XorByte(g, b));
    MultiplyUndone(XorByte(h, b));
    XorUndone(g, b);
    XorUndone(h, b);
  }

  /** Different bytes after the same state give different states. */
  lemma StepInjectiveInByte(h: u64, b: byte, c: byte)
    requires b != c
    ensures Step(h, b) != Step(h, c)
  {
    MultiplyUndone(XorByte(h, b));
    MultiplyUndone(XorByte(h, c));
    XorCommutes(h, b);
    XorCommutes(h, c);
    XorUndone(b, h);
    XorUndone(c, h);
  }

  lemma {:induction false} DifferentStatesStayDifferent(g: u64, h: u64, bytes: seq<byte>)
    requires g != h
    ensures HashFrom(g, bytes) != HashFrom(h, bytes)
    decreases |bytes|
  {
    if bytes != [] {
      StepInjectiveInState(g, h, bytes[0]);
      DifferentStatesStayDifferent(Step(g, bytes[0]), Step(h, bytes[0]), bytes[1..]);
    }
  }

  /** Changing any one byte of any input changes its hash. */
  lemma OneChangedByteChangesTheHash(bytes: seq<byte>, k: nat, b: byte)
    requires k < |bytes| && b != bytes[k]
    ensures Hash(bytes[k := b]) != Hash(bytes)
  {
    var before, after := bytes[..k], bytes[k + 1..];
    var h := Hash(before);
    assert bytes == before + ([bytes[k]] + after);
    assert bytes[k := b] == before + ([b] + after);
    HashInPieces(OFFSET_BASIS, before, [bytes[k]] + after);
    HashInPieces(OFFSET_BASIS, before, [b] + after);
    assert ([bytes[k]] + after)[1..] == after && ([b] + after)[1..] == after;
    StepInjectiveInByte(h, bytes[k], b);
    DifferentStatesStayDifferent(Step(h, bytes[k]), Step(h, b), after);
  }

  class Fnv1a64 {
    var state: u64

    constructor ()
      ensures state == OFFSET_BASIS
    {
      state := OFFSET_BASIS;
    }

    method Update(bytes: seq<byte>)
      modifies this
      ensures state == HashFrom(old(state), bytes)
    {
      assert bytes[0..] == bytes;
      for i := 0 to |bytes|
        invariant HashFrom(old(state), bytes) == HashFrom(state, bytes[i..])
      {
        assert bytes[i..][1..] == bytes[i + 1..];
        state := XorByte(state, bytes[i]);
        state := Multiply(state);
      }
    }

    method Finish() returns (hash: u64)
      ensures hash == state
    {
      hash := state;
    }
  }
}
