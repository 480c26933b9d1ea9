/**
 Files made of frames laid end to end, and what a reader that takes one frame at a time makes of
 them: whole, cut at any byte, or followed by something else. Used for the write-ahead log
 (src/durability/mod.rs) and the insert log (src/generic/insert_log.rs).
 */
module Framing {
  import opened Bytes

  function Flatten<T>(enc: T -> seq<byte>, xs: seq<T>): seq<byte> {
    if xs == [] then [] else enc(xs[0]) + Flatten(enc, xs[1..])
  }

  lemma {:induction false} FlattenConcat<T>(enc: T -> seq<byte>, a: seq<T>, b: seq<T>)
    ensures Flatten(enc, a + b) == Flatten(enc, a) + Flatten(enc, b)
  {
    if a == [] {
      assert a + b == b;
    } else {
      FlattenConcat(enc, a[1..], b);
      assert (a + b)[1..] == a[1..] + b;
    }
  }

  lemma FlattenSnoc<T>(enc: T -> seq<byte>, xs: seq<T>, x: T)
    ensures Flatten(enc, xs + [x]) == Flatten(enc, xs) + enc(x)
  {
    FlattenConcat(enc, xs, [x]);
    assert Flatten(enc, [x]) == enc(x) + Flatten(enc, []);
  }

  lemma OneFrame<T>(enc: T -> seq<byte>, x: T)
    ensures Flatten(enc, [x]) == enc(x)
  {
    assert [x][1..] == [];
    assert enc(x) + [] == enc(x);
  }

  /** How many frames lie wholly within the first `k` bytes. */
  function WholeFrames<T>(enc: T -> seq<byte>, xs: seq<T>, k: nat): (n: nat)
    ensures n <= |xs|
  {
    if xs == [] || k < |enc(xs[0])| then 0 else 1 + WholeFrames(enc, xs[1..], k - |enc(xs[0])|)
  }

  /** A cut leaves the whole frames, then the part of the next one that made it. */
  lemma {:induction false} CutAt<T>(enc: T -> seq<byte>, xs: seq<T>, k: nat)
    requires k <= |Flatten(enc, xs)|
    ensures
      var n := WholeFrames(enc, xs, k);
      var whole := Flatten(enc, xs[..n]);
      && |whole| <= k
      && (n == |xs| ==> k == |whole| && Flatten(enc, xs)[..k] == whole)
      && (n < |xs| ==>
            && k - |whole| < |enc(xs[n])|
            && Flatten(enc, xs)[..k] == whole + enc(xs[n])[..k - |whole|])
  {
    if xs != [] && |enc(xs[0])| <= k {
      var rest, width := xs[1..], |enc(xs[0])|;
      CutAt(enc, rest, k - width);
      var n := WholeFrames(enc, rest, k - width);
      var whole := Flatten(enc, rest[..n]);
      assert xs[..n + 1][1..] == rest[..n];
      assert Flatten(enc, xs[..n + 1]) == enc(xs[0]) + whole;
      if n < |rest| {
        CutStep(enc(xs[0]), Flatten(enc, rest), k, whole, enc(rest[n])[..k - width - |whole|]);
      } else {
        CutStep(enc(xs[0]), Flatten(enc, rest), k, whole, []);
      }
    } else if xs != [] {
      assert xs[..0] == [];
    }
  }

  lemma CutStep(first: seq<byte>, rest: seq<byte>, k: nat, whole: seq<byte>, torn: seq<byte>)
    requires |first| <= k <= |first| + |rest| && rest[..k - |first|] == whole + torn
    ensures (first + rest)[..k] == (first + whole) + torn
    ensures torn == [] ==> (first + rest)[..k] == first + whole
  {
  }

  // ----- readers -----

  function Prepend<T, E>(xs: seq<T>, r: Result<seq<T>, E>): Result<seq<T>, E> {
    if r.Err? then r else Ok(xs + r.value)
  }

  lemma PrependNil<T, E>(r: Result<seq<T>, E>)
    ensures Prepend([], r) == r
  {
    if r.Ok? { assert [] + r.value == r.value; }
  }

  lemma PrependTwice<T, E>(a: seq<T>, b: seq<T>, r: Result<seq<T>, E>)
    ensures Prepend(a + b, r) == Prepend(a, Prepend(b, r))
  {
    if r.Ok? { assert a + b + r.value == a + (b + r.value); }
  }

  lemma PrependCancels<T, E>(xs: seq<T>, r: Result<seq<T>, E>, ys: seq<T>)
    requires Prepend(xs, r) == Ok(xs + ys)
    ensures r == Ok(ys)
  {
    assert r.value == (xs + r.value)[|xs|..];
    assert ys == (xs + ys)[|xs|..];
  }

  /** A reader that takes one frame off the front reads a run of frames in order, then the rest. */
  lemma {:induction false} ReadsInOrder<T(!new), E>(
      enc: T -> seq<byte>, fits: T -> bool, read: seq<byte> -> Result<seq<T>, E>, xs: seq<T>, rest: seq<byte>)
    requires forall x: T, more: seq<byte> | fits(x) :: read(enc(x) + more) == Prepend([x], read(more))
    requires forall i | 0 <= i < |xs| :: fits(xs[i])
    ensures read(Flatten(enc, xs) + rest) == Prepend(xs, read(rest))
  {
    if xs == [] {
      assert Flatten(enc, xs) + rest == rest;
      PrependNil(read(rest));
    } else {
      var head, tail := xs[0], xs[1..];
      ReadsInOrder(enc, fits, read, tail, rest);
      assert Flatten(enc, xs) + rest == enc(head) + (Flatten(enc, tail) + rest);
      PrependTwice([head], tail, read(rest));
      assert [head] + tail == xs;
    }
  }
}
