/**
 Replacing a file by writing its successor whole beside it and renaming: the ages file
 (src/durability/mmap_store.rs), the record blob (src/durability/record_blob.rs) and the insert log's
 upgrade (src/generic/insert_log.rs). A crash leaves the old file or the new, with or without part of
 the new one beside it.
 */
module Rewrites {
  import opened Bytes

  /** What the directory holds: the file at the path, and the rewrite's temp file beside it. */
  datatype DirImage = DirImage(path: Option<seq<byte>>, temp: Option<seq<byte>>)

  /**
   Every state such a rewrite passes through: the temp file created empty, then grown byte by byte to
   the whole image while the path keeps its old bytes, then renamed over the path.
   */
  predicate DuringRewrite(d: DirImage, before: DirImage, image: seq<byte>) {
    || d == before
    || (d.path == before.path && d.temp.Some? && d.temp.value <= image)
    || d == DirImage(Some(image), None)
  }

  /** The directory after so many of the rewrite's writes: creating the temp file, its bytes, the rename. */
  function AfterWrites(before: DirImage, image: seq<byte>, writes: nat): DirImage {
    if writes == 0 then before
    else if writes <= |image| + 1 then DirImage(before.path, Some(image[..writes - 1]))
    else DirImage(Some(image), None)
  }

  /** Those are exactly the states a rewrite passes through. */
  lemma RewriteStates(d: DirImage, before: DirImage, image: seq<byte>)
    ensures DuringRewrite(d, before, image) <==> exists n: nat :: d == AfterWrites(before, image, n)
  {
    if DuringRewrite(d, before, image) {
      var n: nat :=
        if d == before then 0
        else if d == DirImage(Some(image), None) then |image| + 2
        else |d.temp.value| + 1;
      if d != before && d != DirImage(Some(image), None) { assert image[..|d.temp.value|] == d.temp.value; }
      assert d == AfterWrites(before, image, n);
    }
  }

  /** Those states in order, from the temp file's creation to the rename. */
  function Trace(before: DirImage, image: seq<byte>): seq<DirImage> {
    seq(|image| + 2, n requires 0 <= n => AfterWrites(before, image, n + 1))
  }

  lemma TraceEnds(before: DirImage, image: seq<byte>)
    ensures Trace(before, image) == Trace(before, image)[..|image| + 1] + [DirImage(Some(image), None)]
  {
  }

  lemma TraceIsDuring(before: DirImage, image: seq<byte>, i: nat)
    requires i < |image| + 2
    ensures DuringRewrite(Trace(before, image)[i], before, image)
  {
    RewriteStates(Trace(before, image)[i], before, image);
  }

  /** A file replaced that way, and every state its writes have passed through. */
  class RenamedFile {
    var path: Option<seq<byte>>
    var temp: Option<seq<byte>>
    ghost var seen: seq<DirImage>

    constructor (path: Option<seq<byte>>)
      ensures this.path == path && temp == None && seen == []
    {
      this.path, temp, seen := path, None, [];
    }

    ghost function Image(): DirImage
      reads this
    {
      DirImage(path, temp)
    }

    /** Leaves every state of the rewrite behind, in order. */
    method WriteViaRename(image: seq<byte>)
      modifies this
      ensures Image() == DirImage(Some(image), None)
      ensures seen == old(seen) + Trace(old(Image()), image)
    {
      var done: seq<byte> := [];
      temp := Some(done);
      seen := seen + [Image()];
      ghost var trace := Trace(old(Image()), image);
      for k := 0 to |image|
        invariant done == image[..k] && temp == Some(done) && path == old(path)
        invariant seen == old(seen) + trace[..k + 1]
      {
        done := done + [image[k]];
        temp := Some(done);
        seen := seen + [Image()];
        assert trace[..k + 2] == trace[..k + 1] + [trace[k + 1]];
      }
      assert image[..|image|] == image;
      path, temp := temp, None;
      seen := seen + [Image()];
      TraceEnds(old(Image()), image);
    }
  }
}
