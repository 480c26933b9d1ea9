/**
 The production store's constructors and calls over its two files (src/production.rs). Each does to
 the files what the step of the same name in Production says.
 */
module ProductionStores {
  import opened Bytes
  import opened Records
  import opened Rewrites
  import opened BlobHeader
  import opened RecordBlobs
  import opened Production
  import ColumnarImage
  import MmapAges
  import opened MmapAgeStores

  /** The ages file and the blob at the companion path, each with its rewrite's temp file. */
  class StoreDir {
    const ages: AgesDir
    const blob: RenamedFile

    constructor ()
      ensures fresh(ages) && ages.file == null
      ensures fresh(blob) && blob.path == None
    {
      ages := new AgesDir();
      blob := new RenamedFile(None);
    }
  }

  datatype ProductionError = AgesFile(error: ColumnarImage.OpenError) | RecordBlobUnreadable(cause: Cause)

  class ProductionStore {
    const inner: MmapAgeStore
    const built: RecordBlob

    ghost predicate Valid()
      reads inner.mmap
    {
      inner.Valid() && inner.BuiltFrom(built.records, built.edges)
    }

    /** The store's state as a value, given the blob now beside it. */
    ghost function Value(companion: Option<seq<byte>>): State
      reads inner.mmap
    {
      State(inner.mmap[..], companion, built)
    }

    constructor Wrap(inner: MmapAgeStore, built: RecordBlob)
      ensures this.inner == inner && this.built == built
    {
      this.inner, this.built := inner, built;
    }

    static method Create(blob: RecordBlob, dir: StoreDir) returns (store: ProductionStore)
      modifies dir.blob, dir.ages
      ensures fresh(store.inner.mmap) && dir.ages.file == store.inner.mmap
      ensures store.Valid() && store.Value(dir.blob.path) == CreateState(blob)
      ensures dir.blob.seen == old(dir.blob.seen) + Trace(old(dir.blob.Image()), Encode(blob))
    {
      var encoded := EncodeBlob(blob);
      var inner := MmapAgeStore.Create(blob.records, blob.edges, dir.ages);
      dir.blob.WriteViaRename(encoded);
      store := new ProductionStore.Wrap(inner, blob);
    }

    /** An ages file that does not open leaves both files as they were. */
    static method Open(blob: RecordBlob, dir: StoreDir) returns (r: Result<ProductionStore, ProductionError>)
      modifies dir.blob, dir.ages
      ensures r.Err? ==>
                && dir.blob.path == old(dir.blob.path) && dir.blob.seen == old(dir.blob.seen)
                && dir.ages.file == old(dir.ages.file)
      ensures r.Err? <==> old(dir.ages.file) == null || ColumnarImage.ReadHeader(old(dir.ages.file[..])).Some?
      ensures r.Ok? ==>
                && dir.ages.file == r.value.inner.mmap && r.value.Valid()
                && r.value.Value(dir.blob.path) == OpenState(old(dir.ages.file[..]), old(dir.blob.path), blob)
      ensures r.Ok? ==>
                dir.blob.seen == old(dir.blob.seen)
                                 + if IsCurrentAt(old(dir.blob.path), blob) then []
                                   else Trace(old(dir.blob.Image()), Encode(blob))
    {
      var replacement := Replacement(dir.blob.path, blob);
      var opening := MmapAgeStore.Open(blob.records, blob.edges, dir.ages);
      if opening.Err? {
        return Err(AgesFile(opening.error));
      }
      Refresh(dir.blob, replacement);
      var store := new ProductionStore.Wrap(opening.value, blob);
      r := Ok(store);
    }

    /** Never writes the blob. */
    static method OpenPortable(dir: StoreDir) returns (r: Result<ProductionStore, ProductionError>)
      modifies dir.ages
      ensures Read(dir.blob.path).Err? ==>
                r == Err(RecordBlobUnreadable(Read(dir.blob.path).error)) && dir.ages.file == old(dir.ages.file)
      ensures r.Err? ==> dir.ages.file == old(dir.ages.file)
      ensures r.Ok? ==>
                && old(dir.ages.file) != null && dir.ages.file == r.value.inner.mmap && r.value.Valid()
                && |old(dir.ages.file[..])| >= 12
                && Ok(r.value.Value(dir.blob.path)) == OpenPortableState(old(dir.ages.file[..]), dir.blob.path)
    {
      var reading := ReadBlob(dir.blob.path);
      if reading.Err? {
        return Err(RecordBlobUnreadable(reading.error));
      }
      var blob := reading.value;
      var opening := MmapAgeStore.Open(blob.records, blob.edges, dir.ages);
      if opening.Err? {
        return Err(AgesFile(opening.error));
      }
      var store := new ProductionStore.Wrap(opening.value, blob);
      r := Ok(store);
    }

    method UpdateAge(id: Uuid, age: u32, ghost companion: Option<seq<byte>>) returns (r: Result<(), StoreError>)
      requires Valid() && Production.Valid(Value(companion))
      modifies inner.mmap
      ensures Valid()
      ensures r == if id in Ids(built.records) then Ok(()) else Err(NotFound(id))
      ensures Value(companion) == Updated(old(Value(companion)), id, age)
    {
      r := inner.UpdateAge(id, age);
    }

    method Get(id: Uuid, ghost companion: Option<seq<byte>>) returns (r: Option<DogRecord>)
      requires Valid() && Production.Valid(Value(companion))
      ensures
        var shown := Show(Value(companion)).records;
        r == if id in shown then Some(shown[id]) else None
      ensures
        r == if id in ById(built.records) then
               Some(DogRecord(id, ById(built.records)[id].breed, MmapAges.FileAges(inner.mmap[..])[id]))
             else None
    {
      ByIdHoldsEach(built.records);
      r := inner.Get(id);
    }
  }

  /** What is to take the companion's place, if anything is. */
  method Replacement(companion: Option<seq<byte>>, blob: RecordBlob) returns (replacement: Option<seq<byte>>)
    ensures replacement == if IsCurrentAt(companion, blob) then None else Some(Encode(blob))
  {
    var current := IsCurrent(companion, blob);
    if current {
      return None;
    }
    var encoded := EncodeBlob(blob);
    replacement := Some(encoded);
  }

  method Refresh(file: RenamedFile, replacement: Option<seq<byte>>)
    modifies file
    ensures file.path == if replacement.Some? then replacement else old(file.path)
    ensures file.seen == old(file.seen) + if replacement.Some? then Trace(old(file.Image()), replacement.value) else []
  {
    if replacement.Some? {
      file.WriteViaRename(replacement.value);
    }
  }

  method EncodeBlob(blob: RecordBlob) returns (image: seq<byte>)
    ensures image == Encode(blob)
  {
    var fingerprint := ComputeFingerprint(blob);
    image := EncodeImage(RecordBlobs.MAGIC, RecordBlobs.BLOB_VERSION, fingerprint, RecordBlobs.Body(blob));
  }

  /** One pass over the records in hand and a twenty-byte read. */
  method IsCurrent(file: Option<seq<byte>>, blob: RecordBlob) returns (current: bool)
    ensures current <==> IsCurrentAt(file, blob)
  {
    if file == None || |file.value| < 20 {
      return false;
    }
    var fingerprint := ComputeFingerprint(blob);
    current := ParseHeader(file.value[..20], RecordBlobs.MAGIC, RecordBlobs.BLOB_VERSION) == Ok(fingerprint);
  }

  method ReadBlob(file: Option<seq<byte>>) returns (r: Result<RecordBlob, Cause>)
    ensures r == Read(file)
  {
    if file == None {
      return Err(CannotRead);
    }
    var header := ParseHeader(file.value, RecordBlobs.MAGIC, RecordBlobs.BLOB_VERSION);
    if header.Err? {
      return Err(header.error);
    }
    var blob := RecordBlobs.DecodeBody(file.value[20..]);
    DecodedFits(file.value[20..]);
    if blob == None {
      return Err(BodyDoesNotDecode);
    }
    var actual := ComputeFingerprint(blob.value);
    if actual != header.value {
      return Err(FingerprintMismatch(actual));
    }
    r := Ok(blob.value);
  }
}
