/**
 The stateful part of the face engine: the photo store under PHOTOS and the
 module-global INDEX, with the operations that rewrite them —
 `load_all_embeddings`, `build_index` and `generate_employee_embedding`.
 */
module FaceEngine {
  import opened Wrappers
  import opened Gallery
  import opened Photos
  import opened IndexBuilder
  import opened Aggregation

  /** The vector norm used by `np.linalg.norm`, supplied from outside: its square root is not modelled. */
  type Norm = Embedding -> real

  ghost predicate NormNonNegative(norm: Norm)
  {
    forall v :: norm(v) >= 0.0
  }

  /**
   The outcome of `generate_employee_embedding` for PHOTOS/empid: the mean over
   its "*.jpg" images, divided by the mean's norm plus 1e-10.
   */
  function EmployeeOutcome(es: seq<Entry>, empid: Identity, extract: Extractor, norm: Norm): (r: Outcome)
    requires FixedDim(extract) && NormNonNegative(norm)
    ensures r.Computed? ==> |r.vector| == FacenetDim
  {
    match MeanOutcome(Glob(FolderOf(es, empid), JpgPattern), extract)
    case Computed(avg) => Computed(Normalized(avg, norm(avg)))
    case failure => failure
  }

  /** The `(success, message)` pair returned for an outcome. */
  function Report(out: Outcome): (r: (bool, string))
    ensures r.0 <==> out.Computed?
  {
    match out
    case NoImages => (false, "No images found")
    case NoFaces => (false, "Could not compute embeddings")
    case Computed(_) => (true, "Embedding saved")
  }

  class Engine {
    /** The entries of PHOTOS, in listing order. */
    var photos: seq<Entry>
    /** The module-global INDEX. */
    var index: Index

    ghost predicate Valid()
      reads this
    {
      StoreValid(photos)
    }

    constructor (photos: seq<Entry>)
      requires StoreValid(photos)
      ensures Valid()
      ensures this.photos == photos && index == []
    {
      this.photos := photos;
      index := [];
    }

    /**
     `load_all_embeddings(PHOTOS)`: scans every root entry, reads stored
     embeddings, computes and saves the missing ones, and returns the dict.
     */
    method LoadAllEmbeddings(extract: Extractor) returns (embeddings: Index)
      requires Valid()
      modifies this`photos
      ensures Valid()
      ensures embeddings == BuildSpec(old(photos), extract)
      ensures photos == Persisted(old(photos), extract)
    {
      ghost var listing := photos;
      var n := |photos|;
      embeddings := [];
      for i := 0 to n
        invariant |photos| == |listing| == n
        invariant forall k :: 0 <= k < i ==> photos[k] == Saved(listing[k], extract)
        invariant forall k :: i <= k < n ==> photos[k] == listing[k]
        invariant embeddings == BuildSpec(listing[..i], extract)
      {
        assert listing[..i + 1][..i] == listing[..i];
        embeddings := LoadEntry(i, extract, embeddings);
      }
      assert listing[..n] == listing;
      PersistedKeepsValid(listing, extract);
    }

    /** One turn of the folder loop of `load_all_embeddings`, for the root entry at position i. */
    method LoadEntry(i: nat, extract: Extractor, embeddings: Index) returns (embeddings': Index)
      requires i < |photos|
      modifies this`photos
      ensures photos == old(photos)[i := Saved(old(photos)[i], extract)]
      ensures embeddings' == AddEntry(embeddings, old(photos)[i], extract)
    {
      embeddings' := embeddings;
      var folder := photos[i];
      if folder.Plain? {
        return;
      }
      var empid := folder.name;
      if folder.stored.Some? {
        embeddings' := Put(embeddings', empid, folder.stored.value);
        return;
      }
      ghost var outer := photos;
      for p := 0 to |ImagePatterns|
        invariant photos == outer[i := folder.(stored := LastPatternHit(folder.files, ImagePatterns[..p], extract))]
        invariant embeddings' == WithFound(embeddings, empid, LastPatternHit(folder.files, ImagePatterns[..p], extract))
      {
        assert ImagePatterns[..p + 1][..p] == ImagePatterns[..p];
        ghost var found := LastPatternHit(folder.files, ImagePatterns[..p], extract);
        if found.Some? && PatternHit(folder.files, ImagePatterns[p], extract).Some? {
          PutPut(embeddings, empid, found.value, PatternHit(folder.files, ImagePatterns[p], extract).value);
        }
        embeddings' := ScanPattern(i, Glob(folder.files, ImagePatterns[p]), extract, embeddings');
      }
      assert ImagePatterns[..|ImagePatterns|] == ImagePatterns;
    }

    /**
     The image loop for one pattern: the first image the extractor accepts has
     its embedding saved into the folder at position i and put into the dict,
     and the loop breaks.
     */
    method ScanPattern(i: nat, images: seq<File>, extract: Extractor, embeddings: Index) returns (embeddings': Index)
      requires i < |photos| && photos[i].Folder?
      modifies this`photos
      ensures match FirstSuccess(images, extract)
        case Some(v) =>
          photos == old(photos)[i := old(photos)[i].(stored := Some(v))] && embeddings' == Put(embeddings, old(photos)[i].name, v)
        case None =>
          photos == old(photos) && embeddings' == embeddings
    {
      embeddings' := embeddings;
      var j := 0;
      while j < |images|
        invariant 0 <= j <= |images|
        invariant FirstSuccess(images[j..], extract) == FirstSuccess(images, extract)
        invariant photos == old(photos)
      {
        var emb := extract(images[j].content);
        if emb.Some? {
          photos := photos[i := photos[i].(stored := emb)];
          embeddings' := Put(embeddings', photos[i].name, emb.value);
          break;
        }
        assert images[j..][1..] == images[j + 1..];
        j := j + 1;
      }
    }

    /** `build_index(PHOTOS)`: INDEX is rebound to a freshly loaded dict. */
    method BuildIndex(extract: Extractor) returns (ix: Index)
      requires Valid()
      modifies this
      ensures Valid()
      ensures ix == index == BuildSpec(old(photos), extract)
      ensures photos == Persisted(old(photos), extract)
    {
      ix := LoadAllEmbeddings(extract);
      index := ix;
    }

    /**
     `generate_employee_embedding(empid, PHOTOS)`: averages the embeddings of the
     employee's "*.jpg" images, scales the mean by its inverse norm and stores it;
     on either failure nothing is written.
     */
    method GenerateEmployeeEmbedding(empid: Identity, extract: Extractor, norm: Norm) returns (ok: bool, msg: string)
      requires Valid() && FixedDim(extract) && NormNonNegative(norm)
      modifies this`photos
      ensures Valid()
      ensures (ok, msg) == Report(EmployeeOutcome(old(photos), empid, extract, norm))
      ensures photos == match EmployeeOutcome(old(photos), empid, extract, norm)
        case Computed(v) => SetStored(old(photos), empid, v)
        case _ => old(photos)
    {
      ghost var out := EmployeeOutcome(photos, empid, extract, norm);
      var images := Glob(FolderOf(photos, empid), JpgPattern);
      if |images| == 0 {
        assert out == NoImages;
        return false, "No images found";
      }
      var vectors := CollectVectors(images, extract);
      if |vectors| == 0 {
        assert out == NoFaces;
        return false, "Could not compute embeddings";
      }
      SuccessesFromImages(images, extract);
      var avgVec := Mean(vectors, FacenetDim);
      assert MeanOutcome(images, extract) == Computed(avgVec);
      avgVec := Normalized(avgVec, norm(avgVec));
      assert out == Computed(avgVec);
      SetStoredKeepsValid(photos, empid, avgVec);
      photos := SetStored(photos, empid, avgVec);
      return true, "Embedding saved";
    }
  }

  /** The dict after the folder loop, given what it found so far. */
  function WithFound(ix: Index, k: Identity, found: Option<Embedding>): Index
  {
    match found
    case None => ix
    case Some(v) => Put(ix, k, v)
  }

  /**
   The failure modes come in order: no "*.jpg" image at all, then no image the
   extractor accepts.
   */
  lemma EmployeeOutcomeFailures(es: seq<Entry>, empid: Identity, extract: Extractor, norm: Norm)
    requires FixedDim(extract) && NormNonNegative(norm)
    ensures EmployeeOutcome(es, empid, extract, norm) == NoImages <==>
      forall f :: f in FolderOf(es, empid) ==> !Matches(f.name, JpgPattern)
    ensures EmployeeOutcome(es, empid, extract, norm) == NoFaces <==>
      && (exists f :: f in FolderOf(es, empid) && Matches(f.name, JpgPattern))
      && (forall f :: f in FolderOf(es, empid) && Matches(f.name, JpgPattern) ==> extract(f.content).None?)
  {
    MeanOutcomeFailures(FolderOf(es, empid), JpgPattern, extract);
  }

  /**
   On success the folder's "*.jpg" images yield accepted embeddings; component k
   of their mean is the sum of their k-th components over their count, and
   component k of the stored vector is that mean component divided by the
   mean's norm plus 1e-10.
   */
  lemma EmployeeOutcomeVector(es: seq<Entry>, empid: Identity, extract: Extractor, norm: Norm, k: nat)
    requires FixedDim(extract) && NormNonNegative(norm) && k < FacenetDim
    requires EmployeeOutcome(es, empid, extract, norm).Computed?
    ensures MeanOutcome(Glob(FolderOf(es, empid), JpgPattern), extract).Computed?
    ensures var vs := Successes(Glob(FolderOf(es, empid), JpgPattern), extract);
      |vs| > 0 && AllDim(vs, FacenetDim)
    ensures |EmployeeOutcome(es, empid, extract, norm).vector| == FacenetDim
    ensures var imgs := Glob(FolderOf(es, empid), JpgPattern);
      var vs := Successes(imgs, extract);
      MeanOutcome(imgs, extract).vector[k] == ColumnMean(vs, k)
    ensures var avg := MeanOutcome(Glob(FolderOf(es, empid), JpgPattern), extract).vector;
      EmployeeOutcome(es, empid, extract, norm).vector[k] == NormalizedComponent(avg[k], norm(avg))
  {
    var imgs := Glob(FolderOf(es, empid), JpgPattern);
    var vs := Successes(imgs, extract);
    var avg := MeanOutcome(imgs, extract).vector;
    assert |vs| > 0 && AllDim(vs, FacenetDim) && avg[k] == ColumnMean(vs, k) by {
      MeanOutcomeVector(imgs, extract, k);
    }
    assert EmployeeOutcome(es, empid, extract, norm).vector[k] == NormalizedComponent(avg[k], norm(avg)) by {
      StoredComponent(EmployeeOutcome(es, empid, extract, norm), avg, norm(avg), k);
    }
  }

  lemma StoredComponent(out: Outcome, avg: Embedding, n: real, k: nat)
    requires n >= 0.0 && k < |avg| && out == Computed(Normalized(avg, n))
    ensures out.vector[k] == NormalizedComponent(avg[k], n)
  {
    NormalizedAt(avg, n, k);
  }

  /**
   The stored vector points the same way as the unnormalised mean of the
   folder's "*.jpg" embeddings: it is that mean times a positive factor.
   */
  lemma EmployeeOutcomeIsPositiveScale(es: seq<Entry>, empid: Identity, extract: Extractor, norm: Norm)
    requires FixedDim(extract) && NormNonNegative(norm)
    requires EmployeeOutcome(es, empid, extract, norm).Computed?
    ensures MeanOutcome(Glob(FolderOf(es, empid), JpgPattern), extract).Computed?
    ensures exists c: real ::
      && c > 0.0
      && EmployeeOutcome(es, empid, extract, norm).vector ==
           Scale(MeanOutcome(Glob(FolderOf(es, empid), JpgPattern), extract).vector, c)
  {
    var avg := MeanOutcome(Glob(FolderOf(es, empid), JpgPattern), extract).vector;
    NormalizedIsPositiveScale(avg, norm(avg));
  }

  /**
   Registration followed by a rebuild: once the aggregated vector v is stored for
   empid, the rebuilt index maps empid to v, whatever the extractor does, and
   every other key maps to what it mapped to before.
   */
  lemma RegisteredEmployeeIsIndexed(es: seq<Entry>, empid: Identity, extract: Extractor, norm: Norm, later: Extractor, other: Identity)
    requires StoreValid(es) && FixedDim(extract) && NormNonNegative(norm)
    requires EmployeeOutcome(es, empid, extract, norm).Computed?
    ensures var v := EmployeeOutcome(es, empid, extract, norm).vector;
      && Lookup(BuildSpec(SetStored(es, empid, v), later), empid) == Some(v)
      && (other != empid ==> Lookup(BuildSpec(SetStored(es, empid, v), later), other) == Lookup(BuildSpec(es, later), other))
  {
    var v := EmployeeOutcome(es, empid, extract, norm).vector;
    var es' := SetStored(es, empid, v);
    SetStoredKeepsValid(es, empid, v);
    assert FolderOf(es, empid) != [];
    var i :| 0 <= i < |es| && es[i].Folder? && es[i].name == empid;
    BuildSpecLookup(es', later, i);
    if other != empid {
      if j :| 0 <= j < |es| && es[j].name == other {
        BuildSpecLookup(es', later, j);
        BuildSpecLookup(es, later, j);
      } else {
        BuildSpecAbsent(es, later, other);
        BuildSpecAbsent(es', later, other);
      }
    }
  }
}
