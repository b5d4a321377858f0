/**
 Index construction (`load_all_embeddings`): what the scan of the photo store
 yields for each folder, what it writes back to the store, and the dict it
 returns. The imperative scan itself is `FaceEngine.Engine.LoadAllEmbeddings`.
 */
module IndexBuilder {
  import opened Wrappers
  import opened Gallery
  import opened Photos

  /** The patterns tried for a folder without a stored embedding, in order: "*.jpg", "*.jpeg", "*.png". */
  const ImagePatterns: seq<Pattern> := [Pattern("", ".jpg"), Pattern("", ".jpeg"), Pattern("", ".png")]

  /** The embedding of the first image, in listing order, that the extractor accepts. */
  function FirstSuccess(imgs: seq<File>, extract: Extractor): Option<Embedding>
  {
    if imgs == [] then None
    else match extract(imgs[0].content)
      case Some(v) => Some(v)
      case None => FirstSuccess(imgs[1..], extract)
  }

  /** The first success among the files a pattern matches. */
  function PatternHit(files: seq<File>, p: Pattern, extract: Extractor): Option<Embedding>
  {
    FirstSuccess(Glob(files, p), extract)
  }

  /**
   What the pattern loop leaves for a folder with no stored embedding. The
   `break` leaves only the image loop, so every pattern is tried and the first
   success under the LAST pattern that has one wins.
   */
  function LastPatternHit(files: seq<File>, pats: seq<Pattern>, extract: Extractor): Option<Embedding>
  {
    if pats == [] then None
    else match PatternHit(files, pats[|pats| - 1], extract)
      case Some(v) => Some(v)
      case None => LastPatternHit(files, pats[..|pats| - 1], extract)
  }

  /** The embedding a folder contributes: the stored one if present, else the one computed from its images. */
  function FolderVector(e: Entry, extract: Extractor): (r: Option<Embedding>)
    requires e.Folder?
    ensures e.stored.Some? ==> r == e.stored
  {
    if e.stored.Some? then e.stored else LastPatternHit(e.files, ImagePatterns, extract)
  }

  /** A folder as the scan leaves it on disk: a computed embedding has been saved as its `embedding.npy`. */
  function Saved(e: Entry, extract: Extractor): (r: Entry)
    ensures r.name == e.name && r.Folder? == e.Folder?
    ensures e.Folder? ==> r.files == e.files && (e.stored.Some? ==> r.stored == e.stored)
  {
    if e.Folder? && e.stored.None? then e.(stored := LastPatternHit(e.files, ImagePatterns, extract)) else e
  }

  /** The photo store after a scan. */
  function Persisted(es: seq<Entry>, extract: Extractor): (r: seq<Entry>)
    ensures |r| == |es|
  {
    seq(|es|, i requires 0 <= i < |es| => Saved(es[i], extract))
  }

  /** The dict after the scan has handled one more root entry. */
  function AddEntry(ix: Index, e: Entry, extract: Extractor): Index
  {
    if e.Plain? then ix
    else match FolderVector(e, extract)
      case None => ix
      case Some(v) => Put(ix, e.name, v)
  }

  /** The dict `load_all_embeddings` returns for the root listing es. */
  function BuildSpec(es: seq<Entry>, extract: Extractor): (r: Index)
    ensures |r| <= |es|
  {
    if es == [] then [] else AddEntry(BuildSpec(es[..|es| - 1], extract), es[|es| - 1], extract)
  }

  /** The first success is the embedding of an accepted image preceded only by rejected ones; none means every image is rejected. */
  lemma {:induction false} FirstSuccessSpec(imgs: seq<File>, extract: Extractor)
    ensures FirstSuccess(imgs, extract).Some? ==>
      exists k :: 0 <= k < |imgs| && extract(imgs[k].content) == FirstSuccess(imgs, extract) &&
        forall j :: 0 <= j < k ==> extract(imgs[j].content).None?
    ensures FirstSuccess(imgs, extract).None? <==> forall k :: 0 <= k < |imgs| ==> extract(imgs[k].content).None?
  {
    if imgs != [] {
      FirstSuccessSpec(imgs[1..], extract);
      if extract(imgs[0].content).None? {
        if FirstSuccess(imgs, extract).Some? {
          var k :| 0 <= k < |imgs[1..]| && extract(imgs[1..][k].content) == FirstSuccess(imgs, extract) &&
            forall j :: 0 <= j < k ==> extract(imgs[1..][j].content).None?;
          assert forall j :: 0 <= j < k + 1 ==> extract(imgs[j].content).None? by {
            forall j | 0 < j < k + 1 ensures extract(imgs[j].content).None? {
              assert imgs[j] == imgs[1..][j - 1];
            }
          }
          assert extract(imgs[k + 1].content) == FirstSuccess(imgs, extract);
        }
        assert forall k :: 0 < k < |imgs| ==> imgs[k] == imgs[1..][k - 1];
      }
    }
  }

  /** Pattern p yields r, and no later pattern yields anything. */
  predicate LastHitAt(files: seq<File>, pats: seq<Pattern>, extract: Extractor, p: int, r: Option<Embedding>)
  {
    && 0 <= p < |pats|
    && PatternHit(files, pats[p], extract) == r
    && forall p' :: p < p' < |pats| ==> PatternHit(files, pats[p'], extract).None?
  }

  /** A result of the pattern loop is the first success under a pattern after which no pattern has a success. */
  lemma {:induction false} LastPatternHitFound(files: seq<File>, pats: seq<Pattern>, extract: Extractor)
    ensures LastPatternHit(files, pats, extract).Some? ==>
      exists p :: LastHitAt(files, pats, extract, p, LastPatternHit(files, pats, extract))
  {
    if pats != [] {
      var n := |pats| - 1;
      var init := pats[..n];
      var r := LastPatternHit(files, pats, extract);
      if PatternHit(files, pats[n], extract).Some? {
        assert LastHitAt(files, pats, extract, n, r);
      } else if r.Some? {
        assert r == LastPatternHit(files, init, extract);
        LastPatternHitFound(files, init, extract);
        var p :| LastHitAt(files, init, extract, p, r);
        assert forall p' :: 0 <= p' < n ==> init[p'] == pats[p'];
        assert LastHitAt(files, pats, extract, p, r);
      }
    }
  }

  /** The pattern loop finds nothing exactly when no pattern has a success. */
  lemma {:induction false} LastPatternHitNone(files: seq<File>, pats: seq<Pattern>, extract: Extractor)
    ensures LastPatternHit(files, pats, extract).None? <==>
      forall p :: 0 <= p < |pats| ==> PatternHit(files, pats[p], extract).None?
  {
    if pats != [] {
      var n := |pats| - 1;
      var init := pats[..n];
      LastPatternHitNone(files, init, extract);
      assert forall p :: 0 <= p < n ==> init[p] == pats[p];
    }
  }

  /**
   A folder without a stored embedding gets one exactly when some image matching
   one of the patterns is accepted by the extractor, and the one it gets is the
   extractor's result for such an image.
   */
  lemma FolderVectorFound(e: Entry, extract: Extractor)
    requires e.Folder? && e.stored.None?
    ensures FolderVector(e, extract).Some? <==>
      exists f, i :: f in e.files && 0 <= i < |ImagePatterns| && Matches(f.name, ImagePatterns[i]) && extract(f.content).Some?
    ensures FolderVector(e, extract).Some? ==>
      exists f, i :: f in e.files && 0 <= i < |ImagePatterns| && Matches(f.name, ImagePatterns[i]) && extract(f.content) == FolderVector(e, extract)
  {
    LastPatternHitNone(e.files, ImagePatterns, extract);
    if FolderVector(e, extract).Some? {
      FolderVectorFromImage(e, extract);
      var i :| 0 <= i < |ImagePatterns| && PatternHit(e.files, ImagePatterns[i], extract).Some?;
      var g := Glob(e.files, ImagePatterns[i]);
      FirstSuccessSpec(g, extract);
      var k :| 0 <= k < |g| && extract(g[k].content).Some?;
      GlobHas(e.files, ImagePatterns[i], g[k]);
    } else {
      forall f, i | f in e.files && 0 <= i < |ImagePatterns| && Matches(f.name, ImagePatterns[i])
        ensures extract(f.content).None?
      {
        var g := Glob(e.files, ImagePatterns[i]);
        FirstSuccessSpec(g, extract);
        GlobHas(e.files, ImagePatterns[i], f);
        var k :| 0 <= k < |g| && g[k] == f;
      }
    }
  }

  lemma FolderVectorFromImage(e: Entry, extract: Extractor)
    requires e.Folder? && e.stored.None? && FolderVector(e, extract).Some?
    ensures exists f, i :: f in e.files && 0 <= i < |ImagePatterns| && Matches(f.name, ImagePatterns[i]) && extract(f.content) == FolderVector(e, extract)
  {
    var r := FolderVector(e, extract);
    LastPatternHitFound(e.files, ImagePatterns, extract);
    var p :| LastHitAt(e.files, ImagePatterns, extract, p, r);
    var g := Glob(e.files, ImagePatterns[p]);
    FirstSuccessSpec(g, extract);
    var k :| 0 <= k < |g| && extract(g[k].content) == r;
    GlobHas(e.files, ImagePatterns[p], g[k]);
  }

  /**
   The overwrite quirk: a folder with an accepted "a.jpg" and an accepted
   "b.png" is indexed under the PNG's embedding, not the JPEG's.
   */
  lemma LaterPatternOverrides()
    ensures var e := Folder("JSWIRZ001", [File("a.jpg", [1]), File("b.png", [2])], None);
            var extract := (b: Blob) => if b == [1] then Some([1.0]) else if b == [2] then Some([2.0]) else None;
            PatternHit(e.files, ImagePatterns[0], extract) == Some([1.0]) &&
            FolderVector(e, extract) == Some([2.0])
  {
    var files := [File("a.jpg", [1]), File("b.png", [2])];
    assert Matches("a.jpg", Pattern("", ".jpg"));
    assert !Matches("b.png", Pattern("", ".jpg"));
    assert !Matches("a.jpg", Pattern("", ".png"));
    assert Matches("b.png", Pattern("", ".png"));
    assert Glob(files, ImagePatterns[2]) == [File("b.png", [2])];
    assert Glob(files, ImagePatterns[0]) == [File("a.jpg", [1])];
  }

  /** Only folders enter the dict; the keys are distinct folder names. */
  lemma {:induction false} BuildSpecKeys(es: seq<Entry>, extract: Extractor)
    ensures KeysDistinct(BuildSpec(es, extract))
    ensures forall k :: k in Keys(BuildSpec(es, extract)) ==>
      exists i :: 0 <= i < |es| && es[i].Folder? && es[i].name == k
  {
    if es != [] {
      var p := es[..|es| - 1];
      BuildSpecKeys(p, extract);
      var e := es[|es| - 1];
      if e.Folder? && FolderVector(e, extract).Some? {
        PutKeepsKeysDistinct(BuildSpec(p, extract), e.name, FolderVector(e, extract).value);
      }
      assert forall i :: 0 <= i < |p| ==> p[i] == es[i];
    }
  }

  /**
   In the dict built from a listing with distinct names, a folder's name maps to
   exactly the embedding the folder contributes (its stored one if present) and
   a name that is not a folder has no entry.
   */
  lemma {:induction false} BuildSpecLookup(es: seq<Entry>, extract: Extractor, i: nat)
    requires NamesDistinct(es) && i < |es|
    ensures Lookup(BuildSpec(es, extract), es[i].name) ==
      if es[i].Folder? then FolderVector(es[i], extract) else None
  {
    var p := es[..|es| - 1];
    var e := es[|es| - 1];
    var b := BuildSpec(p, extract);
    if e.Folder? && FolderVector(e, extract).Some? {
      LookupPut(b, e.name, FolderVector(e, extract).value, es[i].name);
    }
    if i < |es| - 1 {
      assert p[i] == es[i];
      BuildSpecLookup(p, extract, i);
    } else {
      BuildSpecAbsent(p, extract, e.name);
    }
  }

  /** A name that no folder of the listing carries is not a key of the dict. */
  lemma BuildSpecAbsent(es: seq<Entry>, extract: Extractor, k: Identity)
    requires forall i :: 0 <= i < |es| ==> es[i].name != k
    ensures Lookup(BuildSpec(es, extract), k).None?
  {
    BuildSpecKeys(es, extract);
  }

  /** A stored embedding is used as it is: the extractor plays no part for that folder. */
  lemma StoredEmbeddingUsed(es: seq<Entry>, extract: Extractor, i: nat)
    requires NamesDistinct(es) && i < |es| && es[i].Folder? && es[i].stored.Some?
    ensures forall other: Extractor :: Lookup(BuildSpec(es, other), es[i].name) == es[i].stored
  {
    forall other: Extractor
      ensures Lookup(BuildSpec(es, other), es[i].name) == es[i].stored
    {
      BuildSpecLookup(es, other, i);
    }
  }

  lemma PersistedKeepsValid(es: seq<Entry>, extract: Extractor)
    requires StoreValid(es)
    ensures StoreValid(Persisted(es, extract))
  {
  }

  lemma PersistedPrefix(es: seq<Entry>, extract: Extractor, n: nat)
    requires n <= |es|
    ensures Persisted(es, extract)[..n] == Persisted(es[..n], extract)
  {
  }

  /**
   The store is the source of truth: a rebuild from the store a scan has written
   gives the same dict again.
   */
  lemma {:induction false} RebuildIsStable(es: seq<Entry>, extract: Extractor)
    ensures BuildSpec(Persisted(es, extract), extract) == BuildSpec(es, extract)
  {
    if es != [] {
      var n := |es| - 1;
      var ps := Persisted(es, extract);
      PersistedPrefix(es, extract, n);
      assert ps[..n] == Persisted(es[..n], extract);
      RebuildIsStable(es[..n], extract);
      var e := es[n];
      if e.Folder? {
        assert FolderVector(ps[n], extract) == FolderVector(e, extract);
      }
    }
  }

  /** A folder whose embedding the scan found is saved with that embedding. */
  lemma SavedKeepsVector(e: Entry, extract: Extractor)
    requires e.Folder? && FolderVector(e, extract).Some?
    ensures Saved(e, extract).Folder? && Saved(e, extract).stored == FolderVector(e, extract)
  {
  }

  /** Saving embeddings renames nothing. */
  lemma PersistedNamesDistinct(es: seq<Entry>, extract: Extractor)
    requires NamesDistinct(es)
    ensures NamesDistinct(Persisted(es, extract))
  {
    var ps := Persisted(es, extract);
    forall j | 0 <= j < |es|
      ensures ps[j].name == es[j].name
    {
      assert ps[j] == Saved(es[j], extract);
    }
  }

  /**
   The index is never the only copy of an embedding: after a scan every indexed
   embedding is stored in its folder, so a later rebuild keeps it whatever the
   extractor then does.
   */
  lemma IndexedEmbeddingsAreStored(es: seq<Entry>, extract: Extractor, later: Extractor, i: nat)
    requires NamesDistinct(es) && i < |es|
    requires Lookup(BuildSpec(es, extract), es[i].name).Some?
    ensures Persisted(es, extract)[i].Folder?
    ensures Persisted(es, extract)[i].stored == Lookup(BuildSpec(es, extract), es[i].name)
    ensures Lookup(BuildSpec(Persisted(es, extract), later), es[i].name) == Lookup(BuildSpec(es, extract), es[i].name)
  {
    var ps := Persisted(es, extract);
    var v := Lookup(BuildSpec(es, extract), es[i].name);
    assert es[i].Folder? && v == FolderVector(es[i], extract) by {
      BuildSpecLookup(es, extract, i);
    }
    assert ps[i] == Saved(es[i], extract);
    SavedKeepsVector(es[i], extract);
    PersistedNamesDistinct(es, extract);
    assert Lookup(BuildSpec(ps, later), es[i].name) == v by {
      BuildSpecLookup(ps, later, i);
    }
  }
}
