/**
 Registration aggregation: the embeddings extracted from an employee's captured
 images and their component-wise mean (`np.mean(vectors, axis=0)`), with the
 optional scaling by the inverse norm that `generate_employee_embedding` applies.
 */
module Aggregation {
  import opened Wrappers
  import opened Gallery
  import opened Photos

  /** The length of a Facenet embedding. */
  const FacenetDim: nat := 128

  /** The 1e-10 added to the norm before dividing by it. */
  const NormEpsilon: real := 0.0000000001

  /** The extractor yields vectors of one fixed length, as a Facenet model does. */
  ghost predicate FixedDim(extract: Extractor)
  {
    forall b :: extract(b).Some? ==> |extract(b).value| == FacenetDim
  }

  predicate AllDim(vs: seq<Embedding>, dim: nat)
  {
    forall i :: 0 <= i < |vs| ==> |vs[i]| == dim
  }

  /** The embeddings of the accepted images, in order; rejected images contribute nothing. */
  function Successes(imgs: seq<File>, extract: Extractor): (r: seq<Embedding>)
    ensures |r| <= |imgs|
  {
    if imgs == [] then []
    else
      Successes(imgs[..|imgs| - 1], extract) +
      match extract(imgs[|imgs| - 1].content)
      case Some(v) => [v]
      case None => []
  }

  /**
   Successes distributes over concatenation: the images are filtered one by one, in
   order, so each accepted image contributes its embedding exactly once.
   */
  lemma {:induction false} SuccessesAppend(a: seq<File>, b: seq<File>, extract: Extractor)
    ensures Successes(a + b, extract) == Successes(a, extract) + Successes(b, extract)
  {
    if b == [] {
      assert a + b == a;
    } else {
      var b' := b[..|b| - 1];
      SuccessesAppend(a, b', extract);
      assert (a + b)[..|a + b| - 1] == a + b';
      assert (a + b)[|a + b| - 1] == b[|b| - 1];
    }
  }

  /** The loop that calls the extractor on every image and keeps each embedding it returns. */
  method CollectVectors(images: seq<File>, extract: Extractor) returns (vectors: seq<Embedding>)
    ensures vectors == Successes(images, extract)
  {
    vectors := [];
    for i := 0 to |images|
      invariant vectors == Successes(images[..i], extract)
    {
      assert images[..i + 1][..i] == images[..i];
      var emb := extract(images[i].content);
      if emb.Some? {
        vectors := vectors + [emb.value];
      }
    }
    assert images[..|images|] == images;
  }

  /** No embedding survives exactly when the extractor rejects every image. */
  lemma {:induction false} SuccessesEmpty(imgs: seq<File>, extract: Extractor)
    ensures Successes(imgs, extract) == [] <==> forall i :: 0 <= i < |imgs| ==> extract(imgs[i].content).None?
  {
    if imgs != [] {
      var p := imgs[..|imgs| - 1];
      SuccessesEmpty(p, extract);
      assert forall i :: 0 <= i < |p| ==> p[i] == imgs[i];
    }
  }

  /** Every kept embedding is the extractor's result for one of the images, so all share the extractor's length. */
  lemma {:induction false} SuccessesFromImages(imgs: seq<File>, extract: Extractor)
    ensures forall v :: v in Successes(imgs, extract) ==> exists i :: 0 <= i < |imgs| && extract(imgs[i].content) == Some(v)
    ensures FixedDim(extract) ==> AllDim(Successes(imgs, extract), FacenetDim)
  {
    if imgs != [] {
      var p := imgs[..|imgs| - 1];
      SuccessesFromImages(p, extract);
      forall v | v in Successes(imgs, extract)
        ensures exists i :: 0 <= i < |imgs| && extract(imgs[i].content) == Some(v)
      {
        if v in Successes(p, extract) {
          var i :| 0 <= i < |p| && extract(p[i].content) == Some(v);
          assert imgs[i] == p[i];
        } else {
          assert extract(imgs[|imgs| - 1].content) == Some(v);
        }
      }
      if FixedDim(extract) {
        forall i | 0 <= i < |Successes(imgs, extract)|
          ensures |Successes(imgs, extract)[i]| == FacenetDim
        {
          var v := Successes(imgs, extract)[i];
          assert v in Successes(imgs, extract);
          var j :| 0 <= j < |imgs| && extract(imgs[j].content) == Some(v);
        }
      }
    }
  }

  /** The positions of the images the extractor accepts. */
  ghost function AcceptedAt(imgs: seq<File>, extract: Extractor): set<nat>
  {
    set i: nat | i < |imgs| && extract(imgs[i].content).Some?
  }

  /** One more image adds its position to the accepted ones exactly when the extractor accepts it. */
  lemma AcceptedAtLast(imgs: seq<File>, extract: Extractor)
    requires imgs != []
    ensures var n := |imgs| - 1;
      && n !in AcceptedAt(imgs[..n], extract)
      && AcceptedAt(imgs, extract) ==
        AcceptedAt(imgs[..n], extract) + if extract(imgs[n].content).Some? then {n} else {}
  {
    var n := |imgs| - 1;
    assert forall i :: 0 <= i < n ==> imgs[..n][i] == imgs[i];
  }

  /** There is one kept embedding per accepted image, equal embeddings counted separately. */
  lemma {:induction false} SuccessesCount(imgs: seq<File>, extract: Extractor)
    ensures |Successes(imgs, extract)| == |AcceptedAt(imgs, extract)|
  {
    if imgs != [] {
      SuccessesCount(imgs[..|imgs| - 1], extract);
      AcceptedAtLast(imgs, extract);
    }
  }

  /** Each accepted image's embedding is kept. */
  lemma {:induction false} SuccessesKeepEach(imgs: seq<File>, extract: Extractor)
    ensures forall i :: 0 <= i < |imgs| && extract(imgs[i].content).Some? ==>
      extract(imgs[i].content).value in Successes(imgs, extract)
  {
    if imgs != [] {
      var n := |imgs| - 1;
      var p := imgs[..n];
      SuccessesKeepEach(p, extract);
      assert forall i :: 0 <= i < n ==> p[i] == imgs[i];
    }
  }

  /**
   No accepted image is dropped: each one's embedding is kept, and there is one
   kept embedding per accepted image, equal embeddings counted separately.
   */
  lemma SuccessesKeepAll(imgs: seq<File>, extract: Extractor)
    ensures |Successes(imgs, extract)| == |AcceptedAt(imgs, extract)|
    ensures forall i :: 0 <= i < |imgs| && extract(imgs[i].content).Some? ==>
      extract(imgs[i].content).value in Successes(imgs, extract)
  {
    SuccessesCount(imgs, extract);
    SuccessesKeepEach(imgs, extract);
  }

  function Zeros(dim: nat): (r: Embedding)
    ensures |r| == dim
  {
    seq(dim, _ => 0.0)
  }

  function Add(a: Embedding, b: Embedding): (r: Embedding)
    requires |a| == |b|
    ensures |r| == |a|
  {
    seq(|a|, k requires 0 <= k < |a| => a[k] + b[k])
  }

  function Scale(a: Embedding, c: real): (r: Embedding)
    ensures |r| == |a|
  {
    seq(|a|, k requires 0 <= k < |a| => a[k] * c)
  }

  /** The sum of component k over all vectors. */
  function ColumnSum(vs: seq<Embedding>, k: nat): real
    requires forall i :: 0 <= i < |vs| ==> k < |vs[i]|
  {
    if vs == [] then 0.0 else ColumnSum(vs[..|vs| - 1], k) + vs[|vs| - 1][k]
  }

  /** The mean of component k over non-empty vs: the column sum times one over the count. */
  function ColumnMean(vs: seq<Embedding>, k: nat): real
    requires |vs| > 0 && forall i :: 0 <= i < |vs| ==> k < |vs[i]|
  {
    ColumnSum(vs, k) * (1.0 / (|vs| as real))
  }

  function SumVec(vs: seq<Embedding>, dim: nat): (r: Embedding)
    requires AllDim(vs, dim)
    ensures |r| == dim
  {
    if vs == [] then Zeros(dim) else Add(SumVec(vs[..|vs| - 1], dim), vs[|vs| - 1])
  }

  /** `np.mean(vs, axis=0)`. */
  function Mean(vs: seq<Embedding>, dim: nat): (r: Embedding)
    requires |vs| > 0 && AllDim(vs, dim)
    ensures |r| == dim
  {
    Scale(SumVec(vs, dim), 1.0 / (|vs| as real))
  }

  /** `v / (norm + 1e-10)`, where norm is v's length, which is never negative. */
  function Normalized(v: Embedding, norm: real): (r: Embedding)
    requires norm >= 0.0
    ensures |r| == |v|
  {
    Scale(v, 1.0 / (norm + NormEpsilon))
  }

  /** One component of `v / (norm + 1e-10)`: x times one over norm + 1e-10. */
  function NormalizedComponent(x: real, norm: real): real
    requires norm >= 0.0
  {
    x * (1.0 / (norm + NormEpsilon))
  }

  /** Component k of a normalised vector. */
  lemma NormalizedAt(v: Embedding, norm: real, k: nat)
    requires norm >= 0.0 && k < |v|
    ensures Normalized(v, norm)[k] == NormalizedComponent(v[k], norm)
  {
  }

  /**
   Normalising only rescales, by a positive factor: the normalised vector points
   the same way as v, and each component keeps its sign.
   */
  lemma NormalizedIsPositiveScale(v: Embedding, norm: real)
    requires norm >= 0.0
    ensures exists c: real :: c > 0.0 && Normalized(v, norm) == Scale(v, c)
    ensures forall k :: 0 <= k < |v| ==> (Normalized(v, norm)[k] > 0.0 <==> v[k] > 0.0)
    ensures forall k :: 0 <= k < |v| ==> (Normalized(v, norm)[k] < 0.0 <==> v[k] < 0.0)
  {
    var c := 1.0 / (norm + NormEpsilon);
    assert c > 0.0;
    assert Normalized(v, norm) == Scale(v, c);
    forall k | 0 <= k < |v|
      ensures Normalized(v, norm)[k] > 0.0 <==> v[k] > 0.0
      ensures Normalized(v, norm)[k] < 0.0 <==> v[k] < 0.0
    {
      PositiveFactorKeepsSign(v[k], c);
    }
  }

  lemma PositiveFactorKeepsSign(x: real, c: real)
    requires c > 0.0
    ensures x * c > 0.0 <==> x > 0.0
    ensures x * c < 0.0 <==> x < 0.0
  {
    if x > 0.0 {
      assert x * c > 0.0;
    } else if x < 0.0 {
      assert (-x) * c > 0.0;
    }
  }

  lemma {:induction false} SumVecAt(vs: seq<Embedding>, dim: nat, k: nat)
    requires AllDim(vs, dim) && k < dim
    ensures SumVec(vs, dim)[k] == ColumnSum(vs, k)
  {
    if vs != [] {
      SumVecAt(vs[..|vs| - 1], dim, k);
    }
  }

  /** The mean is taken component by component: component k is the sum of the k-th components divided by the count. */
  lemma MeanIsComponentwise(vs: seq<Embedding>, dim: nat, k: nat)
    requires |vs| > 0 && AllDim(vs, dim) && k < dim
    ensures Mean(vs, dim)[k] == ColumnMean(vs, k)
    ensures Mean(vs, dim)[k] == ColumnSum(vs, k) / (|vs| as real)
  {
    SumVecAt(vs, dim, k);
  }

  lemma {:induction false} ColumnSumBounds(vs: seq<Embedding>, k: nat, lo: real, hi: real)
    requires forall i :: 0 <= i < |vs| ==> k < |vs[i]| && lo <= vs[i][k] <= hi
    ensures (|vs| as real) * lo <= ColumnSum(vs, k) <= (|vs| as real) * hi
  {
    if vs != [] {
      ColumnSumBounds(vs[..|vs| - 1], k, lo, hi);
    }
  }

  /** Each component of the mean lies between the smallest and the largest value of that component. */
  lemma MeanWithinBounds(vs: seq<Embedding>, dim: nat, k: nat, lo: real, hi: real)
    requires |vs| > 0 && AllDim(vs, dim) && k < dim
    requires forall i :: 0 <= i < |vs| ==> lo <= vs[i][k] <= hi
    ensures lo <= Mean(vs, dim)[k] <= hi
  {
    ColumnSumBounds(vs, k, lo, hi);
    MeanIsComponentwise(vs, dim, k);
    var n := |vs| as real;
    var s := ColumnSum(vs, k);
    assert n * lo <= s <= n * hi;
    assert s / n >= lo by {
      assert s / n * n == s;
    }
    assert s / n <= hi by {
      assert s / n * n == s;
    }
  }

  /** Averaging copies of one embedding gives that embedding back. */
  lemma MeanOfCopies(vs: seq<Embedding>, v: Embedding)
    requires |vs| > 0 && forall i :: 0 <= i < |vs| ==> vs[i] == v
    ensures Mean(vs, |v|) == v
  {
    forall k | 0 <= k < |v|
      ensures Mean(vs, |v|)[k] == v[k]
    {
      MeanWithinBounds(vs, |v|, k, v[k], v[k]);
    }
  }

  /** How an aggregation over a list of images ends. */
  datatype Outcome = NoImages | NoFaces | Computed(vector: Embedding)

  /**
   The aggregation both registration paths share: no images, then no accepted
   image, are failures; otherwise the mean of the accepted images' embeddings.
   */
  function MeanOutcome(images: seq<File>, extract: Extractor): (r: Outcome)
    requires FixedDim(extract)
    ensures r.Computed? ==> |r.vector| == FacenetDim
  {
    if images == [] then NoImages
    else
      var vectors := Successes(images, extract);
      if vectors == [] then NoFaces
      else
        SuccessesFromImages(images, extract);
        Computed(Mean(vectors, FacenetDim))
  }

  /**
   Over the files of a folder globbed with p, the failure modes come in order:
   no file matches p, then the extractor rejects every matching file.
   */
  lemma MeanOutcomeFailures(files: seq<File>, p: Pattern, extract: Extractor)
    requires FixedDim(extract)
    ensures MeanOutcome(Glob(files, p), extract) == NoImages <==>
      forall f :: f in files ==> !Matches(f.name, p)
    ensures MeanOutcome(Glob(files, p), extract) == NoFaces <==>
      && (exists f :: f in files && Matches(f.name, p))
      && (forall f :: f in files && Matches(f.name, p) ==> extract(f.content).None?)
  {
    var images := Glob(files, p);
    SuccessesEmpty(images, extract);
    if images == [] {
      forall f | f in files
        ensures !Matches(f.name, p)
      {
        GlobHas(files, p, f);
      }
    } else {
      GlobHas(files, p, images[0]);
      if forall f :: f in files && Matches(f.name, p) ==> extract(f.content).None? {
        forall i | 0 <= i < |images|
          ensures extract(images[i].content).None?
        {
          GlobHas(files, p, images[i]);
        }
      } else {
        var f :| f in files && Matches(f.name, p) && extract(f.content).Some?;
        GlobHas(files, p, f);
      }
    }
  }

  /**
   On success the vector has the extractor's length and each component is the
   mean of that component over the accepted images.
   */
  lemma MeanOutcomeVector(images: seq<File>, extract: Extractor, k: nat)
    requires FixedDim(extract) && k < FacenetDim
    requires MeanOutcome(images, extract).Computed?
    ensures var vs := Successes(images, extract);
      && |vs| > 0 && AllDim(vs, FacenetDim)
      && |MeanOutcome(images, extract).vector| == FacenetDim
      && MeanOutcome(images, extract).vector[k] == ColumnMean(vs, k)
  {
    var vs := Successes(images, extract);
    SuccessesFromImages(images, extract);
    SumVecAt(vs, FacenetDim, k);
  }
}
