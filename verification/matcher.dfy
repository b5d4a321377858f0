/**
 Nearest-match selection (`match_embedding`): a linear scan of the index for
 the entry most similar to a query, then a threshold decision.
 */
module Matcher {
  import opened Wrappers
  import opened Gallery

  /**
   The similarity of a reference embedding and a query (`cosine_sim(ref, query)`),
   kept abstract: its norms need square roots and floating point.
   */
  type Similarity = (Embedding, Embedding) -> real

  /** The default `threshold` of `match_embedding`. */
  const DefaultThreshold: real := 0.75

  /** The score the scan starts from, and the score reported for an empty index. */
  const FloorScore: real := -1.0

  /** The pair `(best_emp, best_score)`. */
  datatype MatchResult = MatchResult(who: Option<Identity>, score: real)

  /** The pair `(best_emp, best_score)` once the loop has visited the entries of ix in order. */
  function Scan(ix: Index, q: Embedding, sim: Similarity): (r: MatchResult)
    ensures r.score >= FloorScore
    ensures r.who.None? <==> r.score == FloorScore
  {
    if ix == [] then MatchResult(None, FloorScore)
    else
      var prev := Scan(ix[..|ix| - 1], q, sim);
      var s := sim(ix[|ix| - 1].1, q);
      if s > prev.score then MatchResult(Some(ix[|ix| - 1].0), s) else prev
  }

  /** What `match_embedding(ix, q, threshold)` returns. */
  function Match(ix: Index, q: Embedding, sim: Similarity, threshold: real): (r: MatchResult)
    ensures r.score >= FloorScore
    ensures r.who.Some? ==> r.score >= threshold && r.score > FloorScore
  {
    var best := Scan(ix, q, sim);
    if best.score >= threshold then best else MatchResult(None, best.score)
  }

  /** Entry i attains score s and is the first to do so: every earlier entry scores strictly less. */
  predicate FirstBest(ix: Index, q: Embedding, sim: Similarity, i: int, s: real)
  {
    && 0 <= i < |ix|
    && sim(ix[i].1, q) == s
    && forall j :: 0 <= j < i ==> sim(ix[j].1, q) < s
  }

  method MatchEmbedding(index: Index, emb: Embedding, sim: Similarity, threshold: real)
    returns (who: Option<Identity>, score: real)
    ensures MatchResult(who, score) == Match(index, emb, sim, threshold)
  {
    var bestEmp: Option<Identity> := None;
    var bestScore := FloorScore;
    for i := 0 to |index|
      invariant MatchResult(bestEmp, bestScore) == Scan(index[..i], emb, sim)
    {
      assert index[..i + 1][..i] == index[..i];
      var (empid, refEmb) := index[i];
      var s := sim(refEmb, emb);
      if s > bestScore {
        bestScore := s;
        bestEmp := Some(empid);
      }
    }
    assert index[..|index|] == index;
    if bestScore >= threshold {
      return bestEmp, bestScore;
    }
    return None, bestScore;
  }

  /** The scan's score is the maximum of -1 and every entry's score. */
  lemma {:induction false} ScanIsMaximum(ix: Index, q: Embedding, sim: Similarity)
    ensures Scan(ix, q, sim).score >= FloorScore
    ensures forall i :: 0 <= i < |ix| ==> sim(ix[i].1, q) <= Scan(ix, q, sim).score
    ensures Scan(ix, q, sim).score == FloorScore ||
            exists i :: 0 <= i < |ix| && sim(ix[i].1, q) == Scan(ix, q, sim).score
  {
    if ix != [] {
      var p := ix[..|ix| - 1];
      ScanIsMaximum(p, q, sim);
      assert forall i :: 0 <= i < |p| ==> p[i] == ix[i];
    }
  }

  /**
   The scan names the first entry with the maximal score, because an entry
   replaces the best only with a strictly greater score; it names nobody
   exactly when no entry scores above -1, and then its score is -1.
   */
  lemma {:induction false} ScanPicksFirstBest(ix: Index, q: Embedding, sim: Similarity)
    ensures Scan(ix, q, sim).who.Some? ==>
      exists i :: FirstBest(ix, q, sim, i, Scan(ix, q, sim).score) && ix[i].0 == Scan(ix, q, sim).who.value
    ensures Scan(ix, q, sim).who.None? <==> forall i :: 0 <= i < |ix| ==> sim(ix[i].1, q) <= FloorScore
    ensures Scan(ix, q, sim).who.None? ==> Scan(ix, q, sim).score == FloorScore
  {
    if ix != [] {
      var p := ix[..|ix| - 1];
      var last := |ix| - 1;
      ScanPicksFirstBest(p, q, sim);
      ScanIsMaximum(p, q, sim);
      assert forall i :: 0 <= i < |p| ==> p[i] == ix[i];
      var prev := Scan(p, q, sim);
      if sim(ix[last].1, q) > prev.score {
        assert FirstBest(ix, q, sim, last, Scan(ix, q, sim).score);
      } else if prev.who.Some? {
        var i :| FirstBest(p, q, sim, i, prev.score) && p[i].0 == prev.who.value;
        assert FirstBest(ix, q, sim, i, prev.score);
      }
    }
  }

  /** Matching against an empty index gives `(None, -1)`. */
  lemma MatchEmptyIndex(q: Embedding, sim: Similarity, threshold: real)
    ensures Match([], q, sim, threshold) == MatchResult(None, FloorScore)
  {
  }

  /** The returned score is the maximum of -1 and the scores of all entries, whether or not an identity is returned. */
  lemma MatchScoreIsBest(ix: Index, q: Embedding, sim: Similarity, threshold: real)
    ensures Match(ix, q, sim, threshold).score >= FloorScore
    ensures forall i :: 0 <= i < |ix| ==> sim(ix[i].1, q) <= Match(ix, q, sim, threshold).score
    ensures Match(ix, q, sim, threshold).score == FloorScore ||
            exists i :: 0 <= i < |ix| && sim(ix[i].1, q) == Match(ix, q, sim, threshold).score
  {
    ScanIsMaximum(ix, q, sim);
  }

  /**
   A returned identity is a key of the index, held by the earliest entry with the
   maximal score; in a dict (distinct keys) the score is that key's own score.
   */
  lemma MatchIdentityIsFirstBest(ix: Index, q: Embedding, sim: Similarity, threshold: real)
    ensures var r := Match(ix, q, sim, threshold);
      r.who.Some? ==>
        && r.who.value in Keys(ix)
        && r.score >= threshold
        && (exists i :: FirstBest(ix, q, sim, i, r.score) && ix[i].0 == r.who.value)
        && (KeysDistinct(ix) ==> r.score == sim(Lookup(ix, r.who.value).value, q))
  {
    var r := Match(ix, q, sim, threshold);
    ScanPicksFirstBest(ix, q, sim);
    if r.who.Some? {
      var i :| FirstBest(ix, q, sim, i, r.score) && ix[i].0 == r.who.value;
      KeysAt(ix, r.who.value);
      if KeysDistinct(ix) {
        LookupAt(ix, i);
      }
    }
  }

  /**
   An identity is returned exactly when the best score reaches the threshold and
   some entry scores above -1; with a threshold above -1 (such as the default
   0.75) that is exactly when the best score reaches the threshold. Otherwise
   the result is `None` with the best score.
   */
  lemma MatchAcceptsIffThreshold(ix: Index, q: Embedding, sim: Similarity, threshold: real)
    ensures var r := Match(ix, q, sim, threshold);
      && (r.who.Some? <==> r.score >= threshold && r.score > FloorScore)
      && (threshold > FloorScore ==> (r.who.Some? <==> r.score >= threshold))
      && r.score == Scan(ix, q, sim).score
  {
    ScanPicksFirstBest(ix, q, sim);
    ScanIsMaximum(ix, q, sim);
  }

  /** At the default threshold of 0.75 someone is named exactly when the best score reaches 0.75. */
  lemma MatchAtDefaultThreshold(ix: Index, q: Embedding, sim: Similarity)
    ensures var r := Match(ix, q, sim, DefaultThreshold);
      && (r.who.Some? <==> r.score >= DefaultThreshold)
      && r.score == Scan(ix, q, sim).score
  {
    MatchAcceptsIffThreshold(ix, q, sim, DefaultThreshold);
  }

}
