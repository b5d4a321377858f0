/**
 The vocabulary shared by the face engine: embeddings, identities and the
 in-memory index, a Python dict from employee id to embedding.
 */
module Gallery {
  import opened Wrappers

  /** A face embedding: the extractor's vector, over exact reals instead of float32. */
  type Embedding = seq<real>

  /** An employee id such as "JSWIRZ001"; also the name of that employee's photo folder. */
  type Identity = string

  /**
   The index, a dict in insertion order: iteration visits the entries left to
   right, exactly as `dict.items()` does.
   */
  type Index = seq<(Identity, Embedding)>

  function Keys(ix: Index): set<Identity>
  {
    if ix == [] then {} else {ix[0].0} + Keys(ix[1..])
  }

  predicate KeysDistinct(ix: Index)
  {
    forall i, j :: 0 <= i < j < |ix| ==> ix[i].0 != ix[j].0
  }

  /** `ix.get(k)`: the value stored under k, if any. */
  function Lookup(ix: Index, k: Identity): (r: Option<Embedding>)
    ensures r.Some? <==> k in Keys(ix)
  {
    if ix == [] then None
    else if ix[0].0 == k then Some(ix[0].1)
    else Lookup(ix[1..], k)
  }

  /** `ix[k] = v`: an existing key keeps its place and takes the new value, a new key goes last. */
  function Put(ix: Index, k: Identity, v: Embedding): (r: Index)
    ensures Keys(r) == Keys(ix) + {k}
    ensures |r| == if k in Keys(ix) then |ix| else |ix| + 1
  {
    if ix == [] then [(k, v)]
    else if ix[0].0 == k then [(k, v)] + ix[1..]
    else [ix[0]] + Put(ix[1..], k, v)
  }

  lemma {:induction false} KeysAt(ix: Index, k: Identity)
    ensures k in Keys(ix) <==> exists i :: 0 <= i < |ix| && ix[i].0 == k
  {
    if ix != [] {
      KeysAt(ix[1..], k);
      if k in Keys(ix[1..]) {
        var i :| 0 <= i < |ix[1..]| && ix[1..][i].0 == k;
        assert ix[i + 1].0 == k;
      }
      if exists i :: 0 <= i < |ix| && ix[i].0 == k {
        var i :| 0 <= i < |ix| && ix[i].0 == k;
        if i > 0 { assert ix[1..][i - 1].0 == k; }
      }
    }
  }

  /** In a dict the entry found under a key is the one holding that key. */
  lemma {:induction false} LookupAt(ix: Index, i: nat)
    requires KeysDistinct(ix) && i < |ix|
    ensures Lookup(ix, ix[i].0) == Some(ix[i].1)
  {
    if i > 0 {
      assert ix[0].0 != ix[i].0;
      LookupAt(ix[1..], i - 1);
    }
  }

  /** Last write wins: reading k after `ix[k] = v` gives v, and every other key is untouched. */
  lemma {:induction false} LookupPut(ix: Index, k: Identity, v: Embedding, k': Identity)
    ensures Lookup(Put(ix, k, v), k') == if k' == k then Some(v) else Lookup(ix, k')
  {
    if ix != [] && ix[0].0 != k {
      LookupPut(ix[1..], k, v, k');
    }
  }

  /** Two writes to the same key leave the dict as the second write alone would. */
  lemma {:induction false} PutPut(ix: Index, k: Identity, a: Embedding, b: Embedding)
    ensures Put(Put(ix, k, a), k, b) == Put(ix, k, b)
  {
    if ix != [] && ix[0].0 != k {
      PutPut(ix[1..], k, a, b);
    }
  }

  lemma {:induction false} PutKeepsKeysDistinct(ix: Index, k: Identity, v: Embedding)
    requires KeysDistinct(ix)
    ensures KeysDistinct(Put(ix, k, v))
  {
    if ix != [] && ix[0].0 != k {
      PutKeepsKeysDistinct(ix[1..], k, v);
      var r := Put(ix, k, v);
      forall j | 0 < j < |r|
        ensures r[0].0 != r[j].0
      {
        KeysAt(ix[1..], ix[0].0);
        assert ix[0].0 !in Keys(ix[1..]);
        KeysAt(Put(ix[1..], k, v), ix[0].0);
        assert r[j] == Put(ix[1..], k, v)[j - 1];
      }
    } else if ix != [] {
      var r := Put(ix, k, v);
      assert forall j :: 0 < j < |r| ==> r[j] == ix[j];
    }
  }
}
