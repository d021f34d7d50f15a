/** The line store: the model file indexed one document per line, in file
    order, and exact-content lookup of a line.  Document k (0-based) holds
    line k + 1 (1-based) of the file. */
module LineStore {
  import opened Failures

  /** The search index the extractor queries.  Only the stored `line` field
      of each document matters, so the index is the sequence of those fields. */
  class LineIndex {
    var docs: seq<string>

    constructor ()
      ensures docs == []
    {
      docs := [];
    }

    /** One `addDocument` call: the new document gets the next id. */
    method AddDocument(line: string)
      modifies this
      ensures docs == old(docs) + [line]
    {
      docs := docs + [line];
    }
  }

  /** `index`: one document per line read, in the order the lines are read. */
  method Index(file: seq<string>) returns (ix: LineIndex)
    ensures fresh(ix)
    ensures ix.docs == file
  {
    ix := new LineIndex();
    var n := 0;
    while n < |file|
      invariant 0 <= n <= |file|
      invariant ix.docs == file[..n]
    {
      ix.AddDocument(file[n]);
      n := n + 1;
    }
  }

  /** The hits of an exact-term query on the `line` field: the ids of all
      documents whose content is exactly `q`, in increasing order. */
  function Hits(docs: seq<string>, q: string): (r: seq<nat>)
    ensures forall k :: 0 <= k < |r| ==> r[k] < |docs| && docs[r[k]] == q
    ensures forall i :: 0 <= i < |docs| && docs[i] == q ==> i in r
    ensures forall k, l :: 0 <= k < l < |r| ==> r[k] < r[l]
  {
    if docs == [] then []
    else
      var last := |docs| - 1;
      Hits(docs[..last], q) + (if docs[last] == q then [last] else [])
  }

  /** Document p is the only one with its content. */
  ghost predicate UniqueAt(docs: seq<string>, p: int) {
    0 <= p < |docs| && forall i :: 0 <= i < |docs| && docs[i] == docs[p] ==> i == p
  }

  /** A content no document holds gives no hit. */
  lemma {:induction false} HitsOfAbsentLine(docs: seq<string>, q: string)
    requires q !in docs
    ensures Hits(docs, q) == []
  {
    if docs != [] {
      HitsOfAbsentLine(docs[..|docs| - 1], q);
    }
  }

  /** A content held by exactly one document gives exactly one hit. */
  lemma {:induction false} HitsOfUniqueLine(docs: seq<string>, p: int)
    requires UniqueAt(docs, p)
    ensures Hits(docs, docs[p]) == [p]
  {
    var last := |docs| - 1;
    var prefix := docs[..last];
    assert Hits(docs, docs[p]) == Hits(prefix, docs[p]) + (if docs[last] == docs[p] then [last] else []);
    if p == last {
      HitsOfAbsentLine(prefix, docs[p]);
    } else {
      assert docs[last] != docs[p];
      assert prefix[p] == docs[p];
      assert UniqueAt(prefix, p);
      HitsOfUniqueLine(prefix, p);
    }
  }

  lemma HitsOfAnyUniqueLine(docs: seq<string>, q: string)
    ensures (exists p :: 0 <= p < |docs| && docs[p] == q && UniqueAt(docs, p)) ==> |Hits(docs, q)| == 1
  {
    forall p | 0 <= p < |docs| && docs[p] == q && UniqueAt(docs, p) {
      HitsOfUniqueLine(docs, p);
    }
  }

  /** The lookup at the head of `evalAttr`: the query must hit exactly one
      document, whose 1-based line number is returned; zero or several hits
      abort the run. */
  function Lookup(docs: seq<string>, q: string): (r: Result<int>)
    ensures r.Ok? <==> exists p :: 0 <= p < |docs| && docs[p] == q && UniqueAt(docs, p)
    ensures r.Ok? ==> 1 <= r.value <= |docs| && docs[r.value - 1] == q && UniqueAt(docs, r.value - 1)
    ensures r.Err? ==> r.error == AmbiguousMatch(q, |Hits(docs, q)|)
  {
    HitsOfAnyUniqueLine(docs, q);
    var hits := Hits(docs, q);
    if |hits| > 1 || |hits| == 0 then Err(AmbiguousMatch(q, |hits|))
    else Ok(hits[0] + 1)
  }

  /** Looking up the content of document p finds line p + 1 exactly when no
      other line has the same content, and reports at least two hits otherwise. */
  lemma LookupOwnLine(docs: seq<string>, p: int)
    requires 0 <= p < |docs|
    ensures UniqueAt(docs, p) ==> Lookup(docs, docs[p]) == Ok(p + 1)
    ensures !UniqueAt(docs, p) ==>
      Lookup(docs, docs[p]).Err? && Lookup(docs, docs[p]).error.hits >= 2
  {
    if UniqueAt(docs, p) {
      HitsOfUniqueLine(docs, p);
    } else {
      var i :| 0 <= i < |docs| && docs[i] == docs[p] && i != p;
      RepeatedLineHits(docs, docs[p], p, i);
    }
  }

  lemma HitsOfPresentLine(docs: seq<string>, q: string, i: int)
    requires 0 <= i < |docs| && docs[i] == q
    ensures |Hits(docs, q)| >= 1
  {
    assert i in Hits(docs, q);
  }

  /** Two documents with the same content give at least two hits. */
  lemma {:induction false} RepeatedLineHits(docs: seq<string>, q: string, p: int, i: int)
    requires 0 <= p < |docs| && 0 <= i < |docs| && i != p && docs[i] == q && docs[p] == q
    ensures |Hits(docs, q)| >= 2
  {
    var last := |docs| - 1;
    var prefix := docs[..last];
    assert Hits(docs, q) == Hits(prefix, q) + (if docs[last] == q then [last] else []);
    if p == last {
      HitsOfPresentLine(prefix, q, i);
    } else if i == last {
      HitsOfPresentLine(prefix, q, p);
    } else {
      RepeatedLineHits(prefix, q, p, i);
    }
  }
}
