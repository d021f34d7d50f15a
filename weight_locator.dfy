/** The weight locator (`evalAttr`): find the unique line holding a feature
    name, decide which value segment the feature belongs to, and read its
    weight(s) from the documents that segment assigns to it.

    After the 11 header lines come `total` feature-name lines (lines 12 to
    11 + total), then the values in three back-to-back segments: one slot per
    class-A-only feature, two consecutive slots per shared feature, one slot
    per class-B-only feature. */
module WeightLocator {
  import opened Failures
  import opened LineStore
  import opened Header

  /** A weight as read from its document.  `Zero` is the `new Double(0)` the
      source puts in the slot of the class a feature has no weight for. */
  datatype Weight = Zero | Value(text: string)

  /** The two-element score list: class A first, class B second. */
  datatype Scores = Scores(first: Weight, second: Weight)

  /** Where the weights of the feature on a given line are stored. */
  datatype Placement =
    | AOnly(doc: int)
    | Shared(doc1: int, doc2: int)
    | BOnly(doc: int)

  /** The documents a placement reads, in the order they are read. */
  function Slots(p: Placement): seq<int> {
    match p
    case AOnly(k) => [k]
    case Shared(k1, k2) => [k1, k2]
    case BOnly(k) => [k]
  }

  /** `indexWeightsStart`: the document of the first value. */
  function WeightsStart(h: Header): int {
    10 + h.total + 1
  }

  /** Guard of the first (class-A-only, "HC") branch of `evalAttr`. */
  predicate ClassAGuard(lineNr: int, h: Header) {
    10 + 1 < lineNr <= h.aOnly + 11
  }

  /** Guard of the second (shared, "HCLC") branch of `evalAttr`. */
  predicate SharedGuard(lineNr: int, h: Header) {
    h.aOnly + 10 < lineNr <= h.aOnly + h.shared + 11
  }

  /** The three-branch offset arithmetic of `evalAttr` for a 1-based line
      number.  The guards overlap at lineNr = aOnly + 11; the first branch
      wins there. */
  function Place(lineNr: int, h: Header): (p: Placement)
    ensures 12 <= lineNr && 0 <= h.aOnly ==> (p.AOnly? <==> lineNr - 12 < h.aOnly)
    ensures 12 <= lineNr && 0 <= h.aOnly ==>
      (p.Shared? <==> h.aOnly <= lineNr - 12 < h.aOnly + h.shared)
  {
    if ClassAGuard(lineNr, h) then
      AOnly(h.total + lineNr - 1)
    else if SharedGuard(lineNr, h) then
      var attrOrder := lineNr - 10 - 1;
      var index1 := WeightsStart(h) + h.aOnly + (attrOrder - h.aOnly - 1) * 2;
      Shared(index1, index1 + 1)
    else
      BOnly(10 + h.total + h.aOnly + 2 * h.shared + (h.bOnly - (11 + h.total - lineNr)))
  }

  /** `Double.valueOf(searcher.doc(k).getField("line").stringValue())`: the
      document must exist and its text must be accepted by the number
      parser, which the model takes as the parameter `isWeight`. */
  function ReadWeight(docs: seq<string>, k: int, isWeight: string -> bool): (r: Result<Weight>)
    ensures r.Ok? <==> 0 <= k < |docs| && isWeight(docs[k])
    ensures r.Ok? ==> r.value == Value(docs[k])
    ensures !(0 <= k < |docs|) ==> r == Err(MissingDocument(k))
  {
    if !(0 <= k < |docs|) then Err(MissingDocument(k))
    else if !isWeight(docs[k]) then Err(MalformedWeight(k, docs[k]))
    else Ok(Value(docs[k]))
  }

  /** All documents of a placement exist and hold weight text. */
  predicate Readable(docs: seq<string>, p: Placement, isWeight: string -> bool) {
    match p
    case AOnly(k) => HoldsWeight(docs, k, isWeight)
    case Shared(k1, k2) => HoldsWeight(docs, k1, isWeight) && HoldsWeight(docs, k2, isWeight)
    case BOnly(k) => HoldsWeight(docs, k, isWeight)
  }

  predicate HoldsWeight(docs: seq<string>, k: int, isWeight: string -> bool) {
    0 <= k < |docs| && isWeight(docs[k])
  }

  /** `evalAttr`: a feature whose text is not on exactly one line aborts the
      run; otherwise the weight(s) are read from the placement of that line,
      and the slot of a class without a weight holds `Zero`.  Both slots are
      always filled, so the source's "NA" output branches are never taken. */
  function EvalAttr(docs: seq<string>, attr: string, h: Header, isWeight: string -> bool): (r: Result<Scores>)
    ensures Lookup(docs, attr).Err? ==> r == Err(Lookup(docs, attr).error)
    ensures r.Ok? <==> Lookup(docs, attr).Ok? && Readable(docs, Place(Lookup(docs, attr).value, h), isWeight)
    ensures r.Ok? ==>
      match Place(Lookup(docs, attr).value, h)
      case AOnly(k) => r.value == Scores(Value(docs[k]), Zero)
      case Shared(k1, k2) => r.value == Scores(Value(docs[k1]), Value(docs[k2]))
      case BOnly(k) => r.value == Scores(Zero, Value(docs[k]))
  {
    var lineNr :- Lookup(docs, attr);
    match Place(lineNr, h)
    case AOnly(k) =>
      var w :- ReadWeight(docs, k, isWeight);
      Ok(Scores(w, Zero))
    case Shared(k1, k2) =>
      var w1 :- ReadWeight(docs, k1, isWeight);
      var w2 :- ReadWeight(docs, k2, isWeight);
      Ok(Scores(w1, w2))
    case BOnly(k) =>
      var w :- ReadWeight(docs, k, isWeight);
      Ok(Scores(Zero, w))
  }

  // ---------------------------------------------------------------------
  // The layout the arithmetic is meant to decode

  /** The three counts are non-negative and make up the feature block. */
  predicate Consistent(h: Header) {
    0 <= h.aOnly && 0 <= h.shared && 0 <= h.bOnly && h.total == h.aOnly + h.shared + h.bOnly
  }

  /** Number of value slots in the whole value region. */
  function SlotCount(h: Header): int {
    h.aOnly + 2 * h.shared + h.bOnly
  }

  /** Reference layout by rank: the feature of 0-based rank r in the name
      block owns these value documents, counted from the first value. */
  function RankPlacement(h: Header, r: int): Placement {
    var w := 11 + h.total;
    if r < h.aOnly then AOnly(w + r)
    else if r < h.aOnly + h.shared then Shared(w + h.aOnly + 2 * (r - h.aOnly), w + h.aOnly + 2 * (r - h.aOnly) + 1)
    else BOnly(w + h.aOnly + 2 * h.shared + (r - h.aOnly - h.shared))
  }

  /** Number of value slots used by the features of rank below r. */
  function SlotOffset(h: Header, r: int): int {
    if r <= h.aOnly then r
    else if r <= h.aOnly + h.shared then h.aOnly + 2 * (r - h.aOnly)
    else h.aOnly + 2 * h.shared + (r - h.aOnly - h.shared)
  }

  /** The integers lo, lo + 1, ..., hi - 1. */
  function Interval(lo: int, hi: int): (s: seq<int>)
    ensures |s| == if lo <= hi then hi - lo else 0
    ensures forall k :: 0 <= k < |s| ==> s[k] == lo + k
    decreases hi - lo
  {
    if lo >= hi then [] else [lo] + Interval(lo + 1, hi)
  }

  /** The documents read for the feature lines of rank lo to hi - 1, in order. */
  function SlotsOfRanks(h: Header, lo: int, hi: int): seq<int>
    decreases hi - lo
  {
    if lo >= hi then [] else Slots(Place(12 + lo, h)) + SlotsOfRanks(h, lo + 1, hi)
  }

  /** The source arithmetic agrees with the layout by rank on every feature
      line, including both ends of every segment. */
  lemma PlaceByRank(h: Header, r: int)
    requires Consistent(h) && 0 <= r < h.total
    ensures Place(12 + r, h) == RankPlacement(h, r)
    ensures Slots(Place(12 + r, h)) == Interval(11 + h.total + SlotOffset(h, r), 11 + h.total + SlotOffset(h, r + 1))
  {
  }

  /** Segment ends: the first feature line reads `indexWeightsStart`, the
      first class-B-only line reads the first slot of its segment and the last
      feature line reads the last value document, so the class-B-only segment
      runs in name order. */
  lemma SegmentEnds(h: Header)
    requires Consistent(h)
    ensures h.aOnly > 0 ==> Place(12, h) == AOnly(WeightsStart(h))
    ensures h.aOnly == 0 && h.shared > 0 ==> Place(12, h) == Shared(WeightsStart(h), WeightsStart(h) + 1)
    ensures h.bOnly > 0 ==> Place(12 + h.aOnly + h.shared, h) == BOnly(WeightsStart(h) + h.aOnly + 2 * h.shared)
    ensures h.bOnly > 0 ==> Place(11 + h.total, h) == BOnly(10 + h.total + SlotCount(h))
  {
  }

  /** At lineNr = aOnly + 11 both the first and the second guard hold; the
      line is read as class-A-only. */
  lemma OverlapGoesToClassA(h: Header)
    requires h.aOnly >= 1 && h.shared >= 0
    ensures ClassAGuard(h.aOnly + 11, h) && SharedGuard(h.aOnly + 11, h)
    ensures Place(h.aOnly + 11, h) == AOnly(h.total + h.aOnly + 10)
  {
  }

  lemma IntervalsConcat(a: int, b: int, c: int)
    requires a <= b <= c
    ensures Interval(a, b) + Interval(b, c) == Interval(a, c)
  {
  }

  lemma SlotOffsetMonotone(h: Header, lo: int, hi: int)
    requires Consistent(h) && lo <= hi
    ensures SlotOffset(h, lo) <= SlotOffset(h, hi)
  {
  }

  /** The feature lines of rank lo to hi - 1 read exactly the consecutive
      documents between their slot offsets, each once, in order. */
  lemma {:induction false} RanksTileSlots(h: Header, lo: int, hi: int)
    requires Consistent(h) && 0 <= lo <= hi <= h.total
    ensures SlotsOfRanks(h, lo, hi) == Interval(11 + h.total + SlotOffset(h, lo), 11 + h.total + SlotOffset(h, hi))
    decreases hi - lo
  {
    if lo < hi {
      var w := 11 + h.total;
      PlaceByRank(h, lo);
      RanksTileSlots(h, lo + 1, hi);
      SlotOffsetMonotone(h, lo, lo + 1);
      SlotOffsetMonotone(h, lo + 1, hi);
      IntervalsConcat(w + SlotOffset(h, lo), w + SlotOffset(h, lo + 1), w + SlotOffset(h, hi));
      assert SlotsOfRanks(h, lo, hi) == Slots(Place(12 + lo, h)) + SlotsOfRanks(h, lo + 1, hi);
    }
  }

  /** Over all feature lines 12 .. 11 + total, the documents read are
      pairwise distinct and are exactly the value region
      [11 + total, 11 + total + aOnly + 2 * shared + bOnly), in order. */
  lemma WeightSegmentsTile(h: Header)
    requires Consistent(h)
    ensures SlotsOfRanks(h, 0, h.total) == Interval(WeightsStart(h), WeightsStart(h) + SlotCount(h))
    ensures |SlotsOfRanks(h, 0, h.total)| == SlotCount(h)
    ensures forall i, j :: 0 <= i < j < |SlotsOfRanks(h, 0, h.total)| ==>
      SlotsOfRanks(h, 0, h.total)[i] < SlotsOfRanks(h, 0, h.total)[j]
  {
    RanksTileSlots(h, 0, h.total);
  }

  /** Two different feature lines never share a value document: every
      document of the earlier line comes before every document of the later. */
  lemma PlacementsDisjoint(h: Header, n1: int, n2: int)
    requires Consistent(h) && 12 <= n1 < n2 <= 11 + h.total
    ensures forall i, j :: 0 <= i < |Slots(Place(n1, h))| && 0 <= j < |Slots(Place(n2, h))| ==>
      Slots(Place(n1, h))[i] < Slots(Place(n2, h))[j]
  {
    PlaceByRank(h, n1 - 12);
    PlaceByRank(h, n2 - 12);
    assert SlotOffset(h, n1 - 11) <= SlotOffset(h, n2 - 12);
  }
}
