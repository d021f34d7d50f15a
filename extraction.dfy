/** The extraction driver (`extractWeights`): index the model file, read the
    header, skip the 11 header lines, then look up every later line that
    looks like a feature name and emit one row with its two weights. */
module Extraction {
  import opened Failures
  import opened LineStore
  import opened Header
  import opened WeightLocator

  predicate IsAsciiLetter(c: char) {
    'a' <= c <= 'z' || 'A' <= c <= 'Z'
  }

  /** The characters Java's `.` does not match without DOTALL. */
  predicate IsLineTerminator(c: char) {
    c == '\n' || c == '\r' || c == '\U{85}' || c == '\U{2028}' || c == '\U{2029}'
  }

  /** `line.matches("^[a-zA-Z].*")`: the whole line must match. */
  predicate StartsWithLetter(line: string)
    ensures StartsWithLetter(line) ==> |line| > 0 && IsAsciiLetter(line[0])
    ensures |line| > 1 && IsLineTerminator(line[|line| - 1]) ==> !StartsWithLetter(line)
  {
    |line| > 0 && IsAsciiLetter(line[0]) && forall k :: 1 <= k < |line| ==> !IsLineTerminator(line[k])
  }

  /** The first branch of the scan: a name-like line other than the reserved
      words "GIS", "HIGH" and "LOW". */
  predicate IsNameLine(line: string) {
    StartsWithLetter(line) && line != "GIS" && line != "HIGH" && line != "LOW"
  }

  /** A line the scan hands to `evalAttr`: a name-like line, or an empty one
      (the `line.matches("")` branch). */
  predicate IsProcessed(line: string)
    ensures line == "" ==> IsProcessed(line)
    ensures |line| > 0 && !IsAsciiLetter(line[0]) ==> !IsProcessed(line)
    ensures line == "GIS" || line == "HIGH" || line == "LOW" ==> !IsProcessed(line)
  {
    IsNameLine(line) || line == ""
  }

  /** The processed lines, in order. */
  function Processed(lines: seq<string>): (r: seq<string>)
    ensures |r| <= |lines|
    ensures forall k :: 0 <= k < |r| ==> IsProcessed(r[k]) && r[k] in lines
  {
    if lines == [] then []
    else if IsProcessed(lines[0]) then [lines[0]] + Processed(lines[1..])
    else Processed(lines[1..])
  }

  /** The positions of the processed lines, in increasing order. */
  function ProcessedPositions(lines: seq<string>): (P: seq<nat>)
    ensures forall k :: 0 <= k < |P| ==> P[k] < |lines| && IsProcessed(lines[P[k]])
    ensures forall i :: 0 <= i < |lines| && IsProcessed(lines[i]) ==> i in P
    ensures forall k, l :: 0 <= k < l < |P| ==> P[k] < P[l]
  {
    if lines == [] then []
    else
      var last := |lines| - 1;
      ProcessedPositions(lines[..last]) + (if IsProcessed(lines[last]) then [last] else [])
  }

  /** `Processed` keeps exactly the lines at the processed positions, in
      file order: every line that passes the filter, and no other. */
  lemma {:induction false} ProcessedSelects(lines: seq<string>)
    ensures |Processed(lines)| == |ProcessedPositions(lines)|
    ensures forall k :: 0 <= k < |ProcessedPositions(lines)| ==>
      Processed(lines)[k] == lines[ProcessedPositions(lines)[k]]
  {
    if lines != [] {
      var last := |lines| - 1;
      var prefix := lines[..last];
      assert lines == prefix + [lines[last]];
      ProcessedAppend(prefix, [lines[last]]);
      ProcessedSelects(prefix);
      assert Processed([lines[last]]) == if IsProcessed(lines[last]) then [lines[last]] else [];
      var P := ProcessedPositions(lines);
      var Q := ProcessedPositions(prefix);
      assert P == Q + (if IsProcessed(lines[last]) then [last] else []);
      forall k | 0 <= k < |Q|
        ensures Processed(lines)[k] == lines[P[k]]
      {
        assert prefix[Q[k]] == lines[Q[k]];
      }
    }
  }

  lemma {:induction false} ProcessedAppend(a: seq<string>, b: seq<string>)
    ensures Processed(a + b) == Processed(a) + Processed(b)
  {
    if a != [] {
      assert (a + b)[1..] == a[1..] + b;
      ProcessedAppend(a[1..], b);
    } else {
      assert a + b == b;
    }
  }

  /** One output row: `feature \t first \t second`. */
  datatype Row = Row(feature: string, scores: Scores)

  /** The rows a scan emits, and the error that stopped it, if any. */
  datatype ScanResult = ScanResult(rows: seq<Row>, failure: Option<Error>)

  /** The final values of the counters `i` (lines read) and `j` (lines processed). */
  datatype Counters = Counters(linesRead: int, processed: int)

  /** What the scan does with one processed line. */
  type Evaluator = string -> Result<Scores>

  /** `evalAttr` against the index built from the model file. */
  function Evaluate(docs: seq<string>, h: Header, isWeight: string -> bool): Evaluator {
    line => EvalAttr(docs, line, h, isWeight)
  }

  /** The scan of the lines after the header, line by line: a processed line
      whose evaluation fails stops the whole run. */
  function Scan(eval: Evaluator, lines: seq<string>): (r: ScanResult)
    ensures |r.rows| <= |lines|
    ensures forall k :: 0 <= k < |r.rows| ==>
      IsProcessed(r.rows[k].feature) && eval(r.rows[k].feature) == Ok(r.rows[k].scores)
    decreases |lines|
  {
    if lines == [] then ScanResult([], None)
    else if !IsProcessed(lines[0]) then Scan(eval, lines[1..])
    else
      match eval(lines[0])
      case Err(e) => ScanResult([], Some(e))
      case Ok(s) =>
        var rest := Scan(eval, lines[1..]);
        ScanResult([Row(lines[0], s)] + rest.rows, rest.failure)
  }

  function Max(a: int, b: int): int {
    if a < b then b else a
  }

  /** Loop invariant of the read loop: `written` followed by the scan of the
      lines from `pos` on is the scan of all lines after the header. */
  ghost predicate ScanFrom(run: ScanResult, eval: Evaluator, file: seq<string>, pos: int, written: seq<Row>)
    requires 0 <= pos <= |file|
  {
    var rest := Scan(eval, file[pos..]);
    run == ScanResult(written + rest.rows, rest.failure)
  }

  /** How one line read by the loop advances the invariant. */
  lemma ScanStep(run: ScanResult, eval: Evaluator, file: seq<string>, start: int, pos: int, written: seq<Row>)
    requires 0 <= start <= pos < |file| && ScanFrom(run, eval, file, pos, written)
    ensures |Processed(file[start..pos + 1])| == |Processed(file[start..pos])| + if IsProcessed(file[pos]) then 1 else 0
    ensures !IsProcessed(file[pos]) ==> ScanFrom(run, eval, file, pos + 1, written)
    ensures IsProcessed(file[pos]) && eval(file[pos]).Err? ==>
      run == ScanResult(written, Some(eval(file[pos]).error))
    ensures IsProcessed(file[pos]) && eval(file[pos]).Ok? ==>
      ScanFrom(run, eval, file, pos + 1, written + [Row(file[pos], eval(file[pos]).value)])
  {
    assert file[pos..][1..] == file[pos + 1..];
    assert file[start..pos + 1] == file[start..pos] + [file[pos]];
    ProcessedAppend(file[start..pos], [file[pos]]);
  }

  /** `extractWeights`.  The index is built from the same lines the reader
      returns.  On failure, `written` holds the rows appended before the
      run stopped. */
  method ExtractWeights(file: seq<string>, isWeight: string -> bool) returns (written: seq<Row>, outcome: Result<Counters>)
    ensures ReadHeader(file).Err? ==> written == [] && outcome == Err(ReadHeader(file).error)
    ensures ReadHeader(file).Ok? ==>
      var run := Scan(Evaluate(file, ReadHeader(file).value, isWeight), file[11..]);
      written == run.rows && (outcome.Ok? <==> run.failure.None?) &&
      (outcome.Err? ==> run.failure == Some(outcome.error))
    ensures outcome.Ok? ==> outcome.value.linesRead == Max(11, |file|)
    ensures outcome.Ok? ==> outcome.value.processed == |Processed(file[11..])| == |written|
  {
    var ix := Index(file);
    var header := ReadHeader(ix.docs);
    if header.Err? {
      written, outcome := [], Err(header.error);
      return;
    }
    var i := 0;
    var pos := 0;  // lines the reader has returned so far
    for sk := 0 to 11
      invariant i == sk && pos == sk && ix.docs == file
    {
      if pos < |file| {  // past the end, readLine returns null and reads nothing
        pos := pos + 1;
      }
      i := i + 1;
    }
    var failure, linesRead, processed;
    written, failure, linesRead, processed := ReadFeatureLines(Evaluate(ix.docs, header.value, isWeight), file, pos);
    if failure.Some? {
      outcome := Err(failure.value);
    } else {
      outcome := Ok(Counters(linesRead, processed));
    }
  }

  /** The read loop of `extractWeights`, from line `start` of the reader's
      `file` on: every processed line is evaluated (`evalAttr` against the
      index) and its row appended, and the first evaluation that fails ends
      the run.  `linesRead` and `processed` are the counters `i` and `j`,
      `i` having counted the `start` lines already read. */
  method ReadFeatureLines(eval: Evaluator, file: seq<string>, start: int)
    returns (written: seq<Row>, failure: Option<Error>, linesRead: int, processed: int)
    requires 0 <= start <= |file|
    ensures written == Scan(eval, file[start..]).rows && failure == Scan(eval, file[start..]).failure
    ensures failure.None? ==> linesRead == |file| && processed == |Processed(file[start..])| == |written|
  {
    ghost var run := Scan(eval, file[start..]);
    assert ScanFrom(run, eval, file, start, []) by {
      assert [] + run.rows == run.rows;
    }
    var pos, i, j := start, start, 0;
    written := [];
    while pos < |file|
      invariant start <= pos <= |file| && i == pos
      invariant j == |Processed(file[start..pos])| == |written|
      invariant ScanFrom(run, eval, file, pos, written)
    {
      var line := file[pos];
      ScanStep(run, eval, file, start, pos, written);
      pos := pos + 1;
      i := i + 1;
      if IsNameLine(line) || line == "" {  // the name branch and the empty-line branch do the same
        j := j + 1;
        var scores := eval(line);
        if scores.Err? {
          failure, linesRead, processed := Some(scores.error), i, j;
          return;
        }
        written := written + [Row(line, scores.value)];
      }
    }
    assert file[pos..] == [] && file[start..pos] == file[start..];
    failure, linesRead, processed := None, i, j;
  }

  // ---------------------------------------------------------------------
  // What the scan emits

  /** The scan stops at line k: it is processed, its evaluation fails with
      the error the scan reports, and the lines before it scan without
      failure to the rows the scan reports. */
  ghost predicate FailsAt(eval: Evaluator, lines: seq<string>, k: int) {
    0 <= k < |lines| && IsProcessed(lines[k]) && eval(lines[k]).Err? &&
    Scan(eval, lines).failure == Some(eval(lines[k]).error) &&
    Scan(eval, lines[..k]) == ScanResult(Scan(eval, lines).rows, None)
  }

  /** The scan runs to the end exactly when every processed line passes. */
  lemma {:induction false} ScanSucceedsIff(eval: Evaluator, lines: seq<string>)
    ensures Scan(eval, lines).failure.None? <==>
      forall k :: 0 <= k < |lines| && IsProcessed(lines[k]) ==> eval(lines[k]).Ok?
  {
    if lines != [] {
      ScanSucceedsIff(eval, lines[1..]);
      assert forall k :: 1 <= k < |lines| ==> lines[k] == lines[1..][k - 1];
    }
  }

  /** A run that goes to the end emits one row per processed line, in file
      order, each carrying the scores its line evaluates to. */
  lemma {:induction false} ScanRows(eval: Evaluator, lines: seq<string>)
    requires Scan(eval, lines).failure.None?
    ensures |Scan(eval, lines).rows| == |Processed(lines)|
    ensures forall k :: 0 <= k < |Processed(lines)| ==>
      Scan(eval, lines).rows[k].feature == Processed(lines)[k] &&
      eval(Processed(lines)[k]) == Ok(Scan(eval, lines).rows[k].scores)
  {
    if lines != [] {
      ScanRows(eval, lines[1..]);
    }
  }

  /** A run that stops does so at a processed line whose evaluation fails
      with the reported error; the rows written before it are those of the
      lines before it, all of which passed. */
  lemma {:induction false} ScanFailure(eval: Evaluator, lines: seq<string>)
    requires Scan(eval, lines).failure.Some?
    ensures exists k :: FailsAt(eval, lines, k)
  {
    if IsProcessed(lines[0]) && eval(lines[0]).Err? {
      assert lines[..0] == [];
      assert FailsAt(eval, lines, 0);
    } else {
      ScanFailure(eval, lines[1..]);
      var k :| FailsAt(eval, lines[1..], k);
      FailsAtShift(eval, lines, k);
    }
  }

  lemma FailsAtShift(eval: Evaluator, lines: seq<string>, k: int)
    requires lines != [] && !(IsProcessed(lines[0]) && eval(lines[0]).Err?)
    requires FailsAt(eval, lines[1..], k)
    ensures FailsAt(eval, lines, k + 1)
  {
    assert lines[..k + 1][1..] == lines[1..][..k];
    assert lines[..k + 1][0] == lines[0];
    assert lines[k + 1] == lines[1..][k];
  }

  lemma {:induction false} ScanSkipsUnprocessed(eval: Evaluator, lines: seq<string>)
    requires forall k :: 0 <= k < |lines| ==> !IsProcessed(lines[k])
    ensures Scan(eval, lines) == ScanResult([], None)
  {
    if lines != [] {
      ScanSkipsUnprocessed(eval, lines[1..]);
    }
  }

  /** A processed line whose text occurs on another line of the file makes
      the whole run fail: no run with a duplicated feature name completes. */
  lemma DuplicateFeatureAborts(file: seq<string>, h: Header, isWeight: string -> bool, p: int)
    requires 11 <= p < |file| && IsProcessed(file[p]) && !UniqueAt(file, p)
    ensures Scan(Evaluate(file, h, isWeight), file[11..]).failure.Some?
  {
    var eval := Evaluate(file, h, isWeight);
    var lines := file[11..];
    LookupOwnLine(file, p);
    assert lines[p - 11] == file[p];
    assert eval(lines[p - 11]).Err?;
    ScanSucceedsIff(eval, lines);
  }

  /** A value line whose text is unique is found, but as a line past the
      name block it falls to the class-B-only branch, whose formula points
      past the last document of a file laid out with exactly the header, the
      names and the values.  So a value line that passes the filter (weight
      text starting with a letter, such as `NaN`) makes the run fail. */
  lemma ValueLineReadPastEnd(file: seq<string>, h: Header, isWeight: string -> bool, p: int)
    requires Consistent(h) && |file| == 11 + h.total + SlotCount(h)
    requires 11 + h.total <= p < |file| && UniqueAt(file, p)
    ensures Place(p + 1, h) == BOnly(SlotCount(h) + p) && SlotCount(h) + p >= |file|
    ensures EvalAttr(file, file[p], h, isWeight) == Err(MissingDocument(SlotCount(h) + p))
    ensures IsProcessed(file[p]) ==> Scan(Evaluate(file, h, isWeight), file[11..]).failure.Some?
  {
    LookupOwnLine(file, p);
    if IsProcessed(file[p]) {
      var eval := Evaluate(file, h, isWeight);
      var lines := file[11..];
      assert lines[p - 11] == file[p];
      assert eval(lines[p - 11]).Err?;
      ScanSucceedsIff(eval, lines);
    }
  }

  // ---------------------------------------------------------------------
  // End to end, on a file laid out as the model writer lays it out

  /** The header reads as `h`, whose counts make up the feature block; the
      file is exactly header, names and values; every name line is processed
      and occurs once in the file; every value line is not processed and
      holds weight text. */
  ghost predicate WellFormedModel(file: seq<string>, h: Header, isWeight: string -> bool) {
    ReadHeader(file) == Ok(h) && LaidOut(file, h, isWeight)
  }

  /** The part of `WellFormedModel` past the header. */
  ghost predicate LaidOut(file: seq<string>, h: Header, isWeight: string -> bool) {
    Consistent(h) && |file| == 11 + h.total + SlotCount(h) &&
    (forall k :: 11 <= k < 11 + h.total ==> IsProcessed(file[k]) && UniqueAt(file, k)) &&
    (forall k :: 11 + h.total <= k < |file| ==> !IsProcessed(file[k]) && isWeight(file[k]))
  }

  /** The expected scores of the feature of rank r, read off the segment
      layout: the r-th class-A-only value, the pair of the rank among the
      shared features, or the rank among the class-B-only values, counted in
      name order. */
  function ExpectedScores(file: seq<string>, h: Header, r: int): Scores
    requires Consistent(h) && |file| == 11 + h.total + SlotCount(h) && 0 <= r < h.total
  {
    var w := 11 + h.total;
    if r < h.aOnly then Scores(Value(file[w + r]), Zero)
    else if r < h.aOnly + h.shared then
      var k := w + h.aOnly + 2 * (r - h.aOnly);
      Scores(Value(file[k]), Value(file[k + 1]))
    else Scores(Zero, Value(file[w + h.aOnly + 2 * h.shared + (r - h.aOnly - h.shared)]))
  }

  /** The rows expected for the features of rank lo and above. */
  function ExpectedRows(file: seq<string>, h: Header, lo: int): seq<Row>
    requires Consistent(h) && |file| == 11 + h.total + SlotCount(h) && 0 <= lo <= h.total
    decreases h.total - lo
  {
    if lo == h.total then [] else [Row(file[11 + lo], ExpectedScores(file, h, lo))] + ExpectedRows(file, h, lo + 1)
  }

  lemma {:induction false} ExpectedRowsAt(file: seq<string>, h: Header, lo: int)
    requires Consistent(h) && |file| == 11 + h.total + SlotCount(h) && 0 <= lo <= h.total
    ensures |ExpectedRows(file, h, lo)| == h.total - lo
    ensures forall r :: lo <= r < h.total ==>
      ExpectedRows(file, h, lo)[r - lo] == Row(file[11 + r], ExpectedScores(file, h, r))
    decreases h.total - lo
  {
    if lo < h.total {
      ExpectedRowsAt(file, h, lo + 1);
    }
  }

  /** The name line of rank r is found as line 12 + r, is placed as the
      segment layout says, and its value documents hold weights. */
  lemma FeatureLinePlacement(file: seq<string>, h: Header, isWeight: string -> bool, r: int)
    requires LaidOut(file, h, isWeight) && 0 <= r < h.total
    ensures Lookup(file, file[11 + r]) == Ok(12 + r)
    ensures Place(12 + r, h) == RankPlacement(h, r)
    ensures Readable(file, RankPlacement(h, r), isWeight)
  {
    assert UniqueAt(file, 11 + r);
    LookupOwnLine(file, 11 + r);
    PlaceByRank(h, r);
    var w := 11 + h.total;
    if r < h.aOnly {
      assert HoldsWeight(file, w + r, isWeight);
    } else if r < h.aOnly + h.shared {
      var k := w + h.aOnly + 2 * (r - h.aOnly);
      assert HoldsWeight(file, k, isWeight) && HoldsWeight(file, k + 1, isWeight);
    } else {
      assert HoldsWeight(file, w + h.aOnly + 2 * h.shared + (r - h.aOnly - h.shared), isWeight);
    }
  }

  /** `evalAttr` on the name line of rank r finds that line and returns the
      weights stored for it in its segment. */
  lemma EvalAttrOfFeatureLine(file: seq<string>, h: Header, isWeight: string -> bool, r: int)
    requires LaidOut(file, h, isWeight) && 0 <= r < h.total
    ensures EvalAttr(file, file[11 + r], h, isWeight) == Ok(ExpectedScores(file, h, r))
  {
    FeatureLinePlacement(file, h, isWeight, r);
    var e := EvalAttr(file, file[11 + r], h, isWeight);
    assert e.Ok?;
  }

  lemma ScanOfPassingLine(eval: Evaluator, lines: seq<string>, s: Scores)
    requires lines != [] && IsProcessed(lines[0]) && eval(lines[0]) == Ok(s)
    ensures Scan(eval, lines) == ScanResult([Row(lines[0], s)] + Scan(eval, lines[1..]).rows, Scan(eval, lines[1..]).failure)
  {
  }

  /** The line shape of a well-formed file: names are processed, values are not. */
  ghost predicate Shaped(file: seq<string>, h: Header) {
    Consistent(h) && |file| == 11 + h.total + SlotCount(h) &&
    (forall k :: 11 <= k < 11 + h.total ==> IsProcessed(file[k])) &&
    (forall k :: 11 + h.total <= k < |file| ==> !IsProcessed(file[k]))
  }

  /** `eval` gives every name line the scores its segment stores for it. */
  ghost predicate EvaluatesAsLaidOut(eval: Evaluator, file: seq<string>, h: Header)
    requires Shaped(file, h)
  {
    forall r :: 0 <= r < h.total ==> eval(file[11 + r]) == Ok(ExpectedScores(file, h, r))
  }

  /** The value lines after the name block emit nothing. */
  lemma ValueLinesSkipped(eval: Evaluator, file: seq<string>, h: Header)
    requires Shaped(file, h)
    ensures Scan(eval, file[11 + h.total..]) == ScanResult(ExpectedRows(file, h, h.total), None)
  {
    var values := file[11 + h.total..];
    assert forall k :: 0 <= k < |values| ==> values[k] == file[11 + h.total + k];
    ScanSkipsUnprocessed(eval, values);
  }

  lemma ScanFeatureStep(eval: Evaluator, file: seq<string>, h: Header, lo: int)
    requires Shaped(file, h) && EvaluatesAsLaidOut(eval, file, h) && 0 <= lo < h.total
    requires Scan(eval, file[11 + lo + 1..]) == ScanResult(ExpectedRows(file, h, lo + 1), None)
    ensures Scan(eval, file[11 + lo..]) == ScanResult(ExpectedRows(file, h, lo), None)
  {
    var lines := file[11 + lo..];
    assert lines[0] == file[11 + lo] && IsProcessed(lines[0]);
    assert lines[1..] == file[11 + lo + 1..];
    ScanOfPassingLine(eval, lines, ExpectedScores(file, h, lo));
  }

  lemma {:induction false} ScanFeatureBlock(eval: Evaluator, file: seq<string>, h: Header, lo: int)
    requires Shaped(file, h) && EvaluatesAsLaidOut(eval, file, h) && 0 <= lo <= h.total
    ensures Scan(eval, file[11 + lo..]) == ScanResult(ExpectedRows(file, h, lo), None)
    decreases h.total - lo
  {
    if lo == h.total {
      ValueLinesSkipped(eval, file, h);
    } else {
      ScanFeatureBlock(eval, file, h, lo + 1);
      ScanFeatureStep(eval, file, h, lo);
    }
  }

  /** On a well-formed model file the run completes and emits exactly one
      row per feature, in name order, each with the weights its segment
      stores for it. */
  lemma WellFormedExtraction(file: seq<string>, h: Header, isWeight: string -> bool)
    requires WellFormedModel(file, h, isWeight)
    ensures Scan(Evaluate(file, h, isWeight), file[11..]).failure == None
    ensures |Scan(Evaluate(file, h, isWeight), file[11..]).rows| == h.total
    ensures forall r :: 0 <= r < h.total ==>
      Scan(Evaluate(file, h, isWeight), file[11..]).rows[r] == Row(file[11 + r], ExpectedScores(file, h, r))
  {
    var eval := Evaluate(file, h, isWeight);
    forall r | 0 <= r < h.total
      ensures eval(file[11 + r]) == Ok(ExpectedScores(file, h, r))
    {
      EvalAttrOfFeatureLine(file, h, isWeight, r);
    }
    ScanFeatureBlock(eval, file, h, 0);
    ExpectedRowsAt(file, h, 0);
  }
}
