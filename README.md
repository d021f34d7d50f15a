# MaxEnt-PPI weight extractor, modelled in Dafny

This project models the weight-extraction part of `MaxEntWrapper.java`.
That code reads the text form of a two-class OpenNLP GIS model and writes
one row per feature: the feature name, then its weight for class A, then
its weight for class B.

The extraction has four parts. The model keeps the same four, one module each.

- **Line store** (`LineStore`). Each line of the model file becomes one
  document of a search index, in file order. So document k (0-based) holds
  line k + 1 (1-based). A lookup asks for the documents whose whole content
  equals a string. The index is a class, `LineIndex`, whose `docs` field
  grows by one document per `AddDocument` call. `Index` is the loop that
  fills it. `Hits` gives the ids of the matching documents, and `Lookup`
  turns exactly one hit into a 1-based line number. Zero hits or several
  hits is an error.
- **Header reader** (`Header`, on top of `Decimal`). It reads fixed
  documents. Document 10 holds the total number of features and is parsed
  whole. Documents 4 and 5 hold the class labels. Documents 7, 8 and 9 hold
  the counts of class-A-only, shared and class-B-only features; only the
  first `\s`-separated token of these lines is parsed. Integers are parsed
  as Java's `Integer.valueOf` does: an optional sign, at least one digit,
  and a value inside the 32-bit range.
- **Weight locator** (`WeightLocator`). `EvalAttr` looks up the feature
  line. `Place` then applies the source's three-branch offset arithmetic
  to the line number. It picks the value documents: one for a
  class-A-only feature, two consecutive ones for a shared feature, and one
  for a class-B-only feature. The class a feature has no weight for gets
  the constant 0 (`Zero`).
- **Extraction driver** (`Extraction`). `ExtractWeights` builds the index
  and reads the header. It skips 11 lines, then reads every later line. A
  line is processed when it starts with an ASCII letter and is not `GIS`,
  `HIGH` or `LOW`, or when it is empty. Each processed line is evaluated
  and its row appended. The first evaluation that fails ends the run. The
  functional reference for the loop is `Scan`. The loop itself is the
  method `ReadFeatureLines`, proved equal to `Scan` together with the
  counters `i` (lines read) and `j` (lines processed).

Some consequences of the code:

- The class-B-only segment is read **in name order**. The formula at
  `MaxEntWrapper.java:344` increases with the line number. So the first
  class-B-only name reads the first slot of that segment, and the last
  name reads the last value document (`WeightLocator.SegmentEnds`,
  `WeightLocator.PlaceByRank`).
- The guards of the class-A-only branch and the shared branch overlap at
  line number aOnly + 11. The first branch wins there
  (`WeightLocator.OverlapGoesToClassA`).
- The total on document 10 is parsed whole, not split. A total line with
  text after the number is rejected, while count lines accept such text
  (`Header.TotalLineIsNotSplit`).
- A count line that is non-empty and consists only of whitespace splits
  into no token at all in Java, so reading element 0 fails. The model
  reports this as `NoToken`.
- Every lookup abort stops the whole run. A feature name on two lines
  makes the extraction fail (`Extraction.DuplicateFeatureAborts`).
- A value line that starts with a letter (`NaN`, `Infinity`) passes the
  filter. If its text is unique, its lookup succeeds. The line lies past
  the name block, so it falls to the class-B-only branch. In a file holding
  exactly the header, the names and the values, that branch points past the
  last document, so the run fails with a missing document
  (`Extraction.ValueLineReadPastEnd`).
- Both weight slots are always filled, so the `NA` output branches of the
  driver are never taken. The `Scores` datatype has no absent slot.

The end-to-end result is `Extraction.WellFormedExtraction`. Take a file
laid out as the model writer lays it out: header, `total` unique name
lines, then the three value segments. On such a file the run completes and
emits exactly one row per feature, in name order, each with the weights
its segment stores for it.

## Model

| member | source | states |
|---|---|---|
| Decimal.ParseInt | wrapper/MaxEntPPI/src/main/java/org/maxent/wrapper/MaxEntWrapper.java:224-228 | Success only for an optional sign followed by digits, with the result inside the 32-bit range and of the written sign; every other text gives a number-format error naming it |
| Decimal.ParseIntToDecimal | wrapper/MaxEntPPI/src/main/java/org/maxent/wrapper/MaxEntWrapper.java:224 | Parsing the decimal form of any 32-bit integer gives back that integer |
| Decimal.ParseSignedDigits | wrapper/MaxEntPPI/src/main/java/org/maxent/wrapper/MaxEntWrapper.java:224-228 | A sign prefix of "", "+" or "-" followed by digits parses to the signed value of the digits when it fits 32 bits, and is rejected otherwise |
| Decimal.ParseIntNonCanonical | wrapper/MaxEntPPI/src/main/java/org/maxent/wrapper/MaxEntWrapper.java:224-228 | "+7" and "007" parse to 7 and "-0" parses to 0, as Java accepts them |
| Decimal.ParseIntRejects | wrapper/MaxEntPPI/src/main/java/org/maxent/wrapper/MaxEntWrapper.java:224-228 | The empty text, a lone sign and a number followed by a space are rejected |
| Decimal.ParseIntOutOfRange | wrapper/MaxEntPPI/src/main/java/org/maxent/wrapper/MaxEntWrapper.java:224-228 | The decimal text of any value outside the 32-bit range is rejected |
| LineStore.LineIndex.AddDocument | wrapper/MaxEntPPI/src/main/java/org/maxent/wrapper/MaxEntWrapper.java:296-298 | Adding a document appends it to the index, so it gets the next id |
| LineStore.Index | wrapper/MaxEntPPI/src/main/java/org/maxent/wrapper/MaxEntWrapper.java:294-299 | The index holds one document per line in file order: document k is line k + 1 |
| LineStore.Hits | wrapper/MaxEntPPI/src/main/java/org/maxent/wrapper/MaxEntWrapper.java:308-310 | The hits of an exact-content query are exactly the ids of the documents with that content, in increasing order |
| LineStore.HitsOfUniqueLine | wrapper/MaxEntPPI/src/main/java/org/maxent/wrapper/MaxEntWrapper.java:308-310 | A content held by exactly one document gives that document as the single hit |
| LineStore.RepeatedLineHits | wrapper/MaxEntPPI/src/main/java/org/maxent/wrapper/MaxEntWrapper.java:310-311 | Two documents with the same content give at least two hits |
| LineStore.Lookup | wrapper/MaxEntPPI/src/main/java/org/maxent/wrapper/MaxEntWrapper.java:308-319 | The lookup succeeds if and only if exactly one document holds the text; it then returns that document's 1-based line number, and otherwise reports the hit count |
| LineStore.LookupOwnLine | wrapper/MaxEntPPI/src/main/java/org/maxent/wrapper/MaxEntWrapper.java:295-298 | Looking up the text of line p finds line p when no other line has that text, and fails with at least two hits otherwise |
| Header.FirstToken | wrapper/MaxEntPPI/src/main/java/org/maxent/wrapper/MaxEntWrapper.java:227-228 | Element 0 of a split on `\s` is the longest whitespace-free prefix, and it is absent exactly for a non-empty all-whitespace line |
| Header.CountAt | wrapper/MaxEntPPI/src/main/java/org/maxent/wrapper/MaxEntWrapper.java:225-240 | A count line without a token fails with `NoToken` exactly when the split gives no element; otherwise the count succeeds exactly when its first token parses, and it is that token's value |
| Header.ReadHeader | wrapper/MaxEntPPI/src/main/java/org/maxent/wrapper/MaxEntWrapper.java:217-240 | The header fails with a missing document 10 exactly when the file has fewer than 11 lines, and with the total line's error when that line does not parse; it succeeds exactly when document 10 and the three count lines parse, and then the labels are documents 4 and 5, the total is the value of document 10 and the counts are the values read from documents 7, 8 and 9 |
| Header.ReadHeaderOfWritten | wrapper/MaxEntPPI/src/main/java/org/maxent/wrapper/MaxEntWrapper.java:217-240 | A header written with the labels and the decimal counts in their documents (count lines possibly followed by whitespace and more text) reads back as exactly that header |
| Header.TotalLineIsNotSplit | wrapper/MaxEntPPI/src/main/java/org/maxent/wrapper/MaxEntWrapper.java:224 | A total line with whitespace and text after the number is rejected as not an integer |
| Header.BadCountLineFails | wrapper/MaxEntPPI/src/main/java/org/maxent/wrapper/MaxEntWrapper.java:225-240 | A count line with no token, or whose first token is not an integer, makes the header fail |
| WeightLocator.Place | wrapper/MaxEntPPI/src/main/java/org/maxent/wrapper/MaxEntWrapper.java:322-349 | For a feature line, the class-A-only branch is taken exactly for the first aOnly feature lines and the shared branch exactly for the next `shared` ones |
| WeightLocator.ReadWeight | wrapper/MaxEntPPI/src/main/java/org/maxent/wrapper/MaxEntWrapper.java:325-326 | Reading a weight succeeds exactly when the document exists and holds weight text, and then returns that text; a missing document is reported as missing |
| WeightLocator.EvalAttr | wrapper/MaxEntPPI/src/main/java/org/maxent/wrapper/MaxEntWrapper.java:307-354 | Evaluation succeeds exactly when the lookup succeeds and every document of the line's placement holds a weight; the scores are then the placement's weights with `Zero` in the other class's slot |
| WeightLocator.PlaceByRank | wrapper/MaxEntPPI/src/main/java/org/maxent/wrapper/MaxEntWrapper.java:315-349 | For counts that add up to the total, the source arithmetic on feature line 12 + r equals the segment layout by rank, and its documents are the consecutive run between the slot offsets of r and r + 1 |
| WeightLocator.SegmentEnds | wrapper/MaxEntPPI/src/main/java/org/maxent/wrapper/MaxEntWrapper.java:315-349 | The first feature line reads the first value document, the first class-B-only line reads the first slot of its segment, and the last feature line reads the last value document |
| WeightLocator.OverlapGoesToClassA | wrapper/MaxEntPPI/src/main/java/org/maxent/wrapper/MaxEntWrapper.java:322-330 | At line number aOnly + 11 both guards hold and the line is read as class-A-only |
| WeightLocator.WeightSegmentsTile | wrapper/MaxEntPPI/src/main/java/org/maxent/wrapper/MaxEntWrapper.java:315-349 | Over all feature lines, the documents read are exactly the value region, in increasing order, each once |
| WeightLocator.PlacementsDisjoint | wrapper/MaxEntPPI/src/main/java/org/maxent/wrapper/MaxEntWrapper.java:315-349 | Every document read for an earlier feature line comes before every document read for a later one |
| Extraction.StartsWithLetter | wrapper/MaxEntPPI/src/main/java/org/maxent/wrapper/MaxEntWrapper.java:256 | A matching line is non-empty and starts with an ASCII letter; a line that ends with a line terminator (`\n`, `\r`, U+0085, U+2028, U+2029) does not match, because `.` does not match those characters |
| Extraction.IsProcessed | wrapper/MaxEntPPI/src/main/java/org/maxent/wrapper/MaxEntWrapper.java:256-262 | The empty line is processed; a line starting with anything but an ASCII letter (every decimal weight) and the lines `GIS`, `HIGH` and `LOW` are skipped |
| Extraction.Processed | wrapper/MaxEntPPI/src/main/java/org/maxent/wrapper/MaxEntWrapper.java:256-262 | The processed lines are lines of the input that pass the filter (the full selection is stated by `Extraction.ProcessedSelects`) |
| Extraction.ProcessedPositions | wrapper/MaxEntPPI/src/main/java/org/maxent/wrapper/MaxEntWrapper.java:256-262 | The positions of the processed lines: every position whose line passes the filter, and no other, in increasing order |
| Extraction.ProcessedSelects | wrapper/MaxEntPPI/src/main/java/org/maxent/wrapper/MaxEntWrapper.java:256-262 | `Processed` holds exactly the lines at the processed positions, in file order |
| Extraction.Scan | wrapper/MaxEntPPI/src/main/java/org/maxent/wrapper/MaxEntWrapper.java:254-275 | Reference for the read loop: at most one row per line, and every row carries a processed line and the scores it evaluates to, also on a run that stops |
| Extraction.ExtractWeights | wrapper/MaxEntPPI/src/main/java/org/maxent/wrapper/MaxEntWrapper.java:244-278 | A header failure writes nothing; otherwise the rows written are those of the scan of the lines after the header, the run fails exactly when the scan does and with its error, and a completed run ends with i = max(11, line count) and j = number of processed lines = number of rows |
| Extraction.ReadFeatureLines | wrapper/MaxEntPPI/src/main/java/org/maxent/wrapper/MaxEntWrapper.java:254-275 | The read loop writes exactly the rows of the scan and stops with its failure; when it completes, i counts every line and j every processed line |
| Extraction.ScanSucceedsIff | wrapper/MaxEntPPI/src/main/java/org/maxent/wrapper/MaxEntWrapper.java:254-275 | A run completes if and only if every processed line evaluates successfully |
| Extraction.ScanRows | wrapper/MaxEntPPI/src/main/java/org/maxent/wrapper/MaxEntWrapper.java:256-273 | A completed run emits one row per processed line, in file order, each carrying that line and the scores it evaluates to |
| Extraction.ScanFailure | wrapper/MaxEntPPI/src/main/java/org/maxent/wrapper/MaxEntWrapper.java:258-264 | A failed run stops at a processed line whose evaluation fails with the reported error, after exactly the rows of the lines before it |
| Extraction.DuplicateFeatureAborts | wrapper/MaxEntPPI/src/main/java/org/maxent/wrapper/MaxEntWrapper.java:311-313 | A processed line whose text occurs on another line makes the whole run fail |
| Extraction.ValueLineReadPastEnd | wrapper/MaxEntPPI/src/main/java/org/maxent/wrapper/MaxEntWrapper.java:342-349 | A unique value line is placed in the class-B-only branch at a document past the end of the file, so its evaluation fails with a missing document, and if it passes the filter the run fails |
| Extraction.EvalAttrOfFeatureLine | wrapper/MaxEntPPI/src/main/java/org/maxent/wrapper/MaxEntWrapper.java:307-350 | On a well laid-out file, the feature of rank r evaluates to the weights its segment stores for rank r |
| Extraction.WellFormedExtraction | wrapper/MaxEntPPI/src/main/java/org/maxent/wrapper/MaxEntWrapper.java:244-278 | On a well laid-out file the run completes with one row per feature, in name order, each with its segment's weights |

## Left out

- Command-line handling (`main`), `train` and `evaluate`: argument
  plumbing and calls into the OpenNLP library with floating-point scores.
- The on-disk index: its directory, the analyzer, `optimize`, and
  building it only when the directory is missing. The model builds the
  index from the same lines the reader returns; a stale cached index is
  not modelled.
- Lucene term details: the term-length limit, the cap of three returned
  hits (only the hit count is used), and reading the document id back
  from `ScoreDoc.toString`. The model uses the document id directly.
- `Double.valueOf` and the printing of weights. A weight is kept as the
  text of its line, and acceptance by the number parser is the parameter
  `isWeight`.
- `Decimal.ParseInt`: digits are ASCII only. Java's `Integer.valueOf`
  also accepts other Unicode decimal digits.
- Java `int` overflow in the offset arithmetic of `evalAttr`. The model
  computes with unbounded integers; the counts themselves are 32-bit.
- File handles, the output writer, and its tab-separated text. The output
  is the sequence of rows written, and the diagnostic `println` lines are
  dropped. A run that aborts is modelled as an error result. The process
  exit, and whatever the unflushed writer holds at that point, are not
  modelled.
