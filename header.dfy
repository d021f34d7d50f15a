/** The header reader: the class labels and the four counts that the
    extractor takes from fixed documents of the index. */
module Header {
  import opened Failures
  import opened Decimal

  /** Labels from documents 4 and 5; `total` from document 10; `aOnly`,
      `shared` and `bOnly` (the source's totalHCNr, totalHCLCNr and
      totalLCNr) from documents 7, 8 and 9. */
  datatype Header = Header(classA: string, classB: string, total: int, aOnly: int, shared: int, bOnly: int)

  /** A character of the Java regex class `\s`. */
  predicate IsSpace(c: char) {
    c == ' ' || c == '\t' || c == '\n' || c == '\U{0B}' || c == '\U{0C}' || c == '\r'
  }

  predicate NoSpace(s: string) {
    forall i :: 0 <= i < |s| ==> !IsSpace(s[i])
  }

  /** Position of the first whitespace character, or |s| if there is none. */
  function SpaceIndex(s: string): (k: nat)
    ensures k <= |s| && NoSpace(s[..k])
    ensures k < |s| ==> IsSpace(s[k])
  {
    if s == [] || IsSpace(s[0]) then 0 else 1 + SpaceIndex(s[1..])
  }

  /** Element 0 of `s.split("\\s")`.  Java drops trailing empty strings, so a
      non-empty line made only of whitespace splits into no element at all. */
  function FirstToken(s: string): (t: Option<string>)
    ensures t.None? <==> |s| > 0 && forall i :: 0 <= i < |s| ==> IsSpace(s[i])
    ensures t.Some? ==> t.value <= s && NoSpace(t.value)
    ensures t.Some? ==> |t.value| == |s| || IsSpace(s[|t.value|])
  {
    if |s| > 0 && forall i :: 0 <= i < |s| ==> IsSpace(s[i]) then None
    else Some(s[..SpaceIndex(s)])
  }

  /** A count line: the first whitespace-separated token, as an int. */
  function CountAt(docs: seq<string>, k: nat): (r: Result<int>)
    requires k < |docs|
    ensures FirstToken(docs[k]).None? <==> r == Err(NoToken(k))
    ensures r.Ok? <==> FirstToken(docs[k]).Some? && ParseInt(FirstToken(docs[k]).value).Ok?
    ensures r.Ok? ==> ParseInt(FirstToken(docs[k]).value) == Ok(r.value) && IntMin <= r.value <= IntMax
    ensures r.Err? ==> r.error == NoToken(k) || r.error.NotAnInteger?
  {
    match FirstToken(docs[k])
    case None => Err(NoToken(k))
    case Some(t) => ParseInt(t)
  }

  /** The header block of `extractWeights`, in the order the source reads it:
      document 10 (whose absence fails first), the labels, then the counts. */
  function ReadHeader(docs: seq<string>): (r: Result<Header>)
    ensures |docs| < 11 <==> r == Err(MissingDocument(10))
    ensures r.Ok? <==>
      |docs| >= 11 && ParseInt(docs[10]).Ok? && CountAt(docs, 7).Ok? && CountAt(docs, 8).Ok? && CountAt(docs, 9).Ok?
    ensures |docs| >= 11 && ParseInt(docs[10]).Err? ==> r == Err(NotAnInteger(docs[10]))
    ensures r.Ok? ==> r.value.classA == docs[4] && r.value.classB == docs[5]
    ensures r.Ok? ==> ParseInt(docs[10]) == Ok(r.value.total)
    ensures r.Ok? ==>
      CountAt(docs, 7) == Ok(r.value.aOnly) && CountAt(docs, 8) == Ok(r.value.shared) && CountAt(docs, 9) == Ok(r.value.bOnly)
  {
    if |docs| <= 10 then Err(MissingDocument(10))
    else
      var total :- ParseInt(docs[10]);
      var aOnly :- CountAt(docs, 7);
      var shared :- CountAt(docs, 8);
      var bOnly :- CountAt(docs, 9);
      Ok(Header(docs[4], docs[5], total, aOnly, shared, bOnly))
  }

  lemma DecimalHasNoSpace(n: int)
    ensures |ToDecimal(n)| > 0 && NoSpace(ToDecimal(n))
  {
    if n < 0 {
      NatDigitsValue(-n);
    } else {
      NatDigitsValue(n);
    }
  }

  lemma {:induction false} SpaceIndexOfToken(d: string, rest: string)
    requires NoSpace(d)
    requires rest == [] || IsSpace(rest[0])
    ensures SpaceIndex(d + rest) == |d|
  {
    if d != [] {
      assert (d + rest)[1..] == d[1..] + rest;
      SpaceIndexOfToken(d[1..], rest);
    }
  }

  /** A count written as `Integer.toString`, alone or followed by whitespace
      and more text, is read back by `CountAt`. */
  lemma CountAtWritten(docs: seq<string>, k: nat, n: int, rest: string)
    requires k < |docs| && IntMin <= n <= IntMax
    requires docs[k] == ToDecimal(n) + rest
    requires rest == [] || IsSpace(rest[0])
    ensures CountAt(docs, k) == Ok(n)
  {
    var d := ToDecimal(n);
    DecimalHasNoSpace(n);
    assert !IsSpace(docs[k][0]);
    SpaceIndexOfToken(d, rest);
    ParseIntToDecimal(n);
  }

  /** A header written the way the model writer lays it out is read back
      exactly: labels from lines 5 and 6, counts from lines 8 to 11. */
  lemma {:induction false} ReadHeaderOfWritten(docs: seq<string>, h: Header, rest7: string, rest8: string, rest9: string)
    requires |docs| >= 11
    requires IntMin <= h.total <= IntMax && IntMin <= h.aOnly <= IntMax
    requires IntMin <= h.shared <= IntMax && IntMin <= h.bOnly <= IntMax
    requires docs[4] == h.classA && docs[5] == h.classB
    requires docs[10] == ToDecimal(h.total)
    requires docs[7] == ToDecimal(h.aOnly) + rest7 && (rest7 == [] || IsSpace(rest7[0]))
    requires docs[8] == ToDecimal(h.shared) + rest8 && (rest8 == [] || IsSpace(rest8[0]))
    requires docs[9] == ToDecimal(h.bOnly) + rest9 && (rest9 == [] || IsSpace(rest9[0]))
    ensures ReadHeader(docs) == Ok(h)
  {
    ParseIntToDecimal(h.total);
    CountAtWritten(docs, 7, h.aOnly, rest7);
    CountAtWritten(docs, 8, h.shared, rest8);
    CountAtWritten(docs, 9, h.bOnly, rest9);
  }

  /** The total on line 11 is not split: a line with anything after the
      number is rejected, unlike the three count lines. */
  lemma TotalLineIsNotSplit(docs: seq<string>, n: int, rest: string)
    requires |docs| >= 11 && IntMin <= n <= IntMax
    requires docs[10] == ToDecimal(n) + rest && |rest| > 0 && IsSpace(rest[0])
    ensures ReadHeader(docs) == Err(NotAnInteger(docs[10]))
  {
    assert IsSpace(docs[10][|ToDecimal(n)|]);
  }

  /** A count line with no token, or whose first token is not an integer,
      makes the header fail. */
  lemma BadCountLineFails(docs: seq<string>, k: nat)
    requires |docs| >= 11 && 7 <= k <= 9
    requires FirstToken(docs[k]).None? || ParseInt(FirstToken(docs[k]).value).Err?
    ensures ReadHeader(docs).Err?
  {
    assert CountAt(docs, k).Err?;
    assert !(CountAt(docs, 7).Ok? && CountAt(docs, 8).Ok? && CountAt(docs, 9).Ok?);
  }
}
