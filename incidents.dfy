/**
 * Turning the page texts of an incident summary into incident records:
 * the line tokenizer and the record builder of `extractincidents`.
 * The PDF reader is not modelled: its output, one text per page (empty when
 * the page has no extractable text), is the input here.
 */
module Incidents {
  import opened PyStr

  datatype Option<T> = None | Some(value: T)

  /** One incident, its fields in the order the parser assigns them. */
  datatype Incident = Incident(
    dateTime: string,
    incidentNumber: string,
    location: string,
    nature: string,
    incidentOri: string)

  /** The column separator the parser splits on: two spaces. */
  const FieldSep: string := "  "

  /** The line separator pages are split on. */
  const LineSep: string := "\n"

  /** The fields of a record, in column order. */
  function Fields(r: Incident): seq<string> {
    [r.dateTime, r.incidentNumber, r.location, r.nature, r.incidentOri]
  }

  /** A field as the parser can produce it: non-empty, with no surrounding
      whitespace and no two consecutive spaces. */
  predicate CleanField(f: string) {
    f != [] && Stripped(f) && !Occurs(FieldSep, f)
  }

  /** All five fields are clean. */
  predicate WellFormed(r: Incident) {
    && CleanField(r.dateTime)
    && CleanField(r.incidentNumber)
    && CleanField(r.location)
    && CleanField(r.nature)
    && CleanField(r.incidentOri)
  }

  /** `[part.strip() for part in parts if part.strip()]`: every kept token
      is non-empty and stripped, and it contains two spaces only if its
      piece did. */
  function StripNonEmpty(parts: seq<string>): (r: seq<string>)
    ensures |r| <= |parts|
    ensures forall i :: 0 <= i < |r| ==> r[i] != [] && Stripped(r[i])
    ensures (forall j :: 0 <= j < |parts| ==> !Occurs(FieldSep, parts[j])) ==>
              forall i :: 0 <= i < |r| ==> !Occurs(FieldSep, r[i])
  {
    if parts == [] then []
    else
      var rest := StripNonEmpty(parts[1..]);
      var p := Strip(parts[0]);
      StripSpec(parts[0]);
      assert !Occurs(FieldSep, parts[0]) ==> !Occurs(FieldSep, p) by {
        if !Occurs(FieldSep, parts[0]) { StripKeepsNoOccurrence(FieldSep, parts[0]); }
      }
      if p == [] then rest else [p] + rest
  }

  /** The tokens of one line: the stripped, non-empty pieces of
      `line.split("  ")`. Each is a clean field, and there are at most one
      more of them than there are separators in the line. */
  function Tokens(line: string): (r: seq<string>)
    ensures |r| <= SepCount(line, FieldSep) + 1
    ensures forall i :: 0 <= i < |r| ==> CleanField(r[i])
  {
    SplitPiecesAvoidSep(line, FieldSep);
    StripNonEmpty(Split(line, FieldSep))
  }

  /** A line becomes a record exactly when it has five tokens, assigned to
      the fields in column order; such a record is well formed. */
  function ParseLine(line: string): (r: Option<Incident>)
    ensures r.Some? <==> |Tokens(line)| == 5
    ensures r.Some? ==> WellFormed(r.value) && Fields(r.value) == Tokens(line)
  {
    var parts := Tokens(line);
    if |parts| == 5 then
      FieldsOfFive(parts);
      Some(Incident(parts[0], parts[1], parts[2], parts[3], parts[4]))
    else
      None
  }

  /** Five tokens, assigned in column order, are the record's fields. */
  lemma FieldsOfFive(parts: seq<string>)
    requires |parts| == 5
    ensures Fields(Incident(parts[0], parts[1], parts[2], parts[3], parts[4])) == parts
  {
  }

  /** The records of one line: none for a blank line, otherwise the record
      the line parses to, if any. */
  function LineIncidents(line: string): (r: seq<Incident>)
    ensures |r| <= 1
  {
    if Strip(line) == [] then []
    else match ParseLine(line)
      case Some(x) => [x]
      case None => []
  }

  /** The results of `f` on each of `xs`, concatenated in order. */
  function FlatMap<A, B>(f: A -> seq<B>, xs: seq<A>): seq<B>
    decreases |xs|
  {
    if xs == [] then [] else f(xs[0]) + FlatMap(f, xs[1..])
  }

  /** Mapping a concatenation concatenates the results. */
  lemma {:induction false} FlatMapConcat<A, B>(f: A -> seq<B>, xs: seq<A>, ys: seq<A>)
    ensures FlatMap(f, xs + ys) == FlatMap(f, xs) + FlatMap(f, ys)
    decreases |xs|
  {
    if xs == [] {
      assert xs + ys == ys;
    } else {
      FlatMapConcat(f, xs[1..], ys);
      assert (xs + ys)[1..] == xs[1..] + ys;
    }
  }

  /** Mapping one element gives that element's results. */
  lemma FlatMapSingle<A, B>(f: A -> seq<B>, x: A)
    ensures FlatMap(f, [x]) == f(x)
  {
    assert [x][1..] == [];
  }

  /** The records of a sequence of lines, in line order. */
  function LinesIncidents(lines: seq<string>): seq<Incident> {
    FlatMap(LineIncidents, lines)
  }

  /** The records of the first `k + 1` lines are those of the first `k`
      followed by those of line `k`. */
  lemma LinesIncidentsStep(lines: seq<string>, k: nat)
    requires k < |lines|
    ensures LinesIncidents(lines[..k + 1]) == LinesIncidents(lines[..k]) + LineIncidents(lines[k])
  {
    FlatMapConcat(LineIncidents, lines[..k], [lines[k]]);
    FlatMapSingle(LineIncidents, lines[k]);
    assert lines[..k + 1] == lines[..k] + [lines[k]];
  }

  /** The records of one page: none when it has no text, otherwise those
      of its lines. */
  function PageIncidents(text: string): seq<Incident> {
    if text == [] then [] else LinesIncidents(Split(text, LineSep))
  }

  /** The records of a document, page after page. */
  function Extracted(pages: seq<string>): seq<Incident> {
    FlatMap(PageIncidents, pages)
  }

  /** `extractincidents`: walks the pages and their lines, appending one
      record per line that has exactly five tokens. */
  method ExtractIncidents(pages: seq<string>) returns (incidents: seq<Incident>)
    ensures incidents == Extracted(pages)
  {
    incidents := [];
    for p := 0 to |pages|
      invariant incidents == Extracted(pages[..p])
    {
      ghost var done := incidents;
      var text := pages[p];
      if text != [] {
        var lines := Split(text, LineSep);
        for k := 0 to |lines|
          invariant incidents == done + LinesIncidents(lines[..k])
        {
          ghost var before := incidents;
          var line := lines[k];
          if Strip(line) != [] {
            var parsed := ParseLine(line);
            if parsed.Some? {
              incidents := incidents + [parsed.value];
            }
          }
          assert incidents == before + LineIncidents(line);
          LinesIncidentsStep(lines, k);
        }
        assert lines[..|lines|] == lines;
      }
      FlatMapConcat(PageIncidents, pages[..p], [pages[p]]);
      FlatMapSingle(PageIncidents, pages[p]);
      assert pages[..p + 1] == pages[..p] + [pages[p]];
    }
    assert pages[..|pages|] == pages;
  }

  /** The records of two runs of pages are those of the first run followed
      by those of the second: records come out in page order, and within
      a page in line order. */
  lemma ExtractedConcat(a: seq<string>, b: seq<string>)
    ensures Extracted(a + b) == Extracted(a) + Extracted(b)
  {
    FlatMapConcat(PageIncidents, a, b);
  }

  /** Every result of `FlatMap` comes from one of the mapped elements. */
  lemma {:induction false} FlatMapMember<A, B>(f: A -> seq<B>, xs: seq<A>, y: B)
    requires y in FlatMap(f, xs)
    ensures exists i :: 0 <= i < |xs| && y in f(xs[i])
    decreases |xs|
  {
    if y !in f(xs[0]) {
      FlatMapMember(f, xs[1..], y);
      var i :| 0 <= i < |xs[1..]| && y in f(xs[1..][i]);
      assert xs[1..][i] == xs[i + 1];
    }
  }

  /** Every record extracted from a document has five non-empty fields with
      no surrounding whitespace and no two consecutive spaces. */
  lemma ExtractedWellFormed(pages: seq<string>)
    ensures forall r :: r in Extracted(pages) ==> WellFormed(r)
  {
    forall r | r in Extracted(pages) ensures WellFormed(r) {
      FlatMapMember(PageIncidents, pages, r);
      var i :| 0 <= i < |pages| && r in PageIncidents(pages[i]);
      var lines := Split(pages[i], LineSep);
      FlatMapMember(LineIncidents, lines, r);
      var k :| 0 <= k < |lines| && r in LineIncidents(lines[k]);
    }
  }

  /** Stripping clean pieces keeps every one of them unchanged. */
  lemma {:induction false} StripNonEmptyOfClean(parts: seq<string>)
    requires forall i :: 0 <= i < |parts| ==> parts[i] != [] && Stripped(parts[i])
    ensures StripNonEmpty(parts) == parts
    decreases |parts|
  {
    if parts != [] {
      StripOfStripped(parts[0]);
      StripNonEmptyOfClean(parts[1..]);
      assert parts == [parts[0]] + parts[1..];
    }
  }

  /** Stripping blank pieces keeps none of them. */
  lemma {:induction false} StripNonEmptyOfBlank(parts: seq<string>)
    requires forall i :: 0 <= i < |parts| ==> AllWs(parts[i])
    ensures StripNonEmpty(parts) == []
    decreases |parts|
  {
    if parts != [] {
      StripEmptyIffBlank(parts[0]);
      StripNonEmptyOfBlank(parts[1..]);
    }
  }

  /** A clean field followed by the separator's first space still holds
      no two consecutive spaces, so the separator is found right after it. */
  lemma CleanFieldEndsBeforeSep(f: string)
    requires CleanField(f)
    ensures !Occurs(FieldSep, f + FieldSep[..|FieldSep| - 1])
  {
    var t := f + FieldSep[..|FieldSep| - 1];
    assert t == f + " ";
    if i: nat :| i <= |t| && OccursAt(FieldSep, t, i) {
      if i + 2 <= |f| {
        assert f[i..][..2] == t[i..][..2];
        assert OccursAt(FieldSep, f, i);
      } else {
        SpaceIsWs();
        assert t[i] == f[|f| - 1];
      }
    }
  }

  /** Round trip: five clean fields joined with two spaces parse back to
      exactly that record. */
  lemma ParseOfJoinedFields(r: Incident)
    requires WellFormed(r)
    ensures ParseLine(Join(Fields(r), FieldSep)) == Some(r)
  {
    var fs := Fields(r);
    forall i | 0 <= i < 4 ensures !Occurs(FieldSep, fs[i] + FieldSep[..|FieldSep| - 1]) {
      CleanFieldEndsBeforeSep(fs[i]);
    }
    SplitOfJoin(fs, FieldSep);
    StripNonEmptyOfClean(fs);
  }

  /** A line holding fewer than four double spaces has fewer than five
      tokens, so it never yields a record. */
  lemma FewSeparatorsNoRecord(line: string)
    requires SepCount(line, FieldSep) < 4
    ensures ParseLine(line) == None
  {
  }

  /** A blank line has no tokens, so the parser would drop it even without
      the explicit blank-line check. */
  lemma BlankLineNoTokens(line: string)
    requires AllWs(line)
    ensures Tokens(line) == []
  {
    SplitOfBlank(line, FieldSep);
    StripNonEmptyOfBlank(Split(line, FieldSep));
  }

  /** Skipping blank lines changes nothing: the records of a line are
      exactly what the parser makes of it. */
  lemma LineIncidentsIsParse(line: string)
    ensures LineIncidents(line) == (if ParseLine(line).Some? then [ParseLine(line).value] else [])
  {
    StripEmptyIffBlank(line);
    if AllWs(line) {
      BlankLineNoTokens(line);
    }
  }

  /** Blank lines contribute no records. */
  lemma {:induction false} BlankLinesNoRecords(lines: seq<string>)
    requires forall i :: 0 <= i < |lines| ==> AllWs(lines[i])
    ensures LinesIncidents(lines) == []
    decreases |lines|
  {
    if lines != [] {
      StripEmptyIffBlank(lines[0]);
      BlankLinesNoRecords(lines[1..]);
    }
  }

  /** A page with no text, or only whitespace, contributes no records. */
  lemma BlankPageNoRecords(text: string)
    requires AllWs(text)
    ensures PageIncidents(text) == []
  {
    if text != [] {
      SplitOfBlank(text, LineSep);
      BlankLinesNoRecords(Split(text, LineSep));
    }
  }
}
