/**
 * The command-line run: reset the table once, extract and insert the
 * records of every incident summary in the order given, then print one
 * `nature|count` line per nature.
 */
module Command {
  import opened Incidents
  import opened Aggregate
  import opened Store

  /** The character of a decimal digit. */
  function DigitChar(d: nat): char
    requires d < 10
  {
    ('0' as int + d) as char
  }

  predicate IsDigit(c: char) {
    '0' <= c <= '9'
  }

  /** The value of a digit character, 0 for any other character. */
  function DigitValue(c: char): nat {
    if IsDigit(c) then c as int - '0' as int else 0
  }

  /** Python's `str` of a non-negative `int`: its decimal digits. */
  function NatToString(n: nat): string
    decreases n
  {
    if n < 10 then [DigitChar(n)] else NatToString(n / 10) + [DigitChar(n % 10)]
  }

  /** The number a string of decimal digits denotes. */
  function DecimalValue(s: string): nat
    decreases |s|
  {
    if s == [] then 0 else 10 * DecimalValue(s[..|s| - 1]) + DigitValue(s[|s| - 1])
  }

  /** Decimal digits without a leading zero, except for "0" itself. */
  predicate Canonical(s: string) {
    s != [] && (forall i :: 0 <= i < |s| ==> IsDigit(s[i])) && (s[0] == '0' ==> |s| == 1)
  }

  /** The text of a count is its canonical decimal form and denotes it. */
  lemma {:induction false} NatToStringSpec(n: nat)
    ensures Canonical(NatToString(n))
    ensures DecimalValue(NatToString(n)) == n
    ensures n > 0 ==> NatToString(n)[0] != '0'
    decreases n
  {
    var s := NatToString(n);
    if n >= 10 {
      var p := NatToString(n / 10);
      NatToStringSpec(n / 10);
      assert s[..|s| - 1] == p;
      assert s[0] == p[0];
    }
  }

  /** A canonical digit string other than "0" denotes a positive number. */
  lemma {:induction false} CanonicalPositive(s: string)
    requires Canonical(s) && s[0] != '0'
    ensures DecimalValue(s) >= 1
    decreases |s|
  {
    if |s| > 1 {
      var init := s[..|s| - 1];
      assert init[0] == s[0];
      CanonicalPositive(init);
    }
  }

  /** Reading a canonical digit string and printing the number gives the
      string back. */
  lemma {:induction false} NatToStringOfDecimal(s: string)
    requires Canonical(s)
    ensures NatToString(DecimalValue(s)) == s
    decreases |s|
  {
    var d := DigitValue(s[|s| - 1]);
    assert IsDigit(s[|s| - 1]);
    if |s| > 1 {
      var init := s[..|s| - 1];
      assert init[0] == s[0];
      CanonicalPositive(init);
      NatToStringOfDecimal(init);
      var v := DecimalValue(init);
      assert (10 * v + d) / 10 == v && (10 * v + d) % 10 == d;
      assert s == init + [s[|s| - 1]];
    }
  }

  /** One printed line: `f"{row[0]}|{row[1]}"`. */
  function StatusLine(e: NatureCount): string {
    e.nature + "|" + NatToString(e.count)
  }

  /** A printed line reads back: the nature, then a `|`, then the canonical
      count, with no `|` after the nature, so the nature is what precedes
      the line's last `|`. */
  lemma StatusLineReadBack(e: NatureCount)
    ensures |StatusLine(e)| > |e.nature| + 1
    ensures StatusLine(e)[..|e.nature|] == e.nature
    ensures StatusLine(e)[|e.nature|] == '|'
    ensures Canonical(StatusLine(e)[|e.nature| + 1..])
    ensures DecimalValue(StatusLine(e)[|e.nature| + 1..]) == e.count
    ensures forall i :: |e.nature| < i < |StatusLine(e)| ==> StatusLine(e)[i] != '|'
  {
    var line := StatusLine(e);
    NatToStringSpec(e.count);
    assert line[|e.nature| + 1..] == NatToString(e.count);
    forall i | |e.nature| < i < |line| ensures line[i] != '|' {
      assert line[i] == NatToString(e.count)[i - |e.nature| - 1];
    }
  }

  /** The printed lines for an aggregate, one per entry, in its order. */
  function Lines(g: seq<NatureCount>): seq<string> {
    seq(|g|, i requires 0 <= i < |g| => StatusLine(g[i]))
  }

  /** What the run prints for a table holding `rows`. */
  function Report(rows: seq<Incident>): seq<string> {
    Lines(NatureCounts(rows))
  }

  /** Line by line, the report lists each nature of the rows once, in
      ascending collation order, followed by the number of rows with that
      nature; it is empty exactly when there are no rows. */
  lemma ReportSpec(rows: seq<Incident>)
    ensures |Report(rows)| == |NatureCounts(rows)|
    ensures forall i :: 0 <= i < |Report(rows)| ==>
              Report(rows)[i] == NatureCounts(rows)[i].nature + "|" + NatToString(CountNature(rows, NatureCounts(rows)[i].nature))
    ensures forall i, j :: 0 <= i < j < |Report(rows)| ==>
              Before(NatureCounts(rows)[i].nature, NatureCounts(rows)[j].nature)
    ensures forall k :: 0 <= k < |rows| ==> rows[k].nature in Listed(NatureCounts(rows))
    ensures Report(rows) == [] <==> rows == []
  {
    NatureCountsSpec(rows);
  }

  /** `status` in main.py: one line per aggregate row, in order. */
  method PrintStatus(table: IncidentTable) returns (lines: seq<string>)
    requires table.Valid()
    ensures lines == Report(table.rows)
  {
    var g := table.Status();
    lines := [];
    for i := 0 to |g|
      invariant |lines| == i
      invariant forall k :: 0 <= k < i ==> lines[k] == StatusLine(g[k])
    {
      lines := lines + [StatusLine(g[i])];
    }
  }

  /** The rows stored after inserting the records of each document in turn
      into a freshly created table. */
  function StoredAfter(documents: seq<seq<string>>): seq<Incident>
    decreases |documents|
  {
    if documents == [] then []
    else InsertAll(StoredAfter(documents[..|documents| - 1]), Extracted(documents[|documents| - 1]))
  }

  /** All the records extracted from the documents, in order. */
  function AllRecords(documents: seq<seq<string>>): seq<Incident> {
    FlatMap(Extracted, documents)
  }

  /** `main`: `createdb`, then `extractincidents` and `populatedb` per
      document, then `status`. A document is the list of its pages' text;
      `persisted` is what the database file held before the run, which the
      output does not depend on. */
  method Run(persisted: seq<Incident>, documents: seq<seq<string>>) returns (lines: seq<string>)
    ensures lines == Report(StoredAfter(documents))
  {
    var table := new IncidentTable.Connect(persisted);
    table.Reset();
    for d := 0 to |documents|
      invariant table.Valid()
      invariant table.rows == StoredAfter(documents[..d])
    {
      var incidents := ExtractIncidents(documents[d]);
      table.Populate(incidents);
      assert documents[..d + 1][..d] == documents[..d];
    }
    assert documents[..|documents|] == documents;
    lines := PrintStatus(table);
  }

  /** Inserting document after document is inserting all their records as
      one batch into an empty table. */
  lemma {:induction false} StoredAfterIsOneBatch(documents: seq<seq<string>>)
    ensures StoredAfter(documents) == InsertAll([], AllRecords(documents))
    decreases |documents|
  {
    if documents == [] {
    } else {
      var init := documents[..|documents| - 1];
      var last := documents[|documents| - 1];
      StoredAfterIsOneBatch(init);
      InsertAllConcat([], AllRecords(init), Extracted(last));
      assert documents == init + [last];
      FlatMapConcat(Extracted, init, [last]);
      FlatMapSingle(Extracted, last);
    }
  }

  /** Across all documents, the first record seen with each incident number
      is the one stored, in the order first seen, and no number is stored
      twice. */
  lemma RunFirstWins(documents: seq<seq<string>>)
    ensures StoredAfter(documents) == Admitted([], AllRecords(documents))
    ensures UniqueNumbers(StoredAfter(documents))
  {
    StoredAfterIsOneBatch(documents);
    InsertAllFirstWins([], AllRecords(documents));
    InsertAllUnique([], AllRecords(documents));
  }

  /** The printed counts add up to the number of distinct incident numbers
      across all documents. */
  lemma RunTotal(documents: seq<seq<string>>)
    ensures Total(NatureCounts(StoredAfter(documents))) == |NumbersOf(AllRecords(documents))|
  {
    StoredAfterIsOneBatch(documents);
    InsertAllUnique([], AllRecords(documents));
    InsertAllNumbers([], AllRecords(documents));
    UniqueCard(StoredAfter(documents));
  }

  /** Naming the same document twice in a row prints what naming it once
      does. */
  lemma RunRepeatedDocument(documents: seq<seq<string>>, doc: seq<string>)
    ensures Report(StoredAfter(documents + [doc, doc])) == Report(StoredAfter(documents + [doc]))
  {
    var once := documents + [doc];
    var twice := documents + [doc, doc];
    assert twice[..|twice| - 1] == once;
    assert once[..|once| - 1] == documents;
    InsertAllIdempotent(StoredAfter(documents), Extracted(doc));
  }
}
