/**
 * The `incidents` table: `createdb` drops and recreates it, `populatedb`
 * adds a batch with `INSERT OR IGNORE` under the `UNIQUE` constraint on the
 * incident number, and `status` reads back the per-nature aggregate.
 */
module Store {
  import opened Incidents
  import opened Aggregate

  /** The incident numbers present in a sequence of rows. */
  function NumbersOf(rows: seq<Incident>): set<string> {
    set r | r in rows :: r.incidentNumber
  }

  /** No incident number occurs in two rows: the `UNIQUE` constraint. */
  ghost predicate UniqueNumbers(rows: seq<Incident>) {
    forall i, j :: 0 <= i < j < |rows| ==> rows[i].incidentNumber != rows[j].incidentNumber
  }

  /** One `INSERT OR IGNORE`: a row whose number is already stored is
      dropped, any other row is appended. */
  function InsertOrIgnore(rows: seq<Incident>, x: Incident): (r: seq<Incident>)
    ensures rows <= r && |r| <= |rows| + 1
  {
    if x.incidentNumber in NumbersOf(rows) then rows else rows + [x]
  }

  /** The statements of one `populatedb` call, in batch order. */
  function InsertAll(rows: seq<Incident>, xs: seq<Incident>): (r: seq<Incident>)
    ensures rows <= r && |r| <= |rows| + |xs|
    decreases |xs|
  {
    if xs == [] then rows
    else InsertOrIgnore(InsertAll(rows, xs[..|xs| - 1]), xs[|xs| - 1])
  }

  /** Whether the record at position `k` of a batch is the first occurrence
      of its incident number, both in the table and in the batch. */
  predicate FirstOccurrence(rows: seq<Incident>, xs: seq<Incident>, k: nat)
    requires k < |xs|
  {
    xs[k].incidentNumber !in NumbersOf(rows) && xs[k].incidentNumber !in NumbersOf(xs[..k])
  }

  /** The records of a batch that are first occurrences, in batch order. */
  function Admitted(rows: seq<Incident>, xs: seq<Incident>): (r: seq<Incident>)
    ensures |r| <= |xs|
    ensures forall x :: x in r ==> x in xs
    decreases |xs|
  {
    if xs == [] then []
    else
      var k := |xs| - 1;
      Admitted(rows, xs[..k]) + (if FirstOccurrence(rows, xs, k) then [xs[k]] else [])
  }

  /** The numbers of a concatenation are those of both parts. */
  lemma NumbersConcat(a: seq<Incident>, b: seq<Incident>)
    ensures NumbersOf(a + b) == NumbersOf(a) + NumbersOf(b)
  {
    forall n | n in NumbersOf(a + b) ensures n in NumbersOf(a) + NumbersOf(b) {
      var x :| x in a + b && x.incidentNumber == n;
      if x in a { } else { assert x in b; }
    }
    forall n | n in NumbersOf(a) + NumbersOf(b) ensures n in NumbersOf(a + b) {
      if n in NumbersOf(a) {
        var x :| x in a && x.incidentNumber == n;
        assert x in a + b;
      } else {
        var x :| x in b && x.incidentNumber == n;
        assert x in a + b;
      }
    }
  }

  /** A batch is its prefix followed by its last record. */
  lemma SplitLast(xs: seq<Incident>)
    requires xs != []
    ensures xs == xs[..|xs| - 1] + [xs[|xs| - 1]]
    ensures NumbersOf(xs) == NumbersOf(xs[..|xs| - 1]) + {xs[|xs| - 1].incidentNumber}
  {
    assert xs == xs[..|xs| - 1] + [xs[|xs| - 1]];
    NumbersConcat(xs[..|xs| - 1], [xs[|xs| - 1]]);
    assert NumbersOf([xs[|xs| - 1]]) == {xs[|xs| - 1].incidentNumber} by {
      assert xs[|xs| - 1] in [xs[|xs| - 1]];
    }
  }

  /** The admitted records add exactly the batch's new numbers. */
  lemma {:induction false} AdmittedNumbers(rows: seq<Incident>, xs: seq<Incident>)
    ensures NumbersOf(rows) + NumbersOf(Admitted(rows, xs)) == NumbersOf(rows) + NumbersOf(xs)
    decreases |xs|
  {
    if xs != [] {
      var k := |xs| - 1;
      var tail := if FirstOccurrence(rows, xs, k) then [xs[k]] else [];
      AdmittedNumbers(rows, xs[..k]);
      SplitLast(xs);
      NumbersConcat(Admitted(rows, xs[..k]), tail);
      if FirstOccurrence(rows, xs, k) {
        assert NumbersOf(tail) == {xs[k].incidentNumber} by { assert xs[k] in tail; }
      } else {
        assert NumbersOf(tail) == {};
      }
    }
  }

  /** First occurrence wins: a batch inserted with `INSERT OR IGNORE` leaves
      the stored rows as they were and appends, in batch order, exactly the
      records whose incident number is neither stored nor earlier in the
      batch. */
  lemma {:induction false} InsertAllFirstWins(rows: seq<Incident>, xs: seq<Incident>)
    ensures InsertAll(rows, xs) == rows + Admitted(rows, xs)
    decreases |xs|
  {
    if xs != [] {
      var k := |xs| - 1;
      InsertAllFirstWins(rows, xs[..k]);
      AdmittedNumbers(rows, xs[..k]);
      NumbersConcat(rows, Admitted(rows, xs[..k]));
      assert (xs[k].incidentNumber in NumbersOf(rows + Admitted(rows, xs[..k])))
          == !FirstOccurrence(rows, xs, k);
    }
  }

  /** After a batch, the stored numbers are the old ones and the batch's. */
  lemma InsertAllNumbers(rows: seq<Incident>, xs: seq<Incident>)
    ensures NumbersOf(InsertAll(rows, xs)) == NumbersOf(rows) + NumbersOf(xs)
  {
    InsertAllFirstWins(rows, xs);
    NumbersConcat(rows, Admitted(rows, xs));
    AdmittedNumbers(rows, xs);
  }

  /** Inserting a batch keeps incident numbers unique. */
  lemma {:induction false} InsertAllUnique(rows: seq<Incident>, xs: seq<Incident>)
    requires UniqueNumbers(rows)
    ensures UniqueNumbers(InsertAll(rows, xs))
    decreases |xs|
  {
    if xs != [] {
      var prev := InsertAll(rows, xs[..|xs| - 1]);
      var x := xs[|xs| - 1];
      InsertAllUnique(rows, xs[..|xs| - 1]);
      if x.incidentNumber !in NumbersOf(prev) {
        var r := prev + [x];
        forall i, j | 0 <= i < j < |r| ensures r[i].incidentNumber != r[j].incidentNumber {
          if j == |prev| {
            assert r[i] == prev[i] && prev[i] in prev;
          }
        }
      }
    }
  }

  /** Inserting two batches one after the other is inserting their
      concatenation. */
  lemma {:induction false} InsertAllConcat(rows: seq<Incident>, a: seq<Incident>, b: seq<Incident>)
    ensures InsertAll(InsertAll(rows, a), b) == InsertAll(rows, a + b)
    decreases |b|
  {
    if b == [] {
      assert a + b == a;
    } else {
      InsertAllConcat(rows, a, b[..|b| - 1]);
      assert (a + b)[..|a + b| - 1] == a + b[..|b| - 1];
      assert (a + b)[|a + b| - 1] == b[|b| - 1];
    }
  }

  /** A batch whose numbers are all stored changes nothing. */
  lemma {:induction false} InsertAllPresent(rows: seq<Incident>, xs: seq<Incident>)
    requires NumbersOf(xs) <= NumbersOf(rows)
    ensures InsertAll(rows, xs) == rows
    decreases |xs|
  {
    if xs != [] {
      SplitLast(xs);
      InsertAllPresent(rows, xs[..|xs| - 1]);
    }
  }

  /** Populating twice with the same batch stores what populating once
      does. */
  lemma InsertAllIdempotent(rows: seq<Incident>, xs: seq<Incident>)
    ensures InsertAll(InsertAll(rows, xs), xs) == InsertAll(rows, xs)
  {
    InsertAllNumbers(rows, xs);
    InsertAllPresent(InsertAll(rows, xs), xs);
  }

  /** With unique numbers there are as many distinct numbers as rows. */
  lemma {:induction false} UniqueCard(rows: seq<Incident>)
    requires UniqueNumbers(rows)
    ensures |NumbersOf(rows)| == |rows|
    decreases |rows|
  {
    if rows != [] {
      var init := rows[..|rows| - 1];
      SplitLast(rows);
      assert UniqueNumbers(init) by {
        forall i, j | 0 <= i < j < |init| ensures init[i].incidentNumber != init[j].incidentNumber {
          assert init[i] == rows[i] && init[j] == rows[j];
        }
      }
      UniqueCard(init);
    }
  }

  /** The `incidents` table of the SQLite database. */
  class IncidentTable {
    /** The stored rows, in insertion order. */
    var rows: seq<Incident>

    /** The `UNIQUE` constraint on the incident number holds. */
    ghost predicate Valid()
      reads this
    {
      UniqueNumbers(rows)
    }

    /** Connecting to the database file, whose `incidents` table may hold
        rows from an earlier run. Nothing is assumed about those rows, so
        the unique-number invariant `Valid()` need not hold until `Reset`. */
    constructor Connect(persisted: seq<Incident>)
      ensures rows == persisted
    {
      rows := persisted;
    }

    /** `createdb`: the table is dropped and created again, empty, whatever
        it held. */
    method Reset()
      modifies this
      ensures Valid() && rows == []
    {
      rows := [];
    }

    /** `populatedb`: one `INSERT OR IGNORE` per record, in batch order. */
    method Populate(incidents: seq<Incident>)
      requires Valid()
      modifies this
      ensures Valid()
      ensures rows == InsertAll(old(rows), incidents)
    {
      var i := 0;
      while i < |incidents|
        invariant 0 <= i <= |incidents|
        invariant rows == InsertAll(old(rows), incidents[..i])
      {
        var x := incidents[i];
        if x.incidentNumber !in NumbersOf(rows) {
          rows := rows + [x];
        }
        assert incidents[..i + 1][..i] == incidents[..i];
        i := i + 1;
      }
      assert incidents[..i] == incidents;
      InsertAllUnique(old(rows), incidents);
    }

    /** `status`: the per-nature aggregate of the stored rows, ascending by
        nature, each count the number of rows of that nature, empty exactly
        when the table is; the counts add up to the number of distinct
        incident numbers stored. */
    function Status(): (g: seq<NatureCount>)
      reads this
      requires Valid()
      ensures Ascending(g) && Positive(g)
      ensures Listed(g) == RowNatures(rows)
      ensures forall n :: Lookup(g, n) == CountNature(rows, n)
      ensures g == [] <==> rows == []
      ensures Total(g) == |NumbersOf(rows)|
    {
      UniqueCard(rows);
      NatureCountsSpec(rows);
      NatureCounts(rows)
    }
  }
}
