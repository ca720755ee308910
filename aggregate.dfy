/**
 * The aggregate behind `status`:
 * `SELECT nature, COUNT(*) FROM incidents GROUP BY nature ORDER BY nature ASC`.
 */
module Aggregate {
  import opened Incidents

  /** `a` sorts strictly before `b` under SQLite's default BINARY collation.
      It compares the UTF-8 bytes, which orders strings as their code points
      do, and a proper prefix sorts first. */
  predicate Before(a: string, b: string)
    decreases |a|
  {
    b != [] && (a == [] || a[0] < b[0] || (a[0] == b[0] && Before(a[1..], b[1..])))
  }

  /** No string sorts before itself. */
  lemma {:induction false} BeforeIrreflexive(a: string)
    ensures !Before(a, a)
    decreases |a|
  {
    if a != [] {
      BeforeIrreflexive(a[1..]);
    }
  }

  /** The collation order is transitive. */
  lemma {:induction false} BeforeTransitive(a: string, b: string, c: string)
    requires Before(a, b) && Before(b, c)
    ensures Before(a, c)
    decreases |a|
  {
    if a != [] && a[0] == b[0] && b[0] == c[0] {
      BeforeTransitive(a[1..], b[1..], c[1..]);
    }
  }

  /** Two different strings are ordered one way or the other. */
  lemma {:induction false} BeforeTotal(a: string, b: string)
    requires a != b
    ensures Before(a, b) || Before(b, a)
    decreases |a|
  {
    if a != [] && b != [] && a[0] == b[0] {
      assert a[1..] != b[1..] by {
        assert a == [a[0]] + a[1..] && b == [b[0]] + b[1..];
      }
      BeforeTotal(a[1..], b[1..]);
    }
  }

  /** One row of the aggregate: a nature and how many rows have it. */
  datatype NatureCount = NatureCount(nature: string, count: nat)

  /** `COUNT(*)` for the group of nature `n`. */
  function CountNature(rows: seq<Incident>, n: string): (c: nat)
    ensures c <= |rows|
    ensures c == 0 <==> forall k :: 0 <= k < |rows| ==> rows[k].nature != n
    decreases |rows|
  {
    if rows == [] then 0
    else (if rows[0].nature == n then 1 else 0) + CountNature(rows[1..], n)
  }

  /** The natures that occur in the rows. */
  function RowNatures(rows: seq<Incident>): set<string> {
    set r | r in rows :: r.nature
  }

  /** The natures listed in an aggregate. */
  function Listed(g: seq<NatureCount>): set<string> {
    set e | e in g :: e.nature
  }

  /** Natures strictly ascending, hence each listed once. */
  predicate Ascending(g: seq<NatureCount>) {
    forall i, j :: 0 <= i < j < |g| ==> Before(g[i].nature, g[j].nature)
  }

  /** Every listed count is at least one. */
  predicate Positive(g: seq<NatureCount>) {
    forall i :: 0 <= i < |g| ==> g[i].count >= 1
  }

  /** The count listed for `n`, or 0 when `n` is not listed. */
  function Lookup(g: seq<NatureCount>, n: string): nat
    decreases |g|
  {
    if g == [] then 0
    else if g[0].nature == n then g[0].count
    else Lookup(g[1..], n)
  }

  /** The sum of the listed counts. */
  function Total(g: seq<NatureCount>): nat
    decreases |g|
  {
    if g == [] then 0 else g[0].count + Total(g[1..])
  }

  /** A nature that is not listed has count 0. */
  lemma {:induction false} LookupUnlisted(g: seq<NatureCount>, n: string)
    requires n !in Listed(g)
    ensures Lookup(g, n) == 0
    decreases |g|
  {
    if g != [] {
      assert g[0] in g;
      assert Listed(g[1..]) <= Listed(g) by {
        forall e | e in g[1..] ensures e in g { }
      }
      LookupUnlisted(g[1..], n);
    }
  }

  /** The tail of an ascending aggregate is ascending and lists only natures
      after the head's. */
  lemma AscendingTail(g: seq<NatureCount>)
    requires g != [] && Ascending(g)
    ensures Ascending(g[1..])
    ensures forall n :: n in Listed(g[1..]) ==> Before(g[0].nature, n)
    ensures g[0].nature !in Listed(g[1..])
  {
    forall n | n in Listed(g[1..]) ensures Before(g[0].nature, n) {
      var e :| e in g[1..] && e.nature == n;
      var j :| 0 <= j < |g[1..]| && g[1..][j] == e;
      assert g[j + 1] == e;
    }
    BeforeIrreflexive(g[0].nature);
  }

  /** Counting one more row of nature `m`: the count of `m` goes up by one,
      or `m` is inserted with count 1 at its place in the order. */
  function Bump(g: seq<NatureCount>, m: string): seq<NatureCount>
    decreases |g|
  {
    if g == [] then [NatureCount(m, 1)]
    else if g[0].nature == m then [NatureCount(m, g[0].count + 1)] + g[1..]
    else if Before(m, g[0].nature) then [NatureCount(m, 1)] + g
    else [g[0]] + Bump(g[1..], m)
  }

  /** Bumping `m` adds one to the count of `m` and leaves every other
      nature's count as it was. */
  lemma {:induction false} BumpLookup(g: seq<NatureCount>, m: string, n: string)
    requires Ascending(g)
    ensures Lookup(Bump(g, m), n) == Lookup(g, n) + (if n == m then 1 else 0)
    decreases |g|
  {
    var r := Bump(g, m);
    if g == [] {
    } else if g[0].nature == m {
      assert r[1..] == g[1..];
    } else if Before(m, g[0].nature) {
      assert r[1..] == g;
      if n == m {
        UnlistedBeforeHead(g, m);
      }
    } else {
      BeforeTotal(m, g[0].nature);
      BeforeIrreflexive(m);
      AscendingTail(g);
      assert r[1..] == Bump(g[1..], m);
      if n != g[0].nature {
        BumpLookup(g[1..], m, n);
      }
    }
  }

  /** Bumping `m` lists `m` in addition to what was listed. */
  lemma {:induction false} BumpListed(g: seq<NatureCount>, m: string)
    ensures Listed(Bump(g, m)) == Listed(g) + {m}
    decreases |g|
  {
    var r := Bump(g, m);
    if g == [] {
      assert r == [NatureCount(m, 1)] + [];
      ListedCons(NatureCount(m, 1), []);
    } else {
      assert g == [g[0]] + g[1..];
      ListedCons(g[0], g[1..]);
      if g[0].nature == m {
        ListedCons(r[0], g[1..]);
      } else if Before(m, g[0].nature) {
        ListedCons(r[0], g);
      } else {
        BumpListed(g[1..], m);
        ListedCons(g[0], Bump(g[1..], m));
      }
    }
  }

  /** Bumping adds one to the sum of the counts. */
  lemma {:induction false} BumpTotal(g: seq<NatureCount>, m: string)
    ensures Total(Bump(g, m)) == Total(g) + 1
    decreases |g|
  {
    var r := Bump(g, m);
    if g == [] {
    } else if g[0].nature == m {
      assert r[1..] == g[1..];
    } else if Before(m, g[0].nature) {
      assert r[1..] == g;
    } else {
      assert r[1..] == Bump(g[1..], m);
      BumpTotal(g[1..], m);
    }
  }

  /** Bumping keeps every count at least one. */
  lemma {:induction false} BumpPositive(g: seq<NatureCount>, m: string)
    requires Positive(g)
    ensures Positive(Bump(g, m))
    decreases |g|
  {
    var r := Bump(g, m);
    if g != [] && g[0].nature != m && !Before(m, g[0].nature) {
      assert Positive(g[1..]) by {
        forall i | 0 <= i < |g[1..]| ensures g[1..][i].count >= 1 {
          assert g[1..][i] == g[i + 1];
        }
      }
      BumpPositive(g[1..], m);
      forall i | 0 <= i < |r| ensures r[i].count >= 1 {
        if i > 0 { assert r[i] == Bump(g[1..], m)[i - 1]; }
      }
    } else if g != [] {
      forall i | 0 <= i < |r| ensures r[i].count >= 1 {
        if i > 0 && g[0].nature == m { assert r[i] == g[i]; }
        if i > 0 && g[0].nature != m { assert r[i] == g[i - 1]; }
      }
    }
  }

  /** Bumping keeps the natures in ascending order. */
  lemma {:induction false} BumpAscending(g: seq<NatureCount>, m: string)
    requires Ascending(g)
    ensures Ascending(Bump(g, m))
    decreases |g|
  {
    var r := Bump(g, m);
    if g == [] {
    } else if g[0].nature == m {
      AscendingTail(g);
      ConsAscending(r[0], g[1..]);
      assert r == [r[0]] + g[1..];
    } else if Before(m, g[0].nature) {
      AscendingTail(g);
      forall n | n in Listed(g) ensures Before(m, n) {
        ListedCons(g[0], g[1..]);
        assert g == [g[0]] + g[1..];
        if n != g[0].nature {
          BeforeTransitive(m, g[0].nature, n);
        }
      }
      ConsAscending(r[0], g);
    } else {
      BeforeTotal(m, g[0].nature);
      AscendingTail(g);
      var rest := Bump(g[1..], m);
      BumpAscending(g[1..], m);
      BumpListed(g[1..], m);
      ConsAscending(g[0], rest);
    }
  }

  /** The natures listed by `[e] + g` are `e`'s and those of `g`. */
  lemma ListedCons(e: NatureCount, g: seq<NatureCount>)
    ensures Listed([e] + g) == {e.nature} + Listed(g)
  {
    var l := [e] + g;
    forall n | n in Listed(l) ensures n in {e.nature} + Listed(g) {
      var x :| x in l && x.nature == n;
      if x != e { assert x in g; }
    }
    forall n | n in {e.nature} + Listed(g) ensures n in Listed(l) {
      if n != e.nature {
        var x :| x in g && x.nature == n;
        assert x in l;
      }
    }
  }

  /** Putting a nature before everything an ascending aggregate lists keeps
      it ascending. */
  lemma ConsAscending(e: NatureCount, g: seq<NatureCount>)
    requires Ascending(g)
    requires forall n :: n in Listed(g) ==> Before(e.nature, n)
    ensures Ascending([e] + g)
  {
    var l := [e] + g;
    forall i, j | 0 <= i < j < |l| ensures Before(l[i].nature, l[j].nature) {
      assert l[j] == g[j - 1];
      if i == 0 {
        assert g[j - 1] in g;
      } else {
        assert l[i] == g[i - 1];
      }
    }
  }

  /** The rows' natures are the first row's and those of the others. */
  lemma RowNaturesCons(rows: seq<Incident>)
    requires rows != []
    ensures RowNatures(rows) == {rows[0].nature} + RowNatures(rows[1..])
  {
    forall n | n in RowNatures(rows) ensures n in {rows[0].nature} + RowNatures(rows[1..]) {
      var x :| x in rows && x.nature == n;
      if x != rows[0] {
        var i :| 0 <= i < |rows| && rows[i] == x;
        assert rows[1..][i - 1] == x;
      }
    }
  }

  /** The aggregate of the rows: natures in ascending collation order, each
      listed exactly when some row has it, with the number of rows that have
      it; the counts add up to the number of rows. */
  function NatureCounts(rows: seq<Incident>): (g: seq<NatureCount>)
    ensures Ascending(g) && Positive(g)
    ensures Listed(g) == RowNatures(rows)
    ensures forall n :: Lookup(g, n) == CountNature(rows, n)
    ensures Total(g) == |rows|
    decreases |rows|
  {
    if rows == [] then []
    else
      var g := NatureCounts(rows[1..]);
      var m := rows[0].nature;
      RowNaturesCons(rows);
      BumpAscending(g, m);
      BumpPositive(g, m);
      BumpListed(g, m);
      BumpTotal(g, m);
      forall n ensures Lookup(Bump(g, m), n) == CountNature(rows, n) {
        BumpLookup(g, m, n);
      }
      Bump(g, m)
  }

  /** In an ascending aggregate the count listed at position `i` is the one
      `Lookup` finds for that nature. */
  lemma {:induction false} LookupAt(g: seq<NatureCount>, i: nat)
    requires Ascending(g) && i < |g|
    ensures Lookup(g, g[i].nature) == g[i].count
    decreases |g|
  {
    if i > 0 {
      AscendingTail(g);
      assert g[1..][i - 1] == g[i];
      assert g[i] in g[1..];
      LookupAt(g[1..], i - 1);
    }
  }

  /** What `status` returns, entry by entry: each listed count is the
      number of rows with that nature, a nature is listed if and only if
      some row has it, and there are no entries exactly when there are no
      rows. */
  lemma NatureCountsSpec(rows: seq<Incident>)
    ensures forall i :: 0 <= i < |NatureCounts(rows)| ==>
              NatureCounts(rows)[i].count == CountNature(rows, NatureCounts(rows)[i].nature) >= 1
    ensures forall i :: 0 <= i < |NatureCounts(rows)| ==>
              NatureCounts(rows)[i].nature in RowNatures(rows)
    ensures forall k :: 0 <= k < |rows| ==>
              rows[k].nature in Listed(NatureCounts(rows))
    ensures NatureCounts(rows) == [] <==> rows == []
  {
    var g := NatureCounts(rows);
    forall i | 0 <= i < |g|
      ensures g[i].count == CountNature(rows, g[i].nature)
      ensures g[i].nature in RowNatures(rows)
    {
      LookupAt(g, i);
      ListedAt(g, i);
    }
    forall k | 0 <= k < |rows|
      ensures rows[k].nature in Listed(g)
    {
      RowNatureAt(rows, k);
    }
    if rows != [] {
      RowNatureAt(rows, 0);
    }
  }

  /** The nature at position `i` is listed. */
  lemma ListedAt(g: seq<NatureCount>, i: nat)
    requires i < |g|
    ensures g[i].nature in Listed(g)
  {
    assert g[i] in g;
  }

  /** The nature of row `k` is among the rows' natures. */
  lemma RowNatureAt(rows: seq<Incident>, k: nat)
    requires k < |rows|
    ensures rows[k].nature in RowNatures(rows)
  {
    assert rows[k] in rows;
  }

  /** The aggregate is determined by what it states: two ascending lists of
      positive counts that give every nature the same count are equal. So
      the table computed here is the one the query specifies, whatever order
      the rows are visited in. */
  lemma {:induction false} AggregateUnique(g1: seq<NatureCount>, g2: seq<NatureCount>)
    requires Ascending(g1) && Positive(g1)
    requires Ascending(g2) && Positive(g2)
    requires forall n :: Lookup(g1, n) == Lookup(g2, n)
    ensures g1 == g2
    decreases |g1|
  {
    if g1 == [] && g2 != [] {
      assert Lookup(g2, g2[0].nature) == g2[0].count;
      assert false;
    } else if g1 != [] && g2 == [] {
      assert Lookup(g1, g1[0].nature) == g1[0].count;
      assert false;
    } else if g1 != [] {
      var a, b := g1[0], g2[0];
      AscendingTail(g1);
      AscendingTail(g2);
      if a.nature != b.nature {
        BeforeTotal(a.nature, b.nature);
        if Before(a.nature, b.nature) {
          UnlistedBeforeHead(g2, a.nature);
        } else {
          UnlistedBeforeHead(g1, b.nature);
        }
        assert false;
      }
      assert a.count == b.count by {
        assert Lookup(g1, a.nature) == a.count && Lookup(g2, a.nature) == b.count;
      }
      forall n ensures Lookup(g1[1..], n) == Lookup(g2[1..], n) {
        if n == a.nature {
          LookupUnlisted(g1[1..], n);
          LookupUnlisted(g2[1..], n);
        } else {
          assert Lookup(g1, n) == Lookup(g1[1..], n);
          assert Lookup(g2, n) == Lookup(g2[1..], n);
        }
      }
      assert Positive(g1[1..]) && Positive(g2[1..]) by {
        forall i | 0 <= i < |g1[1..]| ensures g1[1..][i].count >= 1 { assert g1[1..][i] == g1[i + 1]; }
        forall i | 0 <= i < |g2[1..]| ensures g2[1..][i].count >= 1 { assert g2[1..][i] == g2[i + 1]; }
      }
      AggregateUnique(g1[1..], g2[1..]);
      assert g1 == [a] + g1[1..] && g2 == [b] + g2[1..];
    }
  }

  /** A nature that sorts before the head of an ascending aggregate is not
      listed in it. */
  lemma UnlistedBeforeHead(g: seq<NatureCount>, n: string)
    requires g != [] && Ascending(g) && Before(n, g[0].nature)
    ensures Lookup(g, n) == 0
  {
    AscendingTail(g);
    BeforeIrreflexive(n);
    assert n != g[0].nature;
    if n in Listed(g[1..]) {
      BeforeTransitive(n, g[0].nature, n);
    }
    LookupUnlisted(g[1..], n);
  }
}
