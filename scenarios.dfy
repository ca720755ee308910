/**
 * Worked instances of the pipeline's promises on concrete records.
 */
module Scenarios {
  import opened Incidents
  import opened Aggregate

  /** A record of the given number and nature; the other fields do not
      take part in the aggregate. */
  function Rec(number: string, nature: string): Incident {
    Incident("3/1/2024 0:04", number, "1400 W LINDSEY ST", nature, "OK0140200")
  }

  /** Counting a nature over a record followed by more records. */
  lemma CountCons(x: Incident, rest: seq<Incident>, n: string)
    ensures CountNature([x] + rest, n) == (if x.nature == n then 1 else 0) + CountNature(rest, n)
  {
    assert ([x] + rest)[1..] == rest;
  }

  /** Looking a nature up in an entry followed by more entries. */
  lemma LookupCons(e: NatureCount, rest: seq<NatureCount>, n: string)
    ensures Lookup([e] + rest, n) == if e.nature == n then e.count else Lookup(rest, n)
  {
    assert ([e] + rest)[1..] == rest;
  }

  /** Six stored records: three traffic stops, one burglary and two
      alarms. */
  function Sample(): seq<Incident> {
    [Rec("2024-00001", "TRAFFIC STOP"), Rec("2024-00002", "ALARM"),
     Rec("2024-00003", "TRAFFIC STOP"), Rec("2024-00004", "BURGLARY"),
     Rec("2024-00005", "ALARM"), Rec("2024-00006", "TRAFFIC STOP")]
  }

  /** Per nature, the sample's counts are those of the expected table. */
  lemma SampleCounts(n: string)
    ensures CountNature(Sample(), n) == Lookup(Expected(), n)
  {
    var rows := Sample();
    var r5 := [rows[5]];
    var r4 := [rows[4]] + r5;
    var r3 := [rows[3]] + r4;
    var r2 := [rows[2]] + r3;
    var r1 := [rows[1]] + r2;
    assert rows == [rows[0]] + r1;
    CountCons(rows[5], [], n);
    assert r5 == [rows[5]] + [];
    CountCons(rows[4], r5, n);
    CountCons(rows[3], r4, n);
    CountCons(rows[2], r3, n);
    CountCons(rows[1], r2, n);
    CountCons(rows[0], r1, n);
    var x, y, z := Expected()[0], Expected()[1], Expected()[2];
    assert Expected() == [x] + ([y] + ([z] + []));
    LookupCons(z, [], n);
    LookupCons(y, [z], n);
    LookupCons(x, [y, z], n);
  }

  /** The expected table, alarms first, then the burglary, then the
      traffic stops. */
  function Expected(): seq<NatureCount> {
    [NatureCount("ALARM", 2), NatureCount("BURGLARY", 1), NatureCount("TRAFFIC STOP", 3)]
  }

  /** The expected table is in collation order with positive counts. */
  lemma ExpectedAscending()
    ensures Ascending(Expected()) && Positive(Expected())
  {
    assert Before("ALARM", "BURGLARY") by {
      assert "ALARM"[0] < "BURGLARY"[0];
    }
    assert Before("BURGLARY", "TRAFFIC STOP") by {
      assert "BURGLARY"[0] < "TRAFFIC STOP"[0];
    }
    BeforeTransitive("ALARM", "BURGLARY", "TRAFFIC STOP");
  }

  /** The sample aggregates to the alarms first, then the burglary, then
      the traffic stops, each with its count. */
  lemma NaturesInOrder()
    ensures NatureCounts(Sample()) == Expected()
  {
    ExpectedAscending();
    forall n ensures Lookup(NatureCounts(Sample()), n) == Lookup(Expected(), n) {
      SampleCounts(n);
    }
    AggregateUnique(NatureCounts(Sample()), Expected());
  }
}
