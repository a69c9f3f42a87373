/** Violation detectors and the aggregation pass that merges their findings.

    A violation is left abstract: it is the type parameter V, and two violations
    are the same set entry exactly when they are equal values of V. */
module Detectors {

  /** The analysis tools the plugin can wrap. */
  datatype Tool = Checkstyle | Pmd | Findbugs | Ktlint | Detekt | AndroidLint

  /** One configured detector as the aggregation pass sees it: its display name,
      whether it is of the executed kind (it must run its tool through
      `executeReporter` before its results can be read), and the list its
      `getDetectedViolations` returns in this pass. */
  datatype Detector<V> = Detector(name: string, executed: bool, findings: seq<V>)

  /** The calls the pass makes on its detectors, by position in the detector list. */
  datatype Event = ExecuteReporter(detector: nat) | GetDetectedViolations(detector: nat)

  /** One per-detector progress line: "<name> detected <count> violations." */
  datatype CountLine = CountLine(name: string, count: nat)

  /** The entries of a list, as a set. */
  function Elements<V>(s: seq<V>): set<V>
  {
    set v | v in s
  }

  /** The set of every violation any detector in `ds` returns. */
  function Aggregate<V>(ds: seq<Detector<V>>): set<V>
    decreases |ds|
  {
    if ds == [] then {}
    else Aggregate(ds[..|ds| - 1]) + Elements(ds[|ds| - 1].findings)
  }

  /** A violation is aggregated exactly when some detector returned it. */
  lemma {:induction false} AggregateMembers<V>(ds: seq<Detector<V>>, v: V)
    ensures v in Aggregate(ds) <==> exists i :: 0 <= i < |ds| && v in ds[i].findings
    decreases |ds|
  {
    if ds != [] {
      var n := |ds| - 1;
      var front := ds[..n];
      AggregateMembers(front, v);
      if v in Aggregate(ds) && v !in ds[n].findings {
        var i :| 0 <= i < |front| && v in front[i].findings;
        assert v in ds[i].findings;
      }
      if exists i :: 0 <= i < |ds| && v in ds[i].findings {
        var i :| 0 <= i < |ds| && v in ds[i].findings;
        if i < n {
          assert v in front[i].findings;
        }
      }
    }
  }

  /** The aggregate depends only on which detectors are configured, not on their order
      or on repetitions. */
  lemma AggregateOrderIndependent<V>(ds: seq<Detector<V>>, es: seq<Detector<V>>)
    requires forall d :: d in ds <==> d in es
    ensures Aggregate(ds) == Aggregate(es)
  {
    forall v | v in Aggregate(ds) ensures v in Aggregate(es) {
      AggregateMembers(ds, v);
      AggregateMembers(es, v);
      var i :| 0 <= i < |ds| && v in ds[i].findings;
      assert ds[i] in es;
      var j :| 0 <= j < |es| && es[j] == ds[i];
    }
    forall v | v in Aggregate(es) ensures v in Aggregate(ds) {
      AggregateMembers(ds, v);
      AggregateMembers(es, v);
      var j :| 0 <= j < |es| && v in es[j].findings;
      assert es[j] in ds;
      var i :| 0 <= i < |ds| && ds[i] == es[j];
    }
  }

  /** The calls made on the detector at position `i`: `executeReporter` first when it is
      of the executed kind, then `getDetectedViolations`. */
  function StepEvents<V>(i: nat, d: Detector<V>): seq<Event>
  {
    (if d.executed then [ExecuteReporter(i)] else []) + [GetDetectedViolations(i)]
  }

  /** The calls the pass makes, detector by detector in list order. */
  function PassTrace<V>(ds: seq<Detector<V>>): seq<Event>
    decreases |ds|
  {
    if ds == [] then [] else PassTrace(ds[..|ds| - 1]) + StepEvents(|ds| - 1, ds[|ds| - 1])
  }

  /** The per-detector progress lines: each reports the length of that detector's own
      list, whether or not its entries were already in the set. */
  function CountLog<V>(ds: seq<Detector<V>>): (log: seq<CountLine>)
    ensures |log| == |ds|
    ensures forall k :: 0 <= k < |ds| ==> log[k] == CountLine(ds[k].name, |ds[k].findings|)
  {
    seq(|ds|, k requires 0 <= k < |ds| => CountLine(ds[k].name, |ds[k].findings|))
  }

  /** The sum of the counts on a list of progress lines. */
  function SumCounts(log: seq<CountLine>): nat
    decreases |log|
  {
    if log == [] then 0 else SumCounts(log[..|log| - 1]) + log[|log| - 1].count
  }

  /** The total the progress lines of a pass add up to. */
  function LoggedTotal<V>(ds: seq<Detector<V>>): nat
  {
    SumCounts(CountLog(ds))
  }

  /** Every detector's list, one after another in detector order: what the pass adds
      to the set, entry by entry. */
  function AllFindings<V>(ds: seq<Detector<V>>): seq<V>
    decreases |ds|
  {
    if ds == [] then [] else AllFindings(ds[..|ds| - 1]) + ds[|ds| - 1].findings
  }

  /** A list in which no entry appears twice. */
  ghost predicate Distinct<V>(s: seq<V>)
  {
    forall i, j :: 0 <= i < j < |s| ==> s[i] != s[j]
  }

  /** Every event of the trace names a position in the detector list. */
  lemma {:induction false} PassTraceBounded<V>(ds: seq<Detector<V>>)
    ensures forall p :: 0 <= p < |PassTrace(ds)| ==> PassTrace(ds)[p].detector < |ds|
    decreases |ds|
  {
    if ds != [] {
      var n := |ds| - 1;
      PassTraceBounded(ds[..n]);
      var t0, s := PassTrace(ds[..n]), StepEvents(n, ds[n]);
      assert PassTrace(ds) == t0 + s;
      assert forall p :: 0 <= p < |s| ==> s[p].detector == n;
    }
  }

  /** Detectors are visited in list order: positions never decrease along the trace. */
  lemma {:induction false} PassTraceInListOrder<V>(ds: seq<Detector<V>>)
    ensures forall p, q :: 0 <= p < q < |PassTrace(ds)| ==>
      PassTrace(ds)[p].detector <= PassTrace(ds)[q].detector
    decreases |ds|
  {
    if ds != [] {
      var n := |ds| - 1;
      PassTraceInListOrder(ds[..n]);
      PassTraceBounded(ds[..n]);
      var t0, s := PassTrace(ds[..n]), StepEvents(n, ds[n]);
      var t := PassTrace(ds);
      assert t == t0 + s;
      assert forall p :: 0 <= p < |s| ==> s[p].detector == n;
      forall p, q | 0 <= p < q < |t| ensures t[p].detector <= t[q].detector {
        if q < |t0| {
          assert t[p] == t0[p] && t[q] == t0[q];
        } else if p < |t0| {
          assert t[p] == t0[p] && t[q] == s[q - |t0|];
        } else {
          assert t[p] == s[p - |t0|] && t[q] == s[q - |t0|];
        }
      }
    }
  }

  /** Every read of an executed-kind detector's violations comes immediately after
      that detector's `executeReporter` call. */
  lemma {:induction false} PassTraceExecutesBeforeReading<V>(ds: seq<Detector<V>>)
    ensures forall p :: (0 <= p < |PassTrace(ds)| && PassTrace(ds)[p].GetDetectedViolations?
                         && PassTrace(ds)[p].detector < |ds| && ds[PassTrace(ds)[p].detector].executed) ==>
      (0 < p && PassTrace(ds)[p - 1] == ExecuteReporter(PassTrace(ds)[p].detector))
    decreases |ds|
  {
    if ds != [] {
      var n := |ds| - 1;
      var front := ds[..n];
      PassTraceExecutesBeforeReading(front);
      PassTraceBounded(front);
      var t0, s := PassTrace(front), StepEvents(n, ds[n]);
      var t := PassTrace(ds);
      assert t == t0 + s;
      forall p | 0 <= p < |t| && t[p].GetDetectedViolations? && t[p].detector < |ds|
          && ds[t[p].detector].executed
        ensures 0 < p && t[p - 1] == ExecuteReporter(t[p].detector)
      {
        if p < |t0| {
          assert t[p] == t0[p] && front[t0[p].detector] == ds[t0[p].detector];
          assert t[p - 1] == t0[p - 1];
        } else {
          assert t[p] == s[p - |t0|];
        }
      }
    }
  }

  /** Every detector is asked for its violations. */
  lemma {:induction false} PassTraceReadsAll<V>(ds: seq<Detector<V>>)
    ensures forall i :: 0 <= i < |ds| ==> GetDetectedViolations(i) in PassTrace(ds)
    decreases |ds|
  {
    if ds != [] {
      var n := |ds| - 1;
      PassTraceReadsAll(ds[..n]);
      var t0, s := PassTrace(ds[..n]), StepEvents(n, ds[n]);
      var t := PassTrace(ds);
      assert t == t0 + s;
      forall i | 0 <= i < |ds| ensures GetDetectedViolations(i) in t {
        if i < n {
          var p :| 0 <= p < |t0| && t0[p] == GetDetectedViolations(i);
          assert t[p] == t0[p];
        } else {
          assert t[|t| - 1] == GetDetectedViolations(n);
        }
      }
    }
  }

  /** The number of detectors of the executed kind. */
  function ExecutedCount<V>(ds: seq<Detector<V>>): nat
    decreases |ds|
  {
    if ds == [] then 0 else ExecutedCount(ds[..|ds| - 1]) + (if ds[|ds| - 1].executed then 1 else 0)
  }

  /** The pass makes one read per detector and one `executeReporter` call per
      executed-kind detector, and no other calls. */
  lemma {:induction false} PassTraceLength<V>(ds: seq<Detector<V>>)
    ensures |PassTrace(ds)| == |ds| + ExecutedCount(ds)
    decreases |ds|
  {
    if ds != [] {
      PassTraceLength(ds[..|ds| - 1]);
    }
  }

  /** Exactly the executed-kind detectors have `executeReporter` called on them. */
  lemma {:induction false} PassTraceExecutesExactly<V>(ds: seq<Detector<V>>)
    ensures forall i :: 0 <= i < |ds| ==> (ExecuteReporter(i) in PassTrace(ds) <==> ds[i].executed)
    decreases |ds|
  {
    if ds != [] {
      var n := |ds| - 1;
      var front := ds[..n];
      PassTraceExecutesExactly(front);
      PassTraceBounded(front);
      var t0, s := PassTrace(front), StepEvents(n, ds[n]);
      var t := PassTrace(ds);
      assert t == t0 + s;
      forall i | 0 <= i < |ds| ensures ExecuteReporter(i) in t <==> ds[i].executed {
        if i < n {
          assert front[i] == ds[i];
          assert ExecuteReporter(i) !in s;
        } else {
          assert ExecuteReporter(n) !in t0;
        }
      }
    }
  }

  /** The entries of a non-empty list are those of its front and its last entry. */
  lemma ElementsSnoc<V>(s: seq<V>)
    requires s != []
    ensures Elements(s) == Elements(s[..|s| - 1]) + {s[|s| - 1]}
  {
    var n := |s| - 1;
    forall v | v in s ensures v in s[..n] || v == s[n] {
      var k :| 0 <= k < |s| && s[k] == v;
      if k < n { assert s[..n][k] == v; }
    }
  }

  /** Converting a list to a set never adds entries. */
  lemma {:induction false} ElementsAtMostLength<V>(s: seq<V>)
    ensures |Elements(s)| <= |s|
    decreases |s|
  {
    if s != [] {
      ElementsAtMostLength(s[..|s| - 1]);
      ElementsSnoc(s);
    }
  }

  /** Converting a list to a set keeps its length exactly when no entry repeats. */
  lemma {:induction false} ElementsKeepLengthIffDistinct<V>(s: seq<V>)
    ensures |Elements(s)| == |s| <==> Distinct(s)
    decreases |s|
  {
    if s != [] {
      var n := |s| - 1;
      var front := s[..n];
      ElementsKeepLengthIffDistinct(front);
      ElementsAtMostLength(front);
      ElementsSnoc(s);
      if s[n] in front {
        var k :| 0 <= k < n && front[k] == s[n];
        assert s[k] == s[n];
        assert Elements(front) + {s[n]} == Elements(front);
      } else {
        assert s[n] !in Elements(front);
        if Distinct(front) {
          forall i, j | 0 <= i < j < |s| ensures s[i] != s[j] {
            assert s[i] == front[i];
            if j < n { assert s[j] == front[j]; }
          }
        } else {
          var i, j :| 0 <= i < j < n && front[i] == front[j];
          assert s[i] == s[j];
        }
      }
    }
  }

  /** The aggregated set holds exactly the entries of the concatenated lists. */
  lemma {:induction false} AggregateIsElementsOfAll<V>(ds: seq<Detector<V>>)
    ensures Aggregate(ds) == Elements(AllFindings(ds))
    decreases |ds|
  {
    if ds != [] {
      var n := |ds| - 1;
      AggregateIsElementsOfAll(ds[..n]);
      var a, b := AllFindings(ds[..n]), ds[n].findings;
      assert Elements(a + b) == Elements(a) + Elements(b);
    }
  }

  /** The progress lines add up to the length of the concatenated lists. */
  lemma {:induction false} LoggedTotalIsLength<V>(ds: seq<Detector<V>>)
    ensures LoggedTotal(ds) == |AllFindings(ds)|
    decreases |ds|
  {
    if ds != [] {
      var n := |ds| - 1;
      LoggedTotalIsLength(ds[..n]);
      assert CountLog(ds)[..n] == CountLog(ds[..n]);
    }
  }

  /** The aggregated set is never larger than the total of the logged counts, and it is
      smaller exactly when some violation is returned more than once (by one detector
      or by two). */
  lemma AggregateAtMostLoggedTotal<V>(ds: seq<Detector<V>>)
    ensures |Aggregate(ds)| <= LoggedTotal(ds)
    ensures |Aggregate(ds)| < LoggedTotal(ds) <==> !Distinct(AllFindings(ds))
  {
    AggregateIsElementsOfAll(ds);
    LoggedTotalIsLength(ds);
    ElementsAtMostLength(AllFindings(ds));
    ElementsKeepLengthIffDistinct(AllFindings(ds));
  }

  /** With duplicates the logged counts add up to more than the set holds: detectors
      reporting 2, 0 and 1 violations, the first reporting one violation twice. */
  lemma DuplicateFindingsExample()
    ensures var ds := [Detector("A", false, [1, 1]), Detector("B", true, []), Detector("C", false, [2])];
      CountLog(ds) == [CountLine("A", 2), CountLine("B", 0), CountLine("C", 1)]
      && LoggedTotal(ds) == 3 && Aggregate(ds) == {1, 2} && |Aggregate(ds)| == 2
  {
    var ds := [Detector("A", false, [1, 1]), Detector("B", true, []), Detector("C", false, [2])];
    var log := CountLog(ds);
    assert log == [CountLine("A", 2), CountLine("B", 0), CountLine("C", 1)];
    assert log[..2][..1] == [log[0]] && log[..2] == [log[0], log[1]];
    assert log[..2][..1][..0] == [];
    assert SumCounts(log[..2][..1]) == 2;
    assert ds[..2][..1] == [ds[0]] && ds[..2] == [ds[0], ds[1]];
    assert ds[..2][..1][..0] == [];
    assert Elements([1, 1]) == {1} && Elements([2]) == {2};
    assert Aggregate(ds[..2][..1]) == {1};
    assert Aggregate(ds[..2]) == {1};
  }

  /** The aggregation loop of the check task: for each detector in order, run it if it
      is of the executed kind, read its violations, add them all to the set and record
      one progress line. */
  method CollectViolations<V(==)>(ds: seq<Detector<V>>)
      returns (all: set<V>, trace: seq<Event>, log: seq<CountLine>)
    ensures all == Aggregate(ds)
    ensures forall v :: v in all <==> exists i :: 0 <= i < |ds| && v in ds[i].findings
    ensures trace == PassTrace(ds)
    ensures |log| == |ds|
    ensures forall k :: 0 <= k < |ds| ==> log[k] == CountLine(ds[k].name, |ds[k].findings|)
  {
    all, trace, log := {}, [], [];
    var i := 0;
    while i < |ds|
      invariant 0 <= i <= |ds|
      invariant all == Aggregate(ds[..i])
      invariant trace == PassTrace(ds[..i])
      invariant |log| == i
      invariant forall k :: 0 <= k < i ==> log[k] == CountLine(ds[k].name, |ds[k].findings|)
    {
      var detector := ds[i];
      if detector.executed {
        trace := trace + [ExecuteReporter(i)];
      }
      var detected := detector.findings;
      trace := trace + [GetDetectedViolations(i)];
      all := all + Elements(detected);
      log := log + [CountLine(detector.name, |detected|)];
      assert ds[..i + 1][..i] == ds[..i];
      i := i + 1;
    }
    assert ds[..i] == ds;
    forall v ensures v in all <==> exists i :: 0 <= i < |ds| && v in ds[i].findings {
      AggregateMembers(ds, v);
    }
  }
}
