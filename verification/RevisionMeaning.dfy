/** What detection and choice say about the bytes of a save set: which release is taken, or why none is, in terms of
    which fields hold what which release wrote there. */
module RevisionMeaning {
  import opened Base
  import opened Profile
  import opened RepairFields
  import opened Merge
  import opened Detection
  import opened RevisionChoice

  // ---------------------------------------------------------------- counting fields

  /** Two versions hold the same bytes in a field. */
  predicate Same(a: Bytes, b: Bytes, f: FieldSpec)
    requires f.offset + f.width <= |a| && f.offset + f.width <= |b|
  {
    a[f.offset..f.offset + f.width] == b[f.offset..f.offset + f.width]
  }

  /** The fields in which two versions hold the same bytes. */
  ghost function Agreements(a: Bytes, b: Bytes, fields: seq<FieldSpec>): set<nat>
    requires |a| == |b| && Within(fields, CEMU_HEADER_SIZE, |a|)
  {
    set k | 0 <= k < |fields| && Same(a, b, fields[k])
  }

  lemma WithoutLast(a: Bytes, b: Bytes, fields: seq<FieldSpec>)
    requires |a| == |b| && Within(fields, CEMU_HEADER_SIZE, |a|) && |fields| > 0
    ensures var n := |fields| - 1;
      var before := Agreements(a, b, fields[..n]);
      n !in before && Agreements(a, b, fields) == if Same(a, b, fields[n]) then before + {n} else before
  {
    var n := |fields| - 1;
    forall k | 0 <= k < n ensures fields[..n][k] == fields[k] {
    }
  }

  lemma OneMore(before: set<nat>, n: nat, more: bool)
    requires n !in before
    ensures |if more then before + {n} else before| == |before| + (if more then 1 else 0)
  {
  }

  lemma {:induction false} MatchingCount(current: Bytes, candidate: Bytes, latest: Bytes, fields: seq<FieldSpec>)
    requires Comparable(current, candidate, latest, fields)
    ensures TallyOf(current, candidate, latest, fields).matching == |Agreements(current, candidate, fields)|
  {
    if |fields| == 0 {
    } else {
      var n := |fields| - 1;
      MatchingCount(current, candidate, latest, fields[..n]);
      WithoutLast(current, candidate, fields);
      OneMore(Agreements(current, candidate, fields[..n]), n, Same(current, candidate, fields[n]));
    }
  }

  lemma {:induction false} CurrentCount(current: Bytes, candidate: Bytes, latest: Bytes, fields: seq<FieldSpec>)
    requires Comparable(current, candidate, latest, fields)
    ensures TallyOf(current, candidate, latest, fields).alreadyCurrent == |Agreements(current, latest, fields)|
  {
    if |fields| == 0 {
    } else {
      var n := |fields| - 1;
      CurrentCount(current, candidate, latest, fields[..n]);
      WithoutLast(current, latest, fields);
      OneMore(Agreements(current, latest, fields[..n]), n, Same(current, latest, fields[n]));
    }
  }

  /** The fields of `a` that are not in `b` either, after one more field. */
  lemma DifferenceWithLast(a: set<nat>, b: set<nat>, n: nat, inA: bool, inB: bool)
    requires n !in a && n !in b
    ensures var a', b' := if inA then a + {n} else a, if inB then b + {n} else b;
      |a' - b'| == |a - b| + (if inA && !inB then 1 else 0)
  {
    var a', b' := if inA then a + {n} else a, if inB then b + {n} else b;
    assert a' - b' == if inA && !inB then (a - b) + {n} else a - b;
    OneMore(a - b, n, inA && !inB);
  }

  lemma {:induction false} HistoricalCount(current: Bytes, candidate: Bytes, latest: Bytes, fields: seq<FieldSpec>)
    requires Comparable(current, candidate, latest, fields)
    ensures TallyOf(current, candidate, latest, fields).historical ==
      |Agreements(current, candidate, fields) - Agreements(current, latest, fields)|
  {
    if |fields| == 0 {
    } else {
      var n := |fields| - 1;
      HistoricalCount(current, candidate, latest, fields[..n]);
      WithoutLast(current, candidate, fields);
      WithoutLast(current, latest, fields);
      DifferenceWithLast(Agreements(current, candidate, fields[..n]), Agreements(current, latest, fields[..n]), n,
        Same(current, candidate, fields[n]), Same(current, latest, fields[n]));
    }
  }

  /** The four counts of a score: fields like the release's output, fields like the release's but unlike the latest,
      fields like the latest, and the others. */
  lemma TallyMeaning(current: Bytes, candidate: Bytes, latest: Bytes, fields: seq<FieldSpec>)
    requires Comparable(current, candidate, latest, fields)
    ensures var t := TallyOf(current, candidate, latest, fields);
      && t.matching == |Agreements(current, candidate, fields)|
      && t.alreadyCurrent == |Agreements(current, latest, fields)|
      && t.historical == |Agreements(current, candidate, fields) - Agreements(current, latest, fields)|
      && t.historical + t.alreadyCurrent + t.conflicting == |fields|
  {
    MatchingCount(current, candidate, latest, fields);
    CurrentCount(current, candidate, latest, fields);
    HistoricalCount(current, candidate, latest, fields);
    ScoresPredictTheMerge(current, candidate, latest, fields);
  }

  /** What a merge report calls a field on which the release and the latest conversion differ. */
  predicate HasStatus(current: Bytes, past: Bytes, latest: Bytes, f: FieldSpec, status: FieldStatus)
    requires |past| == |current| && |latest| == |current| && f.offset + f.width <= |current|
  {
    && !Same(past, latest, f)
    && match status
       case Repaired => Same(current, past, f)
       case AlreadyCurrent => Same(current, latest, f)
       case PreservedConflict => !Same(current, past, f) && !Same(current, latest, f)
  }

  ghost function WithStatus(
      current: Bytes, past: Bytes, latest: Bytes, fields: seq<FieldSpec>, status: FieldStatus): set<nat>
    requires Comparable(current, past, latest, fields)
  {
    set k | 0 <= k < |fields| && HasStatus(current, past, latest, fields[k], status)
  }

  lemma StatusWithoutLast(current: Bytes, past: Bytes, latest: Bytes, fields: seq<FieldSpec>, status: FieldStatus)
    requires Comparable(current, past, latest, fields) && |fields| > 0
    ensures var n := |fields| - 1;
      var before := WithStatus(current, past, latest, fields[..n], status);
      n !in before && WithStatus(current, past, latest, fields, status) ==
        if HasStatus(current, past, latest, fields[n], status) then before + {n} else before
  {
    var n := |fields| - 1;
    forall k | 0 <= k < n ensures fields[..n][k] == fields[k] {
    }
  }

  lemma {:induction false} StatusCount(
      current: Bytes, past: Bytes, latest: Bytes, fields: seq<FieldSpec>, status: FieldStatus)
    requires Comparable(current, past, latest, fields)
    ensures CountStatus(Changes(current, past, latest, fields), status)
      == |WithStatus(current, past, latest, fields, status)|
  {
    if |fields| == 0 {
      assert WithStatus(current, past, latest, fields, status) == {};
    } else {
      var n := |fields| - 1;
      var before := Changes(current, past, latest, fields[..n]);
      StatusCount(current, past, latest, fields[..n], status);
      StatusWithoutLast(current, past, latest, fields, status);
      CountSnoc(before, MergeField(fields[n], StatusOf(current, past, latest, fields[n])), status);
      OneMore(WithStatus(current, past, latest, fields[..n], status), n,
        HasStatus(current, past, latest, fields[n], status));
    }
  }

  /** The three counts of a merge report, in terms of the bytes of the fields. */
  lemma ReportMeaning(
      m: CompatibilityMerge, converters: Converters, source: Bytes, current: Bytes, c: Component, r: Revision)
    requires IsMergeUnder(m, converters, source, current, c, r)
    ensures var past, latest := converters.replay(c, source, r).value, converters.latest(c, source).value;
      && Comparable(current, past, latest, FieldsOf(c))
      && m.repairedFields == |WithStatus(current, past, latest, FieldsOf(c), Repaired)|
      && m.alreadyCurrentFields == |WithStatus(current, past, latest, FieldsOf(c), AlreadyCurrent)|
      && m.preservedConflicts == |WithStatus(current, past, latest, FieldsOf(c), PreservedConflict)|
  {
    var past, latest := converters.replay(c, source, r).value, converters.latest(c, source).value;
    StatusCount(current, past, latest, FieldsOf(c), Repaired);
    StatusCount(current, past, latest, FieldsOf(c), AlreadyCurrent);
    StatusCount(current, past, latest, FieldsOf(c), PreservedConflict);
  }

  // ---------------------------------------------------------------- one component

  /** The four releases' outputs and the latest one line up with the component. */
  predicate Replay(e: Evidence): (ok: bool)
    ensures ok ==> |e.latest| == |e.current| && Within(e.fields, CEMU_HEADER_SIZE, |e.current|)
    ensures ok ==> forall i :: 0 <= i < |e.expected| ==> |e.expected[i]| == |e.current|
  {
    && Replayed(e.current, e.expected, e.latest, e.fields)
    && PairwiseApart(e.fields)
    && Comparable(e.current, e.expected[0], e.latest, e.fields)
  }

  /** What release `q` would have written. */
  function Output(e: Evidence, q: Revision): Bytes
    requires Replay(e)
  {
    match q
    case V0_0_3 => e.expected[0]
    case V0_0_4 => e.expected[1]
    case V0_0_5 => e.expected[2]
    case V0_0_6 => e.expected[3]
  }

  ghost function MatchCount(e: Evidence, q: Revision): nat
    requires Replay(e)
  {
    |Agreements(e.current, Output(e, q), e.fields)|
  }

  /** Some field holds what the release wrote there, or what the latest conversion writes. */
  ghost predicate Supports(e: Evidence, q: Revision)
    requires Replay(e)
  {
    exists k :: 0 <= k < |e.fields|
      && (Same(e.current, Output(e, q), e.fields[k]) || Same(e.current, e.latest, e.fields[k]))
  }

  /** The component says something about its release; one without repair fields goes along with any. */
  ghost predicate Informs(e: Evidence)
    requires Replay(e)
  {
    |e.fields| == 0 || exists q :: Supports(e, q)
  }

  /** No release matches more fields. */
  ghost predicate Best(e: Evidence, q: Revision)
    requires Replay(e)
  {
    forall p :: MatchCount(e, p) <= MatchCount(e, q)
  }

  /** Repairing from `q` and from `r` would differ: some field that is not up to date matches only one of them. */
  ghost predicate Divide(e: Evidence, q: Revision, r: Revision)
    requires Replay(e)
  {
    exists k :: 0 <= k < |e.fields| && !Same(e.current, e.latest, e.fields[k])
      && Same(e.current, Output(e, q), e.fields[k]) != Same(e.current, Output(e, r), e.fields[k])
  }

  /** Two of the best releases would be repaired from differently. */
  ghost predicate Torn(e: Evidence)
    requires Replay(e)
  {
    exists q, r :: Best(e, q) && Best(e, r) && Divide(e, q, r)
  }

  lemma OutputIsExpected(e: Evidence, q: Revision)
    requires Replay(e)
    ensures Output(e, q) == e.expected[RevisionIndex(q)] && Comparable(e.current, Output(e, q), e.latest, e.fields)
  {
  }

  lemma SupportIsMatch(e: Evidence, q: Revision)
    requires Replay(e)
    ensures Supports(e, q) <==> HasMatch(TallyOf(e.current, Output(e, q), e.latest, e.fields))
  {
    var a, b := Agreements(e.current, Output(e, q), e.fields), Agreements(e.current, e.latest, e.fields);
    TallyMeaning(e.current, Output(e, q), e.latest, e.fields);
    if Supports(e, q) {
      var k :| 0 <= k < |e.fields|
        && (Same(e.current, Output(e, q), e.fields[k]) || Same(e.current, e.latest, e.fields[k]));
      assert k in a || k in b;
    }
    if |a| > 0 {
      var k :| k in a;
      assert Supports(e, q);
    }
    if |b| > 0 {
      var k :| k in b;
      assert Supports(e, q);
    }
  }

  lemma BestIsBestMatch(e: Evidence, q: Revision)
    requires Replay(e)
    ensures Best(e, q) <==> BestMatch(e.current, e.expected, e.latest, e.fields, q)
  {
    forall p ensures MatchCount(e, p) == MatchingOf(e.current, e.expected, e.latest, e.fields, p) {
      TallyMeaning(e.current, Output(e, p), e.latest, e.fields);
    }
  }

  lemma MergedField(e: Evidence, q: Revision, k: nat)
    requires Replay(e) && k < |e.fields|
    ensures var f := e.fields[k];
      FieldBytes(MergeOf(e, q), f) ==
        FieldBytes(if Same(e.current, Output(e, q), f) then e.latest else e.current, f)
  {
    MergedIsThreeWay(e.current, Output(e, q), e.latest, e.fields);
  }

  lemma DividedDiffer(e: Evidence, q: Revision, r: Revision)
    requires Replay(e) && Divide(e, q, r)
    ensures MergeOf(e, q) != MergeOf(e, r)
  {
    var k :| 0 <= k < |e.fields| && !Same(e.current, e.latest, e.fields[k])
      && Same(e.current, Output(e, q), e.fields[k]) != Same(e.current, Output(e, r), e.fields[k]);
    MergedField(e, q, k);
    MergedField(e, r, k);
  }

  lemma UndividedField(e: Evidence, q: Revision, r: Revision, k: nat)
    requires Replay(e) && !Divide(e, q, r) && k < |e.fields|
    ensures FieldBytes(MergeOf(e, q), e.fields[k]) == FieldBytes(MergeOf(e, r), e.fields[k])
  {
    MergedField(e, q, k);
    MergedField(e, r, k);
  }

  lemma UndividedAlike(e: Evidence, q: Revision, r: Revision)
    requires Replay(e) && !Divide(e, q, r)
    ensures MergeOf(e, q) == MergeOf(e, r)
  {
    MergedIsThreeWay(e.current, Output(e, q), e.latest, e.fields);
    MergedIsThreeWay(e.current, Output(e, r), e.latest, e.fields);
    forall k | 0 <= k < |e.fields|
      ensures FieldBytes(MergeOf(e, q), e.fields[k]) == Choice(e.current, Output(e, r), e.latest, e.fields[k])
    {
      UndividedField(e, q, r, k);
    }
    ThreeWayIsUnique(e.current, Output(e, r), e.latest, e.fields, MergeOf(e, q), MergeOf(e, r));
  }

  /** The merges from two releases differ exactly when some field tells them apart. */
  lemma DivideMeansDifferent(e: Evidence, q: Revision, r: Revision)
    requires Replay(e)
    ensures Divide(e, q, r) <==> MergeOf(e, q) != MergeOf(e, r)
  {
    if Divide(e, q, r) {
      DividedDiffer(e, q, r);
    } else {
      UndividedAlike(e, q, r);
    }
  }

  lemma TornMeansNoRange(e: Evidence, candidates: seq<Revision>)
    requires Replay(e) && forall q :: q in candidates <==> Best(e, q)
    ensures SameMerge(e.current, e.expected, e.latest, e.fields, candidates) <==> !Torn(e)
  {
    forall q, r ensures Divide(e, q, r) <==> MergeOf(e, q) != MergeOf(e, r) {
      DivideMeansDifferent(e, q, r);
    }
  }

  lemma NotTornAlone(e: Evidence, candidates: seq<Revision>)
    requires Replay(e) && |candidates| == 1 && forall q :: q in candidates <==> Best(e, q)
    ensures !Torn(e)
  {
    var only := candidates[0];
    assert !Divide(e, only, only);
    forall q, r | Best(e, q) && Best(e, r) ensures !Divide(e, q, r) {
      assert q in candidates && r in candidates;
      assert q == only && r == only;
    }
  }

  lemma AnyMatchIsSupport(e: Evidence)
    requires Replay(e)
    ensures AnyMatch(e.current, e.expected, e.latest, e.fields) <==> exists q :: Supports(e, q)
  {
    forall q ensures Supports(e, q) <==> HasMatch(TallyOf(e.current, Output(e, q), e.latest, e.fields)) {
      SupportIsMatch(e, q);
    }
    if AnyMatch(e.current, e.expected, e.latest, e.fields) {
      var i :| 0 <= i < |e.expected| && HasMatch(TallyOf(e.current, e.expected[i], e.latest, e.fields));
      RevisionAt(i);
      assert Output(e, ALL_REVISIONS[i]) == e.expected[i];
      assert Supports(e, ALL_REVISIONS[i]);
    }
    if q :| Supports(e, q) {
      assert HasMatch(TallyOf(e.current, e.expected[RevisionIndex(q)], e.latest, e.fields));
    }
  }

  /** What detecting a component means: it is recognized when it informs, its candidates are the best releases, and it
      is ambiguous when two of those divide it. */
  ghost predicate DetectionMeans(e: Evidence, d: RevisionDetection)
    requires Replay(e)
  {
    && (Informative(d) <==> Informs(e))
    && (forall q :: q in d.candidates <==> Best(e, q))
    && (d.confidence == Ambiguous <==> Informs(e) && Torn(e))
    && (d.confidence == Exact ==> |d.candidates| == 1)
  }

  lemma NoFieldsAllBest(e: Evidence, q: Revision)
    requires Replay(e) && |e.fields| == 0
    ensures Best(e, q)
  {
    assert forall p :: Agreements(e.current, Output(e, p), e.fields) == {};
  }

  lemma DetectionMeaning(e: Evidence, d: RevisionDetection)
    requires Sighting(e, d)
    ensures Replay(e) && DetectionMeans(e, d)
  {
    if |e.fields| == 0 {
      forall q ensures Best(e, q) && q in d.candidates {
        NoFieldsAllBest(e, q);
        assert ALL_REVISIONS[RevisionIndex(q)] == q;
      }
    } else {
      AnyMatchIsSupport(e);
      forall q ensures q in d.candidates <==> Best(e, q) {
        BestIsBestMatch(e, q);
      }
      TornMeansNoRange(e, d.candidates);
      if |d.candidates| == 1 {
        NotTornAlone(e, d.candidates);
      }
    }
  }

  // ---------------------------------------------------------------- a set of components

  predicate AllReplay(es: seq<Evidence>) {
    forall k :: 0 <= k < |es| ==> Replay(es[k])
  }

  /** A best release of every component that informs. */
  ghost predicate Agreed(es: seq<Evidence>, q: Revision)
    requires AllReplay(es)
  {
    forall k :: 0 <= k < |es| && Informs(es[k]) ==> Best(es[k], q)
  }

  /** A best release of some component that informs. */
  ghost predicate Named(es: seq<Evidence>, q: Revision)
    requires AllReplay(es)
  {
    exists k :: 0 <= k < |es| && Informs(es[k]) && Best(es[k], q)
  }

  ghost predicate SomeInforms(es: seq<Evidence>)
    requires AllReplay(es)
  {
    exists k :: 0 <= k < |es| && Informs(es[k])
  }

  ghost predicate SomeTorn(es: seq<Evidence>)
    requires AllReplay(es)
  {
    exists k :: 0 <= k < |es| && Informs(es[k]) && Torn(es[k])
  }

  ghost predicate SomeSupports(es: seq<Evidence>, q: Revision)
    requires AllReplay(es)
  {
    exists k :: 0 <= k < |es| && Supports(es[k], q)
  }

  ghost predicate TwoAgreed(es: seq<Evidence>)
    requires AllReplay(es)
  {
    exists q, r :: q != r && Agreed(es, q) && Agreed(es, r)
  }

  /** The components do not settle on a release: they agree on none, or on several while one of them is torn. */
  ghost predicate Undecided(es: seq<Evidence>)
    requires AllReplay(es)
  {
    (forall q :: !Agreed(es, q)) || (TwoAgreed(es) && SomeTorn(es))
  }

  ghost predicate EarliestAgreed(es: seq<Evidence>, q: Revision)
    requires AllReplay(es)
  {
    Agreed(es, q) && forall r :: Agreed(es, r) ==> RevisionIndex(q) <= RevisionIndex(r)
  }

  ghost predicate EarliestNamed(es: seq<Evidence>, q: Revision)
    requires AllReplay(es)
  {
    Named(es, q) && forall r :: Named(es, r) ==> RevisionIndex(q) <= RevisionIndex(r)
  }

  /** Which release a set is repaired from, or why it is not: a request is taken as it is unless no component supports
      it while one supports another release; without a request, nothing that informs is unrecognized, an undecided set
      is refused unless it is only previewed, and otherwise the earliest release all agree on, or failing that the
      earliest any component names, is taken. */
  ghost predicate ChoiceMeans(es: seq<Evidence>, requested: Option<Revision>, preview: bool,
                              choice: Result<Revision, RepairError>)
    requires AllReplay(es)
  {
    match requested
    case Some(q) =>
      var contradicted := !SomeSupports(es, q) && exists r :: SomeSupports(es, r);
      choice == if contradicted then Err(ContradictedRevision) else Ok(q)
    case None =>
      if !SomeInforms(es) then choice == Err(UnrecognizedComponent)
      else if Undecided(es) && !preview then choice == Err(AmbiguousRevision)
      else if exists q :: Agreed(es, q) then choice.Ok? && EarliestAgreed(es, choice.value)
      else choice.Ok? && EarliestNamed(es, choice.value)
  }

  lemma {:induction false} PickedInOrder(p: Revision -> bool, n: nat)
    requires n <= |ALL_REVISIONS|
    ensures var s := FilterMap(r => if p(r) then Some(r) else None, ALL_REVISIONS[..n]);
      InReleaseOrder(s) && forall k :: 0 <= k < |s| ==> RevisionIndex(s[k]) < n
  {
    if n == 0 {
    } else {
      PickedInOrder(p, n - 1);
      RevisionAt(n - 1);
      assert ALL_REVISIONS[..n][..n - 1] == ALL_REVISIONS[..n - 1];
    }
  }

  /** The first release picked is the earliest with the property. */
  lemma FirstPicked(p: Revision -> bool)
    requires |Pick(p)| > 0
    ensures p(Pick(p)[0]) && forall r :: p(r) ==> RevisionIndex(Pick(p)[0]) <= RevisionIndex(r)
  {
    PickMembers(p);
    PickedInOrder(p, |ALL_REVISIONS|);
    assert ALL_REVISIONS[..|ALL_REVISIONS|] == ALL_REVISIONS;
    var s := Pick(p);
    assert s[0] in s;
    forall r | p(r) ensures RevisionIndex(s[0]) <= RevisionIndex(r) {
      assert r in s;
      var k :| 0 <= k < |s| && s[k] == r;
    }
  }

  lemma SightingsReplay(es: seq<Evidence>, ds: seq<RevisionDetection>)
    requires Sightings(es, ds)
    ensures AllReplay(es) && forall k :: 0 <= k < |es| ==> DetectionMeans(es[k], ds[k])
  {
    forall k | 0 <= k < |es| ensures Replay(es[k]) && DetectionMeans(es[k], ds[k]) {
      DetectionMeaning(es[k], ds[k]);
    }
  }

  /** Detections, one for each component, that mean what a detection means. */
  ghost predicate Means(es: seq<Evidence>, ds: seq<RevisionDetection>) {
    |es| == |ds| && AllReplay(es) && forall k :: 0 <= k < |es| ==> DetectionMeans(es[k], ds[k])
  }

  lemma AgreedIsInEvery(es: seq<Evidence>, ds: seq<RevisionDetection>, q: Revision)
    requires Means(es, ds)
    ensures Agreed(es, q) <==> InEvery(ds, q)
    ensures Named(es, q) <==> InSome(ds, q)
  {
    forall k | 0 <= k < |es| ensures ds[k] in ds {
    }
    if InSome(ds, q) {
      var d :| d in ds && Informative(d) && q in d.candidates;
      var k :| 0 <= k < |ds| && ds[k] == d;
    }
  }

  lemma SomeInformsIsKnown(es: seq<Evidence>, ds: seq<RevisionDetection>)
    requires Means(es, ds)
    ensures SomeInforms(es) <==> exists d :: d in ds && Informative(d)
  {
    forall k | 0 <= k < |es| ensures ds[k] in ds {
    }
    if d :| d in ds && Informative(d) {
      var k :| 0 <= k < |ds| && ds[k] == d;
    }
  }

  /** When the components agree on two releases, none is exact, so all are ranges unless one is torn. */
  lemma RangesUnlessTorn(es: seq<Evidence>, ds: seq<RevisionDetection>, q: Revision, r: Revision)
    requires Means(es, ds) && q != r && Agreed(es, q) && Agreed(es, r)
    ensures AllRanges(ds) <==> !SomeTorn(es)
  {
    forall k | 0 <= k < |es| && Informs(es[k])
      ensures ds[k] in ds && (ds[k].confidence == CompatibleRange <==> !Torn(es[k]))
    {
      assert q in ds[k].candidates && r in ds[k].candidates;
    }
    if SomeTorn(es) {
      var k :| 0 <= k < |es| && Informs(es[k]) && Torn(es[k]);
      assert ds[k] in ds && Informative(ds[k]);
    } else {
      forall d | d in ds && Informative(d) ensures d.confidence == CompatibleRange {
        var k :| 0 <= k < |ds| && ds[k] == d;
      }
    }
  }

  lemma CommonIsAgreed(es: seq<Evidence>, ds: seq<RevisionDetection>)
    requires Means(es, ds)
    ensures forall q :: q in Common(ds) <==> Agreed(es, q)
    ensures |Common(ds)| > 1 <==> TwoAgreed(es)
    ensures |Common(ds)| == 0 <==> forall q :: !Agreed(es, q)
  {
    var common := Common(ds);
    PickMembers(q => InEvery(ds, q));
    forall q ensures q in common <==> Agreed(es, q) {
      AgreedIsInEvery(es, ds, q);
    }
    if |common| > 0 {
      assert common[0] in common;
    }
    if |common| > 1 {
      assert common[0] in common && common[1] in common && common[0] != common[1];
    }
  }

  /** The combined decision is ambiguous exactly on an undecided set. */
  lemma CombinedMeaning(es: seq<Evidence>, ds: seq<RevisionDetection>)
    requires Means(es, ds)
    ensures Combine(ds).confidence == Unknown <==> !SomeInforms(es)
    ensures SomeInforms(es) ==> (Combine(ds).confidence == Ambiguous <==> Undecided(es))
    ensures SomeInforms(es) ==>
      Combine(ds).candidates == if exists q :: Agreed(es, q) then Common(ds) else Mentioned(ds)
  {
    SomeInformsIsKnown(es, ds);
    CommonIsAgreed(es, ds);
    if |Common(ds)| > 1 {
      var q, r :| q != r && Agreed(es, q) && Agreed(es, r);
      RangesUnlessTorn(es, ds, q, r);
    }
  }

  lemma FirstAgreed(es: seq<Evidence>, ds: seq<RevisionDetection>)
    requires Means(es, ds) && exists q :: Agreed(es, q)
    ensures |Common(ds)| > 0 && EarliestAgreed(es, Common(ds)[0])
  {
    CommonIsAgreed(es, ds);
    FirstPicked(q => InEvery(ds, q));
    forall q ensures Agreed(es, q) <==> InEvery(ds, q) {
      AgreedIsInEvery(es, ds, q);
    }
  }

  lemma Highest(count: Revision -> nat) returns (q: Revision)
    ensures forall p :: count(p) <= count(q)
  {
    var older := if count(V0_0_3) >= count(V0_0_4) then V0_0_3 else V0_0_4;
    var newer := if count(V0_0_5) >= count(V0_0_6) then V0_0_5 else V0_0_6;
    q := if count(older) >= count(newer) then older else newer;
    forall p ensures count(p) <= count(q) {
      assert p == V0_0_3 || p == V0_0_4 || p == V0_0_5 || p == V0_0_6;
    }
  }

  lemma SomeBest(e: Evidence, d: RevisionDetection)
    requires Replay(e) && DetectionMeans(e, d)
    ensures exists q :: q in d.candidates
  {
    var count := (p: Revision) => MatchCount(e, p);
    var q := Highest(count);
    forall p ensures MatchCount(e, p) <= MatchCount(e, q) {
      assert count(p) <= count(q);
    }
    assert Best(e, q);
  }

  lemma FirstNamed(es: seq<Evidence>, ds: seq<RevisionDetection>)
    requires Means(es, ds) && SomeInforms(es)
    ensures |Mentioned(ds)| > 0 && EarliestNamed(es, Mentioned(ds)[0])
  {
    var k :| 0 <= k < |es| && Informs(es[k]);
    SomeBest(es[k], ds[k]);
    var best :| best in ds[k].candidates;
    MentionedMembers(ds);
    forall q ensures Named(es, q) <==> InSome(ds, q) {
      AgreedIsInEvery(es, ds, q);
    }
    assert Named(es, best);
    assert best in Mentioned(ds);
    FirstPicked(q => InSome(ds, q));
  }

  lemma DecidedChoice(es: seq<Evidence>, ds: seq<RevisionDetection>, preview: bool)
    requires Means(es, ds) && SomeInforms(es) && (!Undecided(es) || preview)
    ensures var choice := SelectRepairRevision(Combine(ds), None, preview);
      choice.Ok? && choice.value in Combine(ds).candidates && choice.value == Combine(ds).candidates[0]
      && if exists q :: Agreed(es, q) then EarliestAgreed(es, choice.value) else EarliestNamed(es, choice.value)
  {
    CombinedMeaning(es, ds);
    if exists q :: Agreed(es, q) {
      FirstAgreed(es, ds);
    } else {
      FirstNamed(es, ds);
    }
  }

  lemma ChoiceWithoutRequest(es: seq<Evidence>, ds: seq<RevisionDetection>, preview: bool)
    requires Means(es, ds)
    ensures ChoiceMeans(es, None, preview, SelectRepairRevision(Combine(ds), None, preview))
  {
    CombinedMeaning(es, ds);
    if SomeInforms(es) && (!Undecided(es) || preview) {
      DecidedChoice(es, ds, preview);
    }
  }

  ghost predicate SomeTally(ds: seq<RevisionDetection>, r: Revision) {
    exists k :: 0 <= k < |ds| && HasMatch(TallyFor(ds[k].scores, r))
  }

  lemma SomeTallySnoc(ds: seq<RevisionDetection>, r: Revision)
    requires |ds| > 0
    ensures SomeTally(ds, r) <==> SomeTally(ds[..|ds| - 1], r) || HasMatch(TallyFor(ds[|ds| - 1].scores, r))
  {
    var before := ds[..|ds| - 1];
    assert forall k :: 0 <= k < |before| ==> before[k] == ds[k];
    if SomeTally(before, r) {
      var k :| 0 <= k < |before| && HasMatch(TallyFor(before[k].scores, r));
      assert HasMatch(TallyFor(ds[k].scores, r));
    }
  }

  lemma {:induction false} TotalMatches(ds: seq<RevisionDetection>, r: Revision)
    ensures HasMatch(Total(ds, r)) <==> SomeTally(ds, r)
  {
    if |ds| == 0 {
    } else {
      TotalMatches(ds[..|ds| - 1], r);
      SomeTallySnoc(ds, r);
    }
  }

  lemma SupportInScore(e: Evidence, d: RevisionDetection, r: Revision)
    requires Sighting(e, d) && Replay(e)
    ensures HasMatch(TallyFor(d.scores, r)) <==> Supports(e, r)
  {
    FirstTally(d.scores, RevisionIndex(r), r);
    SupportIsMatch(e, r);
  }

  lemma SupportInTotal(es: seq<Evidence>, ds: seq<RevisionDetection>, r: Revision)
    requires Sightings(es, ds) && AllReplay(es)
    ensures HasMatch(Total(ds, r)) <==> SomeSupports(es, r)
  {
    TotalMatches(ds, r);
    forall k | 0 <= k < |es| ensures HasMatch(TallyFor(ds[k].scores, r)) <==> Supports(es[k], r) {
      SupportInScore(es[k], ds[k], r);
    }
  }

  lemma SupportInScores(ds: seq<RevisionDetection>, r: Revision)
    ensures (exists s :: s in Scores(ds) && s.revision == r && HasMatch(s.tally)) <==> HasMatch(Total(ds, r))
  {
    assert Scores(ds)[RevisionIndex(r)] == RevisionScore(r, Total(ds, r));
  }

  lemma ChoiceOnRequest(es: seq<Evidence>, ds: seq<RevisionDetection>, q: Revision, preview: bool)
    requires Sightings(es, ds) && AllReplay(es)
    ensures ChoiceMeans(es, Some(q), preview, SelectRepairRevision(Combine(ds), Some(q), preview))
  {
    forall r ensures (exists s :: s in Scores(ds) && s.revision == r && HasMatch(s.tally)) <==> SomeSupports(es, r) {
      SupportInScores(ds, r);
      SupportInTotal(es, ds, r);
    }
    assert Combine(ds).scores == Scores(ds);
    if s :| s in Scores(ds) && HasMatch(s.tally) {
      assert SomeSupports(es, s.revision);
    }
  }

  /** The choice made from the detections of a set means what it should. */
  lemma ChoiceMeaning(es: seq<Evidence>, ds: seq<RevisionDetection>, requested: Option<Revision>, preview: bool)
    requires Sightings(es, ds)
    ensures AllReplay(es) && ChoiceMeans(es, requested, preview, SelectRepairRevision(Combine(ds), requested, preview))
  {
    SightingsReplay(es, ds);
    match requested {
      case Some(q) => ChoiceOnRequest(es, ds, q, preview);
      case None => ChoiceWithoutRequest(es, ds, preview);
    }
  }

  // ---------------------------------------------------------------- from the converters to the repaired set

  /** The components of a set as detection sees them. */
  ghost function EvidenceSet(converters: Converters, parts: seq<Part>): (es: seq<Evidence>)
    requires AllDetectable(converters, parts)
    ensures |es| == |parts| && forall k :: 0 <= k < |es| ==> es[k] == EvidenceOf(converters, parts[k])
  {
    seq(|parts|, k requires 0 <= k < |parts| => EvidenceOf(converters, parts[k]))
  }

  lemma EvidenceIsSighted(converters: Converters, parts: seq<Part>, ds: seq<RevisionDetection>)
    requires Detected(converters, parts, ds)
    ensures AllDetectable(converters, parts) && Sightings(EvidenceSet(converters, parts), ds)
  {
    forall k | 0 <= k < |parts| ensures Sighting(EvidenceOf(converters, parts[k]), ds[k]) {
      DetectedIsSighting(converters, parts[k], ds[k]);
    }
  }

  ghost predicate Follows(converters: Converters, parts: seq<Part>, choice: Result<Revision, RepairError>,
                          r: Result<seq<CompatibilityMerge>, RepairError>)
  {
    match choice
    case Err(e) => r == Err(e)
    case Ok(q) => r.Ok? && MergedUnder(converters, parts, r.value, q)
  }

  /** The set is refused, or merged from one release, as the fields of its components decide. */
  ghost predicate Decided(converters: Converters, parts: seq<Part>, requested: Option<Revision>, preview: bool,
                          r: Result<seq<CompatibilityMerge>, RepairError>)
    requires AllDetectable(converters, parts)
  {
    var es := EvidenceSet(converters, parts);
    && AllReplay(es)
    && exists choice ::
      ChoiceMeans(es, requested, preview, choice) && Follows(converters, parts, choice, r)
  }

  /** How a repair comes about: detections of the components, one release chosen from them, every component merged. */
  ghost predicate RepairedFrom(
    converters: Converters, parts: seq<Part>, ds: seq<RevisionDetection>, requested: Option<Revision>, preview: bool,
    merges: seq<CompatibilityMerge>)
  {
    var choice := SelectRepairRevision(Combine(ds), requested, preview);
    Detected(converters, parts, ds) && choice.Ok? && MergedUnder(converters, parts, merges, choice.value)
  }

  /** Detects, chooses and merges a set. One that can be detected and is untouched since some release is repaired
      without asking. */
  method RepairSet(converters: Converters, parts: seq<Part>, requested: Option<Revision>, preview: bool)
    returns (r: Result<seq<CompatibilityMerge>, RepairError>, ghost ds: seq<RevisionDetection>)
    requires Sound(converters)
    // A request that is met is met as made.
    ensures r.Ok? && requested.Some? ==> MergedUnder(converters, parts, r.value, requested.value)
    ensures AllDetectable(converters, parts) ==> Decided(converters, parts, requested, preview, r)
    ensures r.Ok? ==> RepairedFrom(converters, parts, ds, requested, preview, r.value)
    ensures r.Err? && AllDetectable(converters, parts) ==>
      Detected(converters, parts, ds) && SelectRepairRevision(Combine(ds), requested, preview) == Err(r.error)
    ensures AllDetectable(converters, parts) && Untouched(converters, parts, requested) ==>
      r.Ok? && FullyRepairedSet(converters, parts, r.value)
  {
    ds := [];
    var detections := DetectSet(converters, parts);
    if detections.Err? {
      return Err(detections.error), ds;
    }
    ds := detections.value;
    ghost var es := EvidenceSet(converters, parts);
    EvidenceIsSighted(converters, parts, ds);
    ChoiceMeaning(es, ds, requested, preview);
    var revision := SelectRepairRevision(Combine(detections.value), requested, preview);
    if revision.Err? {
      if Untouched(converters, parts, requested) {
        UntouchedIsUpgraded(converters, parts, ds, [], requested, preview);
      }
      return Err(revision.error), ds;
    }
    r := MergeSet(converters, parts, revision.value);
    if Untouched(converters, parts, requested) {
      UntouchedIsUpgraded(converters, parts, ds, r.value, requested, preview);
    }
  }
}
