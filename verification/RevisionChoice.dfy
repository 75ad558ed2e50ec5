/** Combining what the components of a save set say about the release that wrote them. */
module RevisionChoice {
  import opened Base
  import opened Profile
  import opened RepairFields
  import opened Merge
  import opened Detection

  // ---------------------------------------------------------------- combining detections

  function Plus(a: Tally, b: Tally): Tally {
    Tally(a.matching + b.matching, a.historical + b.historical, a.alreadyCurrent + b.alreadyCurrent,
        a.conflicting + b.conflicting)
  }

  /** The first score recorded for `r`, nothing counted when there is none. */
  function TallyFor(scores: seq<RevisionScore>, r: Revision): Tally {
    if |scores| == 0 then ZERO
    else if scores[0].revision == r then scores[0].tally
    else TallyFor(scores[1..], r)
  }

  function Total(ds: seq<RevisionDetection>, r: Revision): Tally {
    if |ds| == 0 then ZERO else Plus(Total(ds[..|ds| - 1], r), TallyFor(ds[|ds| - 1].scores, r))
  }

  predicate Informative(d: RevisionDetection) { d.confidence != Unknown }

  predicate InEvery(ds: seq<RevisionDetection>, r: Revision) {
    forall d :: d in ds && Informative(d) ==> r in d.candidates
  }

  predicate InSome(ds: seq<RevisionDetection>, r: Revision) {
    exists d :: d in ds && Informative(d) && r in d.candidates
  }

  predicate AllRanges(ds: seq<RevisionDetection>) {
    forall d :: d in ds && Informative(d) ==> d.confidence == CompatibleRange
  }

  /** The releases with a property, in release order. */
  function Pick(p: Revision -> bool): seq<Revision> {
    FilterMap(r => if p(r) then Some(r) else None, ALL_REVISIONS)
  }

  lemma PickMembers(p: Revision -> bool)
    ensures Distinct(Pick(p))
    ensures forall r :: r in Pick(p) <==> p(r)
  {
    var f := (r: Revision) => if p(r) then Some(r) else None;
    FilterMapDistinct(f, ALL_REVISIONS);
    FilterMapMembers(f, ALL_REVISIONS);
    forall r ensures r in SomeValues(f, ALL_REVISIONS) <==> p(r) {
      assert ALL_REVISIONS[RevisionIndex(r)] == r;
    }
  }

  lemma PlusAssociates(a: Tally, b: Tally, c: Tally)
    ensures Plus(Plus(a, b), c) == Plus(Plus(a, c), b)
  {
  }

  /** Taking one detection out of the list takes its tally out of the total. */
  lemma {:induction false} TotalWithout(ds: seq<RevisionDetection>, j: nat, r: Revision)
    requires j < |ds|
    ensures Total(ds, r) == Plus(Total(ds[..j] + ds[j + 1..], r), TallyFor(ds[j].scores, r))
  {
    var n := |ds| - 1;
    if j == n {
      assert ds[..j] + ds[j + 1..] == ds[..n];
    } else {
      TotalWithout(ds[..n], j, r);
      var rest := ds[..j] + ds[j + 1..];
      assert rest[..|rest| - 1] == ds[..n][..j] + ds[..n][j + 1..];
      assert rest[|rest| - 1] == ds[n];
      PlusAssociates(Total(rest[..|rest| - 1], r), TallyFor(ds[j].scores, r), TallyFor(ds[n].scores, r));
    }
  }

  /** Where the last element of `a` stands in a rearrangement `b`, and what is left without it. */
  lemma FindLast<T>(a: seq<T>, b: seq<T>) returns (j: nat)
    requires multiset(a) == multiset(b) && |a| > 0
    ensures j < |b| && b[j] == a[|a| - 1]
    ensures multiset(a[..|a| - 1]) == multiset(b[..j] + b[j + 1..])
  {
    var n := |a| - 1;
    assert a == a[..n] + [a[n]];
    assert a[n] in multiset(b);
    j :| 0 <= j < |b| && b[j] == a[n];
    var rest := b[..j] + b[j + 1..];
    assert b == b[..j] + [b[j]] + b[j + 1..];
    assert multiset(b) == multiset(rest) + multiset{b[j]};
    assert multiset(a) == multiset(a[..n]) + multiset{a[n]};
    assert multiset(a[..n]) == multiset(a) - multiset{a[n]};
    assert multiset(rest) == multiset(b) - multiset{b[j]};
  }

  lemma {:induction false} TotalIgnoresOrder(a: seq<RevisionDetection>, b: seq<RevisionDetection>, r: Revision)
    requires multiset(a) == multiset(b)
    ensures Total(a, r) == Total(b, r)
  {
    assert |a| == |multiset(a)| == |multiset(b)| == |b|;
    if |a| == 0 {
    } else {
      var n := |a| - 1;
      var j := FindLast(a, b);
      TotalIgnoresOrder(a[..n], b[..j] + b[j + 1..], r);
      TotalWithout(b, j, r);
    }
  }

  lemma {:induction false} SamePick(p: Revision -> bool, q: Revision -> bool, xs: seq<Revision>)
    requires forall r :: p(r) == q(r)
    ensures FilterMap(r => if p(r) then Some(r) else None, xs) == FilterMap(r => if q(r) then Some(r) else None, xs)
  {
    if |xs| == 0 {
    } else {
      SamePick(p, q, xs[..|xs| - 1]);
    }
  }

  function Scores(ds: seq<RevisionDetection>): seq<RevisionScore> {
    seq(|ALL_REVISIONS|,
        i requires 0 <= i < |ALL_REVISIONS| => RevisionScore(ALL_REVISIONS[i], Total(ds, ALL_REVISIONS[i])))
  }

  function Common(ds: seq<RevisionDetection>): seq<Revision> { Pick(r => InEvery(ds, r)) }

  function Mentioned(ds: seq<RevisionDetection>): seq<Revision> { Pick(r => InSome(ds, r)) }

  function Combine(ds: seq<RevisionDetection>): RevisionDetection {
    if forall d :: d in ds ==> !Informative(d) then RevisionDetection(Unknown, ALL_REVISIONS, Scores(ds))
    else if |Common(ds)| == 1 then RevisionDetection(Exact, Common(ds), Scores(ds))
    else if |Common(ds)| == 0 then RevisionDetection(Ambiguous, Mentioned(ds), Scores(ds))
    else RevisionDetection(if AllRanges(ds) then CompatibleRange else Ambiguous, Common(ds), Scores(ds))
  }

  lemma SameMembersSameLists(a: seq<RevisionDetection>, b: seq<RevisionDetection>)
    requires forall d :: d in a <==> d in b
    ensures Common(a) == Common(b) && Mentioned(a) == Mentioned(b)
  {
    SamePick(r => InEvery(a, r), r => InEvery(b, r), ALL_REVISIONS);
    SamePick(r => InSome(a, r), r => InSome(b, r), ALL_REVISIONS);
  }

  /** The decision does not depend on the order in which the components were looked at. */
  lemma CombineIgnoresOrder(a: seq<RevisionDetection>, b: seq<RevisionDetection>)
    requires multiset(a) == multiset(b)
    ensures Combine(a) == Combine(b)
  {
    forall d ensures d in a <==> d in b {
      assert d in a <==> d in multiset(a);
      assert d in b <==> d in multiset(b);
    }
    forall r ensures Total(a, r) == Total(b, r) {
      TotalIgnoresOrder(a, b, r);
    }
    SameMembersSameLists(a, b);
    assert Scores(a) == Scores(b);
  }

  lemma CommonMembers(ds: seq<RevisionDetection>)
    ensures forall q :: q in Common(ds) <==> InEvery(ds, q)
  {
    PickMembers(q => InEvery(ds, q));
  }

  lemma MentionedMembers(ds: seq<RevisionDetection>)
    ensures forall q :: q in Mentioned(ds) <==> InSome(ds, q)
  {
    PickMembers(q => InSome(ds, q));
  }

  /** The decision names the releases all informative components agree on; where there is none it is ambiguous and
      names every release some component speaks for; where no component says anything it is unknown and names all. */
  lemma CombinedCandidates(ds: seq<RevisionDetection>, r: Revision)
    ensures var d := Combine(ds);
      (d.confidence == Unknown <==> forall e :: e in ds ==> !Informative(e))
      && (r in d.candidates <==>
           d.confidence == Unknown || InEvery(ds, r) || ((forall q :: !InEvery(ds, q)) && InSome(ds, r)))
      && (d.confidence != Unknown && (forall q :: !InEvery(ds, q)) ==> d.confidence == Ambiguous)
      && (d.confidence == Exact ==> |d.candidates| == 1)
  {
    CommonMembers(ds);
    MentionedMembers(ds);
    assert ALL_REVISIONS[RevisionIndex(r)] == r;
    assert |Common(ds)| > 0 ==> Common(ds)[0] in Common(ds);
  }

  // ---------------------------------------------------------------- choosing a release

  function FirstCandidate(d: RevisionDetection): Result<Revision, RepairError> {
    if |d.candidates| == 0 then Err(NoCandidate) else Ok(d.candidates[0])
  }

  function SelectRepairRevision(
      d: RevisionDetection, requested: Option<Revision>, allowAmbiguousPreview: bool): Result<Revision, RepairError>
  {
    match requested
    case Some(revision) =>
      var supported := exists s :: s in d.scores && s.revision == revision && HasMatch(s.tally);
      var hasDiscriminators := exists s :: s in d.scores && HasMatch(s.tally);
      if !supported && hasDiscriminators then Err(ContradictedRevision) else Ok(revision)
    case None =>
      match d.confidence
      case Exact => FirstCandidate(d)
      case CompatibleRange => FirstCandidate(d)
      case Ambiguous => if allowAmbiguousPreview then FirstCandidate(d) else Err(AmbiguousRevision)
      case Unknown => Err(UnrecognizedComponent)
  }

  // ---------------------------------------------------------------- what the decision guarantees

  /** One component of a set as detection sees it. */
  datatype Evidence = Evidence(current: Bytes, expected: seq<Bytes>, latest: Bytes, fields: seq<FieldSpec>)

  /** What a repair from release `r` makes of the component. */
  function MergeOf(e: Evidence, r: Revision): Bytes
    requires Replayed(e.current, e.expected, e.latest, e.fields)
  {
    MergedFrom(e.current, e.expected, e.latest, e.fields, r)
  }

  ghost predicate Sighting(e: Evidence, d: RevisionDetection) {
    Replayed(e.current, e.expected, e.latest, e.fields) && PairwiseApart(e.fields)
    && Detects(d, e.current, e.expected, e.latest, e.fields)
  }

  ghost predicate Sightings(es: seq<Evidence>, ds: seq<RevisionDetection>) {
    |es| == |ds| && forall k :: 0 <= k < |es| ==> Sighting(es[k], ds[k])
  }

  /** The component still holds in every repair field what release `r` wrote there. */
  predicate WrittenBy(e: Evidence, r: Revision)
    requires Replayed(e.current, e.expected, e.latest, e.fields)
  {
    MatchesEverywhere(e.current, e.expected[RevisionIndex(r)], e.fields)
  }

  lemma FullMatchIsBest(e: Evidence, r: Revision)
    requires Replayed(e.current, e.expected, e.latest, e.fields) && WrittenBy(e, r)
    ensures BestMatch(e.current, e.expected, e.latest, e.fields, r)
    ensures MatchingOf(e.current, e.expected, e.latest, e.fields, r) == |e.fields|
  {
    FullScore(e.current, e.expected[RevisionIndex(r)], e.latest, e.fields);
    forall q ensures MatchingOf(e.current, e.expected, e.latest, e.fields, q) <= |e.fields| {
      FullScore(e.current, e.expected[RevisionIndex(q)], e.latest, e.fields);
    }
  }

  lemma BestAmongFullMatches(e: Evidence, r: Revision, q: Revision)
    requires Replayed(e.current, e.expected, e.latest, e.fields) && WrittenBy(e, r)
    requires BestMatch(e.current, e.expected, e.latest, e.fields, q)
    ensures WrittenBy(e, q)
  {
    FullMatchIsBest(e, r);
    FullScore(e.current, e.expected[RevisionIndex(q)], e.latest, e.fields);
  }

  lemma SameFieldsSameMerge(e: Evidence, candidates: seq<Revision>)
    requires Replayed(e.current, e.expected, e.latest, e.fields) && PairwiseApart(e.fields)
    requires forall q :: q in candidates ==> WrittenBy(e, q)
    ensures SameMerge(e.current, e.expected, e.latest, e.fields, candidates)
  {
    forall q, r | q in candidates && r in candidates
      ensures MergeOf(e, q) == MergeOf(e, r)
    {
      FullMatchIsFullyRepaired(e.current, e.expected[RevisionIndex(q)], e.latest, e.fields);
      FullMatchIsFullyRepaired(e.current, e.expected[RevisionIndex(r)], e.latest, e.fields);
      ThreeWayIsUnique(e.current, e.current, e.latest, e.fields,
        MergeOf(e, q), MergeOf(e, r));
    }
  }

  /** A component untouched since release `r` is recognized: never ambiguous or unknown, `r` among
      the candidates, and only releases that wrote the same field values beside it. */
  lemma UntouchedComponentIsRecognized(e: Evidence, d: RevisionDetection, r: Revision)
    requires Sighting(e, d) && WrittenBy(e, r)
    ensures d.confidence == Exact || d.confidence == CompatibleRange
    ensures r in d.candidates
    ensures d.confidence == Exact ==> d.candidates == [r]
    ensures forall q :: q in d.candidates ==> WrittenBy(e, q)
  {
    if |e.fields| > 0 {
      FullMatchIsBest(e, r);
      assert BestMatch(e.current, e.expected, e.latest, e.fields, r);
      forall q | q in d.candidates ensures WrittenBy(e, q) {
        BestAmongFullMatches(e, r, q);
      }
      assert HasMatch(TallyOf(e.current, e.expected[RevisionIndex(r)], e.latest, e.fields));
      SameFieldsSameMerge(e, d.candidates);
    } else {
      assert ALL_REVISIONS[RevisionIndex(r)] in ALL_REVISIONS;
    }
  }

  /** The detection takes the component for one written by `r`, alone or among others that merge alike. */
  predicate Recognizes(d: RevisionDetection, r: Revision) {
    r in d.candidates && (d.confidence == CompatibleRange || (d.confidence == Exact && d.candidates == [r]))
  }

  lemma TwoDiffer(s: seq<Revision>, r: Revision)
    requires |s| > 1 && Distinct(s)
    ensures exists q :: q in s && q != r
  {
    assert s[0] != s[1];
    assert s[0] in s && s[1] in s;
  }

  /** Detections that agree on a release combine into a decision that holds for each of them. */
  lemma AgreementCombines(ds: seq<RevisionDetection>, r: Revision)
    requires |ds| > 0
    requires forall d :: d in ds ==> Recognizes(d, r)
    ensures Combine(ds).confidence == Exact || Combine(ds).confidence == CompatibleRange
    ensures r in Combine(ds).candidates
    ensures forall q, d :: q in Combine(ds).candidates && d in ds ==> q in d.candidates
  {
    assert ds[0] in ds && Informative(ds[0]);
    var common := Common(ds);
    PickMembers(q => InEvery(ds, q));
    assert InEvery(ds, r);
    assert r in common;
    if |common| > 1 {
      TwoDiffer(common, r);
      var q :| q in common && q != r;
      assert AllRanges(ds) by {
        forall d | d in ds && Informative(d) ensures d.confidence == CompatibleRange {
          assert q in d.candidates;
        }
      }
    }
  }

  /** Every repair field holds the latest conversion's bytes; every other byte is as before. */
  predicate FullyRepaired(e: Evidence, merged: Bytes)
    requires Replayed(e.current, e.expected, e.latest, e.fields)
  {
    |merged| == |e.current| == |e.latest| && Within(e.fields, CEMU_HEADER_SIZE, |e.current|)
    && (forall k :: 0 <= k < |e.fields| ==> FieldBytes(merged, e.fields[k]) == FieldBytes(e.latest, e.fields[k]))
    && (forall i :: 0 <= i < |merged| && !Covered(e.fields, i) ==> merged[i] == e.current[i])
  }

  /** A set whose components still hold what one release wrote is repaired without asking: the
      automatic choice succeeds, and whichever candidate it takes, every repair field of every component ends
      at the latest conversion's bytes while all other bytes stay. */
  lemma UntouchedSetIsRepaired(es: seq<Evidence>, ds: seq<RevisionDetection>, r: Revision, preview: bool)
    requires Sightings(es, ds) && |es| > 0
    requires forall k :: 0 <= k < |es| ==> WrittenBy(es[k], r)
    ensures var choice := SelectRepairRevision(Combine(ds), None, preview);
      choice.Ok? && r in Combine(ds).candidates
      && forall k :: 0 <= k < |es| ==> FullyRepaired(es[k], MergeOf(es[k], choice.value))
  {
    forall d | d in ds ensures Recognizes(d, r) {
      var k :| 0 <= k < |ds| && ds[k] == d;
      UntouchedComponentIsRecognized(es[k], ds[k], r);
    }
    AgreementCombines(ds, r);
    var choice := SelectRepairRevision(Combine(ds), None, preview);
    assert choice.value in Combine(ds).candidates;
    forall k | 0 <= k < |es|
      ensures FullyRepaired(es[k], MergeOf(es[k], choice.value))
    {
      UntouchedComponentIsRecognized(es[k], ds[k], r);
      assert ds[k] in ds;
      FullMatchIsFullyRepaired(es[k].current, es[k].expected[RevisionIndex(choice.value)], es[k].latest, es[k].fields);
    }
  }

  // ---------------------------------------------------------------- an automatic choice is never a guess

  /** A component no release matches anywhere is left alone by every merge. */
  lemma UnknownMergesToItself(e: Evidence, d: RevisionDetection, r: Revision)
    requires Sighting(e, d) && d.confidence == Unknown
    ensures MergeOf(e, r) == e.current
  {
    assert !HasMatch(TallyOf(e.current, e.expected[RevisionIndex(r)], e.latest, e.fields));
    NoMatchNoChange(e.current, e.expected[RevisionIndex(r)], e.latest, e.fields);
  }

  lemma RangeMergesAlike(e: Evidence, d: RevisionDetection, q: Revision, r: Revision)
    requires Sighting(e, d) && d.confidence == CompatibleRange && q in d.candidates && r in d.candidates
    ensures MergeOf(e, q) == MergeOf(e, r)
  {
  }

  lemma CommonRange(ds: seq<RevisionDetection>, q: Revision, r: Revision, d: RevisionDetection)
    requires Combine(ds).confidence == Exact || Combine(ds).confidence == CompatibleRange
    requires q in Combine(ds).candidates && r in Combine(ds).candidates && q != r
    requires d in ds && Informative(d)
    ensures d.confidence == CompatibleRange && q in d.candidates && r in d.candidates
  {
    PickMembers(p => InEvery(ds, p));
    assert InEvery(ds, q) && InEvery(ds, r);
    assert |Common(ds)| != 1;
  }

  /** When the combined decision is a compatible range, all its candidates give byte-identical merges of every
      component, also of the unknown ones the combination passes over. */
  lemma CandidatesAreInterchangeable(es: seq<Evidence>, ds: seq<RevisionDetection>, q: Revision, r: Revision, k: nat)
    requires Sightings(es, ds) && k < |es|
    requires Combine(ds).confidence == Exact || Combine(ds).confidence == CompatibleRange
    requires q in Combine(ds).candidates && r in Combine(ds).candidates
    ensures MergeOf(es[k], q) == MergeOf(es[k], r)
  {
    if ds[k].confidence == Unknown {
      UnknownMergesToItself(es[k], ds[k], q);
      UnknownMergesToItself(es[k], ds[k], r);
    } else if q != r {
      CommonRange(ds, q, r, ds[k]);
      RangeMergesAlike(es[k], ds[k], q, r);
    }
  }

  lemma {:induction false} FirstTally(scores: seq<RevisionScore>, k: nat, r: Revision)
    requires k < |scores| && scores[k].revision == r
    requires forall i :: 0 <= i < k ==> scores[i].revision != r
    ensures TallyFor(scores, r) == scores[k].tally
  {
    if k == 0 {
    } else {
      FirstTally(scores[1..], k - 1, r);
    }
  }

  lemma NotMatchedNotMerged(e: Evidence, d: RevisionDetection, r: Revision)
    requires Sighting(e, d) && TallyFor(d.scores, r).matching == 0
    ensures MergeOf(e, r) == e.current
  {
    FirstTally(d.scores, RevisionIndex(r), r);
    NoMatchNoChange(e.current, e.expected[RevisionIndex(r)], e.latest, e.fields);
  }

  lemma NoTotalNoMerge(es: seq<Evidence>, ds: seq<RevisionDetection>, r: Revision, k: nat)
    requires Sightings(es, ds) && k < |es| && Total(ds, r).matching == 0
    ensures MergeOf(es[k], r) == es[k].current
  {
    TotalWithout(ds, k, r);
    NotMatchedNotMerged(es[k], ds[k], r);
  }

  lemma RefusedHasNoMatch(ds: seq<RevisionDetection>, r: Revision, preview: bool)
    requires SelectRepairRevision(Combine(ds), Some(r), preview) == Err(ContradictedRevision)
    ensures Total(ds, r).matching == 0
  {
    var s := Scores(ds)[RevisionIndex(r)];
    assert s in Combine(ds).scores && s == RevisionScore(r, Total(ds, r));
  }

  /** A requested release that is refused as contradicted would not have changed a byte of any component. */
  lemma RefusedRequestWouldChangeNothing(
      es: seq<Evidence>, ds: seq<RevisionDetection>, r: Revision, preview: bool, k: nat)
    requires Sightings(es, ds) && k < |es|
    requires SelectRepairRevision(Combine(ds), Some(r), preview) == Err(ContradictedRevision)
    ensures MergeOf(es[k], r) == es[k].current
  {
    RefusedHasNoMatch(ds, r, preview);
    NoTotalNoMerge(es, ds, r, k);
  }

  // ---------------------------------------------------------------- the totals account for the whole repair

  function Sum(es: seq<Evidence>, count: Evidence -> nat): nat {
    if |es| == 0 then 0 else Sum(es[..|es| - 1], count) + count(es[|es| - 1])
  }

  /** How many fields of one component a repair from release `r` reports with a status. */
  function StatusIn(r: Revision, status: FieldStatus): Evidence -> nat {
    (e: Evidence) =>
      if Replayed(e.current, e.expected, e.latest, e.fields) then
        CountStatus(Changes(e.current, e.expected[RevisionIndex(r)], e.latest, e.fields), status)
      else 0
  }

  lemma ScorePredictsOne(e: Evidence, d: RevisionDetection, r: Revision)
    requires Sighting(e, d)
    ensures var t := TallyFor(d.scores, r);
      t.historical + t.alreadyCurrent + t.conflicting == |e.fields|
      && t.historical == StatusIn(r, Repaired)(e) && StatusIn(r, PreservedConflict)(e) <= t.conflicting
  {
    FirstTally(d.scores, RevisionIndex(r), r);
    ScoresPredictTheMerge(e.current, e.expected[RevisionIndex(r)], e.latest, e.fields);
  }

  lemma {:induction false} TotalsAreSums(
    es: seq<Evidence>, ds: seq<RevisionDetection>, r: Revision, all: Evidence -> nat, repaired: Evidence -> nat,
        kept: Evidence -> nat)
    requires |es| == |ds|
    requires forall k :: 0 <= k < |es| ==>
      var t := TallyFor(ds[k].scores, r);
      t.historical + t.alreadyCurrent + t.conflicting == all(es[k]) && t.historical == repaired(es[k])
        && kept(es[k]) <= t.conflicting
    ensures var t := Total(ds, r);
      t.historical + t.alreadyCurrent + t.conflicting == Sum(es, all)
      && t.historical == Sum(es, repaired) && Sum(es, kept) <= t.conflicting
  {
    if |es| == 0 {
    } else {
      TotalsAreSums(es[..|es| - 1], ds[..|es| - 1], r, all, repaired, kept);
    }
  }

  /** The combined score of a release counts every field of the set once, and its historical matches are exactly the
      fields the repair from that release rewrites. */
  lemma TotalsPredictTheRepair(es: seq<Evidence>, ds: seq<RevisionDetection>, r: Revision)
    requires Sightings(es, ds)
    ensures var t := Total(ds, r);
      t.historical + t.alreadyCurrent + t.conflicting == Sum(es, (e: Evidence) => |e.fields|)
      && t.historical == Sum(es, StatusIn(r, Repaired))
      && Sum(es, StatusIn(r, PreservedConflict)) <= t.conflicting
  {
    var all := (e: Evidence) => |e.fields|;
    forall k | 0 <= k < |es|
      ensures var t := TallyFor(ds[k].scores, r);
        t.historical + t.alreadyCurrent + t.conflicting == all(es[k])
        && t.historical == StatusIn(r, Repaired)(es[k]) && StatusIn(r, PreservedConflict)(es[k]) <= t.conflicting
    {
      ScorePredictsOne(es[k], ds[k], r);
    }
    TotalsAreSums(es, ds, r, all, StatusIn(r, Repaired), StatusIn(r, PreservedConflict));
  }

  // ---------------------------------------------------------------- from the converters to the repaired set

  /** One component of a save set: its Nintendo 3DS original and its present Wii U bytes. */
  datatype Part = Part(component: Component, source: Bytes, current: Bytes)

  ghost function EvidenceOf(converters: Converters, part: Part): Evidence
    requires Detectable(converters, part.source, part.current, part.component)
  {
    Evidence(part.current, Replays(converters, part.source, part.component),
      converters.latest(part.component, part.source).value, FieldsOf(part.component))
  }

  ghost predicate DetectsPart(converters: Converters, part: Part, d: RevisionDetection) {
    DetectsComponent(d, converters, part.source, part.current, part.component)
  }

  ghost predicate MergesPart(converters: Converters, part: Part, m: CompatibilityMerge, r: Revision) {
    IsMergeUnder(m, converters, part.source, part.current, part.component, r)
  }

  ghost predicate Detected(converters: Converters, parts: seq<Part>, ds: seq<RevisionDetection>) {
    |parts| == |ds| && forall k :: 0 <= k < |parts| ==> DetectsPart(converters, parts[k], ds[k])
  }

  ghost predicate MergedUnder(converters: Converters, parts: seq<Part>, merges: seq<CompatibilityMerge>, r: Revision) {
    |parts| == |merges| && forall k :: 0 <= k < |parts| ==> MergesPart(converters, parts[k], merges[k], r)
  }

  lemma DetectedIsSighting(converters: Converters, part: Part, d: RevisionDetection)
    requires DetectsComponent(d, converters, part.source, part.current, part.component)
    ensures Sighting(EvidenceOf(converters, part), d)
  {
  }

  lemma MergeIsFromEvidence(
      converters: Converters, part: Part, d: RevisionDetection, m: CompatibilityMerge, r: Revision)
    requires DetectsComponent(d, converters, part.source, part.current, part.component)
    requires IsMergeUnder(m, converters, part.source, part.current, part.component, r)
    ensures var e := EvidenceOf(converters, part);
      Sighting(e, d) && m.bytes == MergeOf(e, r)
  {
    DetectedIsSighting(converters, part, d);
  }

  lemma SameBytesMatch(e: Evidence, r: Revision)
    requires Replayed(e.current, e.expected, e.latest, e.fields) && e.expected[RevisionIndex(r)] == e.current
    ensures WrittenBy(e, r)
  {
  }

  ghost predicate FullyRepairedPart(converters: Converters, part: Part, merged: Bytes) {
    Detectable(converters, part.source, part.current, part.component)
    && var e := EvidenceOf(converters, part);
       Replayed(e.current, e.expected, e.latest, e.fields) && FullyRepaired(e, merged)
  }

  /** Detection, combination, choice and merge together: a set written by release `r` and not touched since is
      repaired without asking, to the latest conversion's bytes in every repair field and no other change. */
  lemma UntouchedConversionIsUpgraded(
    converters: Converters, parts: seq<Part>, ds: seq<RevisionDetection>, merges: seq<CompatibilityMerge>, r: Revision,
        preview: bool)
    requires |parts| > 0 && Detected(converters, parts, ds)
    requires forall k :: 0 <= k < |parts| ==>
      converters.replay(parts[k].component, parts[k].source, r) == Ok(parts[k].current)
    ensures var choice := SelectRepairRevision(Combine(ds), None, preview);
      choice.Ok?
      && (MergedUnder(converters, parts, merges, choice.value) ==>
           forall k :: 0 <= k < |parts| ==> FullyRepairedPart(converters, parts[k], merges[k].bytes))
  {
    var es := seq(|parts|, k requires 0 <= k < |parts| => EvidenceOf(converters, parts[k]));
    forall k | 0 <= k < |parts| ensures Sighting(es[k], ds[k]) && WrittenBy(es[k], r) {
      DetectedIsSighting(converters, parts[k], ds[k]);
      SameBytesMatch(es[k], r);
    }
    UntouchedSetIsRepaired(es, ds, r, preview);
    var choice := SelectRepairRevision(Combine(ds), None, preview).value;
    if MergedUnder(converters, parts, merges, choice) {
      forall k | 0 <= k < |parts| ensures FullyRepairedPart(converters, parts[k], merges[k].bytes) {
        MergeIsFromEvidence(converters, parts[k], ds[k], merges[k], choice);
      }
    }
  }

  ghost predicate AllDetectable(converters: Converters, parts: seq<Part>) {
    forall k :: 0 <= k < |parts| ==> Detectable(converters, parts[k].source, parts[k].current, parts[k].component)
  }

  /** Every component still holds what release `r` made of its original. */
  ghost predicate UntouchedSince(converters: Converters, parts: seq<Part>, r: Revision) {
    forall k :: 0 <= k < |parts| ==> converters.replay(parts[k].component, parts[k].source, r) == Ok(parts[k].current)
  }

  ghost predicate FullyRepairedSet(converters: Converters, parts: seq<Part>, merges: seq<CompatibilityMerge>) {
    |merges| == |parts| && forall k :: 0 <= k < |parts| ==> FullyRepairedPart(converters, parts[k], merges[k].bytes)
  }

  lemma DetectedAreDetectable(converters: Converters, parts: seq<Part>, ds: seq<RevisionDetection>)
    requires Detected(converters, parts, ds)
    ensures AllDetectable(converters, parts)
  {
  }

  method DetectSet(converters: Converters, parts: seq<Part>) returns (r: Result<seq<RevisionDetection>, RepairError>)
    requires Sound(converters)
    ensures r.Ok? <==> AllDetectable(converters, parts)
    ensures r.Ok? ==> Detected(converters, parts, r.value)
  {
    var ds := [];
    for i := 0 to |parts|
      invariant |ds| == i
      invariant forall k :: 0 <= k < i ==> DetectsPart(converters, parts[k], ds[k])
    {
      var part := parts[i];
      var d := DetectComponentRevision(converters, part.source, part.current, part.component);
      if d.Err? {
        return Err(d.error);
      }
      ds := ds + [d.value];
    }
    DetectedAreDetectable(converters, parts, ds);
    return Ok(ds);
  }

  /** `fits` holds whatever a merge of a component satisfies. */
  ghost predicate Fits(converters: Converters, assumed: Revision, fits: (Part, CompatibilityMerge) -> bool) {
    forall part, m :: MergesPart(converters, part, m, assumed) ==> fits(part, m)
  }

  /** A component that could be detected can be merged. */
  method MergePart(
    converters: Converters, part: Part, assumed: Revision, ghost fits: (Part, CompatibilityMerge) -> bool)
    returns (r: Result<CompatibilityMerge, RepairError>)
    requires Sound(converters) && Fits(converters, assumed, fits)
    ensures r.Err? ==> !Detectable(converters, part.source, part.current, part.component)
    ensures r.Ok? ==> fits(part, r.value)
  {
    if Detectable(converters, part.source, part.current, part.component) {
      PairIsValid(converters, part.source, part.current, part.component);
    }
    r := MergeComponent(converters, part.source, part.current, part.component, assumed);
    assert r.Ok? ==> MergesPart(converters, part, r.value, assumed);
  }

  lemma NotAllDetectable(converters: Converters, parts: seq<Part>, i: nat)
    requires i < |parts| && !Detectable(converters, parts[i].source, parts[i].current, parts[i].component)
    ensures !AllDetectable(converters, parts)
  {
  }

  method MergeEach(
    converters: Converters, parts: seq<Part>, assumed: Revision, ghost fits: (Part, CompatibilityMerge) -> bool)
    returns (r: Result<seq<CompatibilityMerge>, RepairError>)
    requires Sound(converters) && Fits(converters, assumed, fits)
    ensures r.Err? ==> !AllDetectable(converters, parts)
    ensures r.Ok? ==> |r.value| == |parts| && forall k :: 0 <= k < |parts| ==> fits(parts[k], r.value[k])
  {
    var merges := [];
    for i := 0 to |parts|
      invariant |merges| == i
      invariant forall k :: 0 <= k < i ==> fits(parts[k], merges[k])
    {
      var m := MergePart(converters, parts[i], assumed, fits);
      if m.Err? {
        NotAllDetectable(converters, parts, i);
        return Err(m.error);
      }
      merges := merges + [m.value];
    }
    return Ok(merges);
  }

  method MergeSet(converters: Converters, parts: seq<Part>, assumed: Revision)
    returns (r: Result<seq<CompatibilityMerge>, RepairError>)
    requires Sound(converters)
    ensures r.Err? ==> !AllDetectable(converters, parts)
    ensures r.Ok? ==> MergedUnder(converters, parts, r.value, assumed)
  {
    r := MergeEach(converters, parts, assumed, (part, m) => MergesPart(converters, part, m, assumed));
  }

  /** Some release wrote the set, it has not been touched since, and nothing else is asked for. */
  ghost predicate Untouched(converters: Converters, parts: seq<Part>, requested: Option<Revision>) {
    requested.None? && |parts| > 0 && exists release :: UntouchedSince(converters, parts, release)
  }

  lemma UntouchedIsUpgraded(
    converters: Converters, parts: seq<Part>, ds: seq<RevisionDetection>, merges: seq<CompatibilityMerge>,
    requested: Option<Revision>, preview: bool)
    requires Detected(converters, parts, ds) && Untouched(converters, parts, requested)
    ensures var choice := SelectRepairRevision(Combine(ds), requested, preview);
      choice.Ok? && (MergedUnder(converters, parts, merges, choice.value) ==>
        FullyRepairedSet(converters, parts, merges))
  {
    var release :| UntouchedSince(converters, parts, release);
    UntouchedConversionIsUpgraded(converters, parts, ds, merges, release, preview);
  }

  /** An automatic choice is never a guess: unless the caller previews an ambiguous set, any other candidate the
      decision names would have produced the same bytes in every component. */
  lemma AutomaticChoiceIsNoGuess(
    converters: Converters, parts: seq<Part>, ds: seq<RevisionDetection>,
    chosen: seq<CompatibilityMerge>, others: seq<CompatibilityMerge>, q: Revision)
    requires Detected(converters, parts, ds)
    requires var choice := SelectRepairRevision(Combine(ds), None, false);
      choice.Ok? && MergedUnder(converters, parts, chosen, choice.value)
    requires q in Combine(ds).candidates && MergedUnder(converters, parts, others, q)
    ensures forall k :: 0 <= k < |parts| ==> chosen[k].bytes == others[k].bytes
  {
    var choice := SelectRepairRevision(Combine(ds), None, false).value;
    var es := seq(|parts|, k requires 0 <= k < |parts| => EvidenceOf(converters, parts[k]));
    forall k | 0 <= k < |parts| ensures Sighting(es[k], ds[k]) {
      DetectedIsSighting(converters, parts[k], ds[k]);
    }
    assert choice in Combine(ds).candidates;
    forall k | 0 <= k < |parts| ensures chosen[k].bytes == others[k].bytes {
      MergeIsFromEvidence(converters, parts[k], ds[k], chosen[k], choice);
      MergeIsFromEvidence(converters, parts[k], ds[k], others[k], q);
      CandidatesAreInterchangeable(es, ds, choice, q, k);
    }
  }
}
