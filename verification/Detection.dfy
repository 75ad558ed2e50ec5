/** Telling which release produced a component, and choosing the one to repair from. */
module Detection {
  import opened Base
  import opened Profile
  import opened RepairFields
  import opened Merge

  datatype Confidence = Exact | CompatibleRange | Ambiguous | Unknown

  /** How the repair fields of a component compare with one release's replayed output. */
  datatype Tally = Tally(matching: nat, historical: nat, alreadyCurrent: nat, conflicting: nat)

  const ZERO: Tally := Tally(0, 0, 0, 0)

  datatype RevisionScore = RevisionScore(revision: Revision, tally: Tally)

  datatype RevisionDetection = RevisionDetection(confidence: Confidence, candidates: seq<Revision>,
      scores: seq<RevisionScore>)

  function RevisionIndex(r: Revision): (i: nat)
    ensures i < |ALL_REVISIONS| && ALL_REVISIONS[i] == r
  {
    match r case V0_0_3 => 0 case V0_0_4 => 1 case V0_0_5 => 2 case V0_0_6 => 3
  }

  /** Listed from the oldest release to the newest, none twice. */
  predicate InReleaseOrder(releases: seq<Revision>) {
    forall i, j :: 0 <= i < j < |releases| ==> RevisionIndex(releases[i]) < RevisionIndex(releases[j])
  }

  lemma RevisionAt(i: nat)
    requires i < |ALL_REVISIONS|
    ensures RevisionIndex(ALL_REVISIONS[i]) == i
  {
  }

  // ---------------------------------------------------------------- scoring one component

  function Scored(t: Tally, observed: Bytes, candidate: Bytes, latest: Bytes): Tally {
    if observed == candidate then
      if candidate != latest then t.(matching := t.matching + 1, historical := t.historical + 1)
      else t.(matching := t.matching + 1, alreadyCurrent := t.alreadyCurrent + 1)
    else if observed == latest then t.(alreadyCurrent := t.alreadyCurrent + 1)
    else t.(conflicting := t.conflicting + 1)
  }

  function TallyOf(current: Bytes, candidate: Bytes, latest: Bytes, fields: seq<FieldSpec>): Tally
    requires Comparable(current, candidate, latest, fields)
  {
    if |fields| == 0 then ZERO
    else
      var n := |fields| - 1;
      Scored(TallyOf(current, candidate, latest, fields[..n]),
        FieldBytes(current, fields[n]), FieldBytes(candidate, fields[n]), FieldBytes(latest, fields[n]))
  }

  method ScoreRevision(current: Bytes, candidate: Bytes, latest: Bytes, fields: seq<FieldSpec>) returns (tally: Tally)
    requires Comparable(current, candidate, latest, fields)
    ensures tally == TallyOf(current, candidate, latest, fields)
  {
    tally := ZERO;
    assert fields[..0] == [];
    for i := 0 to |fields|
      invariant tally == TallyOf(current, candidate, latest, fields[..i])
    {
      assert fields[..i + 1][..i] == fields[..i];
      var currentField := FieldBytes(current, fields[i]);
      var candidateField := FieldBytes(candidate, fields[i]);
      var latestField := FieldBytes(latest, fields[i]);
      if currentField == candidateField {
        tally := tally.(matching := tally.matching + 1);
        if candidateField != latestField {
          tally := tally.(historical := tally.historical + 1);
        } else {
          tally := tally.(alreadyCurrent := tally.alreadyCurrent + 1);
        }
      } else if currentField == latestField {
        tally := tally.(alreadyCurrent := tally.alreadyCurrent + 1);
      } else {
        tally := tally.(conflicting := tally.conflicting + 1);
      }
    }
    assert fields[..|fields|] == fields;
  }

  /** How many fields hold something else although the release and the latest conversion agree on them. */
  function AgreedElsewhere(current: Bytes, candidate: Bytes, latest: Bytes, fields: seq<FieldSpec>): nat
    requires Comparable(current, candidate, latest, fields)
  {
    if |fields| == 0 then 0
    else
      var n := |fields| - 1;
      AgreedElsewhere(current, candidate, latest, fields[..n])
      + var fixed := FieldBytes(latest, fields[n]);
        if FieldBytes(candidate, fields[n]) == fixed && FieldBytes(current, fields[n]) != fixed then 1 else 0
  }

  lemma {:induction false} CountedOnce(current: Bytes, candidate: Bytes, latest: Bytes, fields: seq<FieldSpec>)
    requires Comparable(current, candidate, latest, fields)
    ensures var t := TallyOf(current, candidate, latest, fields);
      t.historical + t.alreadyCurrent + t.conflicting == |fields|
      && t.historical <= t.matching <= t.historical + t.alreadyCurrent
  {
    if |fields| == 0 {
    } else {
      CountedOnce(current, candidate, latest, fields[..|fields| - 1]);
    }
  }

  lemma {:induction false} HistoricalIsRepaired(current: Bytes, candidate: Bytes, latest: Bytes, fields: seq<FieldSpec>)
    requires Comparable(current, candidate, latest, fields)
    ensures CountStatus(Changes(current, candidate, latest, fields), Repaired)
      == TallyOf(current, candidate, latest, fields).historical
  {
    if |fields| == 0 {
    } else {
      var n := |fields| - 1;
      HistoricalIsRepaired(current, candidate, latest, fields[..n]);
      var change := MergeField(fields[n], StatusOf(current, candidate, latest, fields[n]));
      CountSnoc(Changes(current, candidate, latest, fields[..n]), change, Repaired);
    }
  }

  lemma {:induction false} ConflictsArePreserved(
      current: Bytes, candidate: Bytes, latest: Bytes, fields: seq<FieldSpec>)
    requires Comparable(current, candidate, latest, fields)
    ensures CountStatus(Changes(current, candidate, latest, fields), PreservedConflict)
      + AgreedElsewhere(current, candidate, latest, fields) == TallyOf(current, candidate, latest, fields).conflicting
  {
    if |fields| == 0 {
    } else {
      var n := |fields| - 1;
      ConflictsArePreserved(current, candidate, latest, fields[..n]);
      var change := MergeField(fields[n], StatusOf(current, candidate, latest, fields[n]));
      CountSnoc(Changes(current, candidate, latest, fields[..n]), change, PreservedConflict);
    }
  }

  /** Every field is counted once; the score foretells the merge: its historical matches are exactly the
      fields that will be repaired, and its conflicts are the ones the merge preserves plus the fields
      on which nothing was to be repaired. */
  lemma ScoresPredictTheMerge(current: Bytes, candidate: Bytes, latest: Bytes, fields: seq<FieldSpec>)
    requires Comparable(current, candidate, latest, fields)
    ensures var t := TallyOf(current, candidate, latest, fields);
      var changes := Changes(current, candidate, latest, fields);
      t.historical + t.alreadyCurrent + t.conflicting == |fields|
      && t.historical <= t.matching <= t.historical + t.alreadyCurrent
      && CountStatus(changes, Repaired) == t.historical
      && CountStatus(changes, PreservedConflict) + AgreedElsewhere(current, candidate, latest, fields) == t.conflicting
  {
    CountedOnce(current, candidate, latest, fields);
    HistoricalIsRepaired(current, candidate, latest, fields);
    ConflictsArePreserved(current, candidate, latest, fields);
  }

  predicate MatchesEverywhere(current: Bytes, candidate: Bytes, fields: seq<FieldSpec>)
    requires |candidate| == |current| && Within(fields, CEMU_HEADER_SIZE, |current|)
  {
    forall k :: 0 <= k < |fields| ==> FieldBytes(current, fields[k]) == FieldBytes(candidate, fields[k])
  }

  lemma {:induction false} FullScore(current: Bytes, candidate: Bytes, latest: Bytes, fields: seq<FieldSpec>)
    requires Comparable(current, candidate, latest, fields)
    ensures TallyOf(current, candidate, latest, fields).matching <= |fields|
    ensures TallyOf(current, candidate, latest, fields).matching == |fields| <==>
      MatchesEverywhere(current, candidate, fields)
  {
    if |fields| == 0 {
    } else {
      var n := |fields| - 1;
      FullScore(current, candidate, latest, fields[..n]);
      assert MatchesEverywhere(current, candidate, fields) <==>
        MatchesEverywhere(current, candidate, fields[..n])
          && FieldBytes(current, fields[n]) == FieldBytes(candidate, fields[n]) by {
        assert forall k :: 0 <= k < n ==> fields[..n][k] == fields[k];
      }
    }
  }

  lemma {:induction false} NoMatchNoChange(current: Bytes, candidate: Bytes, latest: Bytes, fields: seq<FieldSpec>)
    requires Comparable(current, candidate, latest, fields)
    requires TallyOf(current, candidate, latest, fields).matching == 0
    ensures Merged(current, candidate, latest, fields) == current
  {
    if |fields| == 0 {
    } else {
      NoMatchNoChange(current, candidate, latest, fields[..|fields| - 1]);
    }
  }

  // ---------------------------------------------------------------- detecting one component

  /** The replayed outputs, one per release in release order, all comparable with the component. */
  predicate Replayed(current: Bytes, expected: seq<Bytes>, latest: Bytes, fields: seq<FieldSpec>) {
    |expected| == |ALL_REVISIONS|
    && (forall i :: 0 <= i < |expected| ==> Comparable(current, expected[i], latest, fields))
  }

  function MatchingOf(current: Bytes, expected: seq<Bytes>, latest: Bytes, fields: seq<FieldSpec>, r: Revision): nat
    requires Replayed(current, expected, latest, fields)
  {
    TallyOf(current, expected[RevisionIndex(r)], latest, fields).matching
  }

  function MergedFrom(current: Bytes, expected: seq<Bytes>, latest: Bytes, fields: seq<FieldSpec>, r: Revision): Bytes
    requires Replayed(current, expected, latest, fields)
  {
    Merged(current, expected[RevisionIndex(r)], latest, fields)
  }

  predicate HasMatch(t: Tally) { t.matching > 0 || t.alreadyCurrent > 0 }

  predicate BestMatch(current: Bytes, expected: seq<Bytes>, latest: Bytes, fields: seq<FieldSpec>, r: Revision)
    requires Replayed(current, expected, latest, fields)
  {
    forall q :: MatchingOf(current, expected, latest, fields, q) <= MatchingOf(current, expected, latest, fields, r)
  }

  predicate SameMerge(
      current: Bytes, expected: seq<Bytes>, latest: Bytes, fields: seq<FieldSpec>, candidates: seq<Revision>)
    requires Replayed(current, expected, latest, fields)
  {
    forall q, r :: q in candidates && r in candidates ==>
      MergedFrom(current, expected, latest, fields, q) == MergedFrom(current, expected, latest, fields, r)
  }

  predicate AnyMatch(current: Bytes, expected: seq<Bytes>, latest: Bytes, fields: seq<FieldSpec>)
    requires Replayed(current, expected, latest, fields)
  {
    exists i :: 0 <= i < |expected| && HasMatch(TallyOf(current, expected[i], latest, fields))
  }

  function ConfidenceFor(
      candidates: seq<Revision>, current: Bytes, expected: seq<Bytes>, latest: Bytes,
          fields: seq<FieldSpec>): Confidence
    requires Replayed(current, expected, latest, fields)
  {
    if !AnyMatch(current, expected, latest, fields) then Unknown
    else if |candidates| == 1 then Exact
    else if SameMerge(current, expected, latest, fields, candidates) then CompatibleRange
    else Ambiguous
  }

  predicate ScoresAre(
      scores: seq<RevisionScore>, current: Bytes, expected: seq<Bytes>, latest: Bytes, fields: seq<FieldSpec>)
    requires Replayed(current, expected, latest, fields)
  {
    |scores| == |ALL_REVISIONS|
    && forall i :: 0 <= i < |scores| ==>
      scores[i] == RevisionScore(ALL_REVISIONS[i], TallyOf(current, expected[i], latest, fields))
  }

  /** What a detection says, independently of how it is computed: the candidates are the releases that match
      most fields, and the confidence reports whether choosing among them can make any difference. */
  ghost predicate Detects(
      d: RevisionDetection, current: Bytes, expected: seq<Bytes>, latest: Bytes, fields: seq<FieldSpec>)
    requires Replayed(current, expected, latest, fields)
  {
    ScoresAre(d.scores, current, expected, latest, fields)
    && InReleaseOrder(d.candidates)
    && if |fields| == 0 then d.confidence == CompatibleRange && d.candidates == ALL_REVISIONS
       else
         (forall r :: r in d.candidates <==> BestMatch(current, expected, latest, fields, r))
         && d.confidence == ConfidenceFor(d.candidates, current, expected, latest, fields)
  }

  method ScoreAll(
      current: Bytes, expected: seq<Bytes>, latest: Bytes, fields: seq<FieldSpec>)
    returns (scores: seq<RevisionScore>)
    requires Replayed(current, expected, latest, fields)
    ensures ScoresAre(scores, current, expected, latest, fields)
  {
    scores := [];
    for i := 0 to |ALL_REVISIONS|
      invariant |scores| == i
      invariant forall k :: 0 <= k < i ==>
        scores[k] == RevisionScore(ALL_REVISIONS[k], TallyOf(current, expected[k], latest, fields))
    {
      var tally := ScoreRevision(current, expected[i], latest, fields);
      scores := scores + [RevisionScore(ALL_REVISIONS[i], tally)];
    }
  }

  /** The releases with the highest number of matching fields, in release order. */
  method BestScores(scores: seq<RevisionScore>) returns (best: seq<Revision>)
    requires |scores| == |ALL_REVISIONS| && forall i :: 0 <= i < |scores| ==> scores[i].revision == ALL_REVISIONS[i]
    ensures InReleaseOrder(best) && |best| > 0
    ensures forall r :: r in best <==>
      (forall q :: scores[RevisionIndex(q)].tally.matching <= scores[RevisionIndex(r)].tally.matching)
  {
    var bestMatch := scores[0].tally.matching;
    ghost var winner := ALL_REVISIONS[0];
    for i := 1 to |scores|
      invariant forall k :: 0 <= k < i ==> scores[k].tally.matching <= bestMatch
      invariant scores[RevisionIndex(winner)].tally.matching == bestMatch
    {
      if scores[i].tally.matching > bestMatch {
        bestMatch, winner := scores[i].tally.matching, ALL_REVISIONS[i];
        RevisionAt(i);
      }
    }
    best := [];
    for i := 0 to |scores|
      invariant forall r :: r in best <==> RevisionIndex(r) < i && scores[RevisionIndex(r)].tally.matching == bestMatch
      invariant InReleaseOrder(best)
    {
      RevisionAt(i);
      if scores[i].tally.matching == bestMatch {
        assert forall k :: 0 <= k < |best| ==> best[k] in best;
        best := best + [ALL_REVISIONS[i]];
      }
    }
    assert winner in best;
  }

  /** Neighbouring candidates are compared; equality of neighbours is equality of all. */
  method TiedMergesIdentical(
      current: Bytes, expected: seq<Bytes>, latest: Bytes, fields: seq<FieldSpec>, best: seq<Revision>)
    returns (same: bool)
    requires Replayed(current, expected, latest, fields)
    ensures same <==> SameMerge(current, expected, latest, fields, best)
  {
    var i := 0;
    while i + 1 < |best|
      invariant forall k :: 0 <= k <= i && k < |best| ==>
        MergedFrom(current, expected, latest, fields, best[k]) == MergedFrom(current, expected, latest, fields, best[0])
    {
      var left := MergedCandidateBytes(current, expected[RevisionIndex(best[i])], latest, fields);
      var right := MergedCandidateBytes(current, expected[RevisionIndex(best[i + 1])], latest, fields);
      if left != right {
        assert best[i] in best && best[i + 1] in best;
        return false;
      }
      i := i + 1;
    }
    return true;
  }

  method AnySupported(scores: seq<RevisionScore>) returns (supported: bool)
    ensures supported <==> exists k :: 0 <= k < |scores| && HasMatch(scores[k].tally)
  {
    for i := 0 to |scores|
      invariant forall k :: 0 <= k < i ==> !HasMatch(scores[k].tally)
    {
      if scores[i].tally.matching > 0 || scores[i].tally.alreadyCurrent > 0 {
        assert HasMatch(scores[i].tally);
        return true;
      }
    }
    return false;
  }

  lemma SupportedIsMatch(
      scores: seq<RevisionScore>, current: Bytes, expected: seq<Bytes>, latest: Bytes, fields: seq<FieldSpec>)
    requires Replayed(current, expected, latest, fields) && ScoresAre(scores, current, expected, latest, fields)
    ensures (exists k :: 0 <= k < |scores| && HasMatch(scores[k].tally)) <==>
      AnyMatch(current, expected, latest, fields)
  {
    forall k | 0 <= k < |scores| ensures HasMatch(scores[k].tally) <==>
      HasMatch(TallyOf(current, expected[k], latest, fields)) {
    }
  }

  lemma AllInReleaseOrder()
    ensures InReleaseOrder(ALL_REVISIONS)
  {
    forall i | 0 <= i < |ALL_REVISIONS| ensures RevisionIndex(ALL_REVISIONS[i]) == i {
      RevisionAt(i);
    }
  }

  lemma BestAreBest(
      scores: seq<RevisionScore>, current: Bytes, expected: seq<Bytes>, latest: Bytes, fields: seq<FieldSpec>,
      best: seq<Revision>)
    requires Replayed(current, expected, latest, fields) && ScoresAre(scores, current, expected, latest, fields)
    requires forall r :: r in best <==>
      (forall q :: scores[RevisionIndex(q)].tally.matching <= scores[RevisionIndex(r)].tally.matching)
    ensures forall r :: r in best <==> BestMatch(current, expected, latest, fields, r)
  {
    assert forall r :: scores[RevisionIndex(r)].tally.matching == MatchingOf(current, expected, latest, fields, r);
  }

  /** Detection over the replayed outputs: scores, best candidates and what their tie means. */
  method DetectFields(
      current: Bytes, expected: seq<Bytes>, latest: Bytes, fields: seq<FieldSpec>)
    returns (d: RevisionDetection)
    requires Replayed(current, expected, latest, fields)
    ensures Detects(d, current, expected, latest, fields)
  {
    var scores := ScoreAll(current, expected, latest, fields);
    if |fields| == 0 {
      AllInReleaseOrder();
      return RevisionDetection(CompatibleRange, ALL_REVISIONS, scores);
    }
    var best := BestScores(scores);
    BestAreBest(scores, current, expected, latest, fields, best);
    var anySupportedField := AnySupported(scores);
    assert anySupportedField <==> AnyMatch(current, expected, latest, fields) by {
      SupportedIsMatch(scores, current, expected, latest, fields);
    }
    var confidence;
    if !anySupportedField {
      confidence := Unknown;
    } else if |best| == 1 {
      confidence := Exact;
    } else {
      var same := TiedMergesIdentical(current, expected, latest, fields, best);
      confidence := if same then CompatibleRange else Ambiguous;
    }
    return RevisionDetection(confidence, best, scores);
  }

  // ---------------------------------------------------------------- detecting from the converters

  /** The outputs all four releases would have written; meaningful when every replay succeeds. */
  ghost function Replays(converters: Converters, source: Bytes, c: Component): (r: seq<Bytes>)
    requires forall q :: converters.replay(c, source, q).Ok?
    ensures |r| == |ALL_REVISIONS| && forall i :: 0 <= i < |r| ==>
      r[i] == converters.replay(c, source, ALL_REVISIONS[i]).value
  {
    seq(|ALL_REVISIONS|, i requires 0 <= i < |ALL_REVISIONS| => converters.replay(c, source, ALL_REVISIONS[i]).value)
  }

  /** The pair may be merged and all five conversions of the original succeed. */
  ghost predicate Detectable(converters: Converters, source: Bytes, current: Bytes, c: Component) {
    PairProblem(converters, source, current, c).None?
    && (forall q :: converters.replay(c, source, q).Ok?)
    && converters.latest(c, source).Ok?
  }

  ghost predicate DetectsComponent(
      d: RevisionDetection, converters: Converters, source: Bytes, current: Bytes, c: Component)
  {
    Detectable(converters, source, current, c)
    && var expected := Replays(converters, source, c);
       var latest := converters.latest(c, source).value;
       Replayed(current, expected, latest, FieldsOf(c)) && PairwiseApart(FieldsOf(c))
       && Detects(d, current, expected, latest, FieldsOf(c))
  }

  method ReplayAll(converters: Converters, source: Bytes, c: Component) returns (r: Result<seq<Bytes>, RepairError>)
    requires !c.OtherFile?
    ensures r.Ok? <==> forall q :: converters.replay(c, source, q).Ok?
    ensures r.Ok? ==> r.value == Replays(converters, source, c)
  {
    var outputs := [];
    for i := 0 to |ALL_REVISIONS|
      invariant |outputs| == i
      invariant forall k :: 0 <= k < i ==> converters.replay(c, source, ALL_REVISIONS[k]) == Ok(outputs[k])
    {
      var output := ConvertForRevision(converters, source, c, ALL_REVISIONS[i]);
      if output.Err? {
        assert converters.replay(c, source, ALL_REVISIONS[i]).Err?;
        return Err(output.error);
      }
      outputs := outputs + [output.value];
    }
    forall q ensures converters.replay(c, source, q).Ok? {
      assert q == ALL_REVISIONS[RevisionIndex(q)];
    }
    return Ok(outputs);
  }

  method HistoricalOutputs(
      converters: Converters, source: Bytes, current: Bytes, c: Component)
    returns (r: Result<seq<Bytes>, RepairError>)
    ensures r.Ok? <==>
      PairProblem(converters, source, current, c).None? && forall q :: converters.replay(c, source, q).Ok?
    ensures r.Ok? ==> r.value == Replays(converters, source, c)
  {
    var problem := PairProblem(converters, source, current, c);
    if problem.Some? {
      return Err(problem.value);
    }
    PairIsValid(converters, source, current, c);
    r := ReplayAll(converters, source, c);
  }

  lemma ReplaysAreComparable(current: Bytes, expected: seq<Bytes>, latest: Bytes, c: Component)
    requires ValidComponent(current, c) && ValidComponent(latest, c)
    requires |expected| == |ALL_REVISIONS| && forall i :: 0 <= i < |expected| ==> ValidComponent(expected[i], c)
    ensures Replayed(current, expected, latest, FieldsOf(c)) && PairwiseApart(FieldsOf(c))
  {
    forall i | 0 <= i < |expected| ensures Comparable(current, expected[i], latest, FieldsOf(c)) {
      ComponentsAreComparable(current, expected[i], latest, c);
    }
    ComponentsAreComparable(current, expected[0], latest, c);
  }

  lemma DetectablePairs(converters: Converters, source: Bytes, current: Bytes, c: Component)
    ensures Detectable(converters, source, current, c) <==>
      Acceptable(source, current, c) && (forall q :: converters.replay(c, source, q).Ok?)
      && converters.latest(c, source).Ok?
  {
    if converters.latest(c, source).Ok? {
      AcceptedPairs(converters, source, current, c);
    }
  }

  /** Succeeds exactly when the pair is valid and the original converts under every release. */
  method DetectComponentRevision(converters: Converters, source: Bytes, current: Bytes, c: Component)
    returns (r: Result<RevisionDetection, RepairError>)
    requires Sound(converters)
    ensures r.Ok? <==> Detectable(converters, source, current, c)
    ensures r.Ok? <==>
      Acceptable(source, current, c) && (forall q :: converters.replay(c, source, q).Ok?)
      && converters.latest(c, source).Ok?
    ensures r.Ok? ==> DetectsComponent(r.value, converters, source, current, c)
  {
    DetectablePairs(converters, source, current, c);
    var expected := HistoricalOutputs(converters, source, current, c);
    if expected.Err? {
      return Err(expected.error);
    }
    PairIsValid(converters, source, current, c);
    var latest := ConvertCurrent(converters, source, c);
    if latest.Err? {
      return Err(latest.error);
    }
    ReplaysAreComparable(current, expected.value, latest.value, c);
    var fields := RepairFields.RepairFields(c);
    var d := DetectFields(current, expected.value, latest.value, fields.value);
    return Ok(d);
  }
}
