/** Writing a repaired save set: one transaction for the character slot, one for the guild cards, and the
    coordinator record that ties them together. The two sub-transactions are taken as install and undo pairs;
    any of them, and the publication of the record, may fail. */
module RepairCoordinator {
  import opened Base
  import opened Profile

  /** The guild-card files that exist, and what they hold. */
  type Cards = m: map<Component, Bytes> | m.Keys <= {Card1, Card2, Card3, Cardbox}

  const GUILD_CARDS: seq<Component> := [Card1, Card2, Card3, Cardbox]

  predicate IsGuildCard(c: Component) { c in GUILD_CARDS }

  predicate Complete(m: Cards) { m.Keys == {Card1, Card2, Card3, Cardbox} }

  /** The content of one file, None when it is missing. */
  function At(m: Cards, c: Component): Option<Bytes> { if c in m then Some(m[c]) else None }

  function Put(m: Cards, c: Component, content: Option<Bytes>): Cards
    requires IsGuildCard(c)
  {
    match content case Some(b) => m[c := b] case None => m - {c}
  }

  /** The slot manifest together with the backup it names. */
  datatype CoreManifest = CoreManifest(installed: Digest, previous: Option<Bytes>)

  /** The recovery journal of a guild-card installation with the backups it names, and the staging files that are
      exchanged with the targets: each holds the new bytes until its exchange and the former ones after it. */
  datatype Journal = Journal(before: Cards, after: Cards, staged: Cards)

  /** The coordinator record: whether it names the slot manifest, and which guild-card journal it names. */
  datatype Coordinator = Coordinator(core: bool, extras: Option<nat>)

  /** Everything a repair reads or writes on the output side. A record that was created but could not be
      written is present and unreadable. */
  datatype Snapshot = Snapshot(
    slot: Option<Bytes>, cards: Cards, core: Option<CoreManifest>,
    journals: map<nat, Journal>, records: map<nat, Option<Coordinator>>)

  /** The merged bytes of a set; cards only when the guild-card originals were given. */
  datatype Merges = Merges(slot: Bytes, cards: Option<Cards>)

  datatype Fingerprints = Fingerprints(source: Digest, current: Digest, output: Digest, preview: Digest)

  datatype Expectations = Expectations(
    source: Option<Digest>, current: Option<Digest>, output: Option<Digest>, preview: Option<Digest>)

  datatype Outcome =
    | OutputIncomplete
    | DryRun
    | ExpectationFailed
    | NoChanges
    | Written(record: nat)
    | CoreFailed(cleanupFailed: bool)
    | StagingFailed
    | GuildCardsFailed(exchangeStarted: Option<nat>, coreUndoFailed: bool)
    | RecordFailed(guildCardUndoFailed: bool, coreUndoFailed: bool)

  // ---------------------------------------------------------------- what states mean

  predicate CoreNeeded(s: Snapshot, m: Merges) { s.slot != Some(m.slot) }

  predicate CardsNeeded(s: Snapshot, m: Merges) { m.cards.Some? && s.cards != m.cards.value }

  /** Every output of the set holds its merged bytes. */
  predicate OutputsMerged(s: Snapshot, m: Merges) {
    s.slot == Some(m.slot) && (m.cards.Some? ==> s.cards == m.cards.value)
  }

  predicate SameOutputs(s: Snapshot, t: Snapshot) { s.slot == t.slot && s.cards == t.cards }

  predicate Expected(e: Expectations, f: Fingerprints, outputSelected: bool) {
    e.source == Some(f.source) && e.current == Some(f.current) && e.preview == Some(f.preview)
    && (outputSelected ==> e.output == Some(f.output))
  }

  /** A completed repair: all outputs merged, and a new record naming exactly the sub-manifests just made,
      each of which holds what it replaced. */
  ghost predicate Completed(before: Snapshot, m: Merges, id: nat, after: Snapshot) {
    OutputsMerged(after, m) && (m.cards.None? ==> after.cards == before.cards)
    && id !in before.records && id in after.records && after.records[id].Some?
    && var record := after.records[id].value;
       record.core == CoreNeeded(before, m)
       && record.extras.Some? == CardsNeeded(before, m)
       && (record.core || record.extras.Some?)
       && after.core == (if record.core then Some(CoreManifest(Sha256(m.slot), before.slot)) else before.core)
       && (record.extras.Some? ==>
            record.extras.value !in before.journals && Complete(before.cards) && Complete(m.cards.value)
            && after.journals ==
              before.journals[record.extras.value := Journal(before.cards, m.cards.value, before.cards)])
       && (record.extras.None? ==> after.journals == before.journals)
       && after.records == before.records[id := Some(record)]
  }

  /** Every card and its staging file hold, between them, the old and the new bytes. */
  predicate Swapped(j: Journal, m: Cards) {
    Complete(m) && Complete(j.before) && Complete(j.after) && Complete(j.staged)
    && forall c :: c in m ==>
      (m[c] == j.before[c] && j.staged[c] == j.after[c]) || (m[c] == j.after[c] && j.staged[c] == j.before[c])
  }

  /** An undo recognizes a card that is new, old or missing; a new or missing one it has to restore. */
  predicate Recognized(j: Journal, m: Cards, c: Component)
    requires Complete(j.before) && Complete(j.after) && IsGuildCard(c)
  {
    c !in m || m[c] == j.after[c] || m[c] == j.before[c]
  }

  predicate NeedsRestore(j: Journal, m: Cards, c: Component)
    requires Complete(j.after) && IsGuildCard(c)
  {
    c !in m || m[c] == j.after[c]
  }

  /** The staging file still holds what the card held before. */
  predicate FormerKept(j: Journal, c: Component)
    requires Complete(j.before) && IsGuildCard(c)
  {
    c in j.staged && j.staged[c] == j.before[c]
  }

  predicate AllRecognized(j: Journal, m: Cards) {
    Complete(j.before) && Complete(j.after) && forall c :: IsGuildCard(c) ==> Recognized(j, m, c)
  }

  /** The journal can take all four cards back. */
  predicate CardsUndoable(j: Journal, m: Cards) {
    AllRecognized(j, m) && forall c :: IsGuildCard(c) && NeedsRestore(j, m, c) ==> FormerKept(j, c)
  }

  predicate CardKept(j: Journal, m: Cards, k: Journal, n: Cards, c: Component) {
    At(n, c) == At(m, c) && At(k.staged, c) == At(j.staged, c)
  }

  predicate CardRestored(j: Journal, m: Cards, k: Journal, n: Cards, c: Component)
    requires Complete(j.before) && Complete(j.after) && IsGuildCard(c)
  {
    NeedsRestore(j, m, c) && FormerKept(j, c) && At(n, c) == Some(j.before[c]) && At(k.staged, c) == At(m, c)
  }

  /** An undo may have exchanged a card that needed it with its staging file, or have left both alone. */
  predicate PartlyRestored(j: Journal, m: Cards, k: Journal, n: Cards) {
    AllRecognized(j, m) && k.before == j.before && k.after == j.after
    && forall c :: IsGuildCard(c) ==> CardKept(j, m, k, n, c) || CardRestored(j, m, k, n, c)
  }

  /** The slot holds what the manifest installed, or already what it replaced. */
  predicate CoreRestorable(s: Snapshot) {
    s.core.Some? && (s.slot == Some(s.core.value.installed.preimage) || s.slot == s.core.value.previous)
  }

  predicate Named(s: Snapshot, id: nat) {
    id in s.records && s.records[id].Some? && (s.records[id].value.core || s.records[id].value.extras.Some?)
  }

  predicate CardsRecognized(s: Snapshot, id: nat)
    requires Named(s, id)
  {
    match s.records[id].value.extras case Some(j) => j in s.journals && AllRecognized(s.journals[j], s.cards)
      case None => true
  }

  predicate CardsReturnable(s: Snapshot, id: nat)
    requires Named(s, id)
  {
    match s.records[id].value.extras case Some(j) => j in s.journals && CardsUndoable(s.journals[j], s.cards)
      case None => true
  }

  /** Rolling back record `id` can restore everything it names. */
  predicate Undoable(s: Snapshot, id: nat) {
    Named(s, id) && (s.records[id].value.core ==> CoreRestorable(s)) && CardsReturnable(s, id)
  }

  /** The outputs record `id` goes back to. */
  function PriorSlot(s: Snapshot, id: nat): Option<Bytes>
    requires Undoable(s, id)
  {
    if s.records[id].value.core then s.core.value.previous else s.slot
  }

  function PriorCards(s: Snapshot, id: nat): Cards
    requires Undoable(s, id)
  {
    match s.records[id].value.extras case Some(j) => s.journals[j].before case None => s.cards
  }

  /** Only the journal the record names is touched, and only together with the cards it takes back. */
  ghost predicate CardsPartlyUndone(s: Snapshot, id: nat, t: Snapshot)
    requires Named(s, id)
  {
    match s.records[id].value.extras
    case Some(j) =>
      j in s.journals && j in t.journals && t.journals == s.journals[j := t.journals[j]]
      && PartlyRestored(s.journals[j], s.cards, t.journals[j], t.cards)
    case None => t.cards == s.cards && t.journals == s.journals
  }

  /** What a rollback that did not finish leaves: each output is as it was or restored, the record
      stays, and the slot manifest is only gone once everything has been restored. */
  ghost predicate PartlyUndone(s: Snapshot, id: nat, t: Snapshot)
    requires Undoable(s, id)
  {
    t.records == s.records
    && (t.slot == s.slot || t.slot == PriorSlot(s, id))
    && CardsPartlyUndone(s, id, t)
    && (t.core == s.core
      || (s.records[id].value.core && t.core == None && t.slot == PriorSlot(s, id) && t.cards == PriorCards(s, id)))
  }

  /** The slot manifest once the merged slot is in place: a new one if that took a write. */
  function CoreAfterSlot(before: Snapshot, m: Merges): Option<CoreManifest> {
    if CoreNeeded(before, m) then Some(CoreManifest(Sha256(m.slot), before.slot)) else before.core
  }

  /** The slot is merged, and if that took a write the manifest holds what was there. */
  predicate SlotWritten(before: Snapshot, m: Merges, after: Snapshot) {
    after.slot == Some(m.slot) && after.core == CoreAfterSlot(before, m)
  }

  /** The slot is as before, or merged with a manifest that holds what was there. */
  predicate SlotHeld(before: Snapshot, m: Merges, after: Snapshot) {
    after.slot == before.slot || SlotWritten(before, m, after)
  }

  /** Each guild card is as before or merged, and the retained journal holds all of the former. */
  predicate CardsHeld(before: Snapshot, m: Merges, journal: nat, after: Snapshot) {
    m.cards.Some? && journal in after.journals
    && after.journals[journal].before == before.cards && after.journals[journal].after == m.cards.value
    && Swapped(after.journals[journal], after.cards)
  }

  /** How each outcome of a repair accounts for the state it leaves. */
  ghost predicate Explained(before: Snapshot, m: Merges, journal: nat, id: nat, o: Outcome, after: Snapshot) {
    match o
    case OutputIncomplete => after == before
    case DryRun => after == before
    case ExpectationFailed => after == before
    case NoChanges => after == before && OutputsMerged(before, m)
    case Written(record) => record == id && Completed(before, m, id, after)
    case CoreFailed(cleanupFailed) =>
      CoreNeeded(before, m) && after.cards == before.cards && after.journals == before.journals
        && after.records == before.records
      && (if cleanupFailed then after.slot == before.slot || after.slot == Some(m.slot) else after == before)
    case StagingFailed =>
      CardsNeeded(before, m) && SlotWritten(before, m, after)
      && after.cards == before.cards && after.journals == before.journals && after.records == before.records
    case GuildCardsFailed(exchangeStarted, coreUndoFailed) =>
      CardsNeeded(before, m) && after.records == before.records
      && (match exchangeStarted case Some(j) => j == journal && CardsHeld(before, m, journal, after)
        case None => after.cards == before.cards)
      && (if coreUndoFailed then SlotHeld(before, m, after) else after.slot == before.slot)
    case RecordFailed(guildCardUndoFailed, coreUndoFailed) =>
      after.records - {id} == before.records
      && (if guildCardUndoFailed then CardsHeld(before, m, journal, after) else after.cards == before.cards)
      && (if coreUndoFailed then SlotHeld(before, m, after) else after.slot == before.slot)
  }

  /** The error text of the outcome names something that could not be compensated. */
  predicate NamesTrouble(o: Outcome) {
    match o
    case CoreFailed(cleanupFailed) => cleanupFailed
    case GuildCardsFailed(exchangeStarted, coreUndoFailed) => exchangeStarted.Some? || coreUndoFailed
    case RecordFailed(guildCardUndoFailed, coreUndoFailed) => guildCardUndoFailed || coreUndoFailed
    case _ => false
  }

  // ---------------------------------------------------------------- replacing the cards one by one

  /** The cards of `a` after the first `n` have been replaced by those of `b`. */
  function Replaced(a: Cards, b: Cards, n: nat): Cards
    requires Complete(a) && Complete(b) && n <= |GUILD_CARDS|
  {
    map[Card1 := (if n > 0 then b else a)[Card1], Card2 := (if n > 1 then b else a)[Card2],
        Card3 := (if n > 2 then b else a)[Card3], Cardbox := (if n > 3 then b else a)[Cardbox]]
  }

  lemma ReplaceOne(a: Cards, b: Cards, n: nat)
    requires Complete(a) && Complete(b) && n < |GUILD_CARDS|
    ensures GUILD_CARDS[n] in Replaced(a, b, n)
    ensures Replaced(a, b, n)[GUILD_CARDS[n]] == a[GUILD_CARDS[n]]
    ensures Replaced(a, b, n + 1) == Replaced(a, b, n)[GUILD_CARDS[n] := b[GUILD_CARDS[n]]]
  {
  }

  lemma ReplacedIsSwapped(a: Cards, b: Cards, n: nat)
    requires Complete(a) && Complete(b) && n <= |GUILD_CARDS|
    ensures Swapped(Journal(a, b, Replaced(b, a, n)), Replaced(a, b, n))
    ensures n == 0 ==> Replaced(a, b, n) == a && Replaced(b, a, n) == b
    ensures n == |GUILD_CARDS| ==> Replaced(a, b, n) == b && Replaced(b, a, n) == a
  {
  }

  /** Exchanging card number `n` with its staging file takes the replacement one card further. */
  lemma ExchangeReplaces(a: Cards, b: Cards, n: nat)
    requires Complete(a) && Complete(b) && n < |GUILD_CARDS|
    ensures IsGuildCard(GUILD_CARDS[n])
    ensures Put(Replaced(a, b, n), GUILD_CARDS[n], At(Replaced(b, a, n), GUILD_CARDS[n])) == Replaced(a, b, n + 1)
    ensures Put(Replaced(b, a, n), GUILD_CARDS[n], At(Replaced(a, b, n), GUILD_CARDS[n])) == Replaced(b, a, n + 1)
    ensures Swapped(Journal(a, b, Replaced(b, a, n + 1)), Replaced(a, b, n + 1))
  {
    ReplaceOne(a, b, n);
    ReplaceOne(b, a, n);
    ReplacedIsSwapped(a, b, n + 1);
  }

  /** Whatever point an installation stopped at, its journal can take the cards back. */
  lemma SwappedIsUndoable(j: Journal, m: Cards)
    requires Swapped(j, m)
    ensures CardsUndoable(j, m)
  {
  }

  /** An undo that has gone through the first `i` cards. */
  ghost predicate RestoredUpTo(j: Journal, m: Cards, k: Journal, n: Cards, i: nat) {
    AllRecognized(j, m) && k.before == j.before && k.after == j.after
    && forall x :: 0 <= x < |GUILD_CARDS| ==>
         if x < i && NeedsRestore(j, m, GUILD_CARDS[x]) then CardRestored(j, m, k, n, GUILD_CARDS[x])
         else CardKept(j, m, k, n, GUILD_CARDS[x])
  }

  lemma GuildCards(c: Component)
    ensures IsGuildCard(c) <==> c in {Card1, Card2, Card3, Cardbox}
  {
  }

  lemma SameCards(m: Cards, n: Cards)
    requires forall c :: IsGuildCard(c) ==> At(m, c) == At(n, c)
    ensures m == n
  {
    forall c | c in m || c in n ensures IsGuildCard(c) {
      GuildCards(c);
    }
  }

  lemma RestoredSoFar(j: Journal, m: Cards, k: Journal, n: Cards, i: nat)
    requires RestoredUpTo(j, m, k, n, i) && i <= |GUILD_CARDS|
    ensures PartlyRestored(j, m, k, n)
    ensures i < |GUILD_CARDS| ==> NeedsRestore(k, n, GUILD_CARDS[i]) == NeedsRestore(j, m, GUILD_CARDS[i])
    ensures i < |GUILD_CARDS| ==> FormerKept(k, GUILD_CARDS[i]) == FormerKept(j, GUILD_CARDS[i])
    ensures i == |GUILD_CARDS| ==> n == j.before && CardsUndoable(j, m)
  {
    forall c | IsGuildCard(c)
      ensures CardKept(j, m, k, n, c) || CardRestored(j, m, k, n, c)
      ensures i == |GUILD_CARDS| ==> At(n, c) == Some(j.before[c]) && (NeedsRestore(j, m, c) ==> FormerKept(j, c))
    {
      var x :| 0 <= x < |GUILD_CARDS| && GUILD_CARDS[x] == c;
    }
    if i == |GUILD_CARDS| {
      SameCards(n, j.before);
    }
  }

  lemma SameKeys(m: Cards)
    requires forall c :: IsGuildCard(c) ==> c in m
    ensures Complete(m) && forall c :: c in m ==> IsGuildCard(c)
  {
    forall c ensures IsGuildCard(c) <==> c in {Card1, Card2, Card3, Cardbox} {
      GuildCards(c);
    }
  }

  lemma NextRestored(j: Journal, m: Cards, k: Journal, n: Cards, k': Journal, n': Cards, i: nat)
    requires i < |GUILD_CARDS| && RestoredUpTo(j, m, k, n, i)
    requires NeedsRestore(k, n, GUILD_CARDS[i]) && FormerKept(k, GUILD_CARDS[i])
    requires n' == Put(n, GUILD_CARDS[i], At(k.staged, GUILD_CARDS[i]))
    requires k' == k.(staged := Put(k.staged, GUILD_CARDS[i], At(n, GUILD_CARDS[i])))
    ensures RestoredUpTo(j, m, k', n', i + 1)
  {
    forall x | 0 <= x < |GUILD_CARDS| && x != i
      ensures At(n', GUILD_CARDS[x]) == At(n, GUILD_CARDS[x])
        && At(k'.staged, GUILD_CARDS[x]) == At(k.staged, GUILD_CARDS[x])
    {
      assert GUILD_CARDS[x] != GUILD_CARDS[i];
    }
  }

  /** Undoing part of an installation leaves old and new bytes divided between cards and staging files. */
  lemma PartlyRestoredStaysSwapped(j: Journal, m: Cards, k: Journal, n: Cards)
    requires Swapped(j, m) && PartlyRestored(j, m, k, n)
    ensures Swapped(k, n)
  {
    forall c | IsGuildCard(c)
      ensures c in n && c in k.staged
      ensures (n[c] == k.before[c] && k.staged[c] == k.after[c]) || (n[c] == k.after[c] && k.staged[c] == k.before[c])
    {
      GuildCards(c);
      assert CardKept(j, m, k, n, c) || CardRestored(j, m, k, n, c);
    }
    SameKeys(n);
    SameKeys(k.staged);
  }

  // ---------------------------------------------------------------- the outputs

  class RepairOutputs {
    var slot: Option<Bytes>
    var cards: Cards
    var core: Option<CoreManifest>
    var journals: map<nat, Journal>
    var records: map<nat, Option<Coordinator>>
    /** Nothing fails on its own; used to state what an undisturbed run achieves. */
    const reliable: bool

    function State(): Snapshot
      reads this
    {
      Snapshot(slot, cards, core, journals, records)
    }

    constructor (s: Snapshot, reliable: bool)
      ensures State() == s && this.reliable == reliable
    {
      slot, cards, core, journals, records := s.slot, s.cards, s.core, s.journals, s.records;
      this.reliable := reliable;
    }

    method Fails() returns (failing: bool)
      ensures reliable ==> !failing
    {
      if reliable {
        failing := false;
      } else {
        failing := *;
      }
    }

    /** Installs the merged slot over the one seen before; a compensation that fails leaves the slot unknown
        between the two and says so. */
    method InstallCore(merged: Bytes, seen: Option<Bytes>) returns (failed: bool, cleanupFailed: bool)
      requires slot == seen
      modifies this
      ensures cards == old(cards) && journals == old(journals) && records == old(records)
      ensures !failed ==> slot == Some(merged) && core == Some(CoreManifest(Sha256(merged), seen)) && !cleanupFailed
      ensures failed && !cleanupFailed ==> slot == old(slot) && core == old(core)
      ensures failed && cleanupFailed ==> slot == old(slot) || slot == Some(merged)
      ensures reliable ==> !failed
    {
      failed := Fails();
      cleanupFailed := false;
      if failed {
        cleanupFailed := Fails();
        if cleanupFailed {
          var replaced := Fails();
          if replaced {
            slot := Some(merged);
          }
          var published := Fails();
          if published {
            core := Some(CoreManifest(Sha256(merged), seen));
          }
        }
        return;
      }
      slot := Some(merged);
      core := Some(CoreManifest(Sha256(merged), seen));
    }

    /** Undoes the slot installation recorded in the manifest, and consumes the manifest. */
    method UndoCore() returns (failed: bool)
      modifies this
      ensures cards == old(cards) && journals == old(journals) && records == old(records)
      ensures !CoreRestorable(old(State())) ==> failed && State() == old(State())
      ensures !failed ==> slot == old(core).value.previous && core == None
      ensures failed && CoreRestorable(old(State())) ==>
        (slot == old(slot) && core == old(core))
        || (slot == old(core).value.previous && (core == old(core) || core == None))
      ensures reliable && CoreRestorable(old(State())) ==> !failed
    {
      if core.None? || !(slot == Some(core.value.installed.preimage) || slot == core.value.previous) {
        return true;
      }
      failed := Fails();
      if failed {
        return;
      }
      slot := core.value.previous;
      failed := Fails();
      if failed {
        return;
      }
      core := None;
      // The manifest is gone; only the directory sync can still fail.
      failed := Fails();
    }

    /** Exchanges one card with its staging file; where the card is missing the staging file takes its place. */
    method Exchange(journal: nat, c: Component)
      requires journal in journals && IsGuildCard(c)
      modifies this
      ensures slot == old(slot) && core == old(core) && records == old(records)
      ensures cards == Put(old(cards), c, At(old(journals)[journal].staged, c))
      ensures journals ==
        old(journals)[journal :=
        old(journals)[journal].(staged := Put(old(journals)[journal].staged, c, At(old(cards), c)))]
    {
      var j := journals[journal];
      journals := journals[journal := j.(staged := Put(j.staged, c, At(cards, c)))];
      cards := Put(cards, c, At(j.staged, c));
    }

    method ExchangeAll(journal: nat) returns (failed: bool, exchangeStarted: bool)
      requires journal in journals && Complete(cards) && Complete(journals[journal].after)
      requires journals[journal].before == cards && journals[journal].staged == journals[journal].after
      modifies this
      ensures slot == old(slot) && core == old(core) && records == old(records)
      ensures exchangeStarted && journal in journals && journals == old(journals)[journal := journals[journal]]
      ensures journals[journal].before == old(cards) && journals[journal].after == old(journals)[journal].after
      ensures Swapped(journals[journal], cards)
      ensures !failed ==> cards == journals[journal].after && journals[journal].staged == old(cards)
      ensures reliable ==> !failed
    {
      ghost var former, merged := cards, journals[journal].after;
      ReplacedIsSwapped(former, merged, 0);
      exchangeStarted, failed := true, false;
      for i := 0 to |GUILD_CARDS|
        invariant slot == old(slot) && core == old(core) && records == old(records)
        invariant cards == Replaced(former, merged, i)
        invariant journals == old(journals)[journal := Journal(former, merged, Replaced(merged, former, i))]
        invariant Swapped(Journal(former, merged, Replaced(merged, former, i)), cards)
      {
        failed := Fails();
        if failed {
          return;
        }
        ExchangeReplaces(former, merged, i);
        Exchange(journal, GUILD_CARDS[i]);
        failed := Fails();
        if failed {
          return;
        }
      }
      ReplacedIsSwapped(former, merged, |GUILD_CARDS|);
    }

    /** Installs the four guild-card files one after the other behind a recovery journal. */
    method InstallGuildCards(merged: Cards, journal: nat) returns (failed: bool, exchangeStarted: bool)
      requires Complete(cards) && Complete(merged) && journal !in journals
      modifies this
      ensures slot == old(slot) && core == old(core) && records == old(records)
      ensures !failed ==>
        cards == merged && journals == old(journals)[journal := Journal(old(cards), merged, old(cards))]
      ensures failed && !exchangeStarted ==> cards == old(cards)
      ensures journals == old(journals)
        || (journal in journals && journals == old(journals)[journal := journals[journal]])
      ensures failed && exchangeStarted ==>
        journal in journals && journals[journal].before == old(cards) && journals[journal].after == merged
        && Swapped(journals[journal], cards)
      ensures reliable ==> !failed
    {
      exchangeStarted := false;
      failed := Fails();
      if failed {
        return;
      }
      journals := journals[journal := Journal(cards, merged, map[])];
      failed := Fails();
      if failed {
        return;
      }
      journals := journals[journal := Journal(cards, merged, merged)];
      failed := Fails();
      if failed {
        return;
      }
      failed, exchangeStarted := ExchangeAll(journal);
    }

    /** Takes back the cards that are new or missing by exchanging them with their staging files, and skips those
        that are old; the journal is kept. A card that is neither is refused before anything is touched, a staging
        file that no longer holds the former bytes when its turn comes. */
    method UndoGuildCards(journal: nat) returns (failed: bool)
      modifies this
      ensures slot == old(slot) && core == old(core) && records == old(records)
      ensures !(journal in old(journals) && AllRecognized(old(journals)[journal], old(cards))) ==>
        failed && State() == old(State())
      ensures journal in old(journals) && AllRecognized(old(journals)[journal], old(cards)) ==>
        journal in journals && journals == old(journals)[journal := journals[journal]]
        && PartlyRestored(old(journals)[journal], old(cards), journals[journal], cards)
      ensures !failed ==> CardsUndoable(old(journals)[journal], old(cards)) && cards == old(journals)[journal].before
      ensures reliable && journal in old(journals) && CardsUndoable(old(journals)[journal], old(cards)) ==> !failed
    {
      if journal !in journals || !AllRecognized(journals[journal], cards) {
        return true;
      }
      ghost var j, m := journals[journal], cards;
      for i := 0 to |GUILD_CARDS|
        invariant slot == old(slot) && core == old(core) && records == old(records)
        invariant journal in journals && journals == old(journals)[journal := journals[journal]]
        invariant RestoredUpTo(j, m, journals[journal], cards, i)
      {
        var c := GUILD_CARDS[i];
        var k := journals[journal];
        RestoredSoFar(j, m, k, cards, i);
        if NeedsRestore(k, cards, c) {
          if !FormerKept(k, c) {
            return true;
          }
          failed := Fails();
          if failed {
            return;
          }
          ghost var was := cards;
          Exchange(journal, c);
          NextRestored(j, m, k, was, journals[journal], cards, i);
          RestoredSoFar(j, m, journals[journal], cards, i + 1);
          failed := Fails();
          if failed {
            return;
          }
        }
      }
      RestoredSoFar(j, m, journals[journal], cards, |GUILD_CARDS|);
      failed := Fails();
    }

    /** Creates the record file and writes it; a failed write leaves an unreadable file. */
    method PublishRecord(id: nat, record: Coordinator) returns (failed: bool)
      requires id !in records
      modifies this
      ensures slot == old(slot) && cards == old(cards) && core == old(core) && journals == old(journals)
      ensures !failed ==> records == old(records)[id := Some(record)]
      ensures failed ==>
        records == old(records) || records == old(records)[id := None] || records == old(records)[id := Some(record)]
      ensures reliable ==> !failed
    {
      failed := Fails();
      if failed {
        return;
      }
      records := records[id := None];
      failed := Fails();
      if failed {
        return;
      }
      records := records[id := Some(record)];
      failed := Fails();
    }
  }

  // ---------------------------------------------------------------- the repair

  /** Undoes the slot installation if there was one. */
  method CompensateCore(out: RepairOutputs, installed: bool) returns (undoFailed: bool)
    modifies out
    ensures out.cards == old(out.cards) && out.journals == old(out.journals) && out.records == old(out.records)
    ensures !installed ==> !undoFailed && out.State() == old(out.State())
    ensures installed && CoreRestorable(old(out.State())) ==>
      if undoFailed then
        (out.slot == old(out.slot) && out.core == old(out.core)) || out.slot == old(out.core).value.previous
      else out.slot == old(out.core).value.previous
    ensures out.reliable && (installed ==> CoreRestorable(old(out.State()))) ==> !undoFailed
  {
    undoFailed := false;
    if installed {
      undoFailed := out.UndoCore();
    }
  }

  method RequireExpectations(e: Expectations, f: Fingerprints, outputSelected: bool) returns (met: bool)
    ensures met <==> Expected(e, f, outputSelected)
  {
    if e.source != Some(f.source) { return false; }
    if e.current != Some(f.current) { return false; }
    if outputSelected && e.output != Some(f.output) { return false; }
    return e.preview == Some(f.preview);
  }

  /** Installs the guild cards after the slot; on failure takes the slot back. */
  method WriteGuildCards(out: RepairOutputs, m: Merges, journal: nat, coreInstalled: bool, ghost before: Snapshot)
    returns (problem: Option<Outcome>)
    requires CardsNeeded(before, m) && Complete(before.cards) && Complete(m.cards.value) && journal !in before.journals
    requires coreInstalled == CoreNeeded(before, m)
    requires out.State() == before.(slot := Some(m.slot), core := CoreAfterSlot(before, m))
    modifies out
    ensures problem.Some? ==> Explained(before, m, journal, 0, problem.value, out.State())
    ensures problem.Some? ==> problem.value.StagingFailed? || problem.value.GuildCardsFailed?
    ensures problem.None? ==>
      out.State() == old(out.State()).(
        cards := m.cards.value,
            journals := before.journals[journal := Journal(before.cards, m.cards.value, before.cards)])
    ensures out.reliable ==> problem.None?
  {
    var noStaging := out.Fails();
    if noStaging {
      return Some(StagingFailed);
    }
    var failed, exchangeStarted := out.InstallGuildCards(m.cards.value, journal);
    if failed {
      var coreUndoFailed := CompensateCore(out, coreInstalled);
      return Some(GuildCardsFailed(if exchangeStarted then Some(journal) else None, coreUndoFailed));
    }
    return None;
  }

  /** Publishes the record; on failure undoes the guild cards, then the slot. */
  method WriteRecord(
      out: RepairOutputs, m: Merges, journal: nat, id: nat, record: Coordinator, ghost before: Snapshot,
      ghost after: Snapshot)
    returns (o: Outcome)
    requires id !in before.records
    requires out.State() == after.(records := before.records) && Completed(before, m, id, after)
    requires record == after.records[id].value && (record.extras.Some? ==> record.extras.value == journal)
    modifies out
    ensures Explained(before, m, journal, id, o, out.State())
    ensures out.reliable ==> o == Written(id)
  {
    var failed := out.PublishRecord(id, record);
    if !failed {
      return Written(id);
    }
    var guildCardUndoFailed := false;
    if record.extras.Some? {
      ghost var j, n := out.journals[journal], out.cards;
      assert Swapped(j, n);
      SwappedIsUndoable(j, n);
      guildCardUndoFailed := out.UndoGuildCards(record.extras.value);
      PartlyRestoredStaysSwapped(j, n, out.journals[journal], out.cards);
    }
    var coreUndoFailed := CompensateCore(out, record.core);
    return RecordFailed(guildCardUndoFailed, coreUndoFailed);
  }

  /** The write phase of a repair. A write goes ahead only when every fingerprint expected from the Dry Run is the
      observed one. */
  method RepairConverted(
    out: RepairOutputs, m: Merges, write: bool, e: Expectations, f: Fingerprints, outputSelected: bool, journal: nat,
        id: nat)
    returns (o: Outcome)
    requires m.cards.Some? ==> Complete(m.cards.value)
    requires journal !in out.journals && id !in out.records
    modifies out
    ensures Explained(old(out.State()), m, journal, id, o, out.State())
    ensures out.State() != old(out.State()) ==> write && Expected(e, f, outputSelected)
    // Nothing is written unless every fingerprint of the Dry Run is given and is the one observed now.
    ensures out.State() != old(out.State()) ==>
      e.source == Some(f.source) && e.current == Some(f.current) && e.preview == Some(f.preview)
      && (outputSelected ==> e.output == Some(f.output))
    ensures out.reliable && write && Expected(e, f, outputSelected) && (m.cards.Some? ==> Complete(old(out.cards))) ==>
      o == if OutputsMerged(old(out.State()), m) then NoChanges else Written(id)
  {
    ghost var before := out.State();
    if m.cards.Some? && !Complete(out.cards) {
      return OutputIncomplete;
    }
    var slotBefore := out.slot;
    var coreRequired, cardsRequired := slotBefore != Some(m.slot), m.cards.Some? && out.cards != m.cards.value;
    if !write {
      return DryRun;
    }
    var met := RequireExpectations(e, f, outputSelected);
    if !met {
      return ExpectationFailed;
    }
    if coreRequired {
      var failed, cleanupFailed := out.InstallCore(m.slot, slotBefore);
      if failed {
        return CoreFailed(cleanupFailed);
      }
    }
    if cardsRequired {
      var problem := WriteGuildCards(out, m, journal, coreRequired, before);
      if problem.Some? {
        return problem.value;
      }
    }
    if !coreRequired && !cardsRequired {
      return NoChanges;
    }
    var record := Coordinator(coreRequired, if cardsRequired then Some(journal) else None);
    ghost var after := out.State().(records := before.records[id := Some(record)]);
    assert Completed(before, m, id, after);
    o := WriteRecord(out, m, journal, id, record, before, after);
  }

  /** A repair whose error names nothing is all or nothing: every output merged and recorded, or every output
      as before. The one exception is a staging directory that cannot be created after the slot was
      written: that returns without compensation and leaves the slot merged. */
  lemma RepairIsAllOrNothing(before: Snapshot, m: Merges, journal: nat, id: nat, o: Outcome, after: Snapshot)
    requires Explained(before, m, journal, id, o, after) && !NamesTrouble(o)
    ensures (o.Written? && Completed(before, m, id, after))
      || (SameOutputs(before, after) <==> !(o.StagingFailed? && CoreNeeded(before, m)))
    ensures !o.Written? && !o.RecordFailed? ==> after.records == before.records
  {
  }

  /** Journal `j` holds the given cards and can put them back. */
  predicate HeldInJournal(s: Snapshot, j: nat, prior: Cards) {
    j in s.journals && s.journals[j].before == prior && CardsUndoable(s.journals[j], s.cards)
  }

  /** Whatever a repair reports, short of a failed slot cleanup, no prior bytes are lost: each output is as before
      or what it held is still in the slot manifest or the guild-card journal. */
  lemma NothingIsLost(before: Snapshot, m: Merges, journal: nat, id: nat, o: Outcome, after: Snapshot)
    requires Explained(before, m, journal, id, o, after) && o != CoreFailed(true)
    requires CardsNeeded(before, m) ==> Complete(before.cards) && Complete(m.cards.value)
    ensures after.slot == before.slot || (CoreRestorable(after) && after.core.value.previous == before.slot)
    ensures after.cards == before.cards || exists j :: HeldInJournal(after, j, before.cards)
  {
    if after.cards != before.cards {
      var j := if o.Written? then after.records[id].value.extras.value else journal;
      SwappedIsUndoable(after.journals[j], after.cards);
      assert HeldInJournal(after, j, before.cards);
    }
  }

  // ---------------------------------------------------------------- rolling a repair back

  /** Undoes what the record names, guild cards first, and removes the record last. */
  method RollbackRepair(out: RepairOutputs, id: nat) returns (failed: bool)
    modifies out
    ensures !failed ==> Undoable(old(out.State()), id)
    ensures !failed ==> out.slot == PriorSlot(old(out.State()), id) && out.cards == PriorCards(old(out.State()), id)
    ensures !failed ==>
      out.records == old(out.records) - {id}
      && CardsPartlyUndone(old(out.State()), id, out.State().(records := old(out.records)))
    ensures failed ==> out.records == old(out.records)
    ensures failed && Undoable(old(out.State()), id) ==> PartlyUndone(old(out.State()), id, out.State())
    ensures !Named(old(out.State()), id) || !CardsRecognized(old(out.State()), id) ==>
      failed && out.State() == old(out.State())
    // A slot that is neither old nor new is left alone, after the cards have been taken back.
    ensures Named(old(out.State()), id) && CardsRecognized(old(out.State()), id) && out.records == old(out.records) ==>
      CardsPartlyUndone(old(out.State()), id, out.State())
    ensures Named(old(out.State()), id) && old(out.records)[id].value.core && !CoreRestorable(old(out.State())) ==>
      failed && out.slot == old(out.slot) && out.core == old(out.core)
    ensures out.reliable && Named(old(out.State()), id) && CardsReturnable(old(out.State()), id) ==>
      match old(out.records)[id].value.extras case Some(j) => out.cards == old(out.journals)[j].before case None => true
    ensures out.reliable ==> (!failed <==> Undoable(old(out.State()), id))
  {
    if id !in out.records || out.records[id].None?
      || (!out.records[id].value.core && out.records[id].value.extras.None?) {
      return true;
    }
    var record := out.records[id].value;
    ghost var before := out.State();
    if record.extras.Some? {
      failed := out.UndoGuildCards(record.extras.value);
      if failed {
        return;
      }
    }
    if record.core {
      failed := out.UndoCore();
      if failed {
        return;
      }
    }
    failed := out.Fails();
    if failed {
      return;
    }
    out.records := out.records - {id};
  }

  /** A completed repair can be rolled back, to exactly the outputs it found. */
  lemma CompletedRepairIsUndoable(before: Snapshot, m: Merges, id: nat, after: Snapshot)
    requires Completed(before, m, id, after)
    ensures Undoable(after, id) && PriorSlot(after, id) == before.slot && PriorCards(after, id) == before.cards
  {
    if after.records[id].value.extras.Some? {
      SwappedIsUndoable(after.journals[after.records[id].value.extras.value], after.cards);
    }
  }

  /** Cards deleted after a completed repair do not stand in the way: the rollback restores them with the others. */
  lemma MissingCardsAreRestored(before: Snapshot, m: Merges, id: nat, after: Snapshot, left: Snapshot)
    requires Completed(before, m, id, after) && after.records[id].value.extras.Some?
    requires left == after.(cards := left.cards) && forall c :: c in left.cards ==>
      c in after.cards && left.cards[c] == after.cards[c]
    ensures Undoable(left, id) && PriorSlot(left, id) == before.slot && PriorCards(left, id) == before.cards
  {
    CompletedRepairIsUndoable(before, m, id, after);
  }

  /** A card that was missing has been restored, and the installation had not changed it: its staging file is gone
      with the restoration, and a rerun takes the old bytes for the new ones. */
  predicate StagingSpent(s: Snapshot, id: nat, t: Snapshot)
    requires Undoable(s, id)
  {
    s.records[id].value.extras.Some?
    && var j := s.journals[s.records[id].value.extras.value];
       exists c :: IsGuildCard(c) && c !in s.cards && c in t.cards && j.before[c] == j.after[c]
  }

  lemma CardsAfterInterruption(j: Journal, m: Cards, k: Journal, n: Cards)
    requires CardsUndoable(j, m) && PartlyRestored(j, m, k, n)
    ensures CardsUndoable(k, n) <==> !(exists c :: IsGuildCard(c) && c !in m && c in n && j.before[c] == j.after[c])
  {
    forall c | IsGuildCard(c)
      ensures Recognized(k, n, c)
      ensures (NeedsRestore(k, n, c) ==> FormerKept(k, c)) <==> !(c !in m && c in n && j.before[c] == j.after[c])
    {
      assert CardKept(j, m, k, n, c) || CardRestored(j, m, k, n, c);
    }
  }

  /** A rollback that stopped half way can be run again and ends at the same outputs, unless it stopped after the
      slot manifest was consumed, when every output is already restored, or after it restored a missing card that
      the installation had not changed. */
  lemma InterruptedRollback(s: Snapshot, id: nat, t: Snapshot)
    requires Undoable(s, id) && PartlyUndone(s, id, t)
    ensures Undoable(t, id) <==> !(s.records[id].value.core && t.core == None) && !StagingSpent(s, id, t)
    ensures Undoable(t, id) ==> PriorSlot(t, id) == PriorSlot(s, id) && PriorCards(t, id) == PriorCards(s, id)
    ensures s.records[id].value.core && t.core == None ==> t.slot == PriorSlot(s, id) && t.cards == PriorCards(s, id)
  {
    if s.records[id].value.extras.Some? {
      var j := s.records[id].value.extras.value;
      CardsAfterInterruption(s.journals[j], s.cards, t.journals[j], t.cards);
    }
  }

  /** The second exception is reached. The slot is neither old nor new, so the rollback restores the missing card and
      then stops at the slot. Once the slot is put right it can be undone, but the rerun stops at the card. */
  method RestoredCardBlocksRerun(s: Snapshot, id: nat, rightSlot: Option<Bytes>, c: Component)
    returns (first: bool, t: Snapshot, again: bool)
    requires Undoable(s.(slot := rightSlot), id) && !CoreRestorable(s)
    requires s.records[id].value.core && s.records[id].value.extras.Some?
    requires IsGuildCard(c) && c !in s.cards
    requires var j := s.journals[s.records[id].value.extras.value]; j.before[c] == j.after[c]
    ensures first && CoreRestorable(t) && Named(t, id) && !Undoable(t, id) && again
  {
    var out := new RepairOutputs(s, true);
    first := RollbackRepair(out, id);
    ghost var j := s.records[id].value.extras.value;
    ghost var k := out.journals[j];
    assert PartlyRestored(s.journals[j], s.cards, k, out.cards);
    assert CardKept(s.journals[j], s.cards, k, out.cards, c) || CardRestored(s.journals[j], s.cards, k, out.cards, c);
    assert NeedsRestore(k, out.cards, c) && !FormerKept(k, c);
    out.slot := rightSlot;
    t := out.State();
    again := RollbackRepair(out, id);
  }

  /** Write, then roll back without a failure: the outputs are the ones the write found. */
  method RepairThenRollBack(
      before: Snapshot, m: Merges, e: Expectations, f: Fingerprints, journal: nat, id: nat)
    returns (after: Snapshot)
    requires Complete(before.cards) && (m.cards.Some? ==> Complete(m.cards.value))
    requires journal !in before.journals && id !in before.records && Expected(e, f, true)
    ensures SameOutputs(before, after) && after.records == before.records
  {
    var out := new RepairOutputs(before, true);
    var o := RepairConverted(out, m, true, e, f, true, journal, id);
    if o.Written? {
      CompletedRepairIsUndoable(before, m, id, out.State());
      var failed := RollbackRepair(out, id);
    }
    after := out.State();
  }
}
