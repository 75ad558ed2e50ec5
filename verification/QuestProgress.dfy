/** Quest completion: a permuted bit table, little-endian on one console and big-endian on the other. */
module QuestProgress {
  import opened Base
  import opened Profile
  import opened Words

  const QUEST_COMPLETION_START: nat := 0x6E5C
  const QUEST_COMPLETION_WORDS: nat := 16
  const QUEST_BITS: nat := 512
  const JP_3DS_HEADER_SIZE: nat := 4

  /** Where the two consoles keep the completion bit of one quest. */
  datatype Quest = Quest(id: nat, source: nat, target: nat)

  predicate InTable(catalog: seq<Quest>) {
    forall k :: 0 <= k < |catalog| ==> catalog[k].source < QUEST_BITS && catalog[k].target < QUEST_BITS
  }

  predicate DistinctTargets(catalog: seq<Quest>) {
    forall j, k :: 0 <= j < k < |catalog| ==> catalog[j].target != catalog[k].target
  }

  function WithBit(w: bv32, i: nat): bv32
    requires i < 32
  {
    w | (1 << i)
  }

  lemma BitOfUnion(w: bv32, i: nat, j: nat)
    requires i < 32 && j < 32
    ensures (w | (1 << i)) & (1 << j) != 0 <==> i == j || w & (1 << j) != 0
  {
  }

  lemma SetBit(w: bv32, i: nat, j: nat)
    requires i < 32 && j < 32
    ensures WordBit(WithBit(w, i), j) <==> i == j || WordBit(w, j)
  {
    BitOfUnion(w, i, j);
  }

  lemma NoBit(i: nat)
    requires i < 32
    ensures !WordBit(0, i)
  {
  }

  /** Whether the payload of a Nintendo 3DS save has completion bit `i`. */
  predicate SourceBit(payload: Bytes, i: nat)
    requires |payload| == PAYLOAD_SIZE && i < QUEST_BITS
  {
    WordBit(LittleWord(payload, QUEST_COMPLETION_START + i / 32 * 4), i % 32)
  }

  predicate TargetBit(payload: Bytes, i: nat)
    requires |payload| == PAYLOAD_SIZE && i < QUEST_BITS
  {
    WordBit(BigWord(payload, QUEST_COMPLETION_START + i / 32 * 4), i % 32)
  }

  /** The source keeps completion bit `i` in byte `i / 8` of its table, and the target in the byte that is in the
      mirrored place of the same word. */
  lemma TableBits(payload: Bytes, i: nat)
    requires |payload| == PAYLOAD_SIZE && i < QUEST_BITS
    ensures SourceBit(payload, i) == ByteBit(payload[0x6E5C + i / 8], i % 8)
    ensures TargetBit(payload, i) == ByteBit(payload[0x6E5C + i / 32 * 4 + 3 - i % 32 / 8], i % 8)
  {
    BitsOfWord(payload, QUEST_COMPLETION_START + i / 32 * 4, i % 32);
    assert i / 32 * 4 + i % 32 / 8 == i / 8 && i % 32 % 8 == i % 8;
  }

  /** Some catalogued quest with target bit `t` is complete in the source. */
  predicate Earned(catalog: seq<Quest>, source: Bytes, t: nat)
    requires InTable(catalog) && |source| == PAYLOAD_SIZE
  {
    exists k :: 0 <= k < |catalog| && catalog[k].target == t && SourceBit(source, catalog[k].source)
  }

  predicate WordsHold(words: seq<bv32>, catalog: seq<Quest>, source: Bytes)
    requires |words| == QUEST_COMPLETION_WORDS && InTable(catalog) && |source| == PAYLOAD_SIZE
  {
    forall t :: 0 <= t < QUEST_BITS ==> (WordBit(words[t / 32], t % 32) <==> Earned(catalog, source, t))
  }

  predicate InQuestTable(i: nat) {
    QUEST_COMPLETION_START <= i < QUEST_COMPLETION_START + QUEST_COMPLETION_WORDS * 4
  }

  ghost predicate HasEarned(catalog: seq<Quest>, source: Bytes, t: nat)
    requires InTable(catalog) && |source| == PAYLOAD_SIZE
  {
    exists k :: 0 <= k < |catalog| && catalog[k].target == t
      && ByteBit(source[0x6E5C + catalog[k].source / 8], catalog[k].source % 8)
  }

  /** Bit for bit and byte for byte: a bit of the new table is set exactly when the old table has the bit of some
      catalogued quest that maps to it, and bytes outside the table are as before. */
  ghost predicate TableRemapped(catalog: seq<Quest>, source: Bytes, before: Bytes, after: Bytes)
    requires InTable(catalog) && |source| == PAYLOAD_SIZE && |before| == PAYLOAD_SIZE && |after| == PAYLOAD_SIZE
  {
    && (forall t :: 0 <= t < 512 ==>
      (ByteBit(after[0x6E5C + t / 32 * 4 + 3 - t % 32 / 8], t % 8) <==> HasEarned(catalog, source, t)))
    && forall i :: 0 <= i < PAYLOAD_SIZE && !(0x6E5C <= i < 0x6E9C) ==> after[i] == before[i]
  }

  lemma EarnedMeaning(catalog: seq<Quest>, source: Bytes, t: nat)
    requires InTable(catalog) && |source| == PAYLOAD_SIZE
    ensures Earned(catalog, source, t) <==> HasEarned(catalog, source, t)
  {
    forall k | 0 <= k < |catalog|
      ensures SourceBit(source, catalog[k].source) ==
        ByteBit(source[0x6E5C + catalog[k].source / 8], catalog[k].source % 8)
    {
      TableBits(source, catalog[k].source);
    }
  }

  /** The target's table holds a bit exactly when an earned quest maps to it; bytes outside the table are as before. */
  predicate Remapped(catalog: seq<Quest>, source: Bytes, before: Bytes, after: Bytes)
    requires InTable(catalog) && |source| == PAYLOAD_SIZE && |before| == PAYLOAD_SIZE && |after| == PAYLOAD_SIZE
  {
    (forall t :: 0 <= t < QUEST_BITS ==> (TargetBit(after, t) <==> Earned(catalog, source, t)))
    && (forall i :: 0 <= i < PAYLOAD_SIZE && !InQuestTable(i) ==> after[i] == before[i])
  }

  lemma RemapMeaning(catalog: seq<Quest>, source: Bytes, before: Bytes, after: Bytes)
    requires InTable(catalog) && |source| == PAYLOAD_SIZE && |before| == PAYLOAD_SIZE && |after| == PAYLOAD_SIZE
    ensures Remapped(catalog, source, before, after) <==> TableRemapped(catalog, source, before, after)
  {
    forall t | 0 <= t < 512
      ensures TargetBit(after, t) == ByteBit(after[0x6E5C + t / 32 * 4 + 3 - t % 32 / 8], t % 8)
        && Earned(catalog, source, t) == HasEarned(catalog, source, t)
    {
      TableBits(after, t);
      EarnedMeaning(catalog, source, t);
    }
  }

  lemma EarnedSnoc(catalog: seq<Quest>, source: Bytes, n: nat, t: nat)
    requires InTable(catalog) && |source| == PAYLOAD_SIZE && n < |catalog|
    ensures InTable(catalog[..n]) && InTable(catalog[..n + 1])
    ensures Earned(catalog[..n + 1], source, t) <==>
      Earned(catalog[..n], source, t) || (catalog[n].target == t && SourceBit(source, catalog[n].source))
  {
    var all, before := catalog[..n + 1], catalog[..n];
    assert all[n] == catalog[n];
    if Earned(before, source, t) {
      var k :| 0 <= k < n && before[k].target == t && SourceBit(source, before[k].source);
      assert all[k] == before[k];
    }
    if Earned(all, source, t) {
      var k :| 0 <= k <= n && all[k].target == t && SourceBit(source, all[k].source);
      assert k < n ==> before[k] == all[k];
    }
  }

  lemma OneWordChanged(words: seq<bv32>, updated: seq<bv32>, target: nat, t: nat)
    requires |words| == QUEST_COMPLETION_WORDS && target < QUEST_BITS && t < QUEST_BITS
    requires updated == words[target / 32 := WithBit(words[target / 32], target % 32)]
    ensures WordBit(updated[t / 32], t % 32) <==> t == target || WordBit(words[t / 32], t % 32)
  {
    if t / 32 == target / 32 {
      SetBit(words[target / 32], target % 32, t % 32);
      assert t == t / 32 * 32 + t % 32 && target == target / 32 * 32 + target % 32;
    }
  }

  lemma NextQuest(words: seq<bv32>, updated: seq<bv32>, catalog: seq<Quest>, source: Bytes, n: nat)
    requires |words| == QUEST_COMPLETION_WORDS && |source| == PAYLOAD_SIZE && n < |catalog|
    requires InTable(catalog) && InTable(catalog[..n]) && WordsHold(words, catalog[..n], source)
    requires updated == if SourceBit(source, catalog[n].source)
      then words[catalog[n].target / 32 := WithBit(words[catalog[n].target / 32], catalog[n].target % 32)] else words
    ensures InTable(catalog[..n + 1]) && WordsHold(updated, catalog[..n + 1], source)
  {
    forall t | 0 <= t < QUEST_BITS ensures WordBit(updated[t / 32], t % 32) <==> Earned(catalog[..n + 1], source, t) {
      EarnedSnoc(catalog, source, n, t);
      if SourceBit(source, catalog[n].source) {
        OneWordChanged(words, updated, catalog[n].target, t);
      }
    }
    EarnedSnoc(catalog, source, n, 0);
  }

  /** Collects the completed quests of the source into the target's words. */
  method CollectWords(source: Bytes, catalog: seq<Quest>) returns (words: seq<bv32>)
    requires InTable(catalog) && |source| == PAYLOAD_SIZE
    ensures |words| == QUEST_COMPLETION_WORDS && WordsHold(words, catalog, source)
  {
    words := seq(QUEST_COMPLETION_WORDS, i => 0);
    forall t | 0 <= t < QUEST_BITS ensures !WordBit(words[t / 32], t % 32) {
      NoBit(t % 32);
    }
    for n := 0 to |catalog|
      invariant |words| == QUEST_COMPLETION_WORDS
      invariant InTable(catalog[..n]) && WordsHold(words, catalog[..n], source)
    {
      var quest := catalog[n];
      ghost var before := words;
      var word := LittleWord(source, QUEST_COMPLETION_START + quest.source / 32 * 4);
      if WordBit(word, quest.source % 32) {
        words := words[quest.target / 32 := WithBit(words[quest.target / 32], quest.target % 32)];
      }
      NextQuest(before, words, catalog, source, n);
    }
    assert catalog[..|catalog|] == catalog;
  }

  method PutWord(payload: array<Byte>, at: nat, w: bv32)
    requires at + 4 <= payload.Length
    modifies payload
    ensures BigWord(payload[..], at) == w
    ensures forall i :: 0 <= i < payload.Length && !(at <= i < at + 4) ==> payload[i] == old(payload[i])
  {
    var bytes := BigEndian32(w);
    payload[at], payload[at + 1], payload[at + 2], payload[at + 3] := bytes[0], bytes[1], bytes[2], bytes[3];
    BytesOfWord32(w);
  }

  /** The words in the table of `payload` below index `n`. */
  predicate TableHolds(payload: Bytes, words: seq<bv32>, n: nat)
    requires |payload| == PAYLOAD_SIZE && n <= |words| == QUEST_COMPLETION_WORDS
  {
    forall k :: 0 <= k < n ==> BigWord(payload, QUEST_COMPLETION_START + k * 4) == words[k]
  }

  method PutWords(payload: array<Byte>, words: seq<bv32>)
    requires payload.Length == PAYLOAD_SIZE && |words| == QUEST_COMPLETION_WORDS
    modifies payload
    ensures TableHolds(payload[..], words, QUEST_COMPLETION_WORDS)
    ensures forall i :: 0 <= i < PAYLOAD_SIZE && !InQuestTable(i) ==> payload[i] == old(payload[i])
  {
    for index := 0 to QUEST_COMPLETION_WORDS
      invariant TableHolds(payload[..], words, index)
      invariant forall i :: 0 <= i < PAYLOAD_SIZE && !InQuestTable(i) ==> payload[i] == old(payload[i])
    {
      PutWord(payload, QUEST_COMPLETION_START + index * 4, words[index]);
    }
  }

  lemma WordsAreRemapped(catalog: seq<Quest>, source: Bytes, before: Bytes, after: Bytes, words: seq<bv32>)
    requires InTable(catalog) && |source| == PAYLOAD_SIZE && |before| == PAYLOAD_SIZE && |after| == PAYLOAD_SIZE
    requires |words| == QUEST_COMPLETION_WORDS && WordsHold(words, catalog, source)
    requires TableHolds(after, words, QUEST_COMPLETION_WORDS)
    requires forall i :: 0 <= i < PAYLOAD_SIZE && !InQuestTable(i) ==> after[i] == before[i]
    ensures Remapped(catalog, source, before, after)
  {
  }

  /** Rewrites the completion table of the target from the one of the source. */
  method RemapQuestCompletion(source: Bytes, target: array<Byte>, catalog: seq<Quest>) returns (ok: bool)
    requires InTable(catalog)
    modifies target
    ensures ok <==> |source| == PAYLOAD_SIZE && target.Length == PAYLOAD_SIZE
    ensures !ok ==> target[..] == old(target[..])
    ensures ok ==> Remapped(catalog, source, old(target[..]), target[..])
    ensures ok ==> TableRemapped(catalog, source, old(target[..]), target[..])
  {
    if |source| != PAYLOAD_SIZE || target.Length != PAYLOAD_SIZE {
      return false;
    }
    ghost var before := target[..];
    var words := CollectWords(source, catalog);
    PutWords(target, words);
    WordsAreRemapped(catalog, source, before, target[..], words);
    RemapMeaning(catalog, source, before, target[..]);
    return true;
  }

  // ---------------------------------------------------------------- progress

  /** Which quests of the catalog a save has completed; None for a file that is not a character slot. */
  function QuestProgressOf(save: Bytes, catalog: seq<Quest>): Option<seq<bool>>
    requires InTable(catalog)
  {
    if IsJp3dsSlot(save) then
      Some(seq(|catalog|, k requires 0 <= k < |catalog| => SourceBit(save[JP_3DS_HEADER_SIZE..], catalog[k].source)))
    else if IsJpCemuSlot(save) then
      Some(seq(|catalog|, k requires 0 <= k < |catalog| => TargetBit(save[CEMU_HEADER_SIZE..], catalog[k].target)))
    else None
  }

  /** What a save shows, quest by quest, read from its bytes. */
  lemma ProgressBits(save: Bytes, catalog: seq<Quest>)
    requires InTable(catalog) && (IsJp3dsSlot(save) || IsJpCemuSlot(save))
    ensures var r := QuestProgressOf(save, catalog);
      && r.Some? && |r.value| == |catalog|
      && (IsJp3dsSlot(save) ==> forall k :: 0 <= k < |catalog| ==>
        r.value[k] == ByteBit(save[4 + 0x6E5C + catalog[k].source / 8], catalog[k].source % 8))
      && (IsJpCemuSlot(save) ==> forall k :: 0 <= k < |catalog| ==>
        r.value[k] == ByteBit(save[40 + 0x6E5C + catalog[k].target / 32 * 4 + 3 - catalog[k].target % 32 / 8],
          catalog[k].target % 8))
  {
    if IsJp3dsSlot(save) {
      forall k | 0 <= k < |catalog|
        ensures QuestProgressOf(save, catalog).value[k] ==
          ByteBit(save[4 + 0x6E5C + catalog[k].source / 8], catalog[k].source % 8)
      {
        TableBits(save[4..], catalog[k].source);
      }
    } else {
      forall k | 0 <= k < |catalog|
        ensures QuestProgressOf(save, catalog).value[k] ==
          ByteBit(save[40 + 0x6E5C + catalog[k].target / 32 * 4 + 3 - catalog[k].target % 32 / 8],
            catalog[k].target % 8)
      {
        TableBits(save[40..], catalog[k].target);
      }
    }
  }

  /** Quests that share a target bit agree on completion in the source. */
  predicate SharedBitsAgree(catalog: seq<Quest>, source: Bytes)
    requires InTable(catalog) && |source| == PAYLOAD_SIZE
  {
    forall j, k :: 0 <= j < |catalog| && 0 <= k < |catalog| && catalog[j].target == catalog[k].target ==>
      SourceBit(source, catalog[j].source) == SourceBit(source, catalog[k].source)
  }

  lemma OneFormat(converted: Bytes)
    requires IsJpCemuSlot(converted)
    ensures !IsJp3dsSlot(converted) && |converted[CEMU_HEADER_SIZE..]| == PAYLOAD_SIZE
  {
  }

  /** The save with the remapped table shows the same progress as the original, exactly when quests that share a
      target bit agree; a catalog with distinct targets always does. */
  lemma ProgressSurvives(original: Bytes, converted: Bytes, catalog: seq<Quest>, before: Bytes)
    requires InTable(catalog) && IsJp3dsSlot(original) && IsJpCemuSlot(converted) && |before| == PAYLOAD_SIZE
    requires Remapped(catalog, original[JP_3DS_HEADER_SIZE..], before, converted[CEMU_HEADER_SIZE..])
    ensures QuestProgressOf(converted, catalog) == QuestProgressOf(original, catalog) <==>
      SharedBitsAgree(catalog, original[JP_3DS_HEADER_SIZE..])
    ensures DistinctTargets(catalog) ==> SharedBitsAgree(catalog, original[JP_3DS_HEADER_SIZE..])
  {
    var source, target := original[JP_3DS_HEADER_SIZE..], converted[CEMU_HEADER_SIZE..];
    OneFormat(converted);
    var was, now := QuestProgressOf(original, catalog).value, QuestProgressOf(converted, catalog).value;
    forall k | 0 <= k < |catalog|
      ensures was[k] == SourceBit(source, catalog[k].source) && now[k] == Earned(catalog, source, catalog[k].target)
    {
      assert TargetBit(target, catalog[k].target) <==> Earned(catalog, source, catalog[k].target);
    }
    if SharedBitsAgree(catalog, source) {
      forall k | 0 <= k < |catalog| ensures was[k] == now[k] {
        if now[k] {
          var j :| 0 <= j < |catalog| && catalog[j].target == catalog[k].target && SourceBit(source, catalog[j].source);
        }
      }
      assert was == now;
    } else {
      var j, k :| 0 <= j < |catalog| && 0 <= k < |catalog| && catalog[j].target == catalog[k].target
        && SourceBit(source, catalog[j].source) && !SourceBit(source, catalog[k].source);
      assert now[k] && !was[k];
    }
  }

  /** Bits no quest maps to are clear after the remap. */
  lemma UncataloguedBitsAreClear(catalog: seq<Quest>, source: Bytes, before: Bytes, after: Bytes, t: nat)
    requires InTable(catalog) && |source| == PAYLOAD_SIZE && |before| == PAYLOAD_SIZE && |after| == PAYLOAD_SIZE
    requires Remapped(catalog, source, before, after) && t < QUEST_BITS
    requires forall k :: 0 <= k < |catalog| ==> catalog[k].target != t
    ensures !TargetBit(after, t)
  {
  }
}
