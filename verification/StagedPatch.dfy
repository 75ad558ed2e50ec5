/** Patching in two stages: the cells an old table misses first, the table's own cells later. */
module StagedPatch {
  import opened Base

  // ---------------------------------------------------------------- in-place cell transformations

  /** Cells of one width at given places, and what is done to one cell. */
  datatype Patch = Patch(place: nat -> nat, width: nat, op: Bytes -> Bytes)

  /** The first `n` cells lie one after the other inside `size` bytes, and the operation keeps their width. */
  ghost predicate Sound(p: Patch, n: nat, size: nat) {
    (forall k :: 0 <= k < n ==> p.place(k) + p.width <= size)
    && (forall j, k :: 0 <= j < k < n ==> p.place(j) + p.width <= p.place(k))
    && (forall cell :: |cell| == p.width ==> |p.op(cell)| == p.width)
  }

  predicate AllBelow(cells: seq<nat>, n: nat) { forall i :: 0 <= i < |cells| ==> cells[i] < n }

  function Cell(p: Patch, b: Bytes, k: nat): Bytes
    requires p.place(k) + p.width <= |b|
  {
    b[p.place(k)..p.place(k) + p.width]
  }

  function ApplyOne(p: Patch, b: Bytes, k: nat): (r: Bytes)
    ensures |r| == |b|
  {
    if p.place(k) + p.width <= |b| && |p.op(Cell(p, b, k))| == p.width then Splice(b, p.place(k), p.op(Cell(p, b, k)))
      else b
  }

  /** The cells are transformed in the listed order. */
  function Apply(p: Patch, b: Bytes, cells: seq<nat>): (r: Bytes)
    ensures |r| == |b|
  {
    if |cells| == 0 then b else ApplyOne(p, Apply(p, b, cells[..|cells| - 1]), cells[|cells| - 1])
  }

  predicate InCell(p: Patch, k: nat, i: nat) { p.place(k) <= i < p.place(k) + p.width }

  /** Each cell of `touched` is transformed once, from its original bytes; nothing else changes. */
  ghost predicate TransformedOnce(p: Patch, n: nat, b: Bytes, touched: seq<nat>, r: Bytes)
    requires Sound(p, n, |b|)
  {
    |r| == |b|
    && (forall k :: 0 <= k < n && k in touched ==> Cell(p, r, k) == p.op(Cell(p, b, k)))
    && (forall i :: 0 <= i < |b| && (forall k :: 0 <= k < n && k in touched ==> !InCell(p, k, i)) ==> r[i] == b[i])
  }

  lemma TransformedOnceIsUnique(p: Patch, n: nat, b: Bytes, touched: seq<nat>, r: Bytes, q: Bytes)
    requires Sound(p, n, |b|) && TransformedOnce(p, n, b, touched, r) && TransformedOnce(p, n, b, touched, q)
    ensures r == q
  {
    forall i | 0 <= i < |b| ensures r[i] == q[i] {
      if k :| 0 <= k < n && k in touched && InCell(p, k, i) {
        assert r[i] == Cell(p, r, k)[i - p.place(k)] && q[i] == Cell(p, q, k)[i - p.place(k)];
      }
    }
  }

  lemma OtherCellStays(p: Patch, n: nat, b: Bytes, k: nat, other: nat)
    requires Sound(p, n, |b|) && k < n && other < n && k != other
    ensures Cell(p, ApplyOne(p, b, k), other) == Cell(p, b, other)
  {
    SpliceRange(b, p.place(k), p.op(Cell(p, b, k)), p.place(other), p.place(other) + p.width);
  }

  lemma OwnCellChanges(p: Patch, n: nat, b: Bytes, k: nat)
    requires Sound(p, n, |b|) && k < n
    ensures Cell(p, ApplyOne(p, b, k), k) == p.op(Cell(p, b, k))
  {
    SpliceRange(b, p.place(k), p.op(Cell(p, b, k)), p.place(k), p.place(k) + p.width);
  }

  lemma CellsApart(p: Patch, n: nat, size: nat, j: nat, k: nat, i: nat)
    requires Sound(p, n, size) && j < n && k < n && j != k && InCell(p, k, i)
    ensures !InCell(p, j, i)
  {
    assert j < k || k < j;
  }

  lemma UntouchedCell(p: Patch, n: nat, b: Bytes, touched: seq<nat>, r: Bytes, k: nat)
    requires Sound(p, n, |b|) && TransformedOnce(p, n, b, touched, r)
    requires k < n && k !in touched
    ensures Cell(p, r, k) == Cell(p, b, k)
  {
    forall i | p.place(k) <= i < p.place(k) + p.width ensures r[i] == b[i] {
      forall j | 0 <= j < n && j in touched ensures !InCell(p, j, i) {
        CellsApart(p, n, |b|, j, k, i);
      }
    }
  }

  lemma SameMembersSameMeaning(p: Patch, n: nat, b: Bytes, touched: seq<nat>, other: seq<nat>, r: Bytes)
    requires Sound(p, n, |b|) && TransformedOnce(p, n, b, touched, r)
    requires forall k: nat :: k in touched <==> k in other
    ensures TransformedOnce(p, n, b, other, r)
  {
  }

  lemma OneMoreCell(p: Patch, n: nat, b: Bytes, touched: seq<nat>, last: nat, before: Bytes, all: seq<nat>)
    requires Sound(p, n, |b|) && TransformedOnce(p, n, b, touched, before)
    requires last < n && last !in touched && all == touched + [last]
    ensures TransformedOnce(p, n, b, all, ApplyOne(p, before, last))
  {
    var r := ApplyOne(p, before, last);
    UntouchedCell(p, n, b, touched, before, last);
    OwnCellChanges(p, n, before, last);
    forall k | 0 <= k < n && k in all ensures Cell(p, r, k) == p.op(Cell(p, b, k)) {
      if k != last {
        OtherCellStays(p, n, before, last, k);
      }
    }
    forall i | 0 <= i < |b| && (forall k :: 0 <= k < n && k in all ==> !InCell(p, k, i)) ensures r[i] == b[i] {
      assert last in all && !InCell(p, last, i);
    }
  }

  /** A list without repetition transforms each listed cell exactly once, in whatever order. */
  lemma {:induction false} ApplyTransformsOnce(p: Patch, n: nat, b: Bytes, cells: seq<nat>)
    requires Sound(p, n, |b|) && AllBelow(cells, n) && Distinct(cells)
    ensures TransformedOnce(p, n, b, cells, Apply(p, b, cells))
  {
    if |cells| == 0 {
    } else {
      var m := |cells| - 1;
      ApplyTransformsOnce(p, n, b, cells[..m]);
      assert cells == cells[..m] + [cells[m]];
      OneMoreCell(p, n, b, cells[..m], cells[m], Apply(p, b, cells[..m]), cells);
    }
  }

  lemma {:induction false} ApplyInTwoStages(p: Patch, b: Bytes, first: seq<nat>, second: seq<nat>)
    ensures Apply(p, Apply(p, b, first), second) == Apply(p, b, first + second)
  {
    if |second| == 0 {
      assert first + second == first;
    } else {
      var m := |second| - 1;
      ApplyInTwoStages(p, b, first, second[..m]);
      assert (first + second)[..|first + second| - 1] == first + second[..m];
    }
  }

  /** The cells below `n` the old table misses, in ascending order. */
  function Missing(known: nat -> bool, n: nat): seq<nat> {
    if n == 0 then [] else Missing(known, n - 1) + (if known(n - 1) then [] else [n - 1])
  }

  lemma {:induction false} MissingIsComplement(known: nat -> bool, n: nat)
    ensures Distinct(Missing(known, n)) && AllBelow(Missing(known, n), n)
    ensures forall k: nat :: k in Missing(known, n) <==> k < n && !known(k)
  {
    if n == 0 {
    } else {
      MissingIsComplement(known, n - 1);
    }
  }

  /** All cells below `n` in ascending order: what a direct patch runs through. */
  function Every(n: nat): (r: seq<nat>)
    ensures |r| == n && forall i :: 0 <= i < n ==> r[i] == i
  {
    seq(n, i => i)
  }

  /** The file after the missing cells below `k` have been patched. */
  function PatchedBelow(p: Patch, was: Bytes, known: nat -> bool, k: nat): Bytes { Apply(p, was, Missing(known, k)) }

  /** In what state the first stage leaves every cell, and every byte outside the cells. */
  lemma PatchedCells(p: Patch, n: nat, was: Bytes, known: nat -> bool)
    requires Sound(p, n, |was|)
    ensures var r := PatchedBelow(p, was, known, n);
      && |r| == |was|
      && (forall k :: 0 <= k < n ==> Cell(p, r, k) == if known(k) then Cell(p, was, k) else p.op(Cell(p, was, k)))
      && forall i :: 0 <= i < |was| && (forall k :: 0 <= k < n ==> !InCell(p, k, i)) ==> r[i] == was[i]
  {
    var missing, r := Missing(known, n), PatchedBelow(p, was, known, n);
    MissingIsComplement(known, n);
    ApplyTransformsOnce(p, n, was, missing);
    forall k | 0 <= k < n ensures Cell(p, r, k) == if known(k) then Cell(p, was, k) else p.op(Cell(p, was, k)) {
      if known(k) {
        UntouchedCell(p, n, was, missing, r, k);
      }
    }
  }

  /** The same for one cell, by its place. */
  lemma PatchedCellAt(p: Patch, n: nat, was: Bytes, known: nat -> bool, k: nat, at: nat)
    requires Sound(p, n, |was|) && k < n && at == p.place(k)
    ensures var r := PatchedBelow(p, was, known, n);
      && |r| == |was| && at + p.width <= |was|
      && r[at..at + p.width] == if known(k) then was[at..at + p.width] else p.op(was[at..at + p.width])
  {
    PatchedCells(p, n, was, known);
    var r := PatchedBelow(p, was, known, n);
    assert Cell(p, r, k) == if known(k) then Cell(p, was, k) else p.op(Cell(p, was, k));
  }

  /** Patching the cells an old table misses and letting the table do the rest, in any order, is the direct
      patch: every cell once, nothing else touched. */
  lemma StagedEqualsDirect(p: Patch, n: nat, b: Bytes, known: nat -> bool, order: seq<nat>)
    requires Sound(p, n, |b|)
    requires Distinct(order) && forall k: nat :: k in order <==> k < n && known(k)
    ensures Apply(p, PatchedBelow(p, b, known, n), order) == Apply(p, b, Every(n))
    ensures TransformedOnce(p, n, b, Every(n), Apply(p, b, Every(n)))
  {
    var missing := Missing(known, n);
    MissingIsComplement(known, n);
    forall i | 0 <= i < |order| ensures order[i] < n {
      assert order[i] in order;
    }
    ApplyInTwoStages(p, b, missing, order);
    forall i, j | 0 <= i < j < |missing + order| ensures (missing + order)[i] != (missing + order)[j] {
      if i < |missing| <= j {
        assert (missing + order)[i] in missing && (missing + order)[j] in order;
      }
    }
    ApplyTransformsOnce(p, n, b, missing + order);
    ApplyTransformsOnce(p, n, b, Every(n));
    forall k: nat ensures k in missing + order <==> k < n {
    }
    forall k: nat ensures k in Every(n) <==> k < n {
      if k < n { assert Every(n)[k] == k; }
    }
    SameMembersSameMeaning(p, n, b, missing + order, Every(n), Apply(p, b, missing + order));
    TransformedOnceIsUnique(p, n, b, Every(n), Apply(p, b, missing + order), Apply(p, b, Every(n)));
  }

  lemma MissingSnoc(n: nat)
    requires n > 0
    ensures Every(n) == Every(n - 1) + [n - 1]
  {
  }

  lemma {:induction false} MissingNone(n: nat)
    ensures Missing(k => false, n) == Every(n)
  {
    if n == 0 {
    } else {
      MissingNone(n - 1);
      MissingSnoc(n);
    }
  }

  /** The direct patch is the first stage against an empty table. */
  lemma DirectKnowsNone(p: Patch, n: nat, was: Bytes)
    ensures Apply(p, was, Every(n)) == PatchedBelow(p, was, k => false, n)
  {
    MissingNone(n);
  }

  /** What the loop does with cell `k`. */
  function Step(p: Patch, known: nat -> bool, now: Bytes, k: nat): Bytes {
    if known(k) then now else ApplyOne(p, now, k)
  }

  lemma PatchedBelowNext(p: Patch, was: Bytes, known: nat -> bool, k: nat)
    ensures PatchedBelow(p, was, known, k + 1) == Step(p, known, PatchedBelow(p, was, known, k), k)
  {
    var before := Missing(known, k);
    if known(k) {
      assert Missing(known, k + 1) == before;
    } else {
      assert Missing(known, k + 1)[..|before|] == before;
    }
  }

  /** The states the file goes through, cell by cell. */
  function Stages(p: Patch, was: Bytes, known: nat -> bool): nat -> Bytes {
    (k: nat) => PatchedBelow(p, was, known, k)
  }

  ghost predicate Advances(stage: nat -> Bytes, p: Patch, known: nat -> bool) {
    forall k: nat, next: nat :: next == k + 1 ==> stage(next) == Step(p, known, stage(k), k)
  }

  lemma StagesAdvance(p: Patch, was: Bytes, known: nat -> bool)
    ensures Advances(Stages(p, was, known), p, known) && Stages(p, was, known)(0) == was
  {
    forall k: nat, next: nat | next == k + 1
      ensures Stages(p, was, known)(next) == Step(p, known, Stages(p, was, known)(k), k)
    {
      PatchedBelowNext(p, was, known, k);
    }
  }
}
