/** Bytes, failure-carrying results, digests and byte-range updates shared by every module. */
module Base {

  type Byte = bv8
  type Bytes = seq<Byte>

  datatype Option<+T> = None | Some(value: T)

  datatype Result<+T, +E> = Ok(value: T) | Err(error: E)

  /** SHA-256, taken to be collision free: a digest is identified by what was hashed. */
  datatype Digest = Sha256(preimage: Bytes)

  /** `b` with the bytes from `at` on replaced by `patch`. */
  function Splice(b: Bytes, at: nat, patch: Bytes): (r: Bytes)
    requires at + |patch| <= |b|
    ensures |r| == |b|
    ensures forall i :: 0 <= i < |b| ==> r[i] == if at <= i < at + |patch| then patch[i - at] else b[i]
  {
    b[..at] + patch + b[at + |patch|..]
  }

  /** Reading back a patch, and reading a range the patch does not touch. */
  lemma SpliceRange(b: Bytes, at: nat, patch: Bytes, lo: nat, hi: nat)
    requires at + |patch| <= |b|
    requires lo <= hi <= |b|
    requires hi <= at || at + |patch| <= lo || (lo == at && hi == at + |patch|)
    ensures Splice(b, at, patch)[lo..hi] == if lo == at && hi == at + |patch| then patch else b[lo..hi]
  {
    var r := Splice(b, at, patch);
    if lo == at && hi == at + |patch| {
      assert r[lo..hi] == patch;
    } else {
      assert r[lo..hi] == b[lo..hi];
    }
  }

  predicate AllZero(b: Bytes) {
    forall i :: 0 <= i < |b| ==> b[i] == 0
  }

  predicate Distinct<T(==)>(s: seq<T>) {
    forall i, j :: 0 <= i < j < |s| ==> s[i] != s[j]
  }

  /** A list without repetition is as long as the set of its members is large. */
  lemma {:induction false} DistinctCount<T>(s: seq<T>, members: set<T>)
    requires Distinct(s)
    requires forall x :: x in s <==> x in members
    ensures |s| == |members|
  {
    if |s| == 0 {
      assert members == {};
    } else {
      var n := |s| - 1;
      assert s[n] in s;
      forall x ensures x in s[..n] <==> x in members - {s[n]} {
        assert s == s[..n] + [s[n]];
      }
      DistinctCount(s[..n], members - {s[n]});
    }
  }

  // ---------------------------------------------------------------- filtering lists

  /** The values `f` yields along `xs`, in order. */
  function FilterMap<T, U>(f: T -> Option<U>, xs: seq<T>): (r: seq<U>)
    ensures |r| <= |xs|
  {
    if |xs| == 0 then []
    else
      var before := FilterMap(f, xs[..|xs| - 1]);
      match f(xs[|xs| - 1]) case Some(u) => before + [u] case None => before
  }

  ghost function SomeValues<T, U>(f: T -> Option<U>, xs: seq<T>): set<U> {
    set i | 0 <= i < |xs| && f(xs[i]).Some? :: f(xs[i]).value
  }

  lemma SomeValuesSnoc<T, U>(f: T -> Option<U>, xs: seq<T>, k: nat)
    requires k < |xs|
    ensures SomeValues(f, xs[..k + 1]) == SomeValues(f, xs[..k]) + (if f(xs[k]).Some? then {f(xs[k]).value} else {})
  {
    var a, b := xs[..k + 1], xs[..k];
    forall x | x in SomeValues(f, b) ensures x in SomeValues(f, a) {
      var i :| 0 <= i < |b| && f(b[i]).Some? && f(b[i]).value == x;
      assert a[i] == b[i];
    }
    assert a[k] == xs[k];
  }

  lemma {:induction false} FilterMapMembers<T, U>(f: T -> Option<U>, xs: seq<T>)
    ensures forall k :: 0 <= k < |FilterMap(f, xs)| ==> FilterMap(f, xs)[k] in SomeValues(f, xs)
    ensures forall u :: u in FilterMap(f, xs) <==> u in SomeValues(f, xs)
  {
    if |xs| == 0 {
    } else {
      var n := |xs| - 1;
      FilterMapMembers(f, xs[..n]);
      SomeValuesSnoc(f, xs, n);
      assert xs[..n + 1] == xs;
    }
  }

  lemma {:induction false} FilterMapDistinct<T, U>(f: T -> Option<U>, xs: seq<T>)
    requires forall i, j :: 0 <= i < j < |xs| && f(xs[i]).Some? && f(xs[j]).Some? ==> f(xs[i]).value != f(xs[j]).value
    ensures Distinct(FilterMap(f, xs))
  {
    if |xs| == 0 {
    } else {
      var n := |xs| - 1;
      var before := FilterMap(f, xs[..n]);
      FilterMapDistinct(f, xs[..n]);
      FilterMapMembers(f, xs[..n]);
      forall k | 0 <= k < |before| && f(xs[n]).Some? ensures before[k] != f(xs[n]).value {
        assert before[k] in SomeValues(f, xs[..n]);
        var i :| 0 <= i < n && f(xs[..n][i]).Some? && f(xs[..n][i]).value == before[k];
        assert xs[..n][i] == xs[i];
      }
    }
  }
}
