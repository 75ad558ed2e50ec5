/** Canonical byte strings that are hashed into fingerprints, and why a fingerprint determines
    what it was computed from. */
module Canonical {
  import opened Base

  // ---------------------------------------------------------------- prefix codes

  /** The concatenation of the codes of `xs`, in order. */
  function Concat<T>(code: T -> Bytes, xs: seq<T>): Bytes {
    if |xs| == 0 then [] else code(xs[0]) + Concat(code, xs[1..])
  }

  /** Codes of acceptable values are never empty, and where one code ends can be told from the
      bytes alone: whatever follows, two equal byte strings start with the same value. */
  ghost predicate PrefixCode<T(!new)>(code: T -> Bytes, ok: T -> bool) {
    && (forall x :: ok(x) ==> |code(x)| > 0)
    && forall x, y, u, v :: ok(x) && ok(y) && code(x) + u == code(y) + v ==> x == y
  }

  lemma ConcatEmpty<T(!new)>(code: T -> Bytes, ok: T -> bool, xs: seq<T>)
    requires PrefixCode(code, ok)
    requires forall i :: 0 <= i < |xs| ==> ok(xs[i])
    ensures |Concat(code, xs)| == 0 <==> |xs| == 0
  {
    if |xs| > 0 {
      assert |code(xs[0])| > 0;
    }
  }

  lemma {:induction false} ConcatDecodes<T(!new)>(code: T -> Bytes, ok: T -> bool, xs: seq<T>, ys: seq<T>)
    requires PrefixCode(code, ok)
    requires forall i :: 0 <= i < |xs| ==> ok(xs[i])
    requires forall i :: 0 <= i < |ys| ==> ok(ys[i])
    requires Concat(code, xs) == Concat(code, ys)
    ensures xs == ys
  {
    ConcatEmpty(code, ok, xs);
    ConcatEmpty(code, ok, ys);
    if |xs| == 0 {
    } else {
      var u, v := Concat(code, xs[1..]), Concat(code, ys[1..]);
      assert code(xs[0]) + u == code(ys[0]) + v;
      var c := code(xs[0]);
      assert u == (c + u)[|c|..] && v == (c + v)[|c|..];
      ConcatDecodes(code, ok, xs[1..], ys[1..]);
      assert xs == [xs[0]] + xs[1..] && ys == [ys[0]] + ys[1..];
    }
  }

  lemma {:induction false} ConcatSnoc<T>(code: T -> Bytes, xs: seq<T>, x: T)
    ensures Concat(code, xs + [x]) == Concat(code, xs) + code(x)
  {
    if |xs| == 0 {
      assert Concat(code, [x]) == code(x) + Concat(code, [x][1..]);
    } else {
      ConcatSnoc(code, xs[1..], x);
      assert (xs + [x])[1..] == xs[1..] + [x];
    }
  }

  // ---------------------------------------------------------------- the four codes in use

  const U64_LIMIT: nat := 0x1_0000_0000_0000_0000
  const HEX_DIGEST_SIZE: nat := 64

  function Nibble(n: nat): (b: Byte)
    requires n < 16
    ensures b < 16
  {
    if n < 8 then
      if n == 0 then 0 else if n == 1 then 1 else if n == 2 then 2 else if n == 3 then 3
      else if n == 4 then 4 else if n == 5 then 5 else if n == 6 then 6 else 7
    else
      if n == 8 then 8 else if n == 9 then 9 else if n == 10 then 10 else if n == 11 then 11
      else if n == 12 then 12 else if n == 13 then 13 else if n == 14 then 14 else 15
  }

  /** The byte of value `n`, from its two hex digits. */
  function Octet(n: nat): Byte
    requires n < 256
  {
    (Nibble(n / 16) << 4) | Nibble(n % 16)
  }

  lemma NibbleInjective(m: nat, n: nat)
    requires m < 16 && n < 16 && Nibble(m) == Nibble(n)
    ensures m == n
  {
  }

  lemma JoinInjective(a: Byte, b: Byte, c: Byte, d: Byte)
    requires a < 16 && b < 16 && c < 16 && d < 16 && (a << 4) | b == (c << 4) | d
    ensures a == c && b == d
  {
  }

  lemma OctetInjective(m: nat, n: nat)
    requires m < 256 && n < 256 && Octet(m) == Octet(n)
    ensures m == n
  {
    JoinInjective(Nibble(m / 16), Nibble(m % 16), Nibble(n / 16), Nibble(n % 16));
    NibbleInjective(m / 16, n / 16);
    NibbleInjective(m % 16, n % 16);
  }

  function BigEndian(n: nat, width: nat): (r: Bytes)
    ensures |r| == width
  {
    if width == 0 then [] else BigEndian(n / 256, width - 1) + [Octet(n % 256)]
  }

  function Power256(width: nat): (r: nat)
    ensures r > 0
  {
    if width == 0 then 1 else 256 * Power256(width - 1)
  }

  lemma {:induction false} BigEndianInjective(m: nat, n: nat, width: nat)
    requires m < Power256(width) && n < Power256(width)
    requires BigEndian(m, width) == BigEndian(n, width)
    ensures m == n
  {
    if width == 0 {
    } else {
      var p, q := BigEndian(m / 256, width - 1), BigEndian(n / 256, width - 1);
      assert BigEndian(m, width)[..width - 1] == p && BigEndian(n, width)[..width - 1] == q;
      assert BigEndian(m, width)[width - 1] == BigEndian(n, width)[width - 1];
      OctetInjective(m % 256, n % 256);
      BigEndianInjective(m / 256, n / 256, width - 1);
    }
  }

  lemma Power256Of8()
    ensures Power256(8) == U64_LIMIT
  {
    assert Power256(4) == 0x1_0000_0000;
  }

  predicate NulFree(b: Bytes) {
    forall i :: 0 <= i < |b| ==> b[i] != 0
  }

  /** A NUL-terminated item. */
  function Terminated(item: Bytes): Bytes { item + [0] }

  /** An item behind its own length. */
  function LengthPrefixed(item: Bytes): Bytes { BigEndian(|item|, 8) + item }

  predicate FitsLength(item: Bytes) { |item| < U64_LIMIT }

  /** A component name and the hex digest of its contents. */
  datatype ComponentEntry = ComponentEntry(name: Bytes, digest: Bytes)

  function EntryCode(e: ComponentEntry): Bytes { LengthPrefixed(e.name) + e.digest }

  predicate EntryOk(e: ComponentEntry) { FitsLength(e.name) && |e.digest| == HEX_DIGEST_SIZE }

  /** A component name and either the hex digest of its contents or its absence. */
  datatype StateEntry = StateEntry(name: Bytes, digest: Option<Bytes>)

  function StateTag(digest: Option<Bytes>): Bytes {
    match digest case Some(d) => [1] + d case None => [0]
  }

  function StateCode(e: StateEntry): Bytes { LengthPrefixed(e.name) + StateTag(e.digest) }

  predicate StateOk(e: StateEntry) {
    FitsLength(e.name) && (e.digest.Some? ==> |e.digest.value| == HEX_DIGEST_SIZE)
  }

  lemma TerminatedIsPrefixCode()
    ensures PrefixCode(Terminated, NulFree)
  {
    forall x, y, u, v | NulFree(x) && NulFree(y) && Terminated(x) + u == Terminated(y) + v
      ensures x == y
    {
      var s, t := Terminated(x) + u, Terminated(y) + v;
      assert forall i :: 0 <= i < |x| ==> s[i] == x[i] && s[i] != 0;
      assert forall i :: 0 <= i < |y| ==> t[i] == y[i] && t[i] != 0;
      assert s[|x|] == 0 && t[|y|] == 0;
    }
  }

  /** Reading a length-prefixed item off the front leaves the same item and the same rest. */
  lemma PrefixedFront(x: Bytes, y: Bytes, u: Bytes, v: Bytes)
    requires FitsLength(x) && FitsLength(y)
    requires LengthPrefixed(x) + u == LengthPrefixed(y) + v
    ensures x == y && u == v
  {
    var s, t := LengthPrefixed(x) + u, LengthPrefixed(y) + v;
    assert s[..8] == BigEndian(|x|, 8) && t[..8] == BigEndian(|y|, 8);
    Power256Of8();
    BigEndianInjective(|x|, |y|, 8);
    assert s[8..8 + |x|] == x && t[8..8 + |y|] == y;
    assert s[8 + |x|..] == u && t[8 + |y|..] == v;
  }

  lemma LengthPrefixedIsPrefixCode()
    ensures PrefixCode(LengthPrefixed, FitsLength)
  {
    forall x, y, u, v | FitsLength(x) && FitsLength(y) && LengthPrefixed(x) + u == LengthPrefixed(y) + v
      ensures x == y
    {
      PrefixedFront(x, y, u, v);
    }
  }

  lemma EntryIsPrefixCode()
    ensures PrefixCode(EntryCode, EntryOk)
  {
    forall x, y, u, v | EntryOk(x) && EntryOk(y) && EntryCode(x) + u == EntryCode(y) + v
      ensures x == y
    {
      assert EntryCode(x) + u == LengthPrefixed(x.name) + (x.digest + u);
      assert EntryCode(y) + v == LengthPrefixed(y.name) + (y.digest + v);
      PrefixedFront(x.name, y.name, x.digest + u, y.digest + v);
      assert (x.digest + u)[..HEX_DIGEST_SIZE] == x.digest && (y.digest + v)[..HEX_DIGEST_SIZE] == y.digest;
    }
  }

  lemma StateTagFront(x: Option<Bytes>, y: Option<Bytes>, u: Bytes, v: Bytes)
    requires x.Some? ==> |x.value| == HEX_DIGEST_SIZE
    requires y.Some? ==> |y.value| == HEX_DIGEST_SIZE
    requires StateTag(x) + u == StateTag(y) + v
    ensures x == y
  {
    var s, t := StateTag(x) + u, StateTag(y) + v;
    assert s[0] == t[0];
    if x.Some? {
      assert s[1..1 + HEX_DIGEST_SIZE] == x.value;
      assert t[1..1 + HEX_DIGEST_SIZE] == y.value;
    }
  }

  lemma Reassociate(a: Bytes, b: Bytes, c: Bytes)
    ensures a + b + c == a + (b + c)
  {
  }

  lemma StateIsPrefixCode()
    ensures PrefixCode(StateCode, StateOk)
  {
    forall x, y, u, v | StateOk(x) && StateOk(y) && StateCode(x) + u == StateCode(y) + v
      ensures x == y
    {
      Reassociate(LengthPrefixed(x.name), StateTag(x.digest), u);
      Reassociate(LengthPrefixed(y.name), StateTag(y.digest), v);
      PrefixedFront(x.name, y.name, StateTag(x.digest) + u, StateTag(y.digest) + v);
      StateTagFront(x.digest, y.digest, u, v);
    }
  }

  // ---------------------------------------------------------------- ordered maps

  /** Byte-wise order of names. */
  predicate NameLess(a: Bytes, b: Bytes) {
    if |b| == 0 then false
    else if |a| == 0 then true
    else a[0] < b[0] || (a[0] == b[0] && NameLess(a[1..], b[1..]))
  }

  lemma {:induction false} NameLessAsymmetric(a: Bytes, b: Bytes)
    requires NameLess(a, b)
    ensures !NameLess(b, a)
  {
    if |a| > 0 && a[0] == b[0] {
      NameLessAsymmetric(a[1..], b[1..]);
    }
  }

  /** An ordered map, as the sequence its iteration yields: names strictly ascending. */
  ghost predicate Ascending<V>(entries: seq<(Bytes, V)>) {
    forall i, j :: 0 <= i < j < |entries| ==> NameLess(entries[i].0, entries[j].0)
  }

  ghost function Bindings<V>(entries: seq<(Bytes, V)>): set<(Bytes, V)> {
    set e | e in entries
  }

  lemma NoBindings<V>(a: seq<(Bytes, V)>)
    ensures Bindings(a) == {} <==> a == []
  {
    if a != [] {
      assert a[0] in Bindings(a);
    }
  }

  lemma RestOfBindings<V>(a: seq<(Bytes, V)>)
    requires Ascending(a) && |a| > 0
    ensures Bindings(a[1..]) == Bindings(a) - {a[0]}
  {
    forall k | 1 <= k < |a| ensures a[k] != a[0] {
      if a[k] == a[0] {
        NameLessAsymmetric(a[0].0, a[k].0);
      }
    }
    forall e | e in Bindings(a) && e != a[0] ensures e in Bindings(a[1..]) {
      var k :| 0 <= k < |a| && a[k] == e;
      assert a[1..][k - 1] == e;
    }
  }

  /** An ordered map has one iteration order only. */
  lemma {:induction false} IterationIsDetermined<V>(a: seq<(Bytes, V)>, b: seq<(Bytes, V)>)
    requires Ascending(a) && Ascending(b) && Bindings(a) == Bindings(b)
    ensures a == b
  {
    NoBindings(a);
    NoBindings(b);
    if |a| == 0 {
    } else {
      assert a[0] in Bindings(b) && b[0] in Bindings(a);
      var j :| 0 <= j < |b| && b[j] == a[0];
      var i :| 0 <= i < |a| && a[i] == b[0];
      if i > 0 && j > 0 {
        NameLessAsymmetric(a[0].0, a[i].0);
      }
      assert a[0] == b[0];
      RestOfBindings(a);
      RestOfBindings(b);
      IterationIsDetermined(a[1..], b[1..]);
      assert a == [a[0]] + a[1..] && b == [b[0]] + b[1..];
    }
  }

  // ---------------------------------------------------------------- fingerprints

  function AsciiBytes(s: string): (r: Bytes)
    ensures |r| == |s|
  {
    seq(|s|, i requires 0 <= i < |s| => (s[i] as int % 256) as Byte)
  }

  function SnapshotDomain(): Bytes { AsciiBytes("mh-save-sync/snapshot-id/v1") + [0] }
  function ComponentSetDomain(): Bytes { AsciiBytes("mh3g-compatibility-component-set-v1") + [0] }
  function OutputStateDomain(): Bytes { AsciiBytes("mh3g-compatibility-output-state-v1") + [0] }

  function SnapshotBytes(parts: seq<Bytes>): Bytes {
    SnapshotDomain() + Concat(LengthPrefixed, parts)
  }

  /** `sha` stands for the hex digest; only its width and its injectivity on named strings matter. */
  function Entries(sha: Bytes -> Bytes, components: seq<(Bytes, Bytes)>): seq<ComponentEntry> {
    seq(|components|, i requires 0 <= i < |components| => ComponentEntry(components[i].0, sha(components[i].1)))
  }

  function ComponentSetBytes(sha: Bytes -> Bytes, components: seq<(Bytes, Bytes)>): Bytes {
    ComponentSetDomain() + Concat(EntryCode, Entries(sha, components))
  }

  function StateEntries(sha: Bytes -> Bytes, components: seq<(Bytes, Option<Bytes>)>): seq<StateEntry> {
    seq(|components|, i requires 0 <= i < |components| =>
      StateEntry(components[i].0, match components[i].1 case Some(b) => Some(sha(b)) case None => None))
  }

  function OutputStateBytes(sha: Bytes -> Bytes, components: seq<(Bytes, Option<Bytes>)>): Bytes {
    OutputStateDomain() + Concat(StateCode, StateEntries(sha, components))
  }

  method SnapshotIdFromParts(sha: Bytes -> Bytes, parts: seq<Bytes>) returns (id: Bytes)
    ensures id == sha(SnapshotBytes(parts))
  {
    var fed := SnapshotDomain();
    for i := 0 to |parts|
      invariant fed == SnapshotBytes(parts[..i])
    {
      ConcatSnoc(LengthPrefixed, parts[..i], parts[i]);
      assert parts[..i + 1] == parts[..i] + [parts[i]];
      assert SnapshotBytes(parts[..i + 1]) == fed + BigEndian(|parts[i]|, 8) + parts[i];
      fed := fed + BigEndian(|parts[i]|, 8);
      fed := fed + parts[i];
    }
    assert parts[..|parts|] == parts;
    id := sha(fed);
  }

  method ComponentSetSha256(sha: Bytes -> Bytes, components: seq<(Bytes, Bytes)>) returns (digest: Bytes)
    ensures digest == sha(ComponentSetBytes(sha, components))
  {
    var fed := ComponentSetDomain();
    ghost var entries := Entries(sha, components);
    for i := 0 to |components|
      invariant fed == ComponentSetDomain() + Concat(EntryCode, entries[..i])
    {
      var (name, bytes) := components[i];
      ConcatSnoc(EntryCode, entries[..i], entries[i]);
      assert entries[..i + 1] == entries[..i] + [entries[i]];
      Reassociate(ComponentSetDomain(), Concat(EntryCode, entries[..i]), EntryCode(entries[i]));
      Reassociate(fed, BigEndian(|name|, 8), name);
      Reassociate(fed, LengthPrefixed(name), sha(bytes));
      fed := fed + BigEndian(|name|, 8);
      fed := fed + name;
      fed := fed + sha(bytes);
    }
    assert entries[..|components|] == entries;
    digest := sha(fed);
  }

  /** One round of the output-state digest: the name behind its length, then the tagged state. */
  method FeedState(sha: Bytes -> Bytes, before: Bytes, name: Bytes, state: Option<Bytes>) returns (fed: Bytes)
    ensures fed == before + StateCode(StateEntry(name, match state case Some(b) => Some(sha(b)) case None => None))
  {
    fed := before + BigEndian(|name|, 8);
    fed := fed + name;
    Reassociate(before, BigEndian(|name|, 8), name);
    match state {
      case Some(bytes) =>
        fed := fed + [1];
        fed := fed + sha(bytes);
        Reassociate(before + LengthPrefixed(name), [1], sha(bytes));
        Reassociate(before, LengthPrefixed(name), [1] + sha(bytes));
      case None =>
        fed := fed + [0];
        Reassociate(before, LengthPrefixed(name), [0]);
    }
  }

  method OutputStateSha256(sha: Bytes -> Bytes, components: seq<(Bytes, Option<Bytes>)>) returns (digest: Bytes)
    ensures digest == sha(OutputStateBytes(sha, components))
  {
    var fed := OutputStateDomain();
    ghost var entries := StateEntries(sha, components);
    for i := 0 to |components|
      invariant fed == OutputStateDomain() + Concat(StateCode, entries[..i])
    {
      var (name, state) := components[i];
      ConcatSnoc(StateCode, entries[..i], entries[i]);
      assert entries[..i + 1] == entries[..i] + [entries[i]];
      Reassociate(OutputStateDomain(), Concat(StateCode, entries[..i]), StateCode(entries[i]));
      fed := FeedState(sha, fed, name, state);
    }
    assert entries[..|components|] == entries;
    digest := sha(fed);
  }

  // ---------------------------------------------------------------- equal digests, equal contents

  ghost predicate InjectiveOn(sha: Bytes -> Bytes, hashed: set<Bytes>) {
    forall x, y :: x in hashed && y in hashed && sha(x) == sha(y) ==> x == y
  }

  ghost predicate HexDigests(sha: Bytes -> Bytes) {
    forall x :: |sha(x)| == HEX_DIGEST_SIZE
  }

  lemma SameTail(head: Bytes, u: Bytes, v: Bytes)
    requires head + u == head + v
    ensures u == v
  {
    assert (head + u)[|head|..] == u && (head + v)[|head|..] == v;
  }

  /** A snapshot id determines the list of parts it was made from. */
  lemma SnapshotIdDeterminesParts(sha: Bytes -> Bytes, a: seq<Bytes>, b: seq<Bytes>)
    requires forall i :: 0 <= i < |a| ==> FitsLength(a[i])
    requires forall i :: 0 <= i < |b| ==> FitsLength(b[i])
    requires InjectiveOn(sha, {SnapshotBytes(a), SnapshotBytes(b)})
    ensures sha(SnapshotBytes(a)) == sha(SnapshotBytes(b)) <==> a == b
  {
    if sha(SnapshotBytes(a)) == sha(SnapshotBytes(b)) {
      SameTail(SnapshotDomain(), Concat(LengthPrefixed, a), Concat(LengthPrefixed, b));
      LengthPrefixedIsPrefixCode();
      ConcatDecodes(LengthPrefixed, FitsLength, a, b);
    }
  }

  ghost function HashedContents(components: seq<(Bytes, Bytes)>): set<Bytes> {
    set i | 0 <= i < |components| :: components[i].1
  }

  /** The component-set fingerprint determines the map from names to contents, and nothing else
      enters it. */
  lemma ComponentSetDigestDeterminesMap(sha: Bytes -> Bytes, a: seq<(Bytes, Bytes)>, b: seq<(Bytes, Bytes)>)
    requires Ascending(a) && Ascending(b) && HexDigests(sha)
    requires forall i :: 0 <= i < |a| ==> FitsLength(a[i].0)
    requires forall i :: 0 <= i < |b| ==> FitsLength(b[i].0)
    requires InjectiveOn(sha,
        HashedContents(a) + HashedContents(b) + {ComponentSetBytes(sha, a), ComponentSetBytes(sha, b)})
    ensures sha(ComponentSetBytes(sha, a)) == sha(ComponentSetBytes(sha, b)) <==> Bindings(a) == Bindings(b)
  {
    if Bindings(a) == Bindings(b) {
      IterationIsDetermined(a, b);
    }
    if sha(ComponentSetBytes(sha, a)) == sha(ComponentSetBytes(sha, b)) {
      var ea, eb := Entries(sha, a), Entries(sha, b);
      SameTail(ComponentSetDomain(), Concat(EntryCode, ea), Concat(EntryCode, eb));
      EntryIsPrefixCode();
      ConcatDecodes(EntryCode, EntryOk, ea, eb);
      forall i | 0 <= i < |a| ensures a[i] == b[i] {
        assert ea[i] == eb[i];
        assert a[i].1 in HashedContents(a) && b[i].1 in HashedContents(b);
      }
      assert a == b;
    }
  }

  ghost function HashedStates(components: seq<(Bytes, Option<Bytes>)>): set<Bytes> {
    set i | 0 <= i < |components| && components[i].1.Some? :: components[i].1.value
  }

  lemma SameStates(sha: Bytes -> Bytes, a: seq<(Bytes, Option<Bytes>)>, b: seq<(Bytes, Option<Bytes>)>)
    requires StateEntries(sha, a) == StateEntries(sha, b)
    requires InjectiveOn(sha, HashedStates(a) + HashedStates(b))
    ensures a == b
  {
    var ea, eb := StateEntries(sha, a), StateEntries(sha, b);
    assert |a| == |ea| == |eb| == |b|;
    forall i | 0 <= i < |a| ensures a[i] == b[i] {
      assert ea[i] == eb[i];
      if a[i].1.Some? {
        assert a[i].1.value in HashedStates(a) && b[i].1.value in HashedStates(b);
      }
    }
  }

  /** The output-state fingerprint determines which components exist and what they hold. */
  lemma OutputStateDigestDeterminesMap(
      sha: Bytes -> Bytes, a: seq<(Bytes, Option<Bytes>)>, b: seq<(Bytes, Option<Bytes>)>)
    requires Ascending(a) && Ascending(b) && HexDigests(sha)
    requires forall i :: 0 <= i < |a| ==> FitsLength(a[i].0)
    requires forall i :: 0 <= i < |b| ==> FitsLength(b[i].0)
    requires InjectiveOn(sha, HashedStates(a) + HashedStates(b) + {OutputStateBytes(sha, a), OutputStateBytes(sha, b)})
    ensures sha(OutputStateBytes(sha, a)) == sha(OutputStateBytes(sha, b)) <==> Bindings(a) == Bindings(b)
  {
    if Bindings(a) == Bindings(b) {
      IterationIsDetermined(a, b);
    }
    if sha(OutputStateBytes(sha, a)) == sha(OutputStateBytes(sha, b)) {
      var ea, eb := StateEntries(sha, a), StateEntries(sha, b);
      SameTail(OutputStateDomain(), Concat(StateCode, ea), Concat(StateCode, eb));
      StateIsPrefixCode();
      ConcatDecodes(StateCode, StateOk, ea, eb);
      SameStates(sha, a, b);
    }
  }

  lemma AsciiAt(s: string, i: nat, code: Byte)
    requires i < |s| && s[i] as int % 256 == code as int
    ensures AsciiBytes(s)[i] == code
  {
  }

  lemma DomainsDiffer()
    ensures SnapshotDomain()[2] == 45 && ComponentSetDomain()[2] == 51 && OutputStateDomain()[2] == 51
    ensures ComponentSetDomain()[19] == 99 && OutputStateDomain()[19] == 111
  {
    AsciiAt("mh-save-sync/snapshot-id/v1", 2, 45);
    AsciiAt("mh3g-compatibility-component-set-v1", 2, 51);
    AsciiAt("mh3g-compatibility-component-set-v1", 19, 99);
    AsciiAt("mh3g-compatibility-output-state-v1", 2, 51);
    AsciiAt("mh3g-compatibility-output-state-v1", 19, 111);
  }

  /** Whatever is hashed, no two kinds of digest are taken of the same bytes. */
  lemma KindsNeverCollide(
      sha: Bytes -> Bytes, parts: seq<Bytes>, components: seq<(Bytes, Bytes)>, states: seq<(Bytes, Option<Bytes>)>)
    ensures SnapshotBytes(parts) != ComponentSetBytes(sha, components)
    ensures SnapshotBytes(parts) != OutputStateBytes(sha, states)
    ensures ComponentSetBytes(sha, components) != OutputStateBytes(sha, states)
  {
    DomainsDiffer();
    assert SnapshotBytes(parts)[2] == 45 && ComponentSetBytes(sha, components)[2] == 51;
    assert OutputStateBytes(sha, states)[2] == 51;
    assert ComponentSetBytes(sha, components)[19] == 99 && OutputStateBytes(sha, states)[19] == 111;
  }
}
