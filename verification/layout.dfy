/** The cornerstone allowed-position layout and the recipient list used with
    it. With n suites in use, suite k gets one candidate offset per level
    i = 0 .. ceil(log2 n); level i is 2^i cornerstone-wide slots placed right
    after the previous level (level 0 right after the nonce), and suite k
    takes slot k mod 2^i of it. */
module Layout {
  import opened Wrappers
  import opened Seqs
  import opened Purbs

  /** Length of the nonce that opens every PURB. */
  const AeadNonceLength: nat := 12
  /** Length of an encoded cornerstone (a hidden curve25519 point). */
  const CornerstoneLength: nat := 32

  function Pow2(i: nat): (r: nat)
    ensures r >= 1
  {
    if i == 0 then 1 else 2 * Pow2(i - 1)
  }

  lemma {:induction false} Pow2Monotone(i: nat, j: nat)
    requires i <= j
    ensures Pow2(i) <= Pow2(j)
    decreases j
  {
    if i < j {
      Pow2Monotone(i, j - 1);
    }
  }

  /** ceil(log2 n), computed on integers: the least level whose 2^level slots
      are at least n. */
  function CeilLog2(n: nat): (r: nat)
    requires n >= 1
    ensures n <= Pow2(r)
    ensures r == 0 || Pow2(r - 1) < n
  {
    if n == 1 then 0 else 1 + CeilLog2((n + 1) / 2)
  }

  /** No smaller level has enough slots, so CeilLog2 is the least such level. */
  lemma {:induction false} CeilLog2Least(n: nat, j: nat)
    requires n >= 1 && n <= Pow2(j)
    ensures CeilLog2(n) <= j
  {
    var r := CeilLog2(n);
    if j < r {
      Pow2Monotone(j, r - 1);
    }
  }

  /** First byte of level i. */
  function LevelFloor(i: nat): nat {
    AeadNonceLength + (Pow2(i) - 1) * CornerstoneLength
  }

  /** Suite k's offset at level i: slot k mod 2^i of that level. */
  function Position(k: nat, i: nat): nat {
    LevelFloor(i) + (k % Pow2(i)) * CornerstoneLength
  }

  /** Suite k's candidate offsets when n suites are in use, one per level: the
      first right after the nonce, each inside its own level, and every one at
      least a whole cornerstone past the previous one. */
  function AllowedPositions(k: nat, n: nat): (ps: seq<nat>)
    requires n >= 1
    ensures |ps| == CeilLog2(n) + 1
    ensures ps[0] == AeadNonceLength
    ensures forall i :: 0 <= i < |ps| ==> LevelFloor(i) <= ps[i] && ps[i] + CornerstoneLength <= LevelFloor(i + 1)
    ensures forall i, j :: 0 <= i < j < |ps| ==> ps[i] + CornerstoneLength <= ps[j]
    ensures forall i :: 0 <= i < |ps| ==> ps[i] == Position(k, i)
  {
    PositionsLaidOut(k);
    seq(CeilLog2(n) + 1, i requires 0 <= i => Position(k, i))
  }

  /** The level facts below, for every level of one suite at once. */
  lemma PositionsLaidOut(k: nat)
    ensures Position(k, 0) == AeadNonceLength
    ensures forall i: nat :: LevelFloor(i) <= Position(k, i) && Position(k, i) + CornerstoneLength <= LevelFloor(i + 1)
    ensures forall i: nat, j: nat :: i < j ==> Position(k, i) + CornerstoneLength <= Position(k, j)
  {
    LevelZeroShared(k);
    forall i: nat
      ensures LevelFloor(i) <= Position(k, i) && Position(k, i) + CornerstoneLength <= LevelFloor(i + 1)
    {
      PositionInLevel(k, i);
    }
    forall i: nat, j: nat | i < j
      ensures Position(k, i) + CornerstoneLength <= Position(k, j)
    {
      PositionsIncreasing(k, i, j);
    }
  }

  /** Levels follow one another without gap or overlap, the first one right
      after the nonce. */
  lemma LevelsBackToBack(i: nat)
    ensures LevelFloor(0) == AeadNonceLength
    ensures LevelFloor(i + 1) == LevelFloor(i) + Pow2(i) * CornerstoneLength
  {
  }

  /** Suite k's level-i cornerstone lies wholly inside level i, at slot
      k mod 2^i, and so never in the nonce. */
  lemma PositionInLevel(k: nat, i: nat)
    ensures AeadNonceLength <= LevelFloor(i) <= Position(k, i)
    ensures Position(k, i) + CornerstoneLength <= LevelFloor(i + 1)
    ensures Position(k, i) - LevelFloor(i) == (k % Pow2(i)) * CornerstoneLength
  {
    LevelsBackToBack(i);
  }

  /** A suite's candidate offsets strictly increase with the level. */
  lemma PositionsIncreasing(k: nat, i: nat, j: nat)
    requires i < j
    ensures Position(k, i) + CornerstoneLength <= Position(k, j)
  {
    PositionInLevel(k, i);
    PositionInLevel(k, j);
    Pow2Monotone(i + 1, j);
  }

  /** Two suites' cornerstones at the same level either coincide exactly or do
      not share a byte, so a collision is always a whole-cornerstone XOR. */
  lemma SameLevelAligned(k1: nat, k2: nat, i: nat)
    ensures || Position(k1, i) == Position(k2, i)
            || Position(k1, i) + CornerstoneLength <= Position(k2, i)
            || Position(k2, i) + CornerstoneLength <= Position(k1, i)
  {
  }

  /** All suites share the single slot of level 0, right after the nonce. */
  lemma LevelZeroShared(k: nat)
    ensures Position(k, 0) == AeadNonceLength
  {
  }

  /** At the last level there are at least n slots, and each of the n suites
      has a slot of its own. */
  lemma LastLevelDistinct(n: nat, k1: nat, k2: nat)
    requires n >= 1
    requires k1 < n && k2 < n && k1 != k2
    ensures n <= Pow2(CeilLog2(n))
    ensures AllowedPositions(k1, n)[CeilLog2(n)] != AllowedPositions(k2, n)[CeilLog2(n)]
  {
    var top := CeilLog2(n);
    ModUnique(k1, Pow2(top), 0, k1);
    ModUnique(k2, Pow2(top), 0, k2);
  }

  /** The incremental computation of one suite's offsets: the level floor is
      advanced by the width of each level, as the Go loop does. */
  method SuitePositions(k: nat, n: nat) returns (ps: seq<nat>)
    requires n >= 1
    ensures ps == AllowedPositions(k, n)
  {
    var limit := CeilLog2(n) + 1;
    ps := [];
    var floor := AeadNonceLength;
    for i := 0 to limit
      invariant |ps| == i
      invariant floor == LevelFloor(i)
      invariant forall j :: 0 <= j < i ==> ps[j] == Position(k, j)
    {
      ps := ps + [floor + (k % Pow2(i)) * CornerstoneLength];
      LevelsBackToBack(i);
      floor := floor + Pow2(i) * CornerstoneLength;
    }
  }

  /** The name suffixes that tell test suites apart; they bound the number of
      suites to ten. */
  const Suffixes: seq<string> := ["", "a", "b", "c", "d", "e", "f", "g", "h", "i"]

  function SuiteName(base: string, k: nat): string
    requires k < |Suffixes|
  {
    base + Suffixes[k]
  }

  lemma SuiteNamesDistinct(base: string, j: nat, k: nat)
    requires j < |Suffixes| && k < |Suffixes| && j != k
    ensures SuiteName(base, j) != SuiteName(base, k)
  {
    assert SuiteName(base, j)[|base|..] == Suffixes[j];
    assert SuiteName(base, k)[|base|..] == Suffixes[k];
  }

  /** The names of the first k suites. */
  function SuiteNames(base: string, k: nat): set<string>
    requires k <= |Suffixes|
  {
    if k == 0 then {} else SuiteNames(base, k - 1) + {SuiteName(base, k - 1)}
  }

  /** A later suite's name is not among the first k. */
  lemma {:induction false} SuiteNameBeyond(base: string, k: nat, m: nat)
    requires k <= m < |Suffixes|
    ensures SuiteName(base, m) !in SuiteNames(base, k)
  {
    if k > 0 {
      SuiteNameBeyond(base, k - 1, m);
      SuiteNamesDistinct(base, k - 1, m);
    }
  }

  /** The first k suites have k different names. */
  lemma {:induction false} SuiteNamesCount(base: string, k: nat)
    requires k <= |Suffixes|
    ensures |SuiteNames(base, k)| == k
  {
    if k > 0 {
      SuiteNamesCount(base, k - 1);
      SuiteNameBeyond(base, k - 1, k - 1);
    }
  }

  /** A name is among the first k suites' names exactly when it is one of theirs. */
  lemma {:induction false} SuiteNamesMembers(base: string, k: nat, name: string)
    requires k <= |Suffixes|
    ensures name in SuiteNames(base, k) <==> exists j :: 0 <= j < k && name == SuiteName(base, j)
  {
    if k > 0 {
      SuiteNamesMembers(base, k - 1, name);
      if name == SuiteName(base, k - 1) {
        assert exists j :: 0 <= j < k && name == SuiteName(base, j);
      }
    }
  }

  /** The placement data of the first k of n suites, suite by suite. */
  function InfoMap(base: string, k: nat, n: nat): SuiteInfoMap
    requires k <= n <= |Suffixes|
  {
    if k == 0 then map[]
    else InfoMap(base, k - 1, n)[SuiteName(base, k - 1) := SuiteInfo(AllowedPositions(k - 1, n), CornerstoneLength)]
  }

  /** The first k suites' map has exactly their names as keys. */
  lemma {:induction false} InfoMapKeys(base: string, k: nat, n: nat)
    requires k <= n <= |Suffixes|
    ensures InfoMap(base, k, n).Keys == SuiteNames(base, k)
  {
    if k > 0 {
      InfoMapKeys(base, k - 1, n);
    }
  }

  /** Each of the first k names maps to its own suite's allowed positions. */
  lemma {:induction false} InfoMapValues(base: string, k: nat, n: nat, j: nat)
    requires j < k <= n <= |Suffixes|
    ensures SuiteName(base, j) in InfoMap(base, k, n)
    ensures InfoMap(base, k, n)[SuiteName(base, j)] == SuiteInfo(AllowedPositions(j, n), CornerstoneLength)
    decreases k
  {
    if j < k - 1 {
      InfoMapValues(base, k - 1, n, j);
      SuiteNamesDistinct(base, j, k - 1);
    }
  }

  /** createInfo: the suite map for n suites named base, base+"a", ...; each
      suite gets its allowed positions and the common cornerstone length. More
      than ten suites run off the suffix table, which fails. */
  method CreateInfo(base: string, n: nat) returns (info: Option<SuiteInfoMap>)
    ensures info.None? <==> n > |Suffixes|
    ensures info.Some? ==> n <= |Suffixes| && info.value.Keys == SuiteNames(base, n)
    ensures info.Some? ==> |info.value| == n
    ensures info.Some? ==> forall k :: 0 <= k < n ==>
      && SuiteName(base, k) in info.value
      && info.value[SuiteName(base, k)] == SuiteInfo(AllowedPositions(k, n), CornerstoneLength)
  {
    if n > |Suffixes| {
      return None;
    }
    var m: SuiteInfoMap := map[];
    for k := 0 to n
      invariant m == InfoMap(base, k, n)
    {
      var ps := SuitePositions(k, n);
      m := m[SuiteName(base, k) := SuiteInfo(ps, CornerstoneLength)];
    }
    InfoMapKeys(base, n, n);
    SuiteNamesCount(base, n);
    forall k | 0 <= k < n
      ensures SuiteName(base, k) in m && m[SuiteName(base, k)] == SuiteInfo(AllowedPositions(k, n), CornerstoneLength)
    {
      InfoMapValues(base, n, n, k);
    }
    return Some(m);
  }

  /** Euclidean division is unique: a quotient and an in-range remainder
      that rebuild x are x / m and x % m. */
  lemma ModUnique(x: int, m: int, q: int, r: int)
    requires m > 0 && 0 <= r < m && x == q * m + r
    ensures x % m == r
  {
    var d := q - x / m;
    assert x == (x / m) * m + x % m;
    assert d * m == x % m - r;
    assert d >= 1 ==> d * m >= m;
    assert d <= -1 ==> d * m <= -m;
  }

  /** The index of round i, suite j lies inside the n rounds of m suites. */
  lemma {:induction false} RoundIndexBound(i: nat, j: nat, m: nat, n: nat)
    requires i < n && j < m
    ensures i * m + j < n * m
    decreases n
  {
    assert n * m == (n - 1) * m + m;
    if i + 1 < n {
      RoundIndexBound(i, j, m, n - 1);
    }
  }

  /** The t-th recipient of createDecoders: suite order[t mod |order|], key pair keys[t]. */
  predicate GeneratedAt(r: Recipient, t: nat, order: seq<string>, keys: seq<KeyPair>) {
    && 0 < |order|
    && t < |keys|
    && r == Recipient(order[t % |order|], keys[t].public, Some(keys[t].private))
  }

  /** createDecoders: n recipients per suite, generated round by round, each
      round visiting the suites in `order` (Go's map iteration order). keys
      are the freshly generated key pairs, in generation order. */
  method CreateDecoders(n: nat, si: SuiteInfoMap, order: seq<string>, keys: seq<KeyPair>) returns (decs: seq<Recipient>)
    requires |order| == |si|
    requires forall name :: name in order <==> name in si
    requires |keys| == n * |order|
    ensures |decs| == n * |si|
    ensures forall t :: 0 <= t < |decs| ==> decs[t].suiteName in si
    ensures forall t :: 0 <= t < |decs| ==> GeneratedAt(decs[t], t, order, keys)
  {
    var m := |order|;
    decs := [];
    for i := 0 to n
      invariant |decs| == i * m
      invariant forall t :: 0 <= t < |decs| ==> GeneratedAt(decs[t], t, order, keys)
    {
      for j := 0 to m
        invariant |decs| == i * m + j
        invariant forall t :: 0 <= t < |decs| ==> GeneratedAt(decs[t], t, order, keys)
      {
        var t := |decs|;
        ModUnique(t, m, i, j);
        RoundIndexBound(i, j, m, n);
        decs := decs + [Recipient(order[j], keys[t].public, Some(keys[t].private))];
        assert GeneratedAt(decs[t], t, order, keys);
      }
      assert (i + 1) * m == i * m + m;
    }
    forall t | 0 <= t < |decs|
      ensures decs[t].suiteName in si
    {
      assert GeneratedAt(decs[t], t, order, keys);
      assert decs[t].suiteName in order;
    }
  }

  /** `o` repeated n times, one copy per round. */
  function Rounds<T>(o: seq<T>, n: nat): (r: seq<T>)
    ensures |r| == n * |o|
    decreases n
  {
    if n == 0 then [] else
      assert n * |o| == (n - 1) * |o| + |o|;
      Rounds(o, n - 1) + o
  }

  /** Position t of the rounds holds the element at t mod |o|. */
  lemma {:induction false} RoundsAt<T>(o: seq<T>, n: nat, t: nat)
    requires 0 < |o| && t < n * |o|
    ensures Rounds(o, n)[t] == o[t % |o|]
    decreases n
  {
    var m := |o|;
    assert n * m == (n - 1) * m + m;
    if t < (n - 1) * m {
      RoundsAt(o, n - 1, t);
    } else {
      ModUnique(t, m, n - 1, t - (n - 1) * m);
    }
  }

  /** Every value occurs n times as often in the rounds as in one round. */
  lemma {:induction false} RoundsCount<T>(o: seq<T>, n: nat, x: T)
    ensures multiset(Rounds(o, n))[x] == n * multiset(o)[x]
    decreases n
  {
    if n > 0 {
      RoundsCount(o, n - 1, x);
      assert n * multiset(o)[x] == (n - 1) * multiset(o)[x] + multiset(o)[x];
    }
  }

  /** The suite names of the generated recipients, in order. */
  function Tags(decs: seq<Recipient>): (tags: seq<string>)
    ensures |tags| == |decs|
    ensures forall t :: 0 <= t < |decs| ==> tags[t] == decs[t].suiteName
  {
    seq(|decs|, t requires 0 <= t < |decs| => decs[t].suiteName)
  }

  /** What createDecoders produces holds exactly n recipients of every suite
      of si and none of any other suite. */
  lemma RecipientsPerSuite(n: nat, si: SuiteInfoMap, order: seq<string>, keys: seq<KeyPair>, decs: seq<Recipient>, name: string)
    requires |order| == |si|
    requires forall name :: name in order <==> name in si
    requires |decs| == n * |si|
    requires forall t :: 0 <= t < |decs| ==> GeneratedAt(decs[t], t, order, keys)
    ensures multiset(Tags(decs))[name] == if name in si then n else 0
  {
    if |order| == 0 {
      assert Tags(decs) == [];
      assert name !in si by {
        assert name !in order;
      }
    } else {
      forall t | 0 <= t < |decs|
        ensures Tags(decs)[t] == Rounds(order, n)[t]
      {
        assert GeneratedAt(decs[t], t, order, keys);
        RoundsAt(order, n, t);
      }
      assert Tags(decs) == Rounds(order, n);
      RoundsCount(order, n, name);
      assert Elements(order) == si.Keys;
      ElementsCount(order);
      DistinctCount(order, name);
    }
  }
}
