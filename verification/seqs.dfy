/** Generic facts about sequences, shared by the models: lists without
    repetitions, splicing an element in or out, and multisets of lists. */
module Seqs {
  predicate Distinct<T(==)>(s: seq<T>) {
    forall i, j :: 0 <= i < j < |s| ==> s[i] != s[j]
  }

  /** The set of values a sequence takes. */
  function Elements<T>(s: seq<T>): set<T> {
    set x | x in s
  }

  /** In a list without repetitions every element occurs exactly once. */
  lemma {:induction false} DistinctCount<T>(s: seq<T>, x: T)
    requires Distinct(s)
    ensures multiset(s)[x] == if x in s then 1 else 0
    decreases |s|
  {
    if |s| > 0 {
      var init := s[..|s| - 1];
      assert s == init + [s[|s| - 1]];
      DistinctCount(init, x);
      assert x in s <==> x in init || x == s[|s| - 1];
      assert s[|s| - 1] !in init;
    }
  }

  /** A sequence has at most as many values as positions, and exactly as many
      when no value repeats. */
  lemma {:induction false} ElementsCount<T>(s: seq<T>)
    ensures |Elements(s)| <= |s|
    ensures |Elements(s)| == |s| <==> Distinct(s)
    decreases |s|
  {
    if |s| > 0 {
      var init, last := s[..|s| - 1], s[|s| - 1];
      assert s == init + [last];
      ElementsCount(init);
      assert Elements(s) == Elements(init) + {last};
      if Distinct(s) {
        assert Distinct(init);
        assert last !in init;
      }
      if |Elements(s)| == |s| {
        assert last !in Elements(init);
        forall i, j | 0 <= i < j < |s|
          ensures s[i] != s[j]
        {
          if j < |s| - 1 {
            assert s[i] == init[i] && s[j] == init[j];
          } else {
            assert s[i] in init;
          }
        }
      }
    }
  }

  /** The elements of a list with x spliced in at k. */
  lemma SpliceAt<T>(s: seq<T>, x: T, k: nat)
    requires k <= |s|
    ensures var r := s[..k] + [x] + s[k..];
      && |r| == |s| + 1
      && r[k] == x
      && (forall i :: 0 <= i < k ==> r[i] == s[i])
      && (forall i :: k < i < |r| ==> r[i] == s[i - 1])
  {
  }

  /** Splicing x in at k, then appending last, is splicing x into the longer list. */
  lemma SpliceBeforeLast<T>(s: seq<T>, x: T, k: nat)
    requires k < |s|
    ensures var init := s[..|s| - 1];
      (init[..k] + [x] + init[k..]) + [s[|s| - 1]] == s[..k] + [x] + s[k..]
  {
    var init := s[..|s| - 1];
    var last := s[|s| - 1];
    assert s == init + [last];
    assert (init + [last])[..k] == init[..k];
    assert (init + [last])[k..] == init[k..] + [last];
  }

  /** Dropping the head of a list drops it from the multiset. */
  lemma TailMultiset<T>(a: seq<T>)
    requires |a| > 0
    ensures multiset(a[1..]) == multiset(a) - multiset{a[0]}
  {
    assert a == [a[0]] + a[1..];
  }

  /** Taking one element out of a list takes it out of its multiset. */
  lemma RemoveAtMultiset<T>(b: seq<T>, k: nat)
    requires k < |b|
    ensures multiset(b[..k] + b[k + 1..]) == multiset(b) - multiset{b[k]}
  {
    assert b == b[..k] + [b[k]] + b[k + 1..];
  }

  /** Removing an element before the last one and then appending the last
      is removing it from the whole list. */
  lemma RemoveBeforeLast<T>(vs: seq<T>, k: nat)
    requires k + 1 < |vs|
    ensures var init := vs[..|vs| - 1];
      vs[..k] + vs[k + 1..] == (init[..k] + init[k + 1..]) + [vs[|vs| - 1]]
  {
    var n := |vs|;
    var init := vs[..n - 1];
    assert init[..k] == vs[..k];
    assert init[k + 1..] == vs[k + 1..n - 1];
    assert vs[k + 1..] == vs[k + 1..n - 1] + [vs[n - 1]];
  }

  /** The list without its last element, and that element. */
  lemma SplitLast<T>(rest: seq<T>, last: T)
    ensures (rest + [last])[..|rest|] == rest && (rest + [last])[|rest|] == last
  {
  }

  /** Where a permutation b of a holds a's last element, and what is left of
      the two once that element is taken out: again a permutation. */
  lemma PermutationMatchLast<T>(a: seq<T>, b: seq<T>) returns (k: nat)
    requires multiset(a) == multiset(b) && |a| > 0
    ensures k < |b| && b[k] == a[|a| - 1]
    ensures multiset(a[..|a| - 1]) == multiset(b[..k] + b[k + 1..])
  {
    var n := |a|;
    assert a[n - 1] in multiset(b);
    k :| 0 <= k < |b| && b[k] == a[n - 1];
    RemoveAtMultiset(b, k);
    assert multiset(a[..n - 1]) == multiset(a) - multiset{a[n - 1]} by {
      assert a == a[..n - 1] + [a[n - 1]];
    }
  }
}
