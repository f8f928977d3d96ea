/** The header's region reservation allocator: a list of tagged half-open byte
    intervals [startPos, endPos), kept sorted by startPos. Strict reservations
    must not share a byte with an earlier reservation; tolerant ones are
    recorded whatever they overlap. */
module Regions {
  import Seqs

  datatype Region = Region(startPos: int, endPos: int, tag: string) {

    /** Byte p lies inside the half-open interval. */
    predicate Covers(p: int) {
      startPos <= p < endPos
    }
  }

  /** Two regions share at least one byte. */
  predicate Overlaps(a: Region, b: Region) {
    && a.startPos < a.endPos
    && b.startPos < b.endPos
    && a.startPos < b.endPos
    && b.startPos < a.endPos
  }

  /** The endpoint comparison above is exactly "some byte lies in both". */
  lemma OverlapsIffSharedByte(a: Region, b: Region)
    ensures Overlaps(a, b) <==> exists p :: a.Covers(p) && b.Covers(p)
  {
    if Overlaps(a, b) {
      var p := if a.startPos < b.startPos then b.startPos else a.startPos;
      assert a.Covers(p) && b.Covers(p);
    }
  }

  predicate SortedByStart(rs: seq<Region>) {
    forall i, j :: 0 <= i < j < |rs| ==> rs[i].startPos <= rs[j].startPos
  }

  /** Appending a region whose start is at least the last one's keeps a list sorted. */
  lemma SortedAppend(a: seq<Region>, y: Region)
    requires SortedByStart(a)
    requires |a| == 0 || a[|a| - 1].startPos <= y.startPos
    ensures SortedByStart(a + [y])
  {
    var r := a + [y];
    forall i, j | 0 <= i < j < |r|
      ensures r[i].startPos <= r[j].startPos
    {
      if j == |a| && i < |a| - 1 {
        assert a[i].startPos <= a[|a| - 1].startPos;
      }
    }
  }

  /** One pass of the insertion sort: x is appended after the sorted list s and
      moved towards the front while its start is smaller than its predecessor's. */
  function InsertSorted(s: seq<Region>, x: Region): (r: seq<Region>)
    requires SortedByStart(s)
    ensures SortedByStart(r)
    ensures multiset(r) == multiset(s) + multiset{x}
    ensures |r| == |s| + 1
    ensures r[|r| - 1] == if |s| == 0 || s[|s| - 1].startPos <= x.startPos then x else s[|s| - 1]
    decreases |s|
  {
    if |s| == 0 || s[|s| - 1].startPos <= x.startPos then
      SortedAppend(s, x);
      s + [x]
    else
      var last := s[|s| - 1];
      var init := s[..|s| - 1];
      var front := InsertSorted(init, x);
      assert s == init + [last];
      assert front[|front| - 1].startPos <= last.startPos;
      SortedAppend(front, last);
      front + [last]
  }

  /** One step of the pass: a last element with a larger start than x stays last. */
  lemma InsertSortedStep(s: seq<Region>, x: Region)
    requires SortedByStart(s)
    requires |s| > 0 && x.startPos < s[|s| - 1].startPos
    ensures SortedByStart(s[..|s| - 1])
    ensures InsertSorted(s, x) == InsertSorted(s[..|s| - 1], x) + [s[|s| - 1]]
  {
  }

  /** Where the pass puts x: behind every trailing region with a larger start. */
  function InsertIndex(s: seq<Region>, x: Region): (k: nat)
    ensures k <= |s|
  {
    if |s| == 0 || s[|s| - 1].startPos <= x.startPos then |s| else InsertIndex(s[..|s| - 1], x)
  }

  lemma {:induction false} InsertSortedSplice(s: seq<Region>, x: Region)
    requires SortedByStart(s)
    ensures InsertSorted(s, x) == s[..InsertIndex(s, x)] + [x] + s[InsertIndex(s, x)..]
    decreases |s|
  {
    var n := |s|;
    if n == 0 || s[n - 1].startPos <= x.startPos {
      assert s[..n] == s && s[n..] == [];
    } else {
      var init := s[..n - 1];
      InsertSortedStep(s, x);
      InsertSortedSplice(init, x);
      Seqs.SpliceBeforeLast(s, x, InsertIndex(init, x));
    }
  }

  lemma {:induction false} InsertIndexSeparates(s: seq<Region>, x: Region)
    requires SortedByStart(s)
    ensures forall j :: 0 <= j < InsertIndex(s, x) ==> s[j].startPos <= x.startPos
    ensures forall j :: InsertIndex(s, x) <= j < |s| ==> x.startPos < s[j].startPos
    decreases |s|
  {
    var n := |s|;
    if n > 0 && x.startPos < s[n - 1].startPos {
      var init := s[..n - 1];
      assert SortedByStart(init);
      InsertIndexSeparates(init, x);
      forall j | InsertIndex(s, x) <= j < n
        ensures x.startPos < s[j].startPos
      {
        if j < n - 1 {
          assert s[j] == init[j];
        }
      }
    }
  }

  /** The insertion is stable: x lands right after every region whose start is
      at most its own and before every region whose start is larger. */
  lemma InsertSortedPosition(s: seq<Region>, x: Region) returns (k: nat)
    requires SortedByStart(s)
    ensures k <= |s|
    ensures InsertSorted(s, x) == s[..k] + [x] + s[k..]
    ensures forall j :: 0 <= j < k ==> s[j].startPos <= x.startPos
    ensures forall j :: k <= j < |s| ==> x.startPos < s[j].startPos
  {
    k := InsertIndex(s, x);
    InsertSortedSplice(s, x);
    InsertIndexSeparates(s, x);
  }

  /** Sorts an arbitrary list of regions by start position, inserting the
      elements one by one into a sorted prefix. */
  method InsertionSort(input: seq<Region>) returns (sorted: seq<Region>)
    ensures SortedByStart(sorted)
    ensures multiset(sorted) == multiset(input)
  {
    sorted := [];
    var i := 0;
    while i < |input|
      invariant 0 <= i <= |input|
      invariant SortedByStart(sorted)
      invariant multiset(sorted) == multiset(input[..i])
    {
      sorted := InsertSorted(sorted, input[i]);
      assert input[..i + 1] == input[..i] + [input[i]];
      i := i + 1;
    }
    assert input[..i] == input;
  }

  predicate StrictlySortedByStart(rs: seq<Region>) {
    forall i, j :: 0 <= i < j < |rs| ==> rs[i].startPos < rs[j].startPos
  }

  /** Both lists start with the region of least start. */
  lemma SortedSameHead(a: seq<Region>, b: seq<Region>)
    requires StrictlySortedByStart(a) && SortedByStart(b)
    requires multiset(a) == multiset(b) && |a| > 0
    ensures |b| > 0 && a[0] == b[0]
  {
    assert |b| == |multiset(b)| == |multiset(a)| == |a|;
    assert a[0] in multiset(b);
    var j :| 0 <= j < |b| && b[j] == a[0];
    assert b[0] in multiset(a);
    var i :| 0 <= i < |a| && a[i] == b[0];
    assert a[0].startPos <= a[i].startPos == b[0].startPos <= b[j].startPos == a[0].startPos;
    assert i == 0;
  }

  /** When the starts are pairwise distinct, a sorted permutation is unique:
      any sorted rearrangement of a strictly sorted list is that list. */
  lemma {:induction false} SortedPermutationUnique(a: seq<Region>, b: seq<Region>)
    requires StrictlySortedByStart(a)
    requires SortedByStart(b)
    requires multiset(a) == multiset(b)
    ensures a == b
    decreases |a|
  {
    if |a| == 0 {
      assert |multiset(b)| == 0;
    } else {
      SortedSameHead(a, b);
      Seqs.TailMultiset(a);
      Seqs.TailMultiset(b);
      assert StrictlySortedByStart(a[1..]) && SortedByStart(b[1..]);
      SortedPermutationUnique(a[1..], b[1..]);
      assert a == [a[0]] + a[1..] && b == [b[0]] + b[1..];
    }
  }

  /** The allocator state: the recorded reservations, in start order. */
  datatype Allocator = Allocator(regions: seq<Region>) {

    predicate Valid() {
      SortedByStart(regions)
    }

    /** Byte p belongs to at least one recorded reservation. */
    ghost predicate IsCovered(p: int) {
      exists r :: r in regions && r.Covers(p)
    }

    /** Some recorded reservation shares a byte with r. */
    predicate OverlapsAny(r: Region) {
      exists i :: 0 <= i < |regions| && Overlaps(regions[i], r)
    }
  }

  /** The allocator a fresh header starts with. */
  function Empty(): (a: Allocator)
    ensures a.Valid()
    ensures forall p :: !a.IsCovered(p)
  {
    Allocator([])
  }

  /** The overlap test on endpoints agrees with the byte-level view. */
  lemma OverlapsAnyIffCoveredByte(a: Allocator, r: Region)
    ensures a.OverlapsAny(r) <==> exists p :: r.Covers(p) && a.IsCovered(p)
  {
    if a.OverlapsAny(r) {
      var i :| 0 <= i < |a.regions| && Overlaps(a.regions[i], r);
      OverlapsIffSharedByte(a.regions[i], r);
      var p :| a.regions[i].Covers(p) && r.Covers(p);
      assert a.IsCovered(p);
    }
    if exists p :: r.Covers(p) && a.IsCovered(p) {
      var p :| r.Covers(p) && a.IsCovered(p);
      var q :| q in a.regions && q.Covers(p);
      var i :| 0 <= i < |a.regions| && a.regions[i] == q;
      OverlapsIffSharedByte(q, r);
    }
  }

  /** Records [startPos, endPos) under tag. With requireFree the call fails,
      leaving the allocator as it was, when the interval shares a byte with a
      recorded reservation; without it the interval is always recorded. */
  function Reserve(a: Allocator, startPos: int, endPos: int, requireFree: bool, tag: string): (res: (bool, Allocator))
    requires a.Valid()
    ensures res.1.Valid()
    ensures res.0 <==> !(requireFree && exists p :: startPos <= p < endPos && a.IsCovered(p))
    ensures !res.0 ==> res.1 == a
    ensures res.0 ==> multiset(res.1.regions) == multiset(a.regions) + multiset{Region(startPos, endPos, tag)}
    ensures res.0 ==> forall p :: res.1.IsCovered(p) <==> a.IsCovered(p) || startPos <= p < endPos
  {
    var r := Region(startPos, endPos, tag);
    OverlapsAnyIffCoveredByte(a, r);
    if requireFree && a.OverlapsAny(r) then
      (false, a)
    else
      var a' := Allocator(InsertSorted(a.regions, r));
      assert forall q :: q in a'.regions <==> q in a.regions || q == r by {
        forall q ensures q in a'.regions <==> q in a.regions || q == r {
          assert q in a'.regions <==> q in multiset(a'.regions);
        }
      }
      assert forall p :: a'.IsCovered(p) <==> a.IsCovered(p) || r.Covers(p) by {
        forall p ensures a'.IsCovered(p) <==> a.IsCovered(p) || r.Covers(p) {
          if a'.IsCovered(p) {
            var q :| q in a'.regions && q.Covers(p);
          }
          if a.IsCovered(p) {
            var q :| q in a.regions && q.Covers(p);
            assert q in a'.regions;
          }
          if r.Covers(p) {
            assert r in a'.regions;
          }
        }
      }
      (true, a')
  }

  /** No two recorded reservations share a byte. */
  ghost predicate Disjoint(rs: seq<Region>) {
    forall i, j :: 0 <= i < j < |rs| ==> !Overlaps(rs[i], rs[j])
  }

  /** Inserting a region that shares no byte with any stored one keeps the
      stored regions pairwise disjoint. */
  lemma InsertSortedKeepsDisjoint(s: seq<Region>, x: Region)
    requires SortedByStart(s) && Disjoint(s)
    requires forall i :: 0 <= i < |s| ==> !Overlaps(s[i], x)
    ensures Disjoint(InsertSorted(s, x))
  {
    var k := InsertIndex(s, x);
    InsertSortedSplice(s, x);
    Seqs.SpliceAt(s, x, k);
    var r := InsertSorted(s, x);
    forall i, j | 0 <= i < j < |r|
      ensures !Overlaps(r[i], r[j])
    {
      if i == k {
        assert r[j] == s[j - 1];
      } else if j == k {
        assert r[i] == s[i];
      } else {
        var si := if i < k then i else i - 1;
        var sj := if j < k then j else j - 1;
        assert r[i] == s[si] && r[j] == s[sj];
      }
    }
  }

  /** Strict reservations keep the reservations pairwise disjoint: a sequence of
      successful strict reserves never stores two regions sharing a byte. */
  lemma StrictReserveKeepsDisjoint(a: Allocator, startPos: int, endPos: int, tag: string)
    requires a.Valid() && Disjoint(a.regions)
    ensures Reserve(a, startPos, endPos, true, tag).0 ==> Disjoint(Reserve(a, startPos, endPos, true, tag).1.regions)
  {
    var x := Region(startPos, endPos, tag);
    OverlapsAnyIffCoveredByte(a, x);
    if !a.OverlapsAny(x) {
      InsertSortedKeepsDisjoint(a.regions, x);
    }
  }

  /** One call of Reserve, as the header builder issues it. */
  datatype Request = Request(startPos: int, endPos: int, requireFree: bool, tag: string) {
    /** Byte p lies in the requested interval. */
    predicate Covers(p: int) {
      startPos <= p < endPos
    }
  }

  /** Issues the requests in order, starting from a, and reports the result of
      every call. */
  function Run(a: Allocator, reqs: seq<Request>): (r: (Allocator, seq<bool>))
    requires a.Valid()
    ensures r.0.Valid() && |r.1| == |reqs|
    decreases |reqs|
  {
    if |reqs| == 0 then (a, [])
    else
      var (b, oks) := Run(a, reqs[..|reqs| - 1]);
      var q := reqs[|reqs| - 1];
      var (ok, c) := Reserve(b, q.startPos, q.endPos, q.requireFree, q.tag);
      (c, oks + [ok])
  }

  /** Byte p lies in a request that was accepted. */
  ghost predicate AcceptedCovers(reqs: seq<Request>, oks: seq<bool>, p: int) {
    exists j :: 0 <= j < |reqs| && j < |oks| && oks[j] && reqs[j].Covers(p)
  }

  /** The results of the first i calls do not depend on the calls after them. */
  lemma {:induction false} RunPrefix(a: Allocator, reqs: seq<Request>, i: nat)
    requires a.Valid() && i <= |reqs|
    ensures Run(a, reqs[..i]).1 == Run(a, reqs).1[..i]
    decreases |reqs|
  {
    if i < |reqs| {
      var init := reqs[..|reqs| - 1];
      assert init[..i] == reqs[..i];
      RunPrefix(a, init, i);
    } else {
      assert reqs[..i] == reqs;
    }
  }

  /** The last call of a run, unfolded. */
  lemma RunLast(a: Allocator, reqs: seq<Request>)
    requires a.Valid() && |reqs| > 0
    ensures var n := |reqs| - 1;
      var q := reqs[n];
      var prev := Run(a, reqs[..n]);
      var res := Reserve(prev.0, q.startPos, q.endPos, q.requireFree, q.tag);
      Run(a, reqs) == (res.1, prev.1 + [res.0])
  {
  }

  /** An accepted request covering p is one of the earlier ones or the last one. */
  lemma AcceptedCoversLast(reqs: seq<Request>, prev: seq<bool>, ok: bool, p: int)
    requires |reqs| == |prev| + 1
    ensures AcceptedCovers(reqs, prev + [ok], p) <==>
      AcceptedCovers(reqs[..|prev|], prev, p) || (ok && reqs[|prev|].Covers(p))
  {
    var oks, init, n := prev + [ok], reqs[..|prev|], |prev|;
    if AcceptedCovers(reqs, oks, p) {
      var j :| 0 <= j < |reqs| && j < |oks| && oks[j] && reqs[j].Covers(p);
      if j < n {
        assert init[j] == reqs[j] && prev[j] == oks[j];
      }
    }
    if AcceptedCovers(init, prev, p) {
      var j :| 0 <= j < |init| && j < |prev| && prev[j] && init[j].Covers(p);
      assert oks[j] == prev[j] && reqs[j] == init[j];
    }
  }

  /** After a run, a byte is reserved exactly when it was reserved at the start
      or lies in an accepted request. */
  lemma {:induction false} RunCovers(a: Allocator, reqs: seq<Request>, p: int)
    requires a.Valid()
    ensures Run(a, reqs).0.IsCovered(p) <==> a.IsCovered(p) || AcceptedCovers(reqs, Run(a, reqs).1, p)
    decreases |reqs|
  {
    if |reqs| > 0 {
      var n := |reqs| - 1;
      RunCovers(a, reqs[..n], p);
      RunLast(a, reqs);
      var q := reqs[n];
      var prev := Run(a, reqs[..n]);
      var res := Reserve(prev.0, q.startPos, q.endPos, q.requireFree, q.tag);
      AcceptedCoversLast(reqs, prev.1, res.0, p);
    }
  }

  /** Call i is Reserve on the allocator the first i calls left behind. */
  lemma RunStep(a: Allocator, reqs: seq<Request>, i: nat)
    requires a.Valid() && i < |reqs|
    ensures var q := reqs[i];
      Run(a, reqs).1[i] == Reserve(Run(a, reqs[..i]).0, q.startPos, q.endPos, q.requireFree, q.tag).0
  {
    RunPrefix(a, reqs, i + 1);
    var upto := reqs[..i + 1];
    assert upto[..i] == reqs[..i] && upto[i] == reqs[i];
  }

  /** An accepted strict call found none of its bytes reserved. */
  lemma StrictAcceptedFree(a: Allocator, reqs: seq<Request>, i: nat, p: int)
    requires a.Valid() && i < |reqs|
    requires reqs[i].requireFree && Run(a, reqs).1[i] && reqs[i].Covers(p)
    ensures !Run(a, reqs[..i]).0.IsCovered(p)
  {
    RunStep(a, reqs, i);
  }

  /** What a successful strict reserve records shares no byte with anything
      recorded before it: neither with the starting reservations nor with any
      earlier accepted request, strict or tolerant. Later tolerant requests may
      still overlap it; that is what they are for. */
  lemma StrictAcceptedExclusive(a: Allocator, reqs: seq<Request>, i: nat)
    requires a.Valid() && i < |reqs|
    requires reqs[i].requireFree && Run(a, reqs).1[i]
    ensures forall p :: reqs[i].Covers(p) ==> !a.IsCovered(p)
    ensures forall j, p :: 0 <= j < i && Run(a, reqs).1[j] && reqs[j].Covers(p) ==> !reqs[i].Covers(p)
  {
    var oks := Run(a, reqs).1;
    var before := Run(a, reqs[..i]).1;
    RunPrefix(a, reqs, i);
    forall p | reqs[i].Covers(p)
      ensures !a.IsCovered(p)
      ensures forall j :: 0 <= j < i && oks[j] ==> !reqs[j].Covers(p)
    {
      StrictAcceptedFree(a, reqs, i, p);
      RunCovers(a, reqs[..i], p);
      forall j | 0 <= j < i && oks[j]
        ensures !reqs[j].Covers(p)
      {
        assert reqs[..i][j] == reqs[j] && before[j] == oks[j];
      }
    }
  }

  /** A gap reported by the scan: the half-open byte interval [start, end). */
  datatype FreeRegion = FreeRegion(start: int, end: int)

  /** Byte p lies in one of the reported gaps. */
  ghost predicate InFree(gs: seq<FreeRegion>, p: int) {
    exists i :: 0 <= i < |gs| && gs[i].start <= p < gs[i].end
  }

  /** Every gap is non-empty and lies inside [lo, total). */
  ghost predicate GapsWithin(gs: seq<FreeRegion>, lo: int, total: int) {
    forall i :: 0 <= i < |gs| ==> lo <= gs[i].start < gs[i].end <= total
  }

  /** Gaps come in ascending order and never touch: between two of them lies at
      least one byte that is not free. */
  ghost predicate GapsSeparated(gs: seq<FreeRegion>) {
    forall i, j :: 0 <= i < j < |gs| ==> gs[i].end < gs[j].start
  }

  function Min(a: int, b: int): int { if a < b then a else b }
  function Max(a: int, b: int): int { if a < b then b else a }

  /** The walk behind the scan: cursor is the first byte not yet reported free
      nor known to be reserved by a region already passed. Empty regions cover
      nothing and are passed over. */
  function ScanFrom(rs: seq<Region>, cursor: int, total: int): (gs: seq<FreeRegion>)
    requires SortedByStart(rs)
    ensures GapsWithin(gs, cursor, total)
    ensures GapsSeparated(gs)
    decreases |rs|
  {
    if |rs| == 0 then
      if cursor < total then [FreeRegion(cursor, total)] else []
    else if rs[0].endPos <= rs[0].startPos then
      ScanFrom(rs[1..], cursor, total)
    else
      var r := rs[0];
      var gapEnd := Min(r.startPos, total);
      var rest := ScanFrom(rs[1..], Max(cursor, r.endPos), total);
      if cursor < gapEnd then
        [FreeRegion(cursor, gapEnd)] + rest
      else
        rest
  }

  lemma InFreeCons(g: FreeRegion, rest: seq<FreeRegion>, p: int)
    ensures InFree([g] + rest, p) <==> (g.start <= p < g.end || InFree(rest, p))
  {
    var gs := [g] + rest;
    assert gs[0] == g;
    assert forall i :: 0 <= i < |rest| ==> gs[i + 1] == rest[i];
    if InFree(gs, p) {
      var i :| 0 <= i < |gs| && gs[i].start <= p < gs[i].end;
      if i > 0 {
        assert rest[i - 1] == gs[i];
      }
    }
  }

  lemma CoveredCons(rs: seq<Region>, p: int)
    requires |rs| > 0
    ensures Allocator(rs).IsCovered(p) <==> rs[0].Covers(p) || Allocator(rs[1..]).IsCovered(p)
  {
    assert rs == [rs[0]] + rs[1..];
    if Allocator(rs).IsCovered(p) {
      var q :| q in rs && q.Covers(p);
      assert q == rs[0] || q in rs[1..];
    }
  }

  /** Bytes from the cursor on are reported free exactly when no region of rs
      covers them. */
  lemma {:induction false} ScanFromComplement(rs: seq<Region>, cursor: int, total: int, p: int)
    requires SortedByStart(rs)
    requires cursor <= p < total
    ensures InFree(ScanFrom(rs, cursor, total), p) <==> !Allocator(rs).IsCovered(p)
    decreases |rs|
  {
    if |rs| == 0 {
      assert ScanFrom(rs, cursor, total)[0] == FreeRegion(cursor, total);
    } else {
      CoveredCons(rs, p);
      var r := rs[0];
      if r.endPos <= r.startPos {
        ScanFromComplement(rs[1..], cursor, total, p);
      } else {
        var gapEnd := Min(r.startPos, total);
        var next := Max(cursor, r.endPos);
        var rest := ScanFrom(rs[1..], next, total);
        var gs := ScanFrom(rs, cursor, total);
        if p < gapEnd {
          InFreeCons(FreeRegion(cursor, gapEnd), rest, p);
          assert forall j :: 0 <= j < |rs| ==> !rs[j].Covers(p) by {
            assert forall j :: 0 <= j < |rs| ==> rs[0].startPos <= rs[j].startPos;
          }
          assert !Allocator(rs).IsCovered(p);
        } else {
          assert !InFree(rest, p) || next <= p;
          if cursor < gapEnd {
            InFreeCons(FreeRegion(cursor, gapEnd), rest, p);
          }
          assert InFree(gs, p) <==> InFree(rest, p);
          if p < next {
            assert r.Covers(p);
          } else {
            ScanFromComplement(rs[1..], next, total, p);
          }
        }
      }
    }
  }

  /** Reports the maximal free intervals of [0, total), in ascending order,
      one per call of the Go callback; the allocator itself is not changed. */
  function ScanFreeRegions(a: Allocator, total: int): (gs: seq<FreeRegion>)
    requires a.Valid()
    ensures GapsWithin(gs, 0, total)
    ensures GapsSeparated(gs)
    ensures forall p :: 0 <= p < total ==> (InFree(gs, p) <==> !a.IsCovered(p))
  {
    var gs := ScanFrom(a.regions, 0, total);
    assert forall p :: 0 <= p < total ==> (InFree(gs, p) <==> !a.IsCovered(p)) by {
      forall p | 0 <= p < total
        ensures InFree(gs, p) <==> !a.IsCovered(p)
      {
        ScanFromComplement(a.regions, 0, total, p);
      }
    }
    gs
  }

  /** Two gap lists with the same free bytes start with the same gap. */
  lemma FirstGapsAgree(gs: seq<FreeRegion>, hs: seq<FreeRegion>, lo: int, total: int)
    requires GapsWithin(gs, lo, total) && GapsSeparated(gs)
    requires GapsWithin(hs, lo, total) && GapsSeparated(hs)
    requires forall p :: lo <= p < total ==> (InFree(gs, p) <==> InFree(hs, p))
    requires |gs| > 0 || |hs| > 0
    ensures |gs| > 0 && |hs| > 0 && gs[0] == hs[0]
  {
    if |gs| > 0 {
      assert InFree(gs, gs[0].start);
    }
    if |hs| > 0 {
      assert InFree(hs, hs[0].start);
    }
    var g, h := gs[0], hs[0];
    var i :| 0 <= i < |gs| && gs[i].start <= h.start < gs[i].end;
    var j :| 0 <= j < |hs| && hs[j].start <= g.start < hs[j].end;
    assert g.start <= gs[i].start && h.start <= hs[j].start;
    assert !InFree(gs, g.end) && !InFree(hs, h.end);
  }

  /** Past a common first gap, the remaining gaps have the same free bytes. */
  lemma RestGapsAgree(gs: seq<FreeRegion>, hs: seq<FreeRegion>, lo: int, total: int)
    requires forall p :: lo <= p < total ==> (InFree(gs, p) <==> InFree(hs, p))
    requires |gs| > 0 && |hs| > 0 && gs[0] == hs[0] && lo <= gs[0].end
    ensures forall p :: gs[0].end <= p < total ==> (InFree(gs[1..], p) <==> InFree(hs[1..], p))
  {
    var g := gs[0];
    forall p | g.end <= p < total
      ensures InFree(gs[1..], p) <==> InFree(hs[1..], p)
    {
      assert gs == [g] + gs[1..];
      assert hs == [g] + hs[1..];
      InFreeCons(g, gs[1..], p);
      InFreeCons(g, hs[1..], p);
    }
  }

  /** The free bytes determine the reported list: any ascending, separated list
      of non-empty gaps inside [lo, total) with the same free bytes is the same
      list. So the scan reports exactly the maximal gaps, and scanning twice
      without a reserve in between reports the same list. */
  lemma {:induction false} FreeRegionsUnique(gs: seq<FreeRegion>, hs: seq<FreeRegion>, lo: int, total: int)
    requires GapsWithin(gs, lo, total) && GapsSeparated(gs)
    requires GapsWithin(hs, lo, total) && GapsSeparated(hs)
    requires forall p :: lo <= p < total ==> (InFree(gs, p) <==> InFree(hs, p))
    ensures gs == hs
    decreases |gs|
  {
    if |gs| > 0 || |hs| > 0 {
      FirstGapsAgree(gs, hs, lo, total);
      RestGapsAgree(gs, hs, lo, total);
      FreeRegionsUnique(gs[1..], hs[1..], gs[0].end, total);
      assert gs == [gs[0]] + gs[1..] && hs == [hs[0]] + hs[1..];
    }
  }

  /** No reported gap can be widened: the byte just before a gap is reserved
      unless the gap starts at 0, and the byte at its end is reserved unless it
      ends at total. */
  lemma FreeRegionsMaximal(a: Allocator, total: int)
    requires a.Valid()
    ensures var gs := ScanFreeRegions(a, total);
      forall i :: 0 <= i < |gs| ==>
        && (gs[i].start == 0 || a.IsCovered(gs[i].start - 1))
        && (gs[i].end == total || a.IsCovered(gs[i].end))
  {
    var gs := ScanFreeRegions(a, total);
    forall i | 0 <= i < |gs|
      ensures gs[i].start == 0 || a.IsCovered(gs[i].start - 1)
      ensures gs[i].end == total || a.IsCovered(gs[i].end)
    {
      assert !InFree(gs, gs[i].start - 1);
      assert !InFree(gs, gs[i].end);
    }
  }
}
