/** The concrete scenarios of the allocator's own tests, stated against the
    general contracts of the Regions module. */
module ReservationScenarios {
  import opened Seqs
  import opened Regions

  const SortInput: seq<int> := [503, -319, 245, -537, -167, -804, 469, -457, 143, 184,
                                 376, 825, 11, -309, -144, 152, -493, 684, 165, 29]
  const SortOutput: seq<int> := [-804, -537, -493, -457, -319, -309, -167, -144, 11, 29,
                                  143, 152, 165, 184, 245, 376, 469, 503, 684, 825]

  /** Regions carrying only a start position, the other fields at Go's zero values. */
  function StartOnly(xs: seq<int>): (rs: seq<Region>)
    ensures |rs| == |xs|
    ensures forall i :: 0 <= i < |xs| ==> rs[i] == Region(xs[i], 0, "")
  {
    seq(|xs|, i requires 0 <= i < |xs| => Region(xs[i], 0, ""))
  }

  lemma StartOnlyMembers(xs: seq<int>)
    ensures forall r: Region :: r in StartOnly(xs) <==> r.endPos == 0 && r.tag == "" && r.startPos in xs
  {
    var rs := StartOnly(xs);
    forall r: Region | r.endPos == 0 && r.tag == "" && r.startPos in xs
      ensures r in rs
    {
      var i :| 0 <= i < |xs| && xs[i] == r.startPos;
      assert rs[i] == r;
    }
  }

  lemma SortOutputStrictlySorted()
    ensures StrictlySortedByStart(StartOnly(SortOutput))
  {
    var rs := StartOnly(SortOutput);
    assert forall i :: 0 <= i < |rs| - 1 ==> rs[i].startPos < rs[i + 1].startPos;
    forall i, j | 0 <= i < j < |rs|
      ensures rs[i].startPos < rs[j].startPos
    {
      var k := i;
      while k < j
        invariant i <= k <= j
        invariant rs[i].startPos <= rs[k].startPos
        invariant k > i ==> rs[i].startPos < rs[k].startPos
      {
        k := k + 1;
      }
    }
  }

  /** The test's input has no repeated value: it has the same values as the
      strictly ascending output, which has twenty of them. */
  lemma SortInputDistinct()
    ensures Distinct(StartOnly(SortInput))
  {
    var given, expected := StartOnly(SortInput), StartOnly(SortOutput);
    SortOutputStrictlySorted();
    SortSameMembers();
    assert Elements(given) == Elements(expected);
    ElementsCount(expected);
    ElementsCount(given);
  }

  lemma SortSameMembers()
    ensures forall r: Region :: r in StartOnly(SortInput) <==> r in StartOnly(SortOutput)
  {
    assert (set x | x in SortInput) == (set x | x in SortOutput);
    StartOnlyMembers(SortInput);
    StartOnlyMembers(SortOutput);
  }

  lemma SortExamplePermutation()
    ensures multiset(StartOnly(SortInput)) == multiset(StartOnly(SortOutput))
  {
    var given, expected := StartOnly(SortInput), StartOnly(SortOutput);
    SortInputDistinct();
    SortOutputStrictlySorted();
    SortSameMembers();
    forall r: Region
      ensures multiset(given)[r] == multiset(expected)[r]
    {
      DistinctCount(given, r);
      DistinctCount(expected, r);
    }
  }

  /** Whatever list InsertionSort returns for the twenty test integers, it is
      the ascending list the test expects. */
  lemma InsertionSortExample(sorted: seq<Region>)
    requires SortedByStart(sorted)
    requires multiset(sorted) == multiset(StartOnly(SortInput))
    ensures |sorted| == |SortOutput|
    ensures forall k :: 0 <= k < |SortOutput| ==> sorted[k].startPos == SortOutput[k]
  {
    SortExamplePermutation();
    SortOutputStrictlySorted();
    SortedPermutationUnique(StartOnly(SortOutput), sorted);
  }

  lemma ScanOfEmpty()
    ensures ScanFreeRegions(Empty(), 1000) == [FreeRegion(0, 1000)]
  {
    var expected := [FreeRegion(0, 1000)];
    forall p | 0 <= p < 1000
      ensures InFree(expected, p) <==> !Empty().IsCovered(p)
    {
      assert expected[0].start <= p < expected[0].end;
    }
    FreeRegionsUnique(ScanFreeRegions(Empty(), 1000), expected, 0, 1000);
  }

  /** The first reservation of the test, into the empty allocator, succeeds
      and reserves exactly its bytes. */
  lemma FirstReserveAccepted()
    ensures var r1 := Reserve(Empty(), 10, 100, true, "block10-100");
      && r1.0
      && forall p :: r1.1.IsCovered(p) <==> 10 <= p < 100
  {
  }

  /** A reservation over [10, 100) leaves two gaps in 1000 bytes. */
  lemma ScanOfOneBlock(a1: Allocator)
    requires a1.Valid()
    requires forall p :: a1.IsCovered(p) <==> 10 <= p < 100
    ensures ScanFreeRegions(a1, 1000) == [FreeRegion(0, 10), FreeRegion(100, 1000)]
  {
    var free1 := [FreeRegion(0, 10), FreeRegion(100, 1000)];
    forall p | 0 <= p < 1000
      ensures InFree(free1, p) <==> !a1.IsCovered(p)
    {
      if p < 10 {
        assert free1[0].start <= p < free1[0].end;
      } else if 100 <= p {
        assert free1[1].start <= p < free1[1].end;
      }
    }
    FreeRegionsUnique(ScanFreeRegions(a1, 1000), free1, 0, 1000);
  }

  /** First step of TestRangeReservation: reserving [10,100) strictly succeeds
      and splits the single free region in two. */
  lemma FirstReservation()
    ensures var r1 := Reserve(Empty(), 10, 100, true, "block10-100");
      && r1.0
      && (forall p :: r1.1.IsCovered(p) <==> 10 <= p < 100)
      && ScanFreeRegions(r1.1, 1000) == [FreeRegion(0, 10), FreeRegion(100, 1000)]
  {
    FirstReserveAccepted();
    ScanOfOneBlock(Reserve(Empty(), 10, 100, true, "block10-100").1);
  }

  /** The second reservation of the test, over allocated bytes, is refused
      and leaves the allocator as it was. */
  lemma OverlappingReserveRefused(a1: Allocator)
    requires a1.Valid()
    requires forall p :: a1.IsCovered(p) <==> 10 <= p < 100
    ensures var r2 := Reserve(a1, 50, 200, true, "block50-200");
      !r2.0 && r2.1 == a1
  {
    assert a1.IsCovered(50);
  }

  /** The third reservation of the test, past the first one, succeeds and
      adds its bytes. */
  lemma DisjointReserveAccepted(a1: Allocator)
    requires a1.Valid()
    requires forall p :: a1.IsCovered(p) <==> 10 <= p < 100
    ensures var r3 := Reserve(a1, 150, 200, true, "block150-200");
      && r3.0
      && forall p :: r3.1.IsCovered(p) <==> 10 <= p < 100 || 150 <= p < 200
  {
  }

  /** Reservations over [10, 100) and [150, 200) leave three gaps in 1000 bytes. */
  lemma ScanOfTwoBlocks(a3: Allocator)
    requires a3.Valid()
    requires forall p :: a3.IsCovered(p) <==> 10 <= p < 100 || 150 <= p < 200
    ensures ScanFreeRegions(a3, 1000) == [FreeRegion(0, 10), FreeRegion(100, 150), FreeRegion(200, 1000)]
  {
    var free3 := [FreeRegion(0, 10), FreeRegion(100, 150), FreeRegion(200, 1000)];
    forall p | 0 <= p < 1000
      ensures InFree(free3, p) <==> !a3.IsCovered(p)
    {
      if p < 10 {
        assert free3[0].start <= p < free3[0].end;
      } else if 100 <= p < 150 {
        assert free3[1].start <= p < free3[1].end;
      } else if 200 <= p {
        assert free3[2].start <= p < free3[2].end;
      }
    }
    FreeRegionsUnique(ScanFreeRegions(a3, 1000), free3, 0, 1000);
  }

  /** The rest of TestRangeReservation: the overlapping strict reserve of
      [50,200) fails and stores nothing; [150,200) then succeeds and the free
      regions are [0,10), [100,150), [200,1000). */
  lemma RangeReservationScenario(a1: Allocator)
    requires a1.Valid()
    requires forall p :: a1.IsCovered(p) <==> 10 <= p < 100
    ensures
      var r2 := Reserve(a1, 50, 200, true, "block50-200");
      var r3 := Reserve(r2.1, 150, 200, true, "block150-200");
      && !r2.0
      && r2.1 == a1
      && r3.0
      && ScanFreeRegions(r3.1, 1000) == [FreeRegion(0, 10), FreeRegion(100, 150), FreeRegion(200, 1000)]
  {
    OverlappingReserveRefused(a1);
    DisjointReserveAccepted(a1);
    ScanOfTwoBlocks(Reserve(a1, 150, 200, true, "block150-200").1);
  }

}
