/** The cornerstone check of the debug rendering: the bytes of a serialised
    PURB are read at every allowed position of a suite that still lies inside
    the buffer, each range clipped to the buffer's end, and XOR-combined to
    recover the cornerstone value. */
module Recovery {
  import opened Wrappers
  import opened Purbs
  import Layout
  import Seqs

  /** ToBytes is called with verbosity switched off, and the flag is then put
      back. ToBytes works on the PURB itself and may change it (it caches
      encodings, for one); `toBytes` returns the bytes and the PURB as ToBytes
      leaves it. */
  function BytesQuietly(p: Purb, toBytes: Purb -> (Bytes, Purb)): (r: (Bytes, Purb))
    ensures r.0 == toBytes(p.(isVerbose := false)).0
    ensures r.1.isVerbose == p.isVerbose
    ensures r.1.(isVerbose := false) == toBytes(p.(isVerbose := false)).1.(isVerbose := false)
  {
    var verbose := p.isVerbose;
    var quiet := p.(isVerbose := false);
    var (bytes, after) := toBytes(quiet);
    (bytes, after.(isVerbose := verbose))
  }

  /** The rendered bytes do not depend on the verbosity the PURB was in. */
  lemma BytesIgnoreVerbosity(p: Purb, toBytes: Purb -> (Bytes, Purb), v: bool)
    ensures BytesQuietly(p.(isVerbose := v), toBytes).0 == BytesQuietly(p, toBytes).0
  {
    assert p.(isVerbose := v).(isVerbose := false) == p.(isVerbose := false);
  }

  /** When ToBytes changes nothing but, perhaps, the verbosity flag, the PURB
      comes back exactly as it was. */
  lemma BytesQuietlyRestores(p: Purb, toBytes: Purb -> (Bytes, Purb))
    requires toBytes(p.(isVerbose := false)).1.(isVerbose := false) == p.(isVerbose := false)
    ensures BytesQuietly(p, toBytes).1 == p
  {
    var r := BytesQuietly(p, toBytes);
    assert r.1 == r.1.(isVerbose := false).(isVerbose := p.isVerbose);
  }

  predicate StrictlyIncreasing(ps: seq<nat>) {
    forall i, j :: 0 <= i < j < |ps| ==> ps[i] < ps[j]
  }

  /** The allowed positions that start inside a buffer of bufLen bytes, in
      their original order and with their repetitions: a position listed twice
      is read twice. */
  function UsedStarts(allowed: seq<nat>, bufLen: nat): (used: seq<nat>)
    ensures forall p :: p in used <==> p in allowed && p < bufLen
    ensures forall p :: multiset(used)[p] == if p < bufLen then multiset(allowed)[p] else 0
    ensures |used| <= |allowed|
  {
    if |allowed| == 0 then
      []
    else
      var rest := UsedStarts(allowed[1..], bufLen);
      assert allowed == [allowed[0]] + allowed[1..];
      assert forall p :: p in allowed <==> p == allowed[0] || p in allowed[1..];
      if allowed[0] < bufLen then [allowed[0]] + rest else rest
  }

  /** The filter works position by position, keeping order: the used starts of
      a concatenation are those of each part, one after the other. */
  lemma {:induction false} UsedStartsConcat(a: seq<nat>, b: seq<nat>, bufLen: nat)
    ensures UsedStarts(a + b, bufLen) == UsedStarts(a, bufLen) + UsedStarts(b, bufLen)
    decreases |a|
  {
    if |a| == 0 {
      assert a + b == b;
    } else {
      assert (a + b)[0] == a[0] && (a + b)[1..] == a[1..] + b;
      UsedStartsConcat(a[1..], b, bufLen);
    }
  }

  /** A single position is kept exactly when it lies inside the buffer. */
  lemma UsedStartsSingle(p: nat, bufLen: nat)
    ensures UsedStarts([p], bufLen) == if p < bufLen then [p] else []
  {
    assert [p][1..] == [];
  }

  /** Filtering keeps ascending positions ascending. */
  lemma {:induction false} UsedStartsIncreasing(allowed: seq<nat>, bufLen: nat)
    requires StrictlyIncreasing(allowed)
    ensures StrictlyIncreasing(UsedStarts(allowed, bufLen))
  {
    if |allowed| > 0 {
      var tail := allowed[1..];
      assert StrictlyIncreasing(tail);
      UsedStartsIncreasing(tail, bufLen);
      var rest := UsedStarts(tail, bufLen);
      var used := UsedStarts(allowed, bufLen);
      if allowed[0] < bufLen {
        assert used == [allowed[0]] + rest;
        forall i, j | 0 <= i < j < |used|
          ensures used[i] < used[j]
        {
          assert used[j] == rest[j - 1] && rest[j - 1] in rest;
          var m :| 0 <= m < |tail| && tail[m] == rest[j - 1];
          assert allowed[m + 1] == tail[m];
          if i > 0 {
            assert used[i] == rest[i - 1];
          }
        }
      }
    }
  }

  /** A byte range [start, end) of the serialised PURB. */
  datatype ByteRange = ByteRange(start: nat, end: nat) {
    function Length(): int { end - start }
  }

  /** Each used start becomes a range of csLen bytes, cut short at the end of
      the buffer. */
  function ClippedRanges(used: seq<nat>, csLen: nat, bufLen: nat): (rs: seq<ByteRange>)
    requires forall i :: 0 <= i < |used| ==> used[i] < bufLen
    ensures |rs| == |used|
    ensures forall i :: 0 <= i < |rs| ==> rs[i].start == used[i] && rs[i].start <= rs[i].end <= bufLen
    ensures forall i :: 0 <= i < |rs| ==> rs[i].Length() <= csLen
    ensures forall i :: 0 <= i < |rs| ==> rs[i].end == bufLen || rs[i].Length() == csLen
  {
    seq(|used|, i requires 0 <= i < |used| =>
      ByteRange(used[i], if used[i] + csLen > bufLen then bufLen else used[i] + csLen))
  }

  /** The ranges the rendering reads for a suite with placement data info. */
  function SuiteRanges(info: SuiteInfo, bufLen: nat): (rs: seq<ByteRange>)
    ensures forall i :: 0 <= i < |rs| ==> rs[i].start < bufLen && rs[i].end <= bufLen
    ensures forall i :: 0 <= i < |rs| ==> rs[i].start in info.allowedPositions
    ensures |rs| > 0 <==> exists p :: p in info.allowedPositions && p < bufLen
  {
    var used := UsedStarts(info.allowedPositions, bufLen);
    assert forall i :: 0 <= i < |used| ==> used[i] in used;
    assert |used| > 0 ==> used[0] in used;
    assert (exists p :: p in info.allowedPositions && p < bufLen) ==> |used| > 0 by {
      if exists p :: p in info.allowedPositions && p < bufLen {
        var p :| p in info.allowedPositions && p < bufLen;
        assert p in used;
      }
    }
    ClippedRanges(used, info.cornerstoneLength, bufLen)
  }

  /** The XOR loop can run: some range is used, and none is longer than the
      first (the buffer receiving the XOR has the first range's length). */
  predicate Recomputable(info: SuiteInfo, bufLen: nat) {
    var rs := SuiteRanges(info, bufLen);
    |rs| > 0 && forall j :: 0 <= j < |rs| ==> rs[j].Length() <= rs[0].Length()
  }

  function ByteAt(v: Bytes, i: nat): byte {
    if i < |v| then v[i] else 0
  }

  /** Byte i of the XOR of all values; a value too short to have byte i
      contributes nothing to it. */
  function XorAt(values: seq<Bytes>, i: nat): byte {
    if |values| == 0 then 0 else XorAt(values[..|values| - 1], i) ^ ByteAt(values[|values| - 1], i)
  }

  /** Removing one value from the combination is XOR-ing it out. */
  lemma {:induction false} XorAtRemove(vs: seq<Bytes>, k: nat, i: nat)
    requires k < |vs|
    ensures XorAt(vs, i) == XorAt(vs[..k] + vs[k + 1..], i) ^ ByteAt(vs[k], i)
    decreases |vs|
  {
    var n := |vs|;
    if k == n - 1 {
      assert vs[..k] + vs[k + 1..] == vs[..n - 1];
    } else {
      var init := vs[..n - 1];
      XorAtRemove(init, k, i);
      var rest := init[..k] + init[k + 1..];
      Seqs.RemoveBeforeLast(vs, k);
      Seqs.SplitLast(rest, vs[n - 1]);
    }
  }

  /** Two lists whose XORs agree once a common value is taken out of each
      (from the end of a, from position k of b) have the same XOR. */
  lemma XorAtSameLast(a: seq<Bytes>, b: seq<Bytes>, k: nat, i: nat)
    requires |a| > 0 && k < |b| && b[k] == a[|a| - 1]
    requires XorAt(a[..|a| - 1], i) == XorAt(b[..k] + b[k + 1..], i)
    ensures XorAt(a, i) == XorAt(b, i)
  {
    XorAtRemove(b, k, i);
  }

  /** The recovered value does not depend on the order in which the ranges are
      combined. */
  lemma {:induction false} XorAtPermutation(a: seq<Bytes>, b: seq<Bytes>, i: nat)
    requires multiset(a) == multiset(b)
    ensures XorAt(a, i) == XorAt(b, i)
    decreases |a|
  {
    if |a| == 0 {
      assert |b| == |multiset(b)| == 0;
    } else {
      var k := Seqs.PermutationMatchLast(a, b);
      XorAtPermutation(a[..|a| - 1], b[..k] + b[k + 1..], i);
      XorAtSameLast(a, b, k, i);
    }
  }

  /** The Go XOR loop: a zero buffer as long as the first value, into which
      every byte of every value is XOR-ed at its index. */
  method XorCombine(values: seq<Bytes>) returns (x: Bytes)
    requires |values| > 0
    requires forall j :: 0 <= j < |values| ==> |values[j]| <= |values[0]|
    ensures |x| == |values[0]|
    ensures forall i :: 0 <= i < |x| ==> x[i] == XorAt(values, i)
    ensures |values| == 1 ==> x == values[0]
  {
    x := seq(|values[0]|, _ => 0 as byte);
    for j := 0 to |values|
      invariant |x| == |values[0]|
      invariant forall i :: 0 <= i < |x| ==> x[i] == XorAt(values[..j], i)
    {
      var v := values[j];
      assert values[..j + 1][..j] == values[..j];
      for i := 0 to |v|
        invariant |x| == |values[0]|
        invariant forall k :: 0 <= k < i ==> x[k] == XorAt(values[..j + 1], k)
        invariant forall k :: i <= k < |x| ==> x[k] == XorAt(values[..j], k)
      {
        x := x[i := x[i] ^ v[i]];
      }
    }
    assert values[..|values|] == values;
  }

  /** The bytes of every range, in order. */
  function RangeValues(bytes: Bytes, ranges: seq<ByteRange>): (values: seq<Bytes>)
    requires forall j :: 0 <= j < |ranges| ==> ranges[j].start <= ranges[j].end <= |bytes|
    ensures |values| == |ranges|
    ensures forall j :: 0 <= j < |ranges| ==> values[j] == bytes[ranges[j].start..ranges[j].end]
    ensures forall j :: 0 <= j < |ranges| ==> |values[j]| == ranges[j].Length()
  {
    seq(|ranges|, j requires 0 <= j < |ranges| => bytes[ranges[j].start..ranges[j].end])
  }

  /** What the rendering shows for one cornerstone. */
  datatype CornerstoneReport = CornerstoneReport(ranges: seq<ByteRange>, values: seq<Bytes>, recomputed: Bytes)

  /** The recomputation for cornerstone c over the serialised bytes. It fails
      where the Go code panics: the suite is missing from the map, no allowed
      position lies inside the buffer, or a range is longer than the first. */
  method RecomputeCornerstone(bytes: Bytes, infoMap: SuiteInfoMap, c: Cornerstone) returns (report: Option<CornerstoneReport>)
    ensures report.Some? <==> c.suiteName in infoMap && Recomputable(infoMap[c.suiteName], |bytes|)
    ensures report.Some? ==> report.value.ranges == SuiteRanges(infoMap[c.suiteName], |bytes|)
    ensures report.Some? ==> |report.value.values| == |report.value.ranges|
    ensures report.Some? ==> forall j :: 0 <= j < |report.value.ranges| ==>
      report.value.values[j] == bytes[report.value.ranges[j].start..report.value.ranges[j].end]
    ensures report.Some? ==> |report.value.recomputed| == report.value.ranges[0].Length()
    ensures report.Some? ==> forall i :: 0 <= i < |report.value.recomputed| ==>
      report.value.recomputed[i] == XorAt(report.value.values, i)
  {
    if c.suiteName !in infoMap {
      return None;
    }
    var info := infoMap[c.suiteName];
    var ranges := SuiteRanges(info, |bytes|);
    if |ranges| == 0 {
      return None;
    }
    var values := RangeValues(bytes, ranges);
    if exists j :: 0 <= j < |values| && |values[j]| > |values[0]| {
      return None;
    }
    var xor := XorCombine(values);
    report := Some(CornerstoneReport(ranges, values, xor));
  }

  /** Ascending allowed positions (as createInfo produces) never make the XOR
      loop overrun: the first used range is the least clipped one. */
  lemma AscendingPositionsRecomputable(info: SuiteInfo, bufLen: nat)
    requires StrictlyIncreasing(info.allowedPositions)
    requires exists p :: p in info.allowedPositions && p < bufLen
    ensures Recomputable(info, bufLen)
  {
    var used := UsedStarts(info.allowedPositions, bufLen);
    UsedStartsIncreasing(info.allowedPositions, bufLen);
    var rs := SuiteRanges(info, bufLen);
    assert rs == ClippedRanges(used, info.cornerstoneLength, bufLen);
    forall j | 0 <= j < |rs|
      ensures rs[j].Length() <= rs[0].Length()
    {
      if j > 0 {
        assert used[0] < used[j];
      }
    }
  }

  /** For every suite of createInfo and every buffer longer than the nonce, the
      recomputation succeeds: level 0 always lies inside the buffer. */
  lemma CreateInfoRecomputable(k: nat, n: nat, bufLen: nat)
    requires n >= 1 && Layout.AeadNonceLength < bufLen
    ensures Recomputable(SuiteInfo(Layout.AllowedPositions(k, n), Layout.CornerstoneLength), bufLen)
  {
    var ps := Layout.AllowedPositions(k, n);
    forall i, j | 0 <= i < j < |ps|
      ensures ps[i] < ps[j]
    {
      Layout.PositionsIncreasing(k, i, j);
    }
    Layout.LevelZeroShared(k);
    assert ps[0] in ps && ps[0] < bufLen;
    AscendingPositionsRecomputable(SuiteInfo(ps, Layout.CornerstoneLength), bufLen);
  }
}
