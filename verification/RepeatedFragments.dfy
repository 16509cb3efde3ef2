/** What the reassembly of IPv4 datagrams does when fragments arrive more than once
    (capture_packet_reasm_ip in src/capture.c): it compares two counters, and repeated
    fragments count again. */
module RepeatedFragments {
  import opened Common
  import opened Packets
  import opened KeyedLists
  import opened IpReassembly

  /** The content of the first `n` arrivals, where repeated fragments count again. */
  ghost function SumAll(cut: seq<Frame>, arr: seq<nat>, n: nat, hl: nat): nat
    requires n <= |arr| && InRange(arr, |cut|)
  {
    if n == 0 then 0 else SumAll(cut, arr, n - 1, hl) + ContentLen(cut[arr[n - 1]], hl)
  }

  lemma {:induction false} SumInSame(cut: seq<Frame>, a: seq<nat>, b: seq<nat>, n: nat, hl: nat)
    requires n <= |cut| && forall j :: j in a <==> j in b
    ensures SumIn(cut, a, n, hl) == SumIn(cut, b, n, hl)
  {
    if n > 0 {
      SumInSame(cut, a, b, n - 1, hl);
    }
  }

  lemma OneMoreDistinct(a: seq<nat>, x: nat)
    ensures Distinct(a + [x]) <==> Distinct(a) && x !in a
  {
    var r := a + [x];
    assert forall i :: 0 <= i < |a| ==> r[i] == a[i];
    if x in a {
      var i :| 0 <= i < |a| && a[i] == x;
      assert r[i] == r[|a|];
    }
  }

  /** Every arrival counts, so the count is too large exactly when one is repeated. */
  lemma {:induction false} SumAllAtLeast(d: Datagram, arr: seq<nat>, n: nat, hl: nat)
    requires Placed(d, hl) && InRange(arr, |d.cut|) && n <= |arr|
    ensures SumAll(d.cut, arr, n, hl) >= SumIn(d.cut, arr[..n], |d.cut|, hl)
    ensures SumAll(d.cut, arr, n, hl) == SumIn(d.cut, arr[..n], |d.cut|, hl) <==> Distinct(arr[..n])
  {
    LensOf(d, hl);
    if n == 0 {
      SumInBound(d.cut, arr[..0], |d.cut|, hl);
    } else {
      var a, x := arr[..n - 1], arr[n - 1];
      SumAllAtLeast(d, arr, n - 1, hl);
      assert arr[..n] == a + [x];
      OneMoreDistinct(a, x);
      if x in a {
        SumInSame(d.cut, a + [x], a, |d.cut|, hl);
      } else {
        SumInAdd(d.cut, a, x, |d.cut|, hl);
      }
    }
  }

  // ---------------------------------------------------------------------------
  // The packet that has taken the arrivals
  // ---------------------------------------------------------------------------

  ghost function Gathered(d: Datagram, arr: seq<nat>, n: nat, hl: nat): Pending
    requires WellCut(d, hl) && InRange(arr, |d.cut|) && n <= |arr| && arr != []
  {
    if n == 0 then
      assert PlacedAt(d, hl, arr[0]);
      Pending(d.key, Proto(d.cut[arr[0]], hl), [], 0, 0)
    else
      assert PlacedAt(d, hl, arr[n - 1]);
      AddFragment(Gathered(d, arr, n - 1, hl), d.cut[arr[n - 1]], hl)
  }

  /** What the last fragment of a datagram says about its length. */
  lemma EndOf(d: Datagram, i: nat, hl: nat)
    requires WellCut(d, hl) && i < |d.cut|
    ensures HasHeader(d.cut[i], hl) && (MoreFragments(d.cut[i], hl) <==> i < |d.cut| - 1)
    ensures i == |d.cut| - 1 ==> (FragOff(d.cut[i], hl) + ContentLen(d.cut[i], hl)) % UINT32_RANGE == |d.payload|
  {
    assert PlacedAt(d, hl, i);
    assert i == |d.cut| - 1 ==> OffTo(d.cut, |d.cut|, hl) == OffTo(d.cut, i, hl) + ContentLen(d.cut[i], hl);
  }

  lemma FramesMore(d: Datagram, arr: seq<nat>, n: nat)
    requires InRange(arr, |d.cut|) && 0 < n <= |arr|
    ensures FramesOf(d, arr)[..n] == FramesOf(d, arr)[..n - 1] + [d.cut[arr[n - 1]]]
    ensures arr[..n] == arr[..n - 1] + [arr[n - 1]]
  {
  }

  lemma {:induction false} GatheredIs(d: Datagram, arr: seq<nat>, n: nat, hl: nat)
    requires WellCut(d, hl) && InRange(arr, |d.cut|) && n <= |arr| && arr != []
    requires SumAll(d.cut, arr, n, hl) < UINT32_RANGE
    ensures var g := Gathered(d, arr, n, hl);
            && g.key == d.key && g.frames == FramesOf(d, arr)[..n] && g.cap == SumAll(d.cut, arr, n, hl)
            && g.exp == if |d.cut| - 1 in arr[..n] then |d.payload| else 0
  {
    if n > 0 {
      GatheredIs(d, arr, n - 1, hl);
      EndOf(d, arr[n - 1], hl);
      FramesMore(d, arr, n);
    }
  }

  lemma {:induction false} TotalIsAll(d: Datagram, arr: seq<nat>, n: nat, hl: nat, frames: seq<Frame>)
    requires InRange(arr, |d.cut|) && n <= |arr| && frames == FramesOf(d, arr)
    requires SumAll(d.cut, arr, n, hl) < UINT32_RANGE
    ensures TotalTo(frames, n, hl) == SumAll(d.cut, arr, n, hl)
  {
    if n > 0 {
      TotalIsAll(d, arr, n - 1, hl, frames);
    }
  }

  /** The two counters agree: the last fragment is there, and all arrivals together have
      the length of the datagram. */
  ghost predicate CountersAgree(d: Datagram, arr: seq<nat>, hl: nat)
    requires InRange(arr, |d.cut|)
  {
    |d.cut| - 1 in arr && SumAll(d.cut, arr, |arr|, hl) == |d.payload|
  }

  lemma AssemblesWhenCountersAgree(d: Datagram, arr: seq<nat>, hl: nat)
    requires WellCut(d, hl) && InRange(arr, |d.cut|) && arr != []
    requires SumAll(d.cut, arr, |arr|, hl) < UINT32_RANGE
    ensures Gathered(d, arr, |arr|, hl).frames == FramesOf(d, arr)
    ensures TotalTo(FramesOf(d, arr), |arr|, hl) == SumAll(d.cut, arr, |arr|, hl)
    ensures Assembles(Gathered(d, arr, |arr|, hl), hl) <==> CountersAgree(d, arr, hl)
  {
    GatheredIs(d, arr, |arr|, hl);
    TotalIsAll(d, arr, |arr|, hl, FramesOf(d, arr));
    assert arr[..|arr|] == arr && FramesOf(d, arr)[..|arr|] == FramesOf(d, arr);
    NotNothing(d, arr, |arr|, hl);
  }

  lemma NotNothing(d: Datagram, arr: seq<nat>, n: nat, hl: nat)
    requires Placed(d, hl) && InRange(arr, |d.cut|) && 0 < n <= |arr|
    ensures SumAll(d.cut, arr, n, hl) > 0
  {
    assert PlacedAt(d, hl, arr[n - 1]);
  }

  lemma AgreesWhenDistinct(d: Datagram, arr: seq<nat>, hl: nat)
    requires WellCut(d, hl) && InRange(arr, |d.cut|)
    ensures AllArrived(arr, |d.cut|) ==> (CountersAgree(d, arr, hl) <==> Distinct(arr))
    ensures !AllArrived(arr, |d.cut|) && CountersAgree(d, arr, hl) ==> !Distinct(arr)
  {
    LensOf(d, hl);
    SumInBound(d.cut, arr, |d.cut|, hl);
    SumAllAtLeast(d, arr, |arr|, hl);
    assert arr[..|arr|] == arr;
  }

  /** Completeness, exactly: whatever arrives and however often, the packet assembles
      exactly when the two counters agree.  With every fragment there, they agree exactly
      when none was repeated; without, only when one was. */
  lemma CompletenessExactly(d: Datagram, arr: seq<nat>, hl: nat)
    requires WellCut(d, hl) && InRange(arr, |d.cut|) && arr != []
    requires SumAll(d.cut, arr, |arr|, hl) < UINT32_RANGE
    ensures Assembles(Gathered(d, arr, |arr|, hl), hl) <==> CountersAgree(d, arr, hl)
    ensures AllArrived(arr, |d.cut|) ==> (Assembles(Gathered(d, arr, |arr|, hl), hl) <==> Distinct(arr))
    ensures !AllArrived(arr, |d.cut|) && Assembles(Gathered(d, arr, |arr|, hl), hl) ==> !Distinct(arr)
  {
    AssemblesWhenCountersAgree(d, arr, hl);
    AgreesWhenDistinct(d, arr, hl);
  }

  // ---------------------------------------------------------------------------
  // What is returned early
  // ---------------------------------------------------------------------------

  lemma FitsArrivals(d: Datagram, arr: seq<nat>, hl: nat, base: nat)
    requires WellCut(d, hl) && InRange(arr, |d.cut|) && base + |d.payload| <= MAX_CAPTURE_LEN
    requires TotalTo(FramesOf(d, arr), |arr|, hl) == |d.payload|
    ensures Fits(FramesOf(d, arr), hl, base, MAX_CAPTURE_LEN)
  {
    forall j | 0 <= j < |arr|
      ensures PlacedAt(d, hl, arr[j]) && CarriesAt(d, hl, arr[j])
    {
    }
  }

  /** The octet `p` of the datagram is in fragment `i`. */
  predicate InPart(d: Datagram, hl: nat, i: nat, p: nat)
    requires i < |d.cut|
  {
    OffTo(d.cut, i, hl) <= p < OffTo(d.cut, i + 1, hl)
  }

  /** A fragment is copied to its own part of the datagram. */
  lemma Apart(d: Datagram, i: nat, j: nat, hl: nat, p: nat)
    requires i < |d.cut| && j < |d.cut| && i != j && InPart(d, hl, i, p)
    ensures !InPart(d, hl, j, p)
  {
    if j < i {
      OffToGrows(d.cut, j + 1, i, hl);
    } else {
      OffToGrows(d.cut, i + 1, j, hl);
    }
  }

  /** The part of a fragment that did not arrive stays as it was cleared. */
  lemma {:induction false} HoleStays(d: Datagram, arr: seq<nat>, n: nat, hl: nat, base: nat, buf: seq<Byte>, i: nat,
                                     p: nat)
    requires WellCut(d, hl) && InRange(arr, |d.cut|) && n <= |arr| && i < |d.cut| && i !in arr
    requires |buf| == MAX_CAPTURE_LEN && Fits(FramesOf(d, arr), hl, base, MAX_CAPTURE_LEN)
    requires InPart(d, hl, i, p) && base + p < |buf|
    ensures BlitTo(buf, FramesOf(d, arr), n, hl, base)[base + p] == buf[base + p]
  {
    if n > 0 {
      HoleStays(d, arr, n - 1, hl, base, buf, i, p);
      assert arr[n - 1] in arr && PlacedAt(d, hl, arr[n - 1]);
      Apart(d, i, arr[n - 1], hl, p);
    }
  }

  /** The octets that are returned: those of the fragments that arrived, and zeros in the
      place of the others. */
  ghost predicate ReturnsWithHoles(out: Output, d: Datagram, arr: seq<nat>, base: nat, hl: nat) {
    && out.size == |d.payload| && base + out.size <= |out.buf|
    && forall i, p :: 0 <= i < |d.cut| && 0 <= p < |d.payload| && InPart(d, hl, i, p) ==>
         out.buf[base + p] == if i in arr then d.payload[p] else 0
  }

  lemma EarlyOctets(d: Datagram, arr: seq<nat>, hl: nat, base: nat, buf: seq<Byte>, i: nat, p: nat)
    requires WellCut(d, hl) && InRange(arr, |d.cut|) && base + |d.payload| <= MAX_CAPTURE_LEN == |buf|
    requires Fits(FramesOf(d, arr), hl, base, MAX_CAPTURE_LEN) && i < |d.cut| && p < |d.payload|
    requires InPart(d, hl, i, p)
    ensures BlitTo(Zeroed(buf, base + |d.payload|), FramesOf(d, arr), |arr|, hl, base)[base + p]
         == if i in arr then d.payload[p] else 0
  {
    var clear := Zeroed(buf, base + |d.payload|);
    if i in arr {
      var j :| 0 <= j < |arr| && arr[j] == i;
      BlitAgrees(d, arr, |arr|, hl, base, clear, p, j);
    } else {
      HoleStays(d, arr, |arr|, hl, base, clear, i, p);
    }
  }

  lemma EarlyBuffer(d: Datagram, arr: seq<nat>, hl: nat, base: nat, buf: seq<Byte>, out: Output)
    requires WellCut(d, hl) && InRange(arr, |d.cut|) && base + |d.payload| <= MAX_CAPTURE_LEN == |buf|
    requires Fits(FramesOf(d, arr), hl, base, MAX_CAPTURE_LEN) && out.size == |d.payload|
    requires out.buf == BlitTo(Zeroed(buf, base + |d.payload|), FramesOf(d, arr), |arr|, hl, base)
    ensures ReturnsWithHoles(out, d, arr, base, hl)
  {
    forall i, p | 0 <= i < |d.cut| && 0 <= p < |d.payload| && InPart(d, hl, i, p)
      ensures out.buf[base + p] == if i in arr then d.payload[p] else 0
    {
      EarlyOctets(d, arr, hl, base, buf, i, p);
    }
  }

  lemma EarlyResult(ps: seq<Pending>, d: Datagram, arr: seq<nat>, i: nat, hl: nat, buf: seq<Byte>, base: nat)
    requires WellCut(d, hl) && InRange(arr, |d.cut|) && arr != [] && i < |d.cut| && |d.cut| > 1
    requires |buf| == MAX_CAPTURE_LEN
    requires SumAll(d.cut, arr, |arr|, hl) < UINT32_RANGE && CountersAgree(d, arr, hl)
    requires HasHeader(d.cut[i], hl) && base == hl + IpHl(d.cut[i], hl)
    requires Gathered(d, arr, |arr|, hl) == AddFragment(Slot(ps, d.cut[i], hl), d.cut[i], hl)
    ensures base + |d.payload| <= |buf| && Fits(FramesOf(d, arr), hl, base, |buf|)
    ensures Safe(ps, d.cut[i], hl, |buf|)
    ensures Result(ps, d.cut[i], hl, buf)
         == Some(Output(Gathered(d, arr, |arr|, hl), |d.payload|,
                        BlitTo(Zeroed(buf, base + |d.payload|), FramesOf(d, arr), |arr|, hl, base)))
  {
    assert CarriesAt(d, hl, i);
    FragmentExactly(d, i, hl);
    AssemblesWhenCountersAgree(d, arr, hl);
    FitsArrivals(d, arr, hl, base);
    ResultIs(ps, d.cut[i], hl, buf, Gathered(d, arr, |arr|, hl), base, |d.payload|);
  }

  /** The call whose fragment makes the counters agree, whether or not all are there. */
  lemma ResultWithHoles(ps: seq<Pending>, d: Datagram, arr: seq<nat>, i: nat, hl: nat, buf: seq<Byte>)
    requires WellCut(d, hl) && InRange(arr, |d.cut|) && arr != [] && i < |d.cut| && |d.cut| > 1
    requires |buf| == MAX_CAPTURE_LEN
    requires SumAll(d.cut, arr, |arr|, hl) < UINT32_RANGE && CountersAgree(d, arr, hl)
    requires HasHeader(d.cut[i], hl)
    requires Gathered(d, arr, |arr|, hl) == AddFragment(Slot(ps, d.cut[i], hl), d.cut[i], hl)
    ensures Safe(ps, d.cut[i], hl, |buf|) && Result(ps, d.cut[i], hl, buf).Some?
    ensures ReturnsWithHoles(Result(ps, d.cut[i], hl, buf).value, d, arr, hl + IpHl(d.cut[i], hl), hl)
  {
    var base := hl + IpHl(d.cut[i], hl);
    EarlyResult(ps, d, arr, i, hl, buf, base);
    EarlyBuffer(d, arr, hl, base, buf, Result(ps, d.cut[i], hl, buf).value);
  }

  // ---------------------------------------------------------------------------
  // Feeding the arrivals
  // ---------------------------------------------------------------------------

  /** The pending packets after the first `n` arrivals of one datagram. */
  ghost function Feed(ps: seq<Pending>, d: Datagram, arr: seq<nat>, n: nat, hl: nat): seq<Pending>
    requires InRange(arr, |d.cut|) && n <= |arr|
  {
    if n == 0 then ps else NextPending(Feed(ps, d, arr, n - 1, hl), d.cut[arr[n - 1]], hl)
  }

  lemma NextSlot(ps: seq<Pending>, d: Datagram, arr: seq<nat>, n: nat, hl: nat)
    requires WellCut(d, hl) && InRange(arr, |d.cut|) && n < |arr|
    requires Lookup(ps, KeyIn, d.key) == if n == 0 then None else Some(Gathered(d, arr, n, hl))
    ensures HasHeader(d.cut[arr[n]], hl)
    ensures AddFragment(Slot(ps, d.cut[arr[n]], hl), d.cut[arr[n]], hl) == Gathered(d, arr, n + 1, hl)
  {
    assert PlacedAt(d, hl, arr[n]) && CarriesAt(d, hl, arr[n]);
  }

  /** As long as the counters do not agree, what is pending is what has arrived. */
  lemma {:induction false} FeedIs(ps: seq<Pending>, d: Datagram, arr: seq<nat>, n: nat, hl: nat)
    requires WellCut(d, hl) && InRange(arr, |d.cut|) && n <= |arr| && arr != [] && |d.cut| > 1
    requires UniqueKeys(ps, KeyIn) && Lookup(ps, KeyIn, d.key) == None
    requires SumAll(d.cut, arr, n, hl) < UINT32_RANGE
    requires forall m :: 0 < m <= n ==> !Assembles(Gathered(d, arr, m, hl), hl)
    ensures UniqueKeys(Feed(ps, d, arr, n, hl), KeyIn)
    ensures Lookup(Feed(ps, d, arr, n, hl), KeyIn, d.key) == if n == 0 then None else Some(Gathered(d, arr, n, hl))
  {
    if n > 0 {
      var qs := Feed(ps, d, arr, n - 1, hl);
      FeedIs(ps, d, arr, n - 1, hl);
      NextSlot(qs, d, arr, n - 1, hl);
      FragmentExactly(d, arr[n - 1], hl);
      GatheredIs(d, arr, n, hl);
      PutLookup(qs, KeyIn, Gathered(d, arr, n, hl), d.key);
    }
  }

  /** In every run of one datagram's fragments, with any repetitions, the first call that
      returns is the first one whose arrivals make the counters agree. */
  lemma FirstReturn(ps: seq<Pending>, d: Datagram, arr: seq<nat>, n: nat, hl: nat, buf: seq<Byte>)
    requires WellCut(d, hl) && InRange(arr, |d.cut|) && n < |arr| && |d.cut| > 1 && |buf| == MAX_CAPTURE_LEN
    requires UniqueKeys(ps, KeyIn) && Lookup(ps, KeyIn, d.key) == None
    requires SumAll(d.cut, arr, n + 1, hl) < UINT32_RANGE
    requires forall m :: 0 < m <= n ==> !Assembles(Gathered(d, arr, m, hl), hl)
    ensures var qs, f := Feed(ps, d, arr, n, hl), d.cut[arr[n]];
            && HasHeader(f, hl) && Safe(qs, f, hl, |buf|)
            && (Result(qs, f, hl, buf).Some? <==> CountersAgree(d, arr[..n + 1], hl))
            && (Result(qs, f, hl, buf).Some? ==>
                  ReturnsWithHoles(Result(qs, f, hl, buf).value, d, arr[..n + 1], hl + IpHl(f, hl), hl))
  {
    var qs, some := Feed(ps, d, arr, n, hl), arr[..n + 1];
    NextGathered(ps, qs, d, arr, n, some, hl);
    ReturnAt(qs, d, some, arr[n], hl, buf);
  }

  lemma NextGathered(ps: seq<Pending>, qs: seq<Pending>, d: Datagram, arr: seq<nat>, n: nat, some: seq<nat>, hl: nat)
    requires WellCut(d, hl) && InRange(arr, |d.cut|) && n < |arr| && |d.cut| > 1 && some == arr[..n + 1]
    requires UniqueKeys(ps, KeyIn) && Lookup(ps, KeyIn, d.key) == None && qs == Feed(ps, d, arr, n, hl)
    requires SumAll(d.cut, arr, n + 1, hl) < UINT32_RANGE
    requires forall m :: 0 < m <= n ==> !Assembles(Gathered(d, arr, m, hl), hl)
    ensures HasHeader(d.cut[arr[n]], hl) && SumAll(d.cut, some, |some|, hl) < UINT32_RANGE
    ensures Gathered(d, some, |some|, hl) == AddFragment(Slot(qs, d.cut[arr[n]], hl), d.cut[arr[n]], hl)
  {
    FeedIs(ps, d, arr, n, hl);
    NextSlot(qs, d, arr, n, hl);
    GatheredPrefix(d, arr, some, n + 1, hl);
  }

  /** The call for fragment `i`, whose packet then has taken the arrivals `arr`. */
  lemma ReturnAt(qs: seq<Pending>, d: Datagram, arr: seq<nat>, i: nat, hl: nat, buf: seq<Byte>)
    requires WellCut(d, hl) && InRange(arr, |d.cut|) && arr != [] && i < |d.cut| && |d.cut| > 1
    requires |buf| == MAX_CAPTURE_LEN && SumAll(d.cut, arr, |arr|, hl) < UINT32_RANGE && HasHeader(d.cut[i], hl)
    requires Gathered(d, arr, |arr|, hl) == AddFragment(Slot(qs, d.cut[i], hl), d.cut[i], hl)
    ensures Safe(qs, d.cut[i], hl, |buf|)
    ensures Result(qs, d.cut[i], hl, buf).Some? <==> CountersAgree(d, arr, hl)
    ensures Result(qs, d.cut[i], hl, buf).Some? ==>
              ReturnsWithHoles(Result(qs, d.cut[i], hl, buf).value, d, arr, hl + IpHl(d.cut[i], hl), hl)
  {
    AssemblesWhenCountersAgree(d, arr, hl);
    FragmentExactly(d, i, hl);
    if CountersAgree(d, arr, hl) {
      ResultWithHoles(qs, d, arr, i, hl, buf);
    } else {
      NoResult(qs, d.cut[i], hl, buf, Gathered(d, arr, |arr|, hl));
    }
  }

  lemma {:induction false} GatheredPrefix(d: Datagram, a: seq<nat>, b: seq<nat>, n: nat, hl: nat)
    requires WellCut(d, hl) && InRange(a, |d.cut|) && InRange(b, |d.cut|) && n <= |a| && n <= |b| && a != [] && b != []
    requires a[0] == b[0] && forall i :: 0 <= i < n ==> a[i] == b[i]
    ensures Gathered(d, a, n, hl) == Gathered(d, b, n, hl) && SumAll(d.cut, a, n, hl) == SumAll(d.cut, b, n, hl)
  {
    if n > 0 {
      GatheredPrefix(d, a, b, n - 1, hl);
    }
  }

  // ---------------------------------------------------------------------------
  // An example
  // ---------------------------------------------------------------------------

  /** A frame of twenty header octets and eight octets of content. */
  function FragmentFrame(more: bool, offset: Byte, data: seq<Byte>): (f: Frame)
    ensures |f| == 20 + |data|
  {
    [69, 0, 0, 28, 0, 1, if more then 32 else 0, offset, 64, 17, 0, 0, 10, 0, 0, 1, 10, 0, 0, 2] + data
  }

  const ONES: seq<Byte> := [1, 1, 1, 1, 1, 1, 1, 1]

  const EXAMPLE: Datagram :=
    Datagram(Key([10, 0, 0, 1], [10, 0, 0, 2], 1), ONES + ONES + ONES,
             [FragmentFrame(true, 0, ONES), FragmentFrame(true, 1, ONES), FragmentFrame(false, 2, ONES)])

  lemma FrameFacts(more: bool, offset: Byte, f: Frame)
    requires f == FragmentFrame(more, offset, ONES)
    ensures Accepted(f, 0) && IpHl(f, 0) == 20 && ContentLen(f, 0) == 8 && Proto(f, 0) == 17
    ensures (MoreFragments(f, 0) <==> more) && FragOff(f, 0) == offset * 8
    ensures KeyOf(f, 0) == EXAMPLE.key && Content(f, 0) == ONES
  {
    var flags: int := f[6];
    assert U16(f, 6) == flags * 256 + offset;
  }

  lemma ExampleOffsets()
    ensures OffTo(EXAMPLE.cut, 0, 0) == 0 && OffTo(EXAMPLE.cut, 1, 0) == 8
    ensures OffTo(EXAMPLE.cut, 2, 0) == 16 && OffTo(EXAMPLE.cut, 3, 0) == 24
  {
    FrameFacts(true, 0, EXAMPLE.cut[0]);
    FrameFacts(true, 1, EXAMPLE.cut[1]);
    FrameFacts(false, 2, EXAMPLE.cut[2]);
  }

  lemma ExampleFragment(i: nat)
    requires i < 3
    ensures PlacedAt(EXAMPLE, 0, i) && CarriesAt(EXAMPLE, 0, i)
  {
    ExampleOffsets();
    var data := EXAMPLE.payload;
    assert data[0..8] == ONES && data[8..16] == ONES && data[16..24] == ONES;
    FrameFacts(i < 2, i, EXAMPLE.cut[i]);
  }

  lemma ExampleIsWellCut()
    ensures WellCut(EXAMPLE, 0)
  {
    ExampleOffsets();
    forall i | 0 <= i < 3
      ensures PlacedAt(EXAMPLE, 0, i) && CarriesAt(EXAMPLE, 0, i)
    {
      ExampleFragment(i);
    }
  }

  lemma ExampleSums(arr: seq<nat>)
    requires arr == [0, 0, 2]
    ensures SumAll(EXAMPLE.cut, arr, 1, 0) == 8 && SumAll(EXAMPLE.cut, arr, 2, 0) == 16
    ensures SumAll(EXAMPLE.cut, arr, 3, 0) == 24
  {
    FrameFacts(true, 0, EXAMPLE.cut[0]);
    FrameFacts(false, 2, EXAMPLE.cut[2]);
  }

  lemma ExamplePending(arr: seq<nat>, m: nat)
    requires arr == [0, 0, 2] && 0 < m <= 2
    ensures WellCut(EXAMPLE, 0) && !Assembles(Gathered(EXAMPLE, arr, m, 0), 0)
  {
    ExampleIsWellCut();
    ExampleSums(arr);
    GatheredIs(EXAMPLE, arr, m, 0);
    assert arr[..m] == if m == 1 then [0] else [0, 0];
  }

  lemma ExampleAgrees(arr: seq<nat>)
    requires arr == [0, 0, 2]
    ensures CountersAgree(EXAMPLE, arr, 0)
  {
    ExampleSums(arr);
    assert arr[2] in arr;
  }

  lemma ExampleReturns(arr: seq<nat>, qs: seq<Pending>, buf: seq<Byte>)
    requires arr == [0, 0, 2] && qs == Feed([], EXAMPLE, arr, 2, 0) && |buf| == MAX_CAPTURE_LEN
    ensures Safe(qs, EXAMPLE.cut[2], 0, |buf|) && Result(qs, EXAMPLE.cut[2], 0, buf).Some?
    ensures ReturnsWithHoles(Result(qs, EXAMPLE.cut[2], 0, buf).value, EXAMPLE, arr, 20, 0)
  {
    ExamplePending(arr, 1);
    ExamplePending(arr, 2);
    ExampleSums(arr);
    ExampleAgrees(arr);
    FrameFacts(false, 2, EXAMPLE.cut[2]);
    assert arr[..3] == arr;
    FirstReturn([], EXAMPLE, arr, 2, 0, buf);
  }

  lemma HoleAt(out: Output, d: Datagram, arr: seq<nat>, base: nat, hl: nat, i: nat, p: nat)
    requires ReturnsWithHoles(out, d, arr, base, hl) && i < |d.cut| && p < |d.payload| && InPart(d, hl, i, p)
    requires i !in arr
    ensures out.buf[base + p] == 0
  {
  }

  /** The second eight octets behind the header are zeros. */
  predicate HasHole(out: Output) {
    out.size == 24 && 44 <= |out.buf| && forall k :: 28 <= k < 36 ==> out.buf[k] == 0
  }

  lemma ExampleHoleAt(out: Output, arr: seq<nat>, p: nat)
    requires ReturnsWithHoles(out, EXAMPLE, arr, 20, 0) && arr == [0, 0, 2] && 8 <= p < 16
    ensures out.size == 24 && 44 <= |out.buf| && out.buf[20 + p] == 0
  {
    ExampleOffsets();
    var d := EXAMPLE;
    assert |d.cut| == 3 && |d.payload| == 24 && 1 !in arr;
    assert InPart(d, 0, 1, p);
    HoleAt(out, d, arr, 20, 0, 1, p);
  }

  lemma ExampleHole(out: Output, arr: seq<nat>)
    requires ReturnsWithHoles(out, EXAMPLE, arr, 20, 0) && arr == [0, 0, 2]
    ensures HasHole(out)
  {
    ExampleHoleAt(out, arr, 8);
    forall k | 28 <= k < 36
      ensures out.buf[k] == 0
    {
      ExampleHoleAt(out, arr, k - 20);
    }
  }

  lemma OnesHaveNoZero(data: seq<Byte>, p: nat)
    requires data == ONES + ONES + ONES && p < |data|
    ensures data[p] == 1
  {
    assert forall i :: 0 <= i < 8 ==> ONES[i] == 1;
  }

  /** With the first fragment twice and the last one, three times eight octets have
      arrived: the datagram is returned with zeros in the place of the second fragment,
      which never came. */
  lemma RepeatedFragmentLeavesHole(qs: seq<Pending>, buf: seq<Byte>)
    requires qs == Feed([], EXAMPLE, [0, 0, 2], 2, 0) && |buf| == MAX_CAPTURE_LEN
    ensures WellCut(EXAMPLE, 0) && Safe(qs, EXAMPLE.cut[2], 0, |buf|) && Result(qs, EXAMPLE.cut[2], 0, buf).Some?
    ensures HasHole(Result(qs, EXAMPLE.cut[2], 0, buf).value) && 0 !in EXAMPLE.payload
  {
    ExampleIsWellCut();
    ExampleReturns([0, 0, 2], qs, buf);
    ExampleHole(Result(qs, EXAMPLE.cut[2], 0, buf).value, [0, 0, 2]);
    var data := EXAMPLE.payload;
    forall p | 0 <= p < |data|
      ensures data[p] == 1
    {
      OnesHaveNoZero(data, p);
    }
  }
}
