/** Runs in which fragments of several datagrams arrive in any order and any number of times
    (capture_packet_reasm_ip in src/capture.c). */
module RepeatedRuns {
  import opened Common
  import opened Packets
  import opened KeyedLists
  import opened IpReassembly
  import opened RepeatedFragments

  /** The arrivals of a datagram, without those that made the counters agree: a return
      begins the count anew. */
  ghost function Rest(d: Datagram, arr: seq<nat>, hl: nat): seq<nat> {
    if InRange(arr, |d.cut|) && CountersAgree(d, arr, hl) then [] else arr
  }

  /** The arrivals of datagram `d` since it was last returned. */
  ghost function Since(ds: seq<Datagram>, past: seq<Event>, d: nat, hl: nat): seq<nat>
    requires d < |ds|
  {
    if past == [] then []
    else
      var n := |past| - 1;
      var arr := Since(ds, past[..n], d, hl);
      if past[n].d == d then Rest(ds[d], arr + [past[n].i], hl) else arr
  }

  lemma SinceMore(ds: seq<Datagram>, past: seq<Event>, e: Event, d: nat, hl: nat)
    requires d < |ds|
    ensures var arr := Since(ds, past, d, hl);
            Since(ds, past + [e], d, hl) == if e.d == d then Rest(ds[d], arr + [e.i], hl) else arr
  {
    assert (past + [e])[..|past|] == past;
  }

  /** The arrivals of the event's datagram, with its own. */
  ghost function Now(ds: seq<Datagram>, past: seq<Event>, e: Event, hl: nat): seq<nat>
    requires IsEvent(ds, e)
  {
    Since(ds, past, e.d, hl) + [e.i]
  }

  /** The event is a fragment of a datagram, and the 32-bit counter does not wrap around. */
  ghost predicate Counts(ds: seq<Datagram>, past: seq<Event>, e: Event, hl: nat) {
    IsEvent(ds, e) && Sum(ds[e.d], Now(ds, past, e, hl), hl) < UINT32_RANGE
  }

  ghost function Counting(ds: seq<Datagram>, hl: nat): (Progress, Event) -> bool {
    (g: Progress, e: Event) => Counts(ds, g.past, e, hl)
  }

  /** The content of all arrivals, where repeated fragments count again. */
  ghost function Sum(d: Datagram, arr: seq<nat>, hl: nat): nat {
    if InRange(arr, |d.cut|) then SumAll(d.cut, arr, |arr|, hl) else 0
  }

  /** What is pending for a datagram that has taken the arrivals `arr`. */
  ghost function Waiting(d: Datagram, arr: seq<nat>, hl: nat): Option<Pending>
    requires WellCut(d, hl) && InRange(arr, |d.cut|)
  {
    if arr == [] then None else Some(Gathered(d, arr, |arr|, hl))
  }

  // ---------------------------------------------------------------------------
  // One event
  // ---------------------------------------------------------------------------

  lemma WholeAgrees(d: Datagram, hl: nat, arr: seq<nat>)
    requires WellCut(d, hl) && |d.cut| == 1 && arr == [0]
    ensures CountersAgree(d, arr, hl)
  {
    assert OffTo(d.cut, 0, hl) == 0 && OffTo(d.cut, 1, hl) == ContentLen(d.cut[0], hl);
    assert SumAll(d.cut, arr, 0, hl) == 0 && SumAll(d.cut, arr, 1, hl) == ContentLen(d.cut[0], hl);
  }

  /** The packet with one more arrival. */
  lemma OneMoreGathered(ps: seq<Pending>, d: Datagram, arr: seq<nat>, i: nat, hl: nat, all: seq<nat>)
    requires WellCut(d, hl) && InRange(arr, |d.cut|) && i < |d.cut| && all == arr + [i] && InRange(all, |d.cut|)
    requires Lookup(ps, KeyIn, d.key) == Waiting(d, arr, hl)
    ensures HasHeader(d.cut[i], hl)
    ensures AddFragment(Slot(ps, d.cut[i], hl), d.cut[i], hl) == Gathered(d, all, |all|, hl)
  {
    assert PlacedAt(d, hl, i) && CarriesAt(d, hl, i) && all[|arr|] == i;
    if arr != [] {
      GatheredPrefix(d, arr, all, |arr|, hl);
    }
  }

  lemma OwnStep(ps: seq<Pending>, d: Datagram, arr: seq<nat>, i: nat, hl: nat, all: seq<nat>)
    requires WellCut(d, hl) && InRange(arr, |d.cut|) && i < |d.cut| && all == arr + [i] && InRange(all, |d.cut|)
    requires UniqueKeys(ps, KeyIn) && Lookup(ps, KeyIn, d.key) == Waiting(d, arr, hl) && |d.cut| > 1
    requires Sum(d, all, hl) < UINT32_RANGE
    ensures var next := NextPending(ps, d.cut[i], hl);
            UniqueKeys(next, KeyIn) && Lookup(next, KeyIn, d.key) == Waiting(d, Rest(d, all, hl), hl)
  {
    OneMoreGathered(ps, d, arr, i, hl, all);
    FragmentExactly(d, i, hl);
    AssemblesWhenCountersAgree(d, all, hl);
    GatheredIs(d, all, |all|, hl);
    PutLookup(ps, KeyIn, Gathered(d, all, |all|, hl), d.key);
    DropLookup(ps, KeyIn, d.key, d.key);
  }

  /** A fragment of another datagram changes nothing. */
  lemma OtherStep(ps: seq<Pending>, d: Datagram, i: nat, hl: nat, key: Key)
    requires WellCut(d, hl) && i < |d.cut| && UniqueKeys(ps, KeyIn) && key != d.key
    ensures UniqueKeys(NextPending(ps, d.cut[i], hl), KeyIn)
    ensures Lookup(NextPending(ps, d.cut[i], hl), KeyIn, key) == Lookup(ps, KeyIn, key)
  {
    assert PlacedAt(d, hl, i) && CarriesAt(d, hl, i);
    OtherKeyStays(ps, d.cut[i], hl, key);
  }

  lemma OtherKeyStays(ps: seq<Pending>, f: Frame, hl: nat, key: Key)
    requires HasHeader(f, hl) && UniqueKeys(ps, KeyIn) && key != KeyOf(f, hl)
    ensures UniqueKeys(NextPending(ps, f, hl), KeyIn)
    ensures Lookup(NextPending(ps, f, hl), KeyIn, key) == Lookup(ps, KeyIn, key)
  {
    var p := AddFragment(Slot(ps, f, hl), f, hl);
    SlotKey(ps, f, hl);
    OtherStays(ps, p, key);
    NextIs(ps, f, hl, p);
  }

  lemma OtherStays(ps: seq<Pending>, p: Pending, key: Key)
    requires UniqueKeys(ps, KeyIn) && key != p.key
    ensures UniqueKeys(Put(ps, KeyIn, p), KeyIn) && UniqueKeys(Drop(ps, KeyIn, p.key), KeyIn)
    ensures Lookup(Put(ps, KeyIn, p), KeyIn, key) == Lookup(ps, KeyIn, key)
    ensures Lookup(Drop(ps, KeyIn, p.key), KeyIn, key) == Lookup(ps, KeyIn, key)
  {
    PutLookup(ps, KeyIn, p, key);
    DropLookup(ps, KeyIn, p.key, key);
  }

  lemma NextIs(ps: seq<Pending>, f: Frame, hl: nat, p: Pending)
    requires HasHeader(f, hl) && p == AddFragment(Slot(ps, f, hl), f, hl)
    ensures NextPending(ps, f, hl) in {ps, Put(ps, KeyIn, p), Drop(ps, KeyIn, p.key)}
  {
  }

  lemma SlotKey(ps: seq<Pending>, f: Frame, hl: nat)
    requires HasHeader(f, hl)
    ensures Slot(ps, f, hl).key == KeyOf(f, hl)
  {
  }

  lemma WholeStep(ps: seq<Pending>, d: Datagram, hl: nat)
    requires WellCut(d, hl) && |d.cut| == 1
    ensures NextPending(ps, d.cut[0], hl) == ps
  {
    assert CarriesAt(d, hl, 0);
    FragmentExactly(d, 0, hl);
  }

  // ---------------------------------------------------------------------------
  // Runs
  // ---------------------------------------------------------------------------

  /** What is pending for a datagram is what has arrived of it since it was last returned. */
  ghost predicate Holds(ps: seq<Pending>, d: Datagram, arr: seq<nat>, hl: nat)
    requires WellCut(d, hl)
  {
    && InRange(arr, |d.cut|) && UniqueKeys(ps, KeyIn) && Lookup(ps, KeyIn, d.key) == Waiting(d, arr, hl)
    && (|d.cut| == 1 ==> arr == [])
  }

  ghost predicate Follows(ds: seq<Datagram>, g: Progress, d: nat, hl: nat) {
    d < |ds| && WellCut(ds[d], hl) && Holds(g.pending, ds[d], Since(ds, g.past, d, hl), hl)
  }

  ghost function Following(ds: seq<Datagram>, d: nat, hl: nat): Progress -> bool {
    (g: Progress) => Follows(ds, g, d, hl)
  }

  lemma StepIs(ds: seq<Datagram>, ps: seq<Pending>, e: Event, hl: nat, d: nat, arr: seq<nat>, rest: seq<nat>)
    requires Sane(ds, hl) && IsEvent(ds, e) && d < |ds| && Holds(ps, ds[d], arr, hl)
    requires rest == if e.d == d then Rest(ds[d], arr + [e.i], hl) else arr
    requires e.d == d ==> Sum(ds[d], arr + [e.i], hl) < UINT32_RANGE
    ensures Holds(NextPending(ps, FrameOf(ds, e), hl), ds[d], rest, hl)
  {
    if e.d != d {
      OtherStep(ps, ds[e.d], e.i, hl, ds[d].key);
    } else if |ds[d].cut| == 1 {
      WholeStep(ps, ds[d], hl);
      WholeAgrees(ds[d], hl, arr + [e.i]);
    } else {
      OwnStep(ps, ds[d], arr, e.i, hl, arr + [e.i]);
    }
  }

  lemma StepFollows(ds: seq<Datagram>, g: Progress, e: Event, d: nat, hl: nat)
    requires Sane(ds, hl) && Follows(ds, g, d, hl) && Counts(ds, g.past, e, hl)
    ensures Follows(ds, Progress(NextPending(g.pending, FrameOf(ds, e), hl), g.past + [e]), d, hl)
  {
    SinceMore(ds, g.past, e, d, hl);
    StepIs(ds, g.pending, e, hl, d, Since(ds, g.past, d, hl), Since(ds, g.past + [e], d, hl));
  }

  lemma StartFollows(ds: seq<Datagram>, d: nat, hl: nat)
    requires Sane(ds, hl) && d < |ds|
    ensures Follows(ds, START, d, hl)
  {
  }

  /** In every run, whatever else arrives. */
  lemma PendingIs(ds: seq<Datagram>, evs: seq<Event>, n: nat, hl: nat, d: nat)
    requires Sane(ds, hl) && n <= |evs| && AllOk(START, evs, n, Step(ds, hl), Counting(ds, hl)) && d < |ds|
    ensures Follows(ds, RunTo(ds, evs, n, hl), d, hl)
  {
    forall g, e | Following(ds, d, hl)(g) && Counting(ds, hl)(g, e)
      ensures Following(ds, d, hl)(Step(ds, hl)(g, e))
    {
      StepFollows(ds, g, e, d, hl);
    }
    StartFollows(ds, d, hl);
    assert Following(ds, d, hl)(START);
    RunKeeps(START, evs, n, Step(ds, hl), Counting(ds, hl), Following(ds, d, hl));
    assert Following(ds, d, hl)(RunTo(ds, evs, n, hl));
  }

  /** In every run, with any interleaving and any repetitions, a call returns exactly when
      the arrivals since the last return of its datagram make the counters agree; it then
      returns their octets, and zeros in place of the missing ones. */
  lemma EveryReturn(ds: seq<Datagram>, evs: seq<Event>, n: nat, hl: nat, buf: seq<Byte>)
    requires Sane(ds, hl) && n < |evs| && AllOk(START, evs, n + 1, Step(ds, hl), Counting(ds, hl))
    requires |buf| == MAX_CAPTURE_LEN && FrameOf(ds, evs[n]) <= buf
    ensures IsEvent(ds, evs[n]) && InRange(Now(ds, evs[..n], evs[n], hl), |ds[evs[n].d].cut|)
    ensures var ps, f, d := RunTo(ds, evs, n, hl).pending, FrameOf(ds, evs[n]), ds[evs[n].d];
            var arr := Now(ds, evs[..n], evs[n], hl);
            && HasHeader(f, hl) && Safe(ps, f, hl, |buf|)
            && (Result(ps, f, hl, buf).Some? <==> CountersAgree(d, arr, hl))
            && (Result(ps, f, hl, buf).Some? ==>
                  ReturnsWithHoles(Result(ps, f, hl, buf).value, d, arr, hl + IpHl(f, hl), hl))
  {
    var e, g := evs[n], RunTo(ds, evs, n, hl);
    assert Counting(ds, hl)(g, e);
    PastIs(ds, evs, n, hl);
    PendingIs(ds, evs, n, hl, e.d);
    CallReturnsWithHoles(g.pending, ds[e.d], Since(ds, g.past, e.d, hl), e.i, hl, buf, Now(ds, g.past, e, hl));
  }

  lemma CallReturnsWithHoles(ps: seq<Pending>, d: Datagram, arr: seq<nat>, i: nat, hl: nat, buf: seq<Byte>,
                             all: seq<nat>)
    requires WellCut(d, hl) && InRange(arr, |d.cut|) && i < |d.cut| && all == arr + [i] && InRange(all, |d.cut|)
    requires Lookup(ps, KeyIn, d.key) == Waiting(d, arr, hl) && (|d.cut| == 1 ==> arr == [])
    requires Sum(d, all, hl) < UINT32_RANGE && |buf| == MAX_CAPTURE_LEN && d.cut[i] <= buf
    ensures HasHeader(d.cut[i], hl) && Safe(ps, d.cut[i], hl, |buf|)
    ensures Result(ps, d.cut[i], hl, buf).Some? <==> CountersAgree(d, all, hl)
    ensures Result(ps, d.cut[i], hl, buf).Some? ==>
              ReturnsWithHoles(Result(ps, d.cut[i], hl, buf).value, d, all, hl + IpHl(d.cut[i], hl), hl)
  {
    if |d.cut| == 1 {
      WholeReturns(ps, d, hl, buf, all);
    } else {
      OneMoreGathered(ps, d, arr, i, hl, all);
      ReturnAt(ps, d, all, i, hl, buf);
    }
  }

  lemma WholeReturns(ps: seq<Pending>, d: Datagram, hl: nat, buf: seq<Byte>, all: seq<nat>)
    requires WellCut(d, hl) && |d.cut| == 1 && all == [0] && |buf| == MAX_CAPTURE_LEN && d.cut[0] <= buf
    ensures HasHeader(d.cut[0], hl) && Safe(ps, d.cut[0], hl, |buf|) && CountersAgree(d, all, hl)
    ensures Result(ps, d.cut[0], hl, buf).Some?
    ensures ReturnsWithHoles(Result(ps, d.cut[0], hl, buf).value, d, all, hl + IpHl(d.cut[0], hl), hl)
  {
    WholeAgrees(d, hl, all);
    FragmentExactly(d, 0, hl);
    WholeDatagram(d, [], hl, buf);
    var out, base := Result(ps, d.cut[0], hl, buf).value, hl + IpHl(d.cut[0], hl);
    DeliveredHasNoHoles(out, d, d.cut[0], hl, all, base);
  }

  lemma DeliveredHasNoHoles(out: Output, d: Datagram, f: Frame, hl: nat, all: seq<nat>, base: nat)
    requires HasHeader(f, hl) && Delivers(out, d, f, hl) && base == hl + IpHl(f, hl) && |d.cut| == 1 && all == [0]
    ensures ReturnsWithHoles(out, d, all, base, hl)
  {
    forall i, p | 0 <= i < |d.cut| && 0 <= p < |d.payload| && InPart(d, hl, i, p)
      ensures out.buf[base + p] == if i in all then d.payload[p] else 0
    {
      assert out.buf[base..base + out.size][p] == out.buf[base + p];
    }
  }

  /** Once more octets have arrived than the datagram has, nothing that arrives makes the
      counters agree, until they wrap around. */
  lemma {:induction false} TooMuchNeverAgrees(d: Datagram, arr: seq<nat>, n: nat, hl: nat)
    requires InRange(arr, |d.cut|) && n <= |arr| && SumAll(d.cut, arr, n, hl) > |d.payload|
    ensures !CountersAgree(d, arr, hl) && Sum(d, arr, hl) > |d.payload|
  {
    SumAllGrows(d.cut, arr, n, |arr|, hl);
  }

  lemma {:induction false} SumAllGrows(cut: seq<Frame>, arr: seq<nat>, m: nat, n: nat, hl: nat)
    requires m <= n <= |arr| && InRange(arr, |cut|)
    ensures SumAll(cut, arr, m, hl) <= SumAll(cut, arr, n, hl)
  {
    if m < n {
      SumAllGrows(cut, arr, m, n - 1, hl);
    }
  }
}
