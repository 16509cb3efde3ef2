/** Reassembly of fragmented IPv4 datagrams (capture_packet_reasm_ip in
    src/capture.c, section 3.2 of RFC 791). */
module IpReassembly {
  import opened Common
  import opened Packets
  import opened KeyedLists

  const MAX_CAPTURE_LEN: nat := 20480
  const IP_HEADER_LEN: nat := 20
  const IPPROTO_IPIP: nat := 4
  const UINT32_RANGE: nat := 0x1_0000_0000

  // ---------------------------------------------------------------------------
  // Header fields, read from the frame behind a link header of `hl` octets
  // ---------------------------------------------------------------------------

  predicate HasHeader(f: Frame, hl: nat) {
    hl + IP_HEADER_LEN <= |f|
  }

  function U16(f: Frame, i: nat): (r: nat)
    requires i + 2 <= |f|
    ensures r < 0x10000
  {
    var high: int := f[i];
    high * 256 + f[i + 1]
  }

  function Version(f: Frame, hl: nat): nat
    requires HasHeader(f, hl)
  {
    f[hl] / 16
  }

  function IpHl(f: Frame, hl: nat): (r: nat)
    requires HasHeader(f, hl)
    ensures r <= 60
  {
    f[hl] % 16 * 4
  }

  function IpLen(f: Frame, hl: nat): nat
    requires HasHeader(f, hl)
  {
    U16(f, hl + 2)
  }

  function IpId(f: Frame, hl: nat): nat
    requires HasHeader(f, hl)
  {
    U16(f, hl + 4)
  }

  function MoreFragments(f: Frame, hl: nat): bool
    requires HasHeader(f, hl)
  {
    U16(f, hl + 6) / 0x2000 % 2 == 1
  }

  /** Byte offset of the fragment. */
  function FragOff(f: Frame, hl: nat): nat
    requires HasHeader(f, hl)
  {
    U16(f, hl + 6) % 0x2000 * 8
  }

  /** The `ip_frag` test: any bit set in the flag and offset mask. */
  predicate IsFragment(f: Frame, hl: nat)
    requires HasHeader(f, hl)
  {
    U16(f, hl + 6) % 0x4000 != 0
  }

  lemma IsFragmentIff(f: Frame, hl: nat)
    requires HasHeader(f, hl)
    ensures IsFragment(f, hl) <==> MoreFragments(f, hl) || FragOff(f, hl) > 0
  {
  }

  function Proto(f: Frame, hl: nat): Byte
    requires HasHeader(f, hl)
  {
    f[hl + 9]
  }

  /** What identifies a datagram: source, destination and identification. */
  datatype Key = Key(src: seq<Byte>, dst: seq<Byte>, id: nat)

  function KeyOf(f: Frame, hl: nat): Key
    requires HasHeader(f, hl)
  {
    Key(f[hl + 12..hl + 16], f[hl + 16..hl + 20], IpId(f, hl))
  }

  /** Octets behind the IP header, by the header's own account, in the source's
      32-bit arithmetic. */
  function ContentLen(f: Frame, hl: nat): (r: nat)
    ensures r < UINT32_RANGE
  {
    if HasHeader(f, hl) then (IpLen(f, hl) - IpHl(f, hl)) % UINT32_RANGE else 0
  }

  // ---------------------------------------------------------------------------
  // One step of the reassembler
  // ---------------------------------------------------------------------------

  /** A packet under reassembly. */
  datatype Pending = Pending(key: Key, proto: Byte, frames: seq<Frame>, cap: nat, exp: nat)

  function KeyIn(p: Pending): Key {
    p.key
  }

  /** The frame is one the reassembler looks at. */
  predicate Accepted(f: Frame, hl: nat) {
    HasHeader(f, hl) && Version(f, hl) == 4 && hl + IpLen(f, hl) <= MAX_CAPTURE_LEN
  }

  /** A pending packet with one more fragment. */
  function AddFragment(p: Pending, f: Frame, hl: nat): Pending
    requires HasHeader(f, hl)
  {
    Pending(p.key, p.proto, p.frames + [f], (p.cap + ContentLen(f, hl)) % UINT32_RANGE,
            if MoreFragments(f, hl) then p.exp else (FragOff(f, hl) + ContentLen(f, hl)) % UINT32_RANGE)
  }

  /** The content length of the first `n` frames. */
  function TotalTo(frames: seq<Frame>, n: nat, hl: nat): (r: nat)
    requires n <= |frames|
    ensures r < UINT32_RANGE
  {
    if n == 0 then 0 else (TotalTo(frames, n - 1, hl) + ContentLen(frames[n - 1], hl)) % UINT32_RANGE
  }

  /** The memory accesses of the assembly stay inside the frames and the packet
      buffer. */
  predicate Fits(frames: seq<Frame>, hl: nat, base: nat, room: nat) {
    && (forall i :: 0 <= i < |frames| ==> HasHeader(frames[i], hl))
    && base + TotalTo(frames, |frames|, hl) <= room
    && forall i :: 0 <= i < |frames| ==>
         hl + IpHl(frames[i], hl) + ContentLen(frames[i], hl) <= |frames[i]|
         && base + FragOff(frames[i], hl) + ContentLen(frames[i], hl) <= room
  }

  function Content(f: Frame, hl: nat): seq<Byte>
    requires HasHeader(f, hl) && hl + IpHl(f, hl) + ContentLen(f, hl) <= |f|
  {
    f[hl + IpHl(f, hl)..hl + IpHl(f, hl) + ContentLen(f, hl)]
  }

  /** `buf` with `data` copied to `at`. */
  function Write(buf: seq<Byte>, at: nat, data: seq<Byte>): (r: seq<Byte>)
    requires at + |data| <= |buf|
    ensures |r| == |buf|
    ensures forall i :: 0 <= i < |buf| ==> r[i] == if at <= i < at + |data| then data[i - at] else buf[i]
  {
    buf[..at] + data + buf[at + |data|..]
  }

  /** The packet buffer after the content of the first `n` frames was copied to its
      offsets behind `base`. */
  function BlitTo(buf: seq<Byte>, frames: seq<Frame>, n: nat, hl: nat, base: nat): (r: seq<Byte>)
    requires n <= |frames| && Fits(frames, hl, base, |buf|)
    ensures |r| == |buf|
  {
    if n == 0 then buf
    else Write(BlitTo(buf, frames, n - 1, hl, base), base + FragOff(frames[n - 1], hl), Content(frames[n - 1], hl))
  }

  /** The pending packet that takes the fragment `f`, before it does. */
  function Slot(ps: seq<Pending>, f: Frame, hl: nat): Pending
    requires HasHeader(f, hl)
  {
    var i := Find(ps, KeyIn, KeyOf(f, hl));
    if i >= 0 then ps[i] else Pending(KeyOf(f, hl), Proto(f, hl), [], 0, 0)
  }

  /** What a call leaves in the packet buffer and returns: the packet, and the size
      of its content behind the IP header. */
  datatype Output = Output(packet: Pending, size: nat, buf: seq<Byte>)

  /** The fragment completes its packet and the assembly goes ahead. */
  predicate Assembles(p: Pending, hl: nat) {
    p.cap == p.exp && TotalTo(p.frames, |p.frames|, hl) <= MAX_CAPTURE_LEN
  }

  function Zeroed(buf: seq<Byte>, n: nat): (r: seq<Byte>)
    requires n <= |buf|
    ensures |r| == |buf|
    ensures forall i :: 0 <= i < |buf| ==> r[i] == if i < n then 0 else buf[i]
  {
    seq(n, _ => 0) + buf[n..]
  }

  /** The packets that are pending after the frame `f`. */
  function NextPending(ps: seq<Pending>, f: Frame, hl: nat): seq<Pending> {
    if !Accepted(f, hl) || !IsFragment(f, hl) then ps
    else
      var p := AddFragment(Slot(ps, f, hl), f, hl);
      if Assembles(p, hl) then Drop(ps, KeyIn, p.key) else Put(ps, KeyIn, p)
  }

  /** The assembly that the frame may trigger stays inside its buffers. */
  predicate Safe(ps: seq<Pending>, f: Frame, hl: nat, room: nat) {
    Accepted(f, hl) && IsFragment(f, hl) ==>
      var p := AddFragment(Slot(ps, f, hl), f, hl);
      Assembles(p, hl) ==> Fits(p.frames, hl, hl + IpHl(f, hl), room)
  }

  /** What the call for the frame `f` returns; `buf` is the packet buffer, which
      starts with the frame. */
  function Result(ps: seq<Pending>, f: Frame, hl: nat, buf: seq<Byte>): Option<Output>
    requires Safe(ps, f, hl, |buf|)
  {
    if !Accepted(f, hl) then None
    else if !IsFragment(f, hl) then
      Some(Output(Pending(KeyOf(f, hl), Proto(f, hl), [f], 0, 0), ContentLen(f, hl), buf))
    else
      var p := AddFragment(Slot(ps, f, hl), f, hl);
      if !Assembles(p, hl) then None
      else
        var len := TotalTo(p.frames, |p.frames|, hl);
        var base := hl + IpHl(f, hl);
        Some(Output(p, len, BlitTo(Zeroed(buf, base + len), p.frames, |p.frames|, hl, base)))
  }

  /** Frames without a whole IP header, of another version (6 is not part of this model), or
      with a datagram that is too large are passed over. */
  lemma PassedOver(ps: seq<Pending>, f: Frame, hl: nat, buf: seq<Byte>)
    ensures hl + 20 > |f| || f[hl] < 64 || f[hl] > 79 || hl + 256 * (f[hl + 2] as int) + f[hl + 3] > 20480 ==>
              Safe(ps, f, hl, |buf|) && Result(ps, f, hl, buf) == None && NextPending(ps, f, hl) == ps
  {
  }

  // ---------------------------------------------------------------------------
  // Datagrams and their fragments
  // ---------------------------------------------------------------------------

  /** A datagram, the octets behind its IP header, and the frames it was cut into. */
  datatype Datagram = Datagram(key: Key, payload: seq<Byte>, cut: seq<Frame>)

  /** The offset of fragment `n`: the lengths of the fragments before it. */
  function OffTo(cut: seq<Frame>, n: nat, hl: nat): nat
    requires n <= |cut|
  {
    if n == 0 then 0 else OffTo(cut, n - 1, hl) + ContentLen(cut[n - 1], hl)
  }

  /** Fragment `i` is not empty and its header tells its place in the datagram. */
  predicate PlacedAt(d: Datagram, hl: nat, i: nat)
    requires i < |d.cut|
  {
    var f := d.cut[i];
    && Accepted(f, hl) && 0 < ContentLen(f, hl)
    && FragOff(f, hl) == OffTo(d.cut, i, hl)
    && (MoreFragments(f, hl) <==> i < |d.cut| - 1)
  }

  /** Fragment `i` is fully captured and carries its part of the datagram. */
  predicate CarriesAt(d: Datagram, hl: nat, i: nat)
    requires i < |d.cut|
  {
    var f, off := d.cut[i], OffTo(d.cut, i, hl);
    && HasHeader(f, hl) && KeyOf(f, hl) == d.key && Proto(f, hl) != IPPROTO_IPIP
    && hl + IpHl(f, hl) + |d.payload| <= MAX_CAPTURE_LEN
    && off + ContentLen(f, hl) <= |d.payload|
    && hl + IpHl(f, hl) + ContentLen(f, hl) <= |f|
    && Content(f, hl) == d.payload[off..off + ContentLen(f, hl)]
  }

  /** The fragments lie end to end and add up to the datagram. */
  ghost predicate Placed(d: Datagram, hl: nat) {
    && d.cut != [] && |d.payload| == OffTo(d.cut, |d.cut|, hl) <= MAX_CAPTURE_LEN
    && forall i :: 0 <= i < |d.cut| ==> PlacedAt(d, hl, i)
  }

  ghost predicate WellCut(d: Datagram, hl: nat) {
    Placed(d, hl) && forall i :: 0 <= i < |d.cut| ==> CarriesAt(d, hl, i)
  }

  lemma {:induction false} OffToGrows(cut: seq<Frame>, i: nat, j: nat, hl: nat)
    requires i <= j <= |cut|
    ensures OffTo(cut, i, hl) <= OffTo(cut, j, hl)
  {
    if i < j {
      OffToGrows(cut, i, j - 1, hl);
    }
  }

  /** The content of those of the first `n` fragments that have arrived. */
  function SumIn(cut: seq<Frame>, arr: seq<nat>, n: nat, hl: nat): nat
    requires n <= |cut|
  {
    if n == 0 then 0
    else SumIn(cut, arr, n - 1, hl) + if n - 1 in arr then ContentLen(cut[n - 1], hl) else 0
  }

  lemma {:induction false} SumInAdd(cut: seq<Frame>, arr: seq<nat>, i: nat, n: nat, hl: nat)
    requires n <= |cut| && i !in arr && i < |cut|
    ensures SumIn(cut, arr + [i], n, hl) == SumIn(cut, arr, n, hl) + if i < n then ContentLen(cut[i], hl) else 0
  {
    if n > 0 {
      SumInAdd(cut, arr, i, n - 1, hl);
    }
  }

  predicate AllArrived(arr: seq<nat>, n: nat) {
    forall j :: 0 <= j < n ==> j in arr
  }

  /** The counters tell completeness: non-empty fragments add up to the whole only
      when all of them are there. */
  lemma {:induction false} SumInBound(cut: seq<Frame>, arr: seq<nat>, n: nat, hl: nat)
    requires n <= |cut| && forall i :: 0 <= i < |cut| ==> ContentLen(cut[i], hl) > 0
    ensures SumIn(cut, arr, n, hl) <= OffTo(cut, n, hl)
    ensures SumIn(cut, arr, n, hl) == OffTo(cut, n, hl) <==> AllArrived(arr, n)
    ensures SumIn(cut, arr, n, hl) == 0 <==> forall j :: 0 <= j < n ==> j !in arr
  {
    if n > 0 {
      SumInBound(cut, arr, n - 1, hl);
    }
  }

  // ---------------------------------------------------------------------------
  // What is pending after some fragments of a datagram have arrived
  // ---------------------------------------------------------------------------

  ghost predicate InRange(arr: seq<nat>, n: nat) {
    forall j :: 0 <= j < |arr| ==> arr[j] < n
  }

  ghost function FramesOf(d: Datagram, arr: seq<nat>): (r: seq<Frame>)
    requires InRange(arr, |d.cut|)
    ensures |r| == |arr| && forall j :: 0 <= j < |arr| ==> r[j] == d.cut[arr[j]]
  {
    seq(|arr|, j requires 0 <= j < |arr| => d.cut[arr[j]])
  }

  ghost function PendingOf(d: Datagram, arr: seq<nat>, hl: nat): Pending
    requires Placed(d, hl) && InRange(arr, |d.cut|) && arr != []
  {
    assert PlacedAt(d, hl, arr[0]);
    Pending(d.key, Proto(d.cut[arr[0]], hl), FramesOf(d, arr), SumIn(d.cut, arr, |d.cut|, hl),
            if |d.cut| - 1 in arr then |d.payload| else 0)
  }

  ghost function Expected(d: Datagram, arr: seq<nat>, hl: nat): Option<Pending>
    requires Placed(d, hl) && InRange(arr, |d.cut|)
  {
    if arr == [] || AllArrived(arr, |d.cut|) then None else Some(PendingOf(d, arr, hl))
  }

  lemma LensOf(d: Datagram, hl: nat)
    requires Placed(d, hl)
    ensures forall i :: 0 <= i < |d.cut| ==> 0 < ContentLen(d.cut[i], hl)
  {
    forall i | 0 <= i < |d.cut|
      ensures 0 < ContentLen(d.cut[i], hl)
    {
      assert PlacedAt(d, hl, i);
    }
  }

  /** The counters after a new fragment. */
  lemma AddedCounters(d: Datagram, arr: seq<nat>, i: nat, hl: nat)
    requires Placed(d, hl) && i < |d.cut| && i !in arr
    ensures SumIn(d.cut, arr + [i], |d.cut|, hl)
         == (SumIn(d.cut, arr, |d.cut|, hl) + ContentLen(d.cut[i], hl)) % UINT32_RANGE
    ensures i == |d.cut| - 1 ==> OffTo(d.cut, i, hl) + ContentLen(d.cut[i], hl) == |d.payload|
  {
    LensOf(d, hl);
    SumInAdd(d.cut, arr, i, |d.cut|, hl);
    SumInBound(d.cut, arr + [i], |d.cut|, hl);
  }

  /** A new fragment moves the pending packet to the next expected one. */
  lemma AddedFragment(d: Datagram, arr: seq<nat>, i: nat, hl: nat, p: Pending)
    requires Placed(d, hl) && InRange(arr, |d.cut|) && i < |d.cut| && i !in arr && HasHeader(d.cut[i], hl)
    requires p == if arr == [] then Pending(d.key, Proto(d.cut[i], hl), [], 0, 0) else PendingOf(d, arr, hl)
    ensures AddFragment(p, d.cut[i], hl) == PendingOf(d, arr + [i], hl)
  {
    assert PlacedAt(d, hl, i);
    AddedCounters(d, arr, i, hl);
    assert FramesOf(d, arr + [i]) == FramesOf(d, arr) + [d.cut[i]];
    if arr == [] {
      LensOf(d, hl);
      SumInBound(d.cut, arr, |d.cut|, hl);
      assert FramesOf(d, arr) == [];
    }
  }

  /** The lengths read again from the stored frames add up to the counter. */
  lemma {:induction false} TotalIsSum(d: Datagram, arr: seq<nat>, n: nat, hl: nat)
    requires Placed(d, hl) && InRange(arr, |d.cut|) && Distinct(arr) && n <= |arr|
    ensures TotalTo(FramesOf(d, arr), n, hl) == SumIn(d.cut, arr[..n], |d.cut|, hl)
  {
    if n == 0 {
      LensOf(d, hl);
      SumInBound(d.cut, arr[..0], |d.cut|, hl);
    } else {
      TotalIsSum(d, arr, n - 1, hl);
      assert arr[..n] == arr[..n - 1] + [arr[n - 1]];
      AddedCounters(d, arr[..n - 1], arr[n - 1], hl);
    }
  }

  /** The packet assembles exactly when every fragment has arrived. */
  lemma AssemblesExactly(d: Datagram, arr: seq<nat>, hl: nat)
    requires Placed(d, hl) && InRange(arr, |d.cut|) && Distinct(arr) && arr != []
    ensures Assembles(PendingOf(d, arr, hl), hl) <==> AllArrived(arr, |d.cut|)
    ensures AllArrived(arr, |d.cut|) ==> TotalTo(FramesOf(d, arr), |arr|, hl) == |d.payload|
  {
    LensOf(d, hl);
    SumInBound(d.cut, arr, |d.cut|, hl);
    TotalIsSum(d, arr, |arr|, hl);
    assert arr[..|arr|] == arr;
    assert arr[0] in arr;
  }

  /** Only a datagram of one fragment passes unfragmented. */
  lemma FragmentExactly(d: Datagram, i: nat, hl: nat)
    requires Placed(d, hl) && i < |d.cut|
    ensures HasHeader(d.cut[i], hl) && Accepted(d.cut[i], hl)
    ensures IsFragment(d.cut[i], hl) <==> |d.cut| > 1
  {
    LensOf(d, hl);
    assert PlacedAt(d, hl, i);
    IsFragmentIff(d.cut[i], hl);
    if i > 0 {
      assert OffTo(d.cut, 1, hl) > 0;
      OffToGrows(d.cut, 1, i, hl);
    }
  }

  /** The slot that takes the next fragment of a datagram. */
  lemma SlotIs(ps: seq<Pending>, d: Datagram, arr: seq<nat>, i: nat, hl: nat)
    requires WellCut(d, hl) && InRange(arr, |d.cut|) && i < |d.cut| && i !in arr
    requires Lookup(ps, KeyIn, d.key) == Expected(d, arr, hl)
    ensures HasHeader(d.cut[i], hl)
    ensures AddFragment(Slot(ps, d.cut[i], hl), d.cut[i], hl) == PendingOf(d, arr + [i], hl)
  {
    assert CarriesAt(d, hl, i);
    AddedFragment(d, arr, i, hl, Slot(ps, d.cut[i], hl));
  }

  lemma OnlyFragment(arr: seq<nat>)
    requires InRange(arr, 1)
    ensures arr == [] || 0 in arr
  {
    assert arr == [] || arr[0] == 0;
  }

  lemma ExtendedArrivals(arr: seq<nat>, i: nat, n: nat)
    requires InRange(arr, n) && Distinct(arr) && i < n && i !in arr
    ensures InRange(arr + [i], n) && Distinct(arr + [i])
  {
  }

  /** One arriving fragment moves its own datagram on and no other. */
  lemma PendingStep(ps: seq<Pending>, d: Datagram, arr: seq<nat>, i: nat, hl: nat, key: Key)
    requires WellCut(d, hl) && InRange(arr, |d.cut|) && Distinct(arr) && i < |d.cut| && i !in arr
    requires UniqueKeys(ps, KeyIn) && Lookup(ps, KeyIn, d.key) == Expected(d, arr, hl)
    ensures var r := NextPending(ps, d.cut[i], hl);
            && UniqueKeys(r, KeyIn)
            && Lookup(r, KeyIn, key) == if key == d.key then Expected(d, arr + [i], hl) else Lookup(ps, KeyIn, key)
  {
    FragmentExactly(d, i, hl);
    ExtendedArrivals(arr, i, |d.cut|);
    if |d.cut| == 1 {
      OnlyFragment(arr);
    } else {
      SlotIs(ps, d, arr, i, hl);
      AssemblesExactly(d, arr + [i], hl);
      DropLookup(ps, KeyIn, d.key, key);
      PutLookup(ps, KeyIn, PendingOf(d, arr + [i], hl), key);
    }
  }

  // ---------------------------------------------------------------------------
  // Runs: any number of datagrams, any arrival order, any interleaving
  // ---------------------------------------------------------------------------

  /** Fragment `i` of datagram `d` arrives. */
  datatype Event = Event(d: nat, i: nat)

  predicate IsEvent(ds: seq<Datagram>, e: Event) {
    e.d < |ds| && e.i < |ds[e.d].cut|
  }

  ghost predicate Sane(ds: seq<Datagram>, hl: nat) {
    && (forall d :: 0 <= d < |ds| ==> WellCut(ds[d], hl))
    && forall a, b :: 0 <= a < b < |ds| ==> ds[a].key != ds[b].key
  }

  /** Every event is a fragment of some datagram, and none arrives twice. */
  ghost predicate Arrivals(ds: seq<Datagram>, evs: seq<Event>) {
    Distinct(evs) && forall n :: 0 <= n < |evs| ==> IsEvent(ds, evs[n])
  }

  /** The fragments of datagram `d` that have arrived, in arrival order. */
  ghost function ArrOf(past: seq<Event>, d: nat): seq<nat> {
    if past == [] then []
    else
      var n := |past| - 1;
      ArrOf(past[..n], d) + if past[n].d == d then [past[n].i] else []
  }

  lemma ArrOfMore(past: seq<Event>, e: Event, d: nat)
    ensures ArrOf(past + [e], d) == ArrOf(past, d) + if e.d == d then [e.i] else []
  {
    assert (past + [e])[..|past|] == past;
  }

  lemma {:induction false} ArrOfMembers(past: seq<Event>, d: nat, i: nat)
    ensures i in ArrOf(past, d) <==> Event(d, i) in past
  {
    if past != [] {
      var n := |past| - 1;
      ArrOfMembers(past[..n], d, i);
      assert past == past[..n] + [past[n]];
    }
  }

  lemma {:induction false} ArrOfFacts(ds: seq<Datagram>, past: seq<Event>, d: nat)
    requires Arrivals(ds, past) && d < |ds|
    ensures InRange(ArrOf(past, d), |ds[d].cut|) && Distinct(ArrOf(past, d))
  {
    if past != [] {
      var n := |past| - 1;
      ArrOfFacts(ds, past[..n], d);
      ArrOfMembers(past[..n], d, past[n].i);
    }
  }

  function FrameOf(ds: seq<Datagram>, e: Event): Frame {
    if IsEvent(ds, e) then ds[e.d].cut[e.i] else []
  }

  /** The pending packets, and the events so far. */
  datatype Progress = Progress(pending: seq<Pending>, past: seq<Event>)

  const START: Progress := Progress([], [])

  function Step(ds: seq<Datagram>, hl: nat): (Progress, Event) -> Progress {
    (g: Progress, e: Event) => Progress(NextPending(g.pending, FrameOf(ds, e), hl), g.past + [e])
  }

  function New(ds: seq<Datagram>): (Progress, Event) -> bool {
    (g: Progress, e: Event) => IsEvent(ds, e) && e !in g.past
  }

  function RunTo(ds: seq<Datagram>, evs: seq<Event>, n: nat, hl: nat): Progress
    requires n <= |evs|
  {
    FoldTo(START, evs, n, Step(ds, hl))
  }

  /** What is pending for datagram `d` depends on its own arrivals alone. */
  ghost predicate Expects(ds: seq<Datagram>, hl: nat, ps: seq<Pending>, past: seq<Event>, d: nat)
    requires d < |ds| && Placed(ds[d], hl)
  {
    && InRange(ArrOf(past, d), |ds[d].cut|)
    && Lookup(ps, KeyIn, ds[d].key) == Expected(ds[d], ArrOf(past, d), hl)
  }

  ghost predicate Tracks(ds: seq<Datagram>, hl: nat, g: Progress) {
    && Sane(ds, hl) && Arrivals(ds, g.past) && UniqueKeys(g.pending, KeyIn)
    && forall d :: 0 <= d < |ds| ==> Expects(ds, hl, g.pending, g.past, d)
  }

  ghost function Tracking(ds: seq<Datagram>, hl: nat): Progress -> bool {
    g => Tracks(ds, hl, g)
  }

  lemma OwnArrival(ds: seq<Datagram>, hl: nat, ps: seq<Pending>, past: seq<Event>, e: Event, key: Key)
    requires Sane(ds, hl) && Arrivals(ds, past) && UniqueKeys(ps, KeyIn)
    requires IsEvent(ds, e) && e !in past && Expects(ds, hl, ps, past, e.d)
    ensures var r := NextPending(ps, FrameOf(ds, e), hl);
            UniqueKeys(r, KeyIn) && Expects(ds, hl, r, past + [e], e.d)
            && (key != ds[e.d].key ==> Lookup(r, KeyIn, key) == Lookup(ps, KeyIn, key))
  {
    ArrOfFacts(ds, past, e.d);
    ArrOfMembers(past, e.d, e.i);
    ArrOfMore(past, e, e.d);
    ExtendedArrivals(ArrOf(past, e.d), e.i, |ds[e.d].cut|);
    PendingStep(ps, ds[e.d], ArrOf(past, e.d), e.i, hl, ds[e.d].key);
    PendingStep(ps, ds[e.d], ArrOf(past, e.d), e.i, hl, key);
  }

  lemma OtherArrival(ds: seq<Datagram>, hl: nat, ps: seq<Pending>, r: seq<Pending>, past: seq<Event>, e: Event, d: nat)
    requires Sane(ds, hl) && d < |ds| && e.d != d && Expects(ds, hl, ps, past, d)
    requires Lookup(r, KeyIn, ds[d].key) == Lookup(ps, KeyIn, ds[d].key)
    ensures Expects(ds, hl, r, past + [e], d)
  {
    ArrOfMore(past, e, d);
    assert ArrOf(past + [e], d) == ArrOf(past, d);
  }

  lemma StepTracks(ds: seq<Datagram>, hl: nat, g: Progress, e: Event)
    requires Tracks(ds, hl, g) && New(ds)(g, e)
    ensures Tracks(ds, hl, Step(ds, hl)(g, e))
  {
    var r := NextPending(g.pending, FrameOf(ds, e), hl);
    OwnArrival(ds, hl, g.pending, g.past, e, ds[e.d].key);
    forall d | 0 <= d < |ds| && d != e.d
      ensures Expects(ds, hl, r, g.past + [e], d)
    {
      assert ds[d].key != ds[e.d].key by {
        assert d < e.d || e.d < d;
      }
      OwnArrival(ds, hl, g.pending, g.past, e, ds[d].key);
      OtherArrival(ds, hl, g.pending, r, g.past, e, d);
    }
  }

  lemma {:induction false} PastIs(ds: seq<Datagram>, evs: seq<Event>, n: nat, hl: nat)
    requires n <= |evs|
    ensures RunTo(ds, evs, n, hl).past == evs[..n]
  {
    if n > 0 {
      PastIs(ds, evs, n - 1, hl);
      assert evs[..n] == evs[..n - 1] + [evs[n - 1]];
    }
  }

  /** After every run, what is pending is what the arrivals of each datagram ask for. */
  lemma RunTracks(ds: seq<Datagram>, evs: seq<Event>, n: nat, hl: nat)
    requires Sane(ds, hl) && Arrivals(ds, evs) && n <= |evs|
    ensures Tracking(ds, hl)(RunTo(ds, evs, n, hl))
  {
    forall g, e | Tracking(ds, hl)(g) && New(ds)(g, e)
      ensures Tracking(ds, hl)(Step(ds, hl)(g, e))
    {
      StepTracks(ds, hl, g, e);
    }
    forall i | 0 <= i < n
      ensures New(ds)(RunTo(ds, evs, i, hl), evs[i])
    {
      PastIs(ds, evs, i, hl);
    }
    RunKeeps(START, evs, n, Step(ds, hl), New(ds), Tracking(ds, hl));
  }

  lemma RunExpects(ds: seq<Datagram>, evs: seq<Event>, n: nat, hl: nat, d: nat, ps: seq<Pending>)
    requires Sane(ds, hl) && Arrivals(ds, evs) && n <= |evs| && d < |ds| && ps == RunTo(ds, evs, n, hl).pending
    ensures Expects(ds, hl, ps, evs[..n], d)
  {
    RunTracks(ds, evs, n, hl);
    PastIs(ds, evs, n, hl);
  }

  // ---------------------------------------------------------------------------
  // What a run returns
  // ---------------------------------------------------------------------------

  lemma FitsFragments(d: Datagram, arr: seq<nat>, hl: nat, base: nat)
    requires WellCut(d, hl) && InRange(arr, |d.cut|) && Distinct(arr) && AllArrived(arr, |d.cut|)
    requires base + |d.payload| <= MAX_CAPTURE_LEN
    ensures Fits(FramesOf(d, arr), hl, base, MAX_CAPTURE_LEN)
  {
    assert 0 in arr;
    AssemblesExactly(d, arr, hl);
    forall j | 0 <= j < |arr|
      ensures PlacedAt(d, hl, arr[j]) && CarriesAt(d, hl, arr[j])
    {
    }
  }

  /** The copied fragments agree with the datagram wherever they lie. */
  lemma {:induction false} BlitAgrees(d: Datagram, arr: seq<nat>, n: nat, hl: nat, base: nat, buf: seq<Byte>,
                                         p: nat, j: nat)
    requires WellCut(d, hl) && InRange(arr, |d.cut|) && n <= |arr| && j < n && p < |d.payload|
    requires |buf| == MAX_CAPTURE_LEN && base + |d.payload| <= |buf|
    requires Fits(FramesOf(d, arr), hl, base, MAX_CAPTURE_LEN)
    requires OffTo(d.cut, arr[j], hl) <= p < OffTo(d.cut, arr[j], hl) + ContentLen(d.cut[arr[j]], hl)
    ensures BlitTo(buf, FramesOf(d, arr), n, hl, base)[base + p] == d.payload[p]
  {
    var i := arr[n - 1];
    assert PlacedAt(d, hl, i) && CarriesAt(d, hl, i);
    var off, len := OffTo(d.cut, i, hl), ContentLen(d.cut[i], hl);
    if off <= p < off + len {
      assert Content(d.cut[i], hl)[p - off] == d.payload[p];
    } else {
      BlitAgrees(d, arr, n - 1, hl, base, buf, p, j);
    }
  }

  /** Every octet of a datagram lies in one of its fragments. */
  lemma {:induction false} FragmentAt(cut: seq<Frame>, n: nat, hl: nat, p: nat) returns (i: nat)
    requires n <= |cut| && p < OffTo(cut, n, hl)
    ensures i < n && OffTo(cut, i, hl) <= p < OffTo(cut, i, hl) + ContentLen(cut[i], hl)
  {
    if p < OffTo(cut, n - 1, hl) {
      i := FragmentAt(cut, n - 1, hl, p);
    } else {
      i := n - 1;
    }
  }

  /** With all fragments there, the assembly is the datagram, whatever their order. */
  lemma BlitIsPayload(d: Datagram, arr: seq<nat>, frames: seq<Frame>, hl: nat, base: nat, buf: seq<Byte>)
    requires WellCut(d, hl) && InRange(arr, |d.cut|) && AllArrived(arr, |d.cut|) && frames == FramesOf(d, arr)
    requires |buf| == MAX_CAPTURE_LEN && base + |d.payload| <= |buf|
    requires Fits(frames, hl, base, MAX_CAPTURE_LEN)
    ensures BlitTo(buf, frames, |frames|, hl, base)[base..base + |d.payload|] == d.payload
  {
    var r := BlitTo(buf, frames, |frames|, hl, base);
    forall p | 0 <= p < |d.payload|
      ensures r[base + p] == d.payload[p]
    {
      BlitIsPayloadAt(d, arr, hl, base, buf, p);
    }
    assert r[base..base + |d.payload|] == d.payload;
  }

  lemma BlitIsPayloadAt(d: Datagram, arr: seq<nat>, hl: nat, base: nat, buf: seq<Byte>, p: nat)
    requires WellCut(d, hl) && InRange(arr, |d.cut|) && AllArrived(arr, |d.cut|) && p < |d.payload|
    requires |buf| == MAX_CAPTURE_LEN && base + |d.payload| <= |buf|
    requires Fits(FramesOf(d, arr), hl, base, MAX_CAPTURE_LEN)
    ensures BlitTo(buf, FramesOf(d, arr), |arr|, hl, base)[base + p] == d.payload[p]
  {
    var i := FragmentAt(d.cut, |d.cut|, hl, p);
    assert i in arr;
    var j :| 0 <= j < |arr| && arr[j] == i;
    BlitAgrees(d, arr, |arr|, hl, base, buf, p, j);
  }

  /** The protocol is the one of some fragment. */
  predicate IsProtoOf(proto: Byte, d: Datagram, hl: nat) {
    exists i :: 0 <= i < |d.cut| && HasHeader(d.cut[i], hl) && Proto(d.cut[i], hl) == proto
  }

  /** The call returns the whole datagram. */
  predicate Delivers(out: Output, d: Datagram, f: Frame, hl: nat)
    requires HasHeader(f, hl)
  {
    var base := hl + IpHl(f, hl);
    && out.packet.key == d.key && IsProtoOf(out.packet.proto, d, hl) && out.size == |d.payload|
    && base + out.size <= |out.buf| && out.buf[base..base + out.size] == d.payload
  }

  /** The call for one fragment: it returns nothing while a fragment is missing, and
      the datagram when the last missing one arrives. */
  lemma ResultExactly(ps: seq<Pending>, d: Datagram, arr: seq<nat>, i: nat, hl: nat, buf: seq<Byte>)
    requires WellCut(d, hl) && InRange(arr, |d.cut|) && Distinct(arr) && i < |d.cut| && i !in arr
    requires Lookup(ps, KeyIn, d.key) == Expected(d, arr, hl)
    requires |buf| == MAX_CAPTURE_LEN && d.cut[i] <= buf
    ensures Safe(ps, d.cut[i], hl, |buf|) && HasHeader(d.cut[i], hl)
    ensures Result(ps, d.cut[i], hl, buf).Some? <==> AllArrived(arr + [i], |d.cut|)
    ensures Result(ps, d.cut[i], hl, buf).Some? ==> Delivers(Result(ps, d.cut[i], hl, buf).value, d, d.cut[i], hl)
  {
    FragmentExactly(d, i, hl);
    if |d.cut| == 1 {
      WholeDatagram(d, arr, hl, buf);
    } else {
      ExtendedArrivals(arr, i, |d.cut|);
      SlotIs(ps, d, arr, i, hl);
      FragmentResult(ps, d, arr + [i], i, hl, buf, PendingOf(d, arr + [i], hl));
    }
  }

  /** The call for a fragment, when its packet `p` has taken the fragments `arr`. */
  lemma FragmentResult(ps: seq<Pending>, d: Datagram, arr: seq<nat>, i: nat, hl: nat, buf: seq<Byte>, p: Pending)
    requires WellCut(d, hl) && InRange(arr, |d.cut|) && Distinct(arr) && i < |d.cut| && arr != []
    requires Accepted(d.cut[i], hl) && IsFragment(d.cut[i], hl) && |buf| == MAX_CAPTURE_LEN
    requires p == PendingOf(d, arr, hl) == AddFragment(Slot(ps, d.cut[i], hl), d.cut[i], hl)
    ensures Safe(ps, d.cut[i], hl, |buf|)
    ensures Result(ps, d.cut[i], hl, buf).Some? <==> AllArrived(arr, |d.cut|)
    ensures Result(ps, d.cut[i], hl, buf).Some? ==> Delivers(Result(ps, d.cut[i], hl, buf).value, d, d.cut[i], hl)
  {
    AssemblesExactly(d, arr, hl);
    if AllArrived(arr, |d.cut|) {
      var base := hl + IpHl(d.cut[i], hl);
      LastFragment(d, arr, i, hl, buf, base, p.frames);
      ResultIs(ps, d.cut[i], hl, buf, p, base, |d.payload|);
    } else {
      NoResult(ps, d.cut[i], hl, buf, p);
    }
  }

  lemma NoResult(ps: seq<Pending>, f: Frame, hl: nat, buf: seq<Byte>, p: Pending)
    requires Accepted(f, hl) && IsFragment(f, hl) && p == AddFragment(Slot(ps, f, hl), f, hl) && !Assembles(p, hl)
    ensures Safe(ps, f, hl, |buf|) && Result(ps, f, hl, buf) == None
  {
  }

  /** A datagram of one fragment passes as it is. */
  lemma WholeDatagram(d: Datagram, arr: seq<nat>, hl: nat, buf: seq<Byte>)
    requires WellCut(d, hl) && |d.cut| == 1 && |buf| == MAX_CAPTURE_LEN && d.cut[0] <= buf
    ensures HasHeader(d.cut[0], hl)
    ensures Delivers(Output(Pending(KeyOf(d.cut[0], hl), Proto(d.cut[0], hl), [d.cut[0]], 0, 0),
                            ContentLen(d.cut[0], hl), buf), d, d.cut[0], hl)
    ensures AllArrived(arr + [0], 1)
  {
    var f := d.cut[0];
    assert CarriesAt(d, hl, 0);
    assert OffTo(d.cut, 0, hl) == 0 && OffTo(d.cut, 1, hl) == ContentLen(f, hl);
    assert buf[hl + IpHl(f, hl)..hl + IpHl(f, hl) + ContentLen(f, hl)] == Content(f, hl);
    assert (arr + [0])[|arr|] == 0;
  }

  lemma LastFragment(d: Datagram, arr: seq<nat>, i: nat, hl: nat, buf: seq<Byte>, base: nat, frames: seq<Frame>)
    requires WellCut(d, hl) && InRange(arr, |d.cut|) && Distinct(arr) && AllArrived(arr, |d.cut|) && i < |d.cut|
    requires |buf| == MAX_CAPTURE_LEN && frames == FramesOf(d, arr)
    requires HasHeader(d.cut[i], hl) && base == hl + IpHl(d.cut[i], hl)
    ensures Fits(frames, hl, base, |buf|) && TotalTo(frames, |frames|, hl) == |d.payload|
    ensures base + |d.payload| <= |buf|
    ensures BlitTo(Zeroed(buf, base + |d.payload|), frames, |frames|, hl, base)[base..base + |d.payload|] == d.payload
  {
    assert CarriesAt(d, hl, i) && 0 in arr;
    AssemblesExactly(d, arr, hl);
    FitsFragments(d, arr, hl, base);
    BlitIsPayload(d, arr, frames, hl, base, Zeroed(buf, base + |d.payload|));
  }

  lemma ResultIs(ps: seq<Pending>, f: Frame, hl: nat, buf: seq<Byte>, p: Pending, base: nat, len: nat)
    requires Accepted(f, hl) && IsFragment(f, hl) && base == hl + IpHl(f, hl)
    requires p == AddFragment(Slot(ps, f, hl), f, hl) && Assembles(p, hl) && len == TotalTo(p.frames, |p.frames|, hl)
    requires Fits(p.frames, hl, base, |buf|)
    ensures Safe(ps, f, hl, |buf|)
    ensures Result(ps, f, hl, buf)
         == Some(Output(p, len, BlitTo(Zeroed(buf, base + len), p.frames, |p.frames|, hl, base)))
  {
  }

  /** All fragments have arrived: there is an event for each. */
  lemma AllArrivedMeans(past: seq<Event>, d: nat, count: nat)
    ensures AllArrived(ArrOf(past, d), count) <==> forall i :: 0 <= i < count ==> Event(d, i) in past
  {
    forall i | 0 <= i < count
      ensures i in ArrOf(past, d) <==> Event(d, i) in past
    {
      ArrOfMembers(past, d, i);
    }
  }

  /** The call for one fragment in a run from the pending packets `ps` to `next`. */
  lemma ResultInRun(ps: seq<Pending>, next: seq<Pending>, d: Datagram, arr: seq<nat>, i: nat, hl: nat, buf: seq<Byte>,
                    all: seq<nat>)
    requires WellCut(d, hl) && InRange(arr, |d.cut|) && Distinct(arr) && i < |d.cut| && i !in arr
    requires all == arr + [i] && InRange(all, |d.cut|)
    requires Lookup(ps, KeyIn, d.key) == Expected(d, arr, hl) && Lookup(next, KeyIn, d.key) == Expected(d, all, hl)
    requires |buf| == MAX_CAPTURE_LEN && d.cut[i] <= buf
    ensures HasHeader(d.cut[i], hl) && Safe(ps, d.cut[i], hl, |buf|)
    ensures Result(ps, d.cut[i], hl, buf).Some? <==> AllArrived(all, |d.cut|)
    ensures Result(ps, d.cut[i], hl, buf).Some? ==>
              Delivers(Result(ps, d.cut[i], hl, buf).value, d, d.cut[i], hl) && Lookup(next, KeyIn, d.key) == None
  {
    ResultExactly(ps, d, arr, i, hl, buf);
  }

  /** Order independence: in every run, whatever the arrival order and interleaving,
      the call for event `n` returns exactly when the last missing fragment of its
      datagram arrives; it then returns the original octets, and nothing of the
      datagram stays pending. */
  lemma ReassemblyIsExact(ds: seq<Datagram>, evs: seq<Event>, n: nat, hl: nat, buf: seq<Byte>)
    requires Sane(ds, hl) && Arrivals(ds, evs) && n < |evs|
    requires |buf| == MAX_CAPTURE_LEN && FrameOf(ds, evs[n]) <= buf
    ensures var ps, f, d := RunTo(ds, evs, n, hl).pending, FrameOf(ds, evs[n]), ds[evs[n].d];
            && HasHeader(f, hl) && Safe(ps, f, hl, |buf|)
            && (Result(ps, f, hl, buf).Some?
                <==> forall i :: 0 <= i < |d.cut| ==> Event(evs[n].d, i) in evs[..n + 1])
            && (Result(ps, f, hl, buf).Some? ==>
                  Delivers(Result(ps, f, hl, buf).value, d, f, hl)
                  && Lookup(RunTo(ds, evs, n + 1, hl).pending, KeyIn, d.key) == None)
  {
    var e, past := evs[n], evs[..n];
    var ps, next := RunTo(ds, evs, n, hl).pending, RunTo(ds, evs, n + 1, hl).pending;
    assert evs[..n + 1] == past + [e];
    RunExpects(ds, evs, n, hl, e.d, ps);
    RunExpects(ds, evs, n + 1, hl, e.d, next);
    ResultOfEvent(ds, past, e, hl, buf, ps, next);
  }

  lemma ResultOfEvent(ds: seq<Datagram>, past: seq<Event>, e: Event, hl: nat, buf: seq<Byte>,
                      ps: seq<Pending>, next: seq<Pending>)
    requires Sane(ds, hl) && Arrivals(ds, past) && IsEvent(ds, e) && e !in past
    requires Expects(ds, hl, ps, past, e.d) && Expects(ds, hl, next, past + [e], e.d)
    requires |buf| == MAX_CAPTURE_LEN && FrameOf(ds, e) <= buf
    ensures var f, d := FrameOf(ds, e), ds[e.d];
            && HasHeader(f, hl) && Safe(ps, f, hl, |buf|)
            && (Result(ps, f, hl, buf).Some? <==> forall i :: 0 <= i < |d.cut| ==> Event(e.d, i) in past + [e])
            && (Result(ps, f, hl, buf).Some? ==>
                  Delivers(Result(ps, f, hl, buf).value, d, f, hl) && Lookup(next, KeyIn, d.key) == None)
  {
    var arr, all := ArrOf(past, e.d), ArrOf(past + [e], e.d);
    ArrOfFacts(ds, past, e.d);
    ArrOfMembers(past, e.d, e.i);
    ArrOfMore(past, e, e.d);
    AllArrivedMeans(past + [e], e.d, |ds[e.d].cut|);
    ResultInRun(ps, next, ds[e.d], arr, e.i, hl, buf, all);
  }

  /** Event `n` brings the last missing fragment of datagram `d`. */
  ghost predicate Completes(ds: seq<Datagram>, evs: seq<Event>, n: nat, d: nat)
    requires Arrivals(ds, evs) && n < |evs|
  {
    evs[n].d == d < |ds| && forall i :: 0 <= i < |ds[d].cut| ==> Event(d, i) in evs[..n + 1]
  }

  /** What the packet buffer holds before each call. */
  ghost predicate Buffers(ds: seq<Datagram>, evs: seq<Event>, bufs: seq<seq<Byte>>) {
    |bufs| == |evs| && forall m :: 0 <= m < |evs| ==> |bufs[m]| == MAX_CAPTURE_LEN && FrameOf(ds, evs[m]) <= bufs[m]
  }

  /** Call `m` of the run keeps to its buffers. */
  ghost predicate SafeCall(ds: seq<Datagram>, evs: seq<Event>, bufs: seq<seq<Byte>>, m: nat, hl: nat)
    requires m < |evs| == |bufs|
  {
    var f := FrameOf(ds, evs[m]);
    HasHeader(f, hl) && Safe(RunTo(ds, evs, m, hl).pending, f, hl, |bufs[m]|)
  }

  /** What call `m` of the run returns. */
  ghost function ResultOf(ds: seq<Datagram>, evs: seq<Event>, bufs: seq<seq<Byte>>, m: nat, hl: nat): Option<Output>
    requires m < |evs| == |bufs| && SafeCall(ds, evs, bufs, m, hl)
  {
    Result(RunTo(ds, evs, m, hl).pending, FrameOf(ds, evs[m]), hl, bufs[m])
  }

  /** Call `m` returns a packet of the datagram `d`. */
  ghost predicate Returns(ds: seq<Datagram>, evs: seq<Event>, bufs: seq<seq<Byte>>, m: nat, hl: nat, d: Datagram)
    requires m < |evs| == |bufs|
  {
    && SafeCall(ds, evs, bufs, m, hl) && ResultOf(ds, evs, bufs, m, hl).Some?
    && ResultOf(ds, evs, bufs, m, hl).value.packet.key == d.key
  }

  /** Call `m` of a run. */
  lemma CallReturns(ds: seq<Datagram>, evs: seq<Event>, bufs: seq<seq<Byte>>, m: nat, hl: nat, d: nat)
    requires Sane(ds, hl) && Arrivals(ds, evs) && Buffers(ds, evs, bufs) && m < |evs| && d < |ds|
    ensures SafeCall(ds, evs, bufs, m, hl)
    ensures Returns(ds, evs, bufs, m, hl, ds[d]) <==> Completes(ds, evs, m, d)
    ensures Returns(ds, evs, bufs, m, hl, ds[d]) ==>
              Delivers(ResultOf(ds, evs, bufs, m, hl).value, ds[d], FrameOf(ds, evs[m]), hl)
  {
    ReassemblyIsExact(ds, evs, m, hl, bufs[m]);
    var e := evs[m].d;
    assert ds[e].key == ds[d].key ==> e == d;
  }

  /** A datagram all of whose fragments arrive is returned once, with its octets, and in
      the end nothing of it is pending. */
  lemma ReturnedExactlyOnce(ds: seq<Datagram>, evs: seq<Event>, bufs: seq<seq<Byte>>, hl: nat, d: nat) returns (n: nat)
    requires Sane(ds, hl) && Arrivals(ds, evs) && Buffers(ds, evs, bufs) && d < |ds|
    requires forall i :: 0 <= i < |ds[d].cut| ==> Event(d, i) in evs
    ensures n < |evs| && forall m :: 0 <= m < |evs| ==> (Returns(ds, evs, bufs, m, hl, ds[d]) <==> m == n)
    ensures SafeCall(ds, evs, bufs, n, hl) && ResultOf(ds, evs, bufs, n, hl).Some?
    ensures Delivers(ResultOf(ds, evs, bufs, n, hl).value, ds[d], FrameOf(ds, evs[n]), hl)
    ensures Lookup(RunTo(ds, evs, |evs|, hl).pending, KeyIn, ds[d].key) == None
  {
    NothingLeft(ds, evs, hl, d);
    assert evs[..|evs|] == evs;
    n := LastArrival(ds, evs, |evs|, d);
    CallReturns(ds, evs, bufs, n, hl, d);
    forall m | 0 <= m < |evs|
      ensures Returns(ds, evs, bufs, m, hl, ds[d]) <==> m == n
    {
      CallReturns(ds, evs, bufs, m, hl, d);
      CompletesOnce(ds, evs, m, n, d);
    }
  }

  lemma NothingLeft(ds: seq<Datagram>, evs: seq<Event>, hl: nat, d: nat)
    requires Sane(ds, hl) && Arrivals(ds, evs) && d < |ds| && forall i :: 0 <= i < |ds[d].cut| ==> Event(d, i) in evs
    ensures ds[d].cut != [] && Lookup(RunTo(ds, evs, |evs|, hl).pending, KeyIn, ds[d].key) == None
  {
    assert evs[..|evs|] == evs;
    RunExpects(ds, evs, |evs|, hl, d, RunTo(ds, evs, |evs|, hl).pending);
    AllArrivedMeans(evs, d, |ds[d].cut|);
  }

  lemma CompletesOnce(ds: seq<Datagram>, evs: seq<Event>, m: nat, n: nat, d: nat)
    requires Arrivals(ds, evs) && m < |evs| && n < |evs| && Completes(ds, evs, n, d)
    ensures Completes(ds, evs, m, d) <==> m == n
  {
    if Completes(ds, evs, m, d) {
      OneReturn(ds, evs, m, n, d);
      OneReturn(ds, evs, n, m, d);
    }
  }

  lemma {:induction false} LastArrival(ds: seq<Datagram>, evs: seq<Event>, k: nat, d: nat) returns (n: nat)
    requires Arrivals(ds, evs) && k <= |evs| && d < |ds| && ds[d].cut != []
    requires forall i :: 0 <= i < |ds[d].cut| ==> Event(d, i) in evs[..k]
    ensures n < k && Completes(ds, evs, n, d)
  {
    assert Event(d, 0) in evs[..k];
    if evs[k - 1].d == d {
      n := k - 1;
    } else {
      assert evs[..k] == evs[..k - 1] + [evs[k - 1]];
      n := LastArrival(ds, evs, k - 1, d);
    }
  }

  /** After a datagram was returned, no fragment of it is left to arrive. */
  lemma OneReturn(ds: seq<Datagram>, evs: seq<Event>, m: nat, n: nat, d: nat)
    requires Arrivals(ds, evs) && m < |evs| && n < |evs| && Completes(ds, evs, m, d) && Completes(ds, evs, n, d)
    ensures n <= m
  {
    assert evs[n] == Event(d, evs[n].i);
    assert evs[n] in evs[..m + 1];
    var k :| 0 <= k < m + 1 && evs[k] == evs[n];
    assert k == n;
  }

  // ---------------------------------------------------------------------------
  // The reassembler
  // ---------------------------------------------------------------------------

  class IpReassembler {
    const linkHl: nat
    var ipReasm: seq<Packet>

    constructor (linkHl: nat)
      ensures Valid() && ipReasm == [] && this.linkHl == linkHl
    {
      this.linkHl, ipReasm := linkHl, [];
    }

    ghost predicate Valid()
      reads this
    {
      Distinct(ipReasm)
    }

    static ghost function Value(p: Packet): Pending
      reads p
    {
      Pending(Key(p.src.ip, p.dst.ip, p.ipId), p.proto, p.frames, p.ipCapLen, p.ipExpLen)
    }

    static ghost function Values(list: seq<Packet>): (r: seq<Pending>)
      reads list
      ensures |r| == |list| && forall i :: 0 <= i < |list| ==> r[i] == Value(list[i])
    {
      if list == [] then [] else Values(list[..|list| - 1]) + [Value(list[|list| - 1])]
    }

    static lemma ValuesWithout(list: seq<Packet>, i: nat)
      requires i < |list|
      ensures Values(list[..i] + list[i + 1..]) == Values(list)[..i] + Values(list)[i + 1..]
    {
      var r := list[..i] + list[i + 1..];
      var vs, ws := Values(list), Values(r);
      forall j | 0 <= j < |r|
        ensures ws[j] == vs[if j < i then j else j + 1]
      {
        assert r[j] == list[if j < i then j else j + 1];
      }
      SameWithout(ws, vs, i);
    }

    method FindPacket(key: Key) returns (i: int)
      ensures i == Find(Values(ipReasm), KeyIn, key)
    {
      ghost var ps := Values(ipReasm);
      i := 0;
      while i < |ipReasm|
        invariant 0 <= i <= |ipReasm| && FindFrom(ps, KeyIn, key, 0) == FindFrom(ps, KeyIn, key, i)
      {
        var p := ipReasm[i];
        if p.src.ip == key.src && p.dst.ip == key.dst && p.ipId == key.id {
          return;
        }
        i := i + 1;
      }
      i := -1;
    }

    method Total(frames: seq<Frame>) returns (len: nat)
      ensures len == TotalTo(frames, |frames|, linkHl)
    {
      len := 0;
      var i := 0;
      while i < |frames|
        invariant 0 <= i <= |frames| && len == TotalTo(frames, i, linkHl)
      {
        len := (len + ContentLen(frames[i], linkHl)) % UINT32_RANGE;
        i := i + 1;
      }
    }

    /** Copies every fragment to its offset in the packet buffer. */
    method CopyFragments(frames: seq<Frame>, base: nat, packet: array<Byte>)
      requires Fits(frames, linkHl, base, packet.Length)
      modifies packet
      ensures packet[..] == BlitTo(old(packet[..]), frames, |frames|, linkHl, base)
    {
      ghost var buf := packet[..];
      var i := 0;
      while i < |frames|
        invariant 0 <= i <= |frames| && packet[..] == BlitTo(buf, frames, i, linkHl, base)
      {
        CopyFragment(frames, i, base, packet, buf);
        i := i + 1;
      }
    }

    method CopyFragment(frames: seq<Frame>, i: nat, base: nat, packet: array<Byte>, ghost buf: seq<Byte>)
      requires i < |frames| && |buf| == packet.Length && Fits(frames, linkHl, base, packet.Length)
      requires packet[..] == BlitTo(buf, frames, i, linkHl, base)
      modifies packet
      ensures packet[..] == BlitTo(buf, frames, i + 1, linkHl, base)
    {
      Copy(packet, base + FragOff(frames[i], linkHl), Content(frames[i], linkHl));
    }

    method Clear(packet: array<Byte>, n: nat)
      requires n <= packet.Length
      modifies packet
      ensures packet[..] == Zeroed(old(packet[..]), n)
    {
      forall i | 0 <= i < n {
        packet[i] := 0;
      }
    }

    method Copy(packet: array<Byte>, to: nat, data: seq<Byte>)
      requires to + |data| <= packet.Length
      modifies packet
      ensures packet[..] == Write(old(packet[..]), to, data)
    {
      forall i | 0 <= i < |data| {
        packet[to + i] := data[i];
      }
    }

    /** The packet that takes the frame: a pending one, or a new one at the end of
        the list. */
    method Locate(frame: Frame, ghost ps: seq<Pending>) returns (pkt: Packet, ghost i: nat)
      requires Valid() && HasHeader(frame, linkHl) && Values(ipReasm) == ps
      modifies this
      ensures Valid() && i < |ipReasm| && ipReasm[i] == pkt
      ensures ipReasm == old(ipReasm) || (fresh(pkt) && ipReasm == old(ipReasm) + [pkt])
      ensures Value(pkt) == Slot(ps, frame, linkHl) && i == PlaceOf(ps, KeyIn, KeyOf(frame, linkHl))
      ensures Values(ipReasm) == if i < |ps| then ps else ps + [Value(pkt)]
    {
      var key := KeyOf(frame, linkHl);
      var f := FindPacket(key);
      if f >= 0 {
        pkt, i := ipReasm[f], f;
      } else {
        pkt := new Packet(4, Proto(frame, linkHl), Address(key.src, 0), Address(key.dst, 0), key.id);
        i := |ipReasm|;
        Append(pkt, ps);
      }
    }

    method Append(pkt: Packet, ghost ps: seq<Pending>)
      requires Valid() && pkt !in ipReasm && Values(ipReasm) == ps
      modifies this`ipReasm
      ensures Valid() && ipReasm == old(ipReasm) + [pkt] && Values(ipReasm) == ps + [Value(pkt)]
    {
      ghost var list := ipReasm;
      ipReasm := ipReasm + [pkt];
      assert ipReasm[..|list|] == list;
    }

    /** Adds a fragment to its packet and moves the two counters. */
    method AddTo(pkt: Packet, frame: Frame)
      requires HasHeader(frame, linkHl)
      modifies pkt
      ensures Value(pkt) == AddFragment(old(Value(pkt)), frame, linkHl)
    {
      pkt.AddFrame(frame);
      pkt.ipCapLen := (pkt.ipCapLen + ContentLen(frame, linkHl)) % UINT32_RANGE;
      if !MoreFragments(frame, linkHl) {
        pkt.ipExpLen := (FragOff(frame, linkHl) + ContentLen(frame, linkHl)) % UINT32_RANGE;
      }
    }

    /** Gives the frame to its packet, which then holds `p`. */
    method TakeFragment(frame: Frame, ghost ps: seq<Pending>, ghost p: Pending) returns (pkt: Packet, ghost i: nat)
      requires Valid() && HasHeader(frame, linkHl) && Values(ipReasm) == ps
      requires p == AddFragment(Slot(ps, frame, linkHl), frame, linkHl)
      modifies this, ipReasm
      ensures Valid() && i < |ipReasm| && ipReasm[i] == pkt && Value(pkt) == p
      ensures ipReasm == old(ipReasm) || (fresh(pkt) && ipReasm == old(ipReasm) + [pkt])
      ensures Values(ipReasm) == Put(ps, KeyIn, p) && i == PlaceOf(ps, KeyIn, KeyIn(p))
    {
      pkt, i := Locate(frame, ps);
      Give(pkt, frame, i, ps, p);
    }

    method Give(pkt: Packet, frame: Frame, ghost i: nat, ghost ps: seq<Pending>, ghost p: Pending)
      requires Valid() && HasHeader(frame, linkHl) && i < |ipReasm| && ipReasm[i] == pkt
      requires Values(ipReasm) == (if i < |ps| then ps else ps + [Value(pkt)]) && i == PlaceOf(ps, KeyIn, KeyIn(p))
      requires p == AddFragment(Value(pkt), frame, linkHl)
      modifies pkt
      ensures Value(pkt) == p && Values(ipReasm) == Put(ps, KeyIn, p)
    {
      ghost var vs := Values(ipReasm);
      AddOnly(pkt, frame, i, vs, p);
      PutAt(ps, KeyIn, vs[i := p], i, p);
    }

    /** Takes a packet out of the list. */
    method Remove(pkt: Packet, ghost i: nat, ghost vs: seq<Pending>)
      requires Valid() && i < |ipReasm| && ipReasm[i] == pkt && Values(ipReasm) == vs
      modifies this`ipReasm
      ensures Valid() && Values(ipReasm) == vs[..i] + vs[i + 1..]
    {
      var k := IndexOf(ipReasm, pkt);
      assert k == i;
      DistinctWithout(ipReasm, k);
      ValuesWithout(ipReasm, k);
      ipReasm := ipReasm[..k] + ipReasm[k + 1..];
    }

    /** Builds the datagram in the packet buffer, unless it is too large. */
    method Build(pkt: Packet, base: nat, packet: array<Byte>) returns (done: bool, size: nat)
      requires packet.Length == MAX_CAPTURE_LEN
      requires TotalTo(pkt.frames, |pkt.frames|, linkHl) <= MAX_CAPTURE_LEN ==>
                 Fits(pkt.frames, linkHl, base, packet.Length)
      modifies packet
      ensures size == TotalTo(pkt.frames, |pkt.frames|, linkHl)
      ensures done <==> size <= MAX_CAPTURE_LEN
      ensures packet[..] == if done
                            then BlitTo(Zeroed(old(packet[..]), base + size), pkt.frames, |pkt.frames|, linkHl, base)
                            else old(packet[..])
    {
      size := Total(pkt.frames);
      if size > MAX_CAPTURE_LEN {
        return false, size;
      }
      Clear(packet, base + size);
      CopyFragments(pkt.frames, base, packet);
      return true, size;
    }

    /** Takes one captured frame, which `packet` starts with.  Returns a complete
        packet with its content behind the IP header in `packet`, or nothing. */
    method Reassemble(frame: Frame, packet: array<Byte>) returns (pkt: Packet?, size: nat)
      requires Valid() && packet.Length == MAX_CAPTURE_LEN && frame <= packet[..]
      requires Safe(Values(ipReasm), frame, linkHl, packet.Length)
      requires Accepted(frame, linkHl) ==> Proto(frame, linkHl) != IPPROTO_IPIP
      modifies this, ipReasm, packet
      ensures Valid() && Values(ipReasm) == NextPending(old(Values(ipReasm)), frame, linkHl)
      ensures Answers(pkt, size, packet, old(packet[..]), Result(old(Values(ipReasm)), frame, linkHl, old(packet[..])))
    {
      if !Accepted(frame, linkHl) {
        return null, 0;
      }
      if !IsFragment(frame, linkHl) {
        pkt := Whole(frame);
        return pkt, ContentLen(frame, linkHl);
      }
      pkt, size := ReassembleCut(frame, packet, Values(ipReasm), packet[..]);
    }

    /** The returned packet, its size and the packet buffer are what `r` says; without a
        packet, the buffer is still `buf`. */
    static ghost predicate Answers(pkt: Packet?, size: nat, packet: array<Byte>, buf: seq<Byte>, r: Option<Output>)
      reads pkt, packet
    {
      match r
      case None => pkt == null && packet[..] == buf
      case Some(out) => pkt != null && Value(pkt) == out.packet && size == out.size && packet[..] == out.buf
    }

    method ReassembleCut(frame: Frame, packet: array<Byte>, ghost ps: seq<Pending>, ghost buf: seq<Byte>)
        returns (pkt: Packet?, size: nat)
      requires Valid() && packet.Length == MAX_CAPTURE_LEN && packet[..] == buf && Values(ipReasm) == ps
      requires Accepted(frame, linkHl) && IsFragment(frame, linkHl) && Safe(ps, frame, linkHl, |buf|)
      modifies this, ipReasm, packet
      ensures Valid() && Values(ipReasm) == NextPending(ps, frame, linkHl)
      ensures Answers(pkt, size, packet, buf, Result(ps, frame, linkHl, buf))
    {
      ghost var p := AddFragment(Slot(ps, frame, linkHl), frame, linkHl);
      CallIs(ps, frame, linkHl, buf, p);
      pkt, size := ReassembleFragment(frame, packet, ps, p, buf);
    }

    /** The packet of a datagram that was not cut. */
    method Whole(frame: Frame) returns (pkt: Packet)
      requires HasHeader(frame, linkHl)
      ensures fresh(pkt) && Value(pkt) == Pending(KeyOf(frame, linkHl), Proto(frame, linkHl), [frame], 0, 0)
    {
      var key := KeyOf(frame, linkHl);
      pkt := new Packet(4, Proto(frame, linkHl), Address(key.src, 0), Address(key.dst, 0), key.id);
      pkt.AddFrame(frame);
    }

    /** The call for a fragment; `p` is its packet with the fragment added. */
    method ReassembleFragment(frame: Frame, packet: array<Byte>, ghost ps: seq<Pending>, ghost p: Pending,
                              ghost buf: seq<Byte>) returns (pkt: Packet?, size: nat)
      requires Valid() && packet.Length == MAX_CAPTURE_LEN && HasHeader(frame, linkHl)
      requires packet[..] == buf && Values(ipReasm) == ps
      requires p == AddFragment(Slot(ps, frame, linkHl), frame, linkHl)
      requires Assembles(p, linkHl) ==> Fits(p.frames, linkHl, linkHl + IpHl(frame, linkHl), |buf|)
      modifies this, ipReasm, packet
      ensures Valid() && Values(ipReasm) == Settled(ps, p, linkHl)
      ensures Answers(pkt, size, packet, buf, Answer(p, linkHl + IpHl(frame, linkHl), linkHl, buf))
    {
      var found, i := TakeFragment(frame, ps, p);
      pkt, size := Settle(found, i, linkHl + IpHl(frame, linkHl), packet, ps, p, buf);
    }

    /** Assembles a packet that took a fragment, if it is complete, and returns it. */
    method Settle(found: Packet, ghost i: nat, base: nat, packet: array<Byte>,
                  ghost ps: seq<Pending>, ghost p: Pending, ghost buf: seq<Byte>)
        returns (pkt: Packet?, size: nat)
      requires Valid() && packet.Length == MAX_CAPTURE_LEN && packet[..] == buf
      requires i < |ipReasm| && ipReasm[i] == found && Value(found) == p && i == PlaceOf(ps, KeyIn, KeyIn(p))
      requires Values(ipReasm) == Put(ps, KeyIn, p)
      requires Assembles(p, linkHl) ==> Fits(p.frames, linkHl, base, |buf|)
      modifies this, packet
      ensures Valid() && Values(ipReasm) == Settled(ps, p, linkHl)
      ensures Answers(pkt, size, packet, buf, Answer(p, base, linkHl, buf))
    {
      ghost var vs := Values(ipReasm);
      PutThenDrop(ps, vs, i, p);
      var done;
      ghost var out;
      done, size, out := Finish(found, i, base, packet, p, buf, vs);
      pkt := if done then found else null;
    }

    /** Assembles a packet that is complete and takes it out of the list. */
    method Finish(pkt: Packet, ghost i: nat, base: nat, packet: array<Byte>,
                  ghost p: Pending, ghost buf: seq<Byte>, ghost vs: seq<Pending>)
        returns (done: bool, size: nat, ghost out: seq<Byte>)
      requires Valid() && packet.Length == MAX_CAPTURE_LEN && packet[..] == buf
      requires i < |ipReasm| && ipReasm[i] == pkt && Value(pkt) == p && Values(ipReasm) == vs
      requires Assembles(p, linkHl) ==> Fits(p.frames, linkHl, base, |buf|)
      modifies this, packet
      ensures Valid() && packet[..] == out && (done <==> Assembles(p, linkHl)) && Value(pkt) == p
      ensures Values(ipReasm) == if done then vs[..i] + vs[i + 1..] else vs
      ensures if done then Assembled(p, base, linkHl, buf, size, out) else out == buf
    {
      done, size, out := TryAssemble(pkt, base, packet, p, buf);
      if done {
        Remove(pkt, i, vs);
      }
    }

    method TryAssemble(pkt: Packet, base: nat, packet: array<Byte>, ghost p: Pending, ghost buf: seq<Byte>)
        returns (done: bool, size: nat, ghost out: seq<Byte>)
      requires packet.Length == MAX_CAPTURE_LEN && Value(pkt) == p && packet[..] == buf
      requires Assembles(p, linkHl) ==> Fits(p.frames, linkHl, base, |buf|)
      modifies packet
      ensures (done <==> Assembles(p, linkHl)) && packet[..] == out
      ensures if done then Assembled(p, base, linkHl, buf, size, out) else out == buf
    {
      done, size := false, 0;
      if pkt.ipCapLen == pkt.ipExpLen {
        done, size := Build(pkt, base, packet);
      }
      out := packet[..];
    }

    /** Changing one packet of the list changes one value. */
    method AddOnly(pkt: Packet, frame: Frame, ghost i: nat, ghost vs: seq<Pending>, ghost p: Pending)
      requires Valid() && HasHeader(frame, linkHl) && i < |ipReasm| && ipReasm[i] == pkt && Values(ipReasm) == vs
      requires p == AddFragment(Value(pkt), frame, linkHl)
      modifies pkt
      ensures Value(pkt) == p && Values(ipReasm) == vs[i := p]
    {
      AddTo(pkt, frame);
      forall j | 0 <= j < |ipReasm| && j != i
        ensures Value(ipReasm[j]) == vs[j]
      {
        assert ipReasm[j] != pkt;
      }
    }
  }

  ghost predicate Assembled(p: Pending, base: nat, hl: nat, buf: seq<Byte>, size: nat, out: seq<Byte>) {
    && size == TotalTo(p.frames, |p.frames|, hl) && Fits(p.frames, hl, base, |buf|)
    && out == BlitTo(Zeroed(buf, base + size), p.frames, |p.frames|, hl, base)
  }

  /** What a call returns whose packet then is `p`. */
  function Answer(p: Pending, base: nat, hl: nat, buf: seq<Byte>): Option<Output>
    requires Assembles(p, hl) ==> Fits(p.frames, hl, base, |buf|)
  {
    if Assembles(p, hl) then
      var len := TotalTo(p.frames, |p.frames|, hl);
      Some(Output(p, len, BlitTo(Zeroed(buf, base + len), p.frames, |p.frames|, hl, base)))
    else
      None
  }

  /** What is pending after that call. */
  function Settled(ps: seq<Pending>, p: Pending, hl: nat): seq<Pending> {
    if Assembles(p, hl) then Drop(ps, KeyIn, p.key) else Put(ps, KeyIn, p)
  }

  lemma CallIs(ps: seq<Pending>, f: Frame, hl: nat, buf: seq<Byte>, p: Pending)
    requires Accepted(f, hl) && IsFragment(f, hl) && Safe(ps, f, hl, |buf|)
    requires p == AddFragment(Slot(ps, f, hl), f, hl)
    ensures Assembles(p, hl) ==> Fits(p.frames, hl, hl + IpHl(f, hl), |buf|)
    ensures NextPending(ps, f, hl) == Settled(ps, p, hl)
    ensures Result(ps, f, hl, buf) == Answer(p, hl + IpHl(f, hl), hl, buf)
  {
  }

  lemma PutThenDrop(ps: seq<Pending>, vs: seq<Pending>, i: nat, p: Pending)
    requires i == PlaceOf(ps, KeyIn, KeyIn(p)) && vs == Put(ps, KeyIn, p)
    ensures i < |vs| && vs[..i] + vs[i + 1..] == Drop(ps, KeyIn, p.key)
  {
    PutThenRemove(ps, KeyIn, vs, i, p, p);
  }
}
