/** Reassembly of SIP messages from TCP segments (capture_packet_reasm_tcp in
    src/capture.c). */
module TcpReassembly {
  import opened Common
  import opened Packets
  import opened KeyedLists
  import opened SipFraming

  const MAX_CAPTURE_LEN: nat := 20480

  datatype Flow = Flow(src: Address, dst: Address)

  /** A packet of the reassembly list, or a returned one. */
  datatype Stored = Stored(flow: Flow, seqno: nat, payload: seq<Byte>, frames: seq<Frame>)

  /** A captured segment: its packet's addresses and frames, its sequence number, its
      payload and its PSH flag. */
  datatype Segment = Segment(flow: Flow, seqno: nat, payload: seq<Byte>, frames: seq<Frame>, push: bool)

  function FlowIn(p: Stored): Flow {
    p.flow
  }

  // ---------------------------------------------------------------------------
  // One segment
  // ---------------------------------------------------------------------------

  /** The packet that takes the segment, with its frames and its first sequence number:
      the pending one of the flow, or the segment's own. */
  function Joined(pending: Option<Stored>, s: Segment): Stored {
    match pending
    case None => Stored(s.flow, s.seqno, s.payload, s.frames)
    case Some(p) => Stored(p.flow, if p.seqno == 0 then s.seqno else p.seqno, p.payload, p.frames + s.frames)
  }

  /** The packet with the segment's payload, or nothing when it grew too large. */
  function Extended(p: Stored, s: Segment): Option<Stored> {
    if |p.frames| == 1 then
      if |s.payload| > MAX_CAPTURE_LEN then None else Some(p.(payload := s.payload))
    else if |p.payload| + |s.payload| > MAX_CAPTURE_LEN then None
    else if p.seqno < s.seqno then Some(p.(seqno := s.seqno, payload := p.payload + s.payload))
    else Some(p.(payload := s.payload + p.payload))
  }

  /** What becomes of the packet that took the segment: it is discarded, stays
      pending, is returned, or is returned up to `end` while the rest stays. */
  datatype Fate = Discard | Keep(p: Stored) | Return(p: Stored) | Split(p: Stored, end: nat)

  ghost predicate Proper(f: Fate, flow: Flow) {
    match f
    case Discard => true
    case Keep(p) => p.flow == flow
    case Return(p) => p.flow == flow
    case Split(p, end) => p.flow == flow && 0 < end < |p.payload|
  }

  /** What the verdict on its payload makes of a packet. */
  function Decide(p: Stored, v: Verdict, push: bool): Fate {
    match v
    case Complete => Return(p)
    case Multiple(end) => Split(p, end)
    case NotSip => if push then Return(p) else Keep(p)
    case Partial => Keep(p)
  }

  /** What becomes of the packet that took the segment's frames. */
  function FateAfter(p: Stored, s: Segment): (f: Fate)
    ensures Proper(f, p.flow)
  {
    match Extended(p, s)
    case None => Discard
    case Some(q) => Decide(q, Validate(q.payload), s.push)
  }

  function FateOf(pending: Option<Stored>, s: Segment): (f: Fate)
    requires pending.Some? ==> pending.value.flow == s.flow
    ensures Proper(f, s.flow)
  {
    FateAfter(Joined(pending, s), s)
  }

  /** What stays pending. */
  function Left(f: Fate): Option<Stored>
    requires f.Split? ==> f.end <= |f.p.payload|
  {
    match f
    case Discard => None
    case Keep(p) => Some(p)
    case Return(_) => None
    case Split(p, end) => Some(p.(payload := p.payload[end..]))
  }

  /** What is returned. */
  function Got(f: Fate): Option<Stored>
    requires f.Split? ==> f.end <= |f.p.payload|
  {
    match f
    case Discard => None
    case Keep(_) => None
    case Return(p) => Some(p)
    case Split(p, end) => Some(p.(payload := p.payload[..end]))
  }

  /** The list after a packet of the flow met its fate.  The rest of a payload with
      several messages goes to the end of the list; a packet that only grows keeps its
      place. */
  function Act(ps: seq<Stored>, flow: Flow, f: Fate): seq<Stored>
    requires f.Split? ==> f.end <= |f.p.payload|
  {
    match f
    case Discard => Drop(ps, FlowIn, flow)
    case Keep(p) => Put(ps, FlowIn, p)
    case Return(_) => Drop(ps, FlowIn, flow)
    case Split(p, end) => Drop(ps, FlowIn, flow) + [p.(payload := p.payload[end..])]
  }

  /** The list after a segment; one without payload is returned at once. */
  function NextList(ps: seq<Stored>, s: Segment): seq<Stored> {
    if s.payload == [] then ps else Act(ps, s.flow, FateOf(Lookup(ps, FlowIn, s.flow), s))
  }

  function Returned(ps: seq<Stored>, s: Segment): Option<Stored> {
    if s.payload == [] then Some(Stored(s.flow, 0, [], s.frames)) else Got(FateOf(Lookup(ps, FlowIn, s.flow), s))
  }

  // ---------------------------------------------------------------------------
  // Flows do not interfere
  // ---------------------------------------------------------------------------

  lemma ActLookup(ps: seq<Stored>, k: Flow, f: Fate, flow: Flow)
    requires UniqueKeys(ps, FlowIn) && Proper(f, k)
    ensures UniqueKeys(Act(ps, k, f), FlowIn)
    ensures Lookup(Act(ps, k, f), FlowIn, flow) == if flow == k then Left(f) else Lookup(ps, FlowIn, flow)
  {
    DropLookup(ps, FlowIn, k, flow);
    if f.Keep? {
      PutLookup(ps, FlowIn, f.p, flow);
    } else if f.Split? {
      DropLookup(ps, FlowIn, k, k);
      PutLookup(Drop(ps, FlowIn, k), FlowIn, f.p.(payload := f.p.payload[f.end..]), flow);
    }
  }

  /** A segment moves its own flow on and no other, and at most one packet per flow
      stays pending. */
  lemma ListStep(ps: seq<Stored>, s: Segment, flow: Flow)
    requires UniqueKeys(ps, FlowIn)
    ensures UniqueKeys(NextList(ps, s), FlowIn)
    ensures Lookup(NextList(ps, s), FlowIn, flow)
         == if flow == s.flow && s.payload != [] then Left(FateOf(Lookup(ps, FlowIn, flow), s))
            else Lookup(ps, FlowIn, flow)
  {
    if s.payload != [] {
      ActLookup(ps, s.flow, FateOf(Lookup(ps, FlowIn, s.flow), s), flow);
    }
  }

  // ---------------------------------------------------------------------------
  // Conservation: any interleaving of flows
  // ---------------------------------------------------------------------------

  /** What a run did to one flow: the pending packets of all flows, the payloads that
      were returned for the flow's segments, the octets that arrived in it, and its last
      sequence number. */
  datatype History = History(pending: seq<Stored>, returned: seq<seq<Byte>>, arrived: seq<Byte>, last: nat)

  const START: History := History([], [], [], 0)

  /** A segment of the flow that brings data. */
  predicate Brings(s: Segment, flow: Flow) {
    s.flow == flow && s.payload != []
  }

  function Emitted(ps: seq<Stored>, s: Segment): seq<seq<Byte>> {
    var r := Returned(ps, s);
    if r.Some? then [r.value.payload] else []
  }

  function Advance(h: History, s: Segment, flow: Flow): History {
    if Brings(s, flow)
    then History(NextList(h.pending, s), h.returned + Emitted(h.pending, s), h.arrived + s.payload, s.seqno)
    else h.(pending := NextList(h.pending, s))
  }

  function Step(flow: Flow): (History, Segment) -> History {
    (h, s) => Advance(h, s, flow)
  }

  function HistoryTo(segs: seq<Segment>, n: nat, flow: Flow): History
    requires n <= |segs|
  {
    FoldTo(START, segs, n, Step(flow))
  }

  function PayloadOf(p: Option<Stored>): seq<Byte> {
    if p.None? then [] else p.value.payload
  }

  /** What is pending for the flow. */
  function Rest(h: History, flow: Flow): seq<Byte> {
    PayloadOf(Lookup(h.pending, FlowIn, flow))
  }

  /** The code puts the segment's payload behind what is pending: the packet does not grow
      too large, and a first segment comes in one frame while a later one has a sequence
      number behind that of the pending packet. */
  predicate Appends(pending: Option<Stored>, s: Segment) {
    && |PayloadOf(pending)| + |s.payload| <= MAX_CAPTURE_LEN
    && match pending
       case None => |s.frames| == 1
       case Some(p) => s.frames != [] && 0 < p.seqno < s.seqno
  }

  predicate Follows(h: History, s: Segment, flow: Flow) {
    Brings(s, flow) ==> Appends(Lookup(h.pending, FlowIn, flow), s)
  }

  function Following(flow: Flow): (History, Segment) -> bool {
    (h, s) => Follows(h, s, flow)
  }

  /** What every pending packet of a flow looks like. */
  predicate Healthy(p: Option<Stored>) {
    p.Some? ==> p.value.frames != [] && p.value.payload != []
  }

  /** What was returned and then what is pending is what arrived; what is pending has the
      sequence number of the last segment. */
  ghost predicate Conserved(h: History, flow: Flow) {
    var pending := Lookup(h.pending, FlowIn, flow);
    && UniqueKeys(h.pending, FlowIn) && Healthy(pending) && (pending.Some? ==> pending.value.seqno == h.last)
    && AllReturned(h, flow)
  }

  ghost predicate AllReturned(h: History, flow: Flow) {
    Concat(h.returned) + Rest(h, flow) == h.arrived
  }

  ghost function Conserving(flow: Flow): History -> bool {
    h => Conserved(h, flow)
  }

  /** In order, the segment's payload is always appended. */
  lemma ExtendedAppends(pending: Option<Stored>, s: Segment)
    requires pending.Some? ==> pending.value.flow == s.flow
    requires Healthy(pending) && Appends(pending, s) && s.payload != []
    ensures var e := Extended(Joined(pending, s), s);
            e.Some? && e.value.payload == PayloadOf(pending) + s.payload && Healthy(e) && e.value.seqno == s.seqno
  {
  }

  /** Whatever the verdict, no octet of a packet is lost or repeated. */
  lemma DecideConserves(q: Stored, v: Verdict, push: bool)
    requires v.Multiple? ==> 0 < v.end < |q.payload|
    requires Healthy(Some(q))
    ensures var f := Decide(q, v, push);
            PayloadOf(Got(f)) + PayloadOf(Left(f)) == q.payload && Healthy(Left(f))
            && (Left(f).Some? ==> Left(f).value.seqno == q.seqno)
  {
    DecideKeepsBytes(q, v, push);
  }

  lemma DecideKeepsBytes(q: Stored, v: Verdict, push: bool)
    requires v.Multiple? ==> 0 < v.end < |q.payload|
    ensures var f := Decide(q, v, push);
            (f.Split? ==> f.end <= |f.p.payload|) && PayloadOf(Got(f)) + PayloadOf(Left(f)) == q.payload
  {
  }

  lemma FateConserves(pending: Option<Stored>, s: Segment)
    requires pending.Some? ==> pending.value.flow == s.flow
    requires Healthy(pending) && Appends(pending, s) && s.payload != []
    ensures var f := FateOf(pending, s);
            PayloadOf(Got(f)) + PayloadOf(Left(f)) == PayloadOf(pending) + s.payload && Healthy(Left(f))
            && (Left(f).Some? ==> Left(f).value.seqno == s.seqno)
  {
    ExtendedAppends(pending, s);
    var q := Extended(Joined(pending, s), s).value;
    DecideConserves(q, Validate(q.payload), s.push);
  }

  // ---------------------------------------------------------------------------
  // When octets are conserved, exactly
  // ---------------------------------------------------------------------------

  /** The octets of both packets that a segment leaves. */
  function Kept(pending: Option<Stored>, s: Segment): seq<Byte>
    requires pending.Some? ==> pending.value.flow == s.flow
  {
    var f := FateOf(pending, s);
    PayloadOf(Got(f)) + PayloadOf(Left(f))
  }

  lemma KeptIs(pending: Option<Stored>, s: Segment)
    requires pending.Some? ==> pending.value.flow == s.flow
    ensures Kept(pending, s) == PayloadOf(Extended(Joined(pending, s), s))
  {
    var e := Extended(Joined(pending, s), s);
    if e.Some? {
      DecideKeepsBytes(e.value, Validate(e.value.payload), s.push);
    }
  }

  /** The segment is put before what is pending, and that makes no difference. */
  predicate EitherOrder(pending: Option<Stored>, s: Segment) {
    var p := PayloadOf(pending);
    pending.Some? && |p| + |s.payload| <= MAX_CAPTURE_LEN && p + s.payload == s.payload + p
  }

  /** What a segment makes of the octets of its flow: a first segment in several frames is
      joined to its own payload, and one that does not come later is put first. */
  lemma ExtendedIs(pending: Option<Stored>, s: Segment)
    requires pending.Some? ==> pending.value.flow == s.flow
    requires Healthy(pending) && s.frames != [] && s.payload != []
    ensures var p := PayloadOf(pending);
            PayloadOf(Extended(Joined(pending, s), s))
            == if pending.None? && |s.frames| == 1 then if |s.payload| <= 20480 then s.payload else []
               else if pending.None? then if 2 * |s.payload| <= 20480 then s.payload + s.payload else []
               else if |p| + |s.payload| > 20480 then []
               else if 0 < pending.value.seqno < s.seqno then p + s.payload
               else s.payload + p
  {
  }

  /** A packet of the flow holds the frames of all its segments, in the order in which they
      came, and their greatest sequence number. */
  ghost predicate Holds(p: Option<Stored>, pending: Option<Stored>, s: Segment) {
    p.Some? ==>
      && p.value.flow == s.flow
      && p.value.frames == (if pending.Some? then pending.value.frames else []) + s.frames
      && p.value.seqno == if pending.Some? && s.seqno < pending.value.seqno then pending.value.seqno else s.seqno
  }

  lemma FateHolds(pending: Option<Stored>, s: Segment)
    requires pending.Some? ==> pending.value.flow == s.flow
    requires Healthy(pending) && s.frames != []
    ensures Holds(Got(FateOf(pending, s)), pending, s) && Holds(Left(FateOf(pending, s)), pending, s)
  {
    var e := Extended(Joined(pending, s), s);
    JoinedHolds(pending, s, e);
    if e.Some? {
      DecideHolds(pending, s, e.value, Validate(e.value.payload));
    }
  }

  lemma JoinedHolds(pending: Option<Stored>, s: Segment, e: Option<Stored>)
    requires pending.Some? ==> pending.value.flow == s.flow
    requires Healthy(pending) && s.frames != [] && e == Extended(Joined(pending, s), s)
    ensures Holds(e, pending, s)
  {
  }

  lemma DecideHolds(pending: Option<Stored>, s: Segment, q: Stored, v: Verdict)
    requires Holds(Some(q), pending, s) && (v.Multiple? ==> v.end <= |q.payload|)
    ensures var f := Decide(q, v, s.push); Holds(Got(f), pending, s) && Holds(Left(f), pending, s)
  {
  }

  /** A segment without payload is returned at once, with its frames, and changes nothing. */
  lemma EmptySegmentPasses(ps: seq<Stored>, s: Segment)
    requires s.payload == []
    ensures NextList(ps, s) == ps && Returned(ps, s).Some?
    ensures var p := Returned(ps, s).value; p.flow == s.flow && p.payload == [] && p.frames == s.frames
  {
  }

  /** A first segment that was itself cut into IP fragments comes with several frames and
      with its payload already set, and then the payload is joined to itself. */
  lemma FragmentedSegmentIsDoubled(s: Segment)
    requires |s.frames| > 1 && s.payload != [] && 2 * |s.payload| <= MAX_CAPTURE_LEN
    ensures Kept(None, s) == s.payload + s.payload
  {
    KeptIs(None, s);
    ExtendedIs(None, s);
  }

  /** A segment loses or repeats octets, or puts them out of order, in all other cases. */
  lemma ConservesExactly(pending: Option<Stored>, s: Segment)
    requires pending.Some? ==> pending.value.flow == s.flow
    requires Healthy(pending) && s.frames != [] && s.payload != []
    ensures Kept(pending, s) == PayloadOf(pending) + s.payload <==> Appends(pending, s) || EitherOrder(pending, s)
  {
    KeptIs(pending, s);
    ExtendedIs(pending, s);
    assert |PayloadOf(pending) + s.payload| == |PayloadOf(pending)| + |s.payload| > 0;
  }

  lemma {:induction false} ConcatPlus(a: seq<seq<Byte>>, b: seq<seq<Byte>>)
    ensures Concat(a + b) == Concat(a) + Concat(b)
  {
    if b == [] {
      assert a + b == a;
    } else {
      var front, last := b[..|b| - 1], b[|b| - 1];
      ConcatPlus(a, front);
      assert (a + b)[..|a + b| - 1] == a + front;
      Reassociate(Concat(a), Concat(front), last);
    }
  }

  lemma ConcatOne(x: seq<Byte>)
    ensures Concat([x]) == x
  {
    assert Concat([x]) == Concat([x][..0]) + x;
  }

  lemma ConcatPlusOne(a: seq<seq<Byte>>, got: Option<Stored>)
    ensures Concat(a + if got.Some? then [got.value.payload] else []) == Concat(a) + PayloadOf(got)
  {
    if got.Some? {
      ConcatPlus(a, [got.value.payload]);
      ConcatOne(got.value.payload);
    } else {
      assert a + [] == a;
    }
  }

  lemma Regroup(a: seq<Byte>, b: seq<Byte>, c: seq<Byte>, d: seq<Byte>, e: seq<Byte>)
    requires b + c == d + e
    ensures (a + b) + c == (a + d) + e
  {
    assert (a + b) + c == a + (b + c);
    assert (a + d) + e == a + (d + e);
  }

  /** The step of a segment that brings data, with its fate named. */
  lemma AdvanceIs(h: History, s: Segment, f: Fate)
    requires UniqueKeys(h.pending, FlowIn) && s.payload != [] && f == FateOf(Lookup(h.pending, FlowIn, s.flow), s)
    ensures var g := Advance(h, s, s.flow);
            UniqueKeys(g.pending, FlowIn) && Lookup(g.pending, FlowIn, s.flow) == Left(f) && g.last == s.seqno
            && g.arrived == h.arrived + s.payload
            && g.returned == h.returned + (if Got(f).Some? then [Got(f).value.payload] else [])
  {
    ListStep(h.pending, s, s.flow);
  }

  lemma OtherAdvance(h: History, s: Segment, flow: Flow)
    requires UniqueKeys(h.pending, FlowIn) && !Brings(s, flow)
    ensures var g := Advance(h, s, flow);
            UniqueKeys(g.pending, FlowIn) && g == h.(pending := g.pending)
            && Lookup(g.pending, FlowIn, flow) == Lookup(h.pending, FlowIn, flow)
  {
    ListStep(h.pending, s, flow);
  }

  lemma AdvanceConserves(h: History, s: Segment, flow: Flow)
    requires Conserved(h, flow) && Follows(h, s, flow)
    ensures Conserved(Advance(h, s, flow), flow)
  {
    if Brings(s, flow) {
      var pending := Lookup(h.pending, FlowIn, flow);
      var f := FateOf(pending, s);
      FateConserves(pending, s);
      AdvanceIs(h, s, f);
      ConcatPlusOne(h.returned, Got(f));
      Regroup(Concat(h.returned), PayloadOf(Got(f)), PayloadOf(Left(f)), PayloadOf(pending), s.payload);
    } else {
      OtherAdvance(h, s, flow);
    }
  }

  lemma CancelFront(a: seq<Byte>, x: seq<Byte>, y: seq<Byte>)
    ensures a + x == a + y <==> x == y
  {
    assert (a + x)[|a|..] == x && (a + y)[|a|..] == y;
  }

  /** A segment keeps the account of its flow in exactly these cases. */
  lemma AdvanceConservesExactly(h: History, s: Segment)
    requires Conserved(h, s.flow) && s.frames != [] && s.payload != []
    ensures var pending := Lookup(h.pending, FlowIn, s.flow);
            AllReturned(Advance(h, s, s.flow), s.flow) <==> Appends(pending, s) || EitherOrder(pending, s)
  {
    var pending := Lookup(h.pending, FlowIn, s.flow);
    var f, out := FateOf(pending, s), Concat(h.returned);
    ConservesExactly(pending, s);
    AdvanceIs(h, s, f);
    ConcatPlusOne(h.returned, Got(f));
    Reassociate(out, PayloadOf(Got(f)), PayloadOf(Left(f)));
    Reassociate(out, PayloadOf(pending), s.payload);
    CancelFront(out, Kept(pending, s), PayloadOf(pending) + s.payload);
  }

  /** Conservation: after every run in which the flow's segments are appended, whatever
      the other flows do, what was returned for the flow and then what is pending for it
      is what arrived in it. */
  lemma BytesAreConserved(segs: seq<Segment>, n: nat, flow: Flow)
    requires n <= |segs| && AllOk(START, segs, n, Step(flow), Following(flow))
    ensures Conserved(HistoryTo(segs, n, flow), flow)
  {
    forall h, s | Conserving(flow)(h) && Following(flow)(h, s)
      ensures Conserving(flow)(Step(flow)(h, s))
    {
      AdvanceConserves(h, s, flow);
    }
    RunKeeps(START, segs, n, Step(flow), Following(flow), Conserving(flow));
  }

  /** A condition on the segments alone: single frames and positive, increasing sequence
      numbers, as long as the pending packet does not grow too large. */
  predicate Increases(h: History, s: Segment, flow: Flow) {
    Brings(s, flow) ==> |s.frames| == 1 && h.last < s.seqno && |Rest(h, flow)| + |s.payload| <= MAX_CAPTURE_LEN
  }

  function Increasing(flow: Flow): (History, Segment) -> bool {
    (h, s) => Increases(h, s, flow)
  }

  ghost predicate Numbered(h: History, flow: Flow) {
    Conserved(h, flow) && (Lookup(h.pending, FlowIn, flow).Some? ==> h.last > 0)
  }

  ghost function Numbering(flow: Flow): History -> bool {
    h => Numbered(h, flow)
  }

  lemma IncreasesFollows(h: History, s: Segment, flow: Flow)
    requires Numbered(h, flow) && Increases(h, s, flow)
    ensures Follows(h, s, flow) && Numbered(Advance(h, s, flow), flow)
  {
    AdvanceConserves(h, s, flow);
    if !Brings(s, flow) {
      OtherAdvance(h, s, flow);
    }
  }

  /** With increasing sequence numbers every segment is appended. */
  lemma IncreasingFollows(segs: seq<Segment>, n: nat, flow: Flow)
    requires n <= |segs| && AllOk(START, segs, n, Step(flow), Increasing(flow))
    ensures AllOk(START, segs, n, Step(flow), Following(flow))
  {
    forall h, s | Numbering(flow)(h) && Increasing(flow)(h, s)
      ensures Numbering(flow)(Step(flow)(h, s)) && Following(flow)(h, s)
    {
      IncreasesFollows(h, s, flow);
    }
    forall i | 0 <= i < n
      ensures Following(flow)(FoldTo(START, segs, i, Step(flow)), segs[i])
    {
      RunKeeps(START, segs, i, Step(flow), Increasing(flow), Numbering(flow));
    }
  }

  // ---------------------------------------------------------------------------
  // Framing: a stream of well-formed messages
  // ---------------------------------------------------------------------------

  /** When the data `p` that is pending for the message `m` gets the right fate: within the
      size that the validation reads, a PSH segment has to find a start line; a larger
      packet is returned by a PSH segment alone, and as a whole. */
  predicate FramesRight(push: bool, p: seq<Byte>, m: seq<Byte>) {
    if |p| <= MAX_SIP_PAYLOAD then push ==> StartsLikeSip(p)
    else if |p| < |m| then !push
    else push && |p| == |m|
  }

  /** A segment of the flow is appended, and the next message of the stream `ms` gets the
      right fate. */
  predicate Undisturbed(h: History, s: Segment, flow: Flow, ms: seq<seq<Byte>>) {
    && Follows(h, s, flow)
    && (Brings(s, flow) && |h.returned| < |ms| ==>
          FramesRight(s.push, Rest(h, flow) + s.payload, ms[|h.returned|]))
  }

  function Flowing(flow: Flow, ms: seq<seq<Byte>>): (History, Segment) -> bool {
    (h, s) => Undisturbed(h, s, flow, ms)
  }

  predicate AllWellFormed(ms: seq<seq<Byte>>) {
    forall i :: 0 <= i < |ms| ==> WellFormed(ms[i])
  }

  /** As long as the stream `ms` arrives, its messages are returned one by one. */
  ghost predicate Framed(h: History, flow: Flow, ms: seq<seq<Byte>>) {
    Conserved(h, flow) && (h.arrived <= Concat(ms) ==> h.returned <= ms)
  }

  ghost function Framing(flow: Flow, ms: seq<seq<Byte>>): History -> bool {
    h => Framed(h, flow, ms)
  }

  /** The data behind the first messages begins with, or is the beginning of, the next
      one. */
  lemma NextMessage(first: seq<seq<Byte>>, m: seq<Byte>, tail: seq<seq<Byte>>, p: seq<Byte>)
    requires Concat(first) + p <= Concat(first + ([m] + tail))
    ensures p <= m || m <= p
  {
    ConcatPlus(first, [m] + tail);
    ConcatPlus([m], tail);
    ConcatOne(m);
    PrefixOfBoth(Concat(first), p, m, Concat(tail));
  }

  lemma PrefixOfBoth(a: seq<Byte>, p: seq<Byte>, m: seq<Byte>, tail: seq<Byte>)
    requires a + p <= a + (m + tail)
    ensures p <= m || m <= p
  {
    assert forall i :: 0 <= i < |p| ==> p[i] == (a + p)[|a| + i] == (a + (m + tail))[|a| + i] == (m + tail)[i];
  }

  /** All messages were returned: nothing can be left. */
  lemma NothingLeft(ms: seq<seq<Byte>>, p: seq<Byte>)
    requires Concat(ms) + p <= Concat(ms)
    ensures p == []
  {
  }

  /** The message is returned when it is complete, and nothing before. */
  predicate OnTime(got: Option<Stored>, p: seq<Byte>, m: seq<Byte>) {
    if |p| < |m| then got == None else got.Some? && got.value.payload == m
  }

  /** A packet that is too large for the validation. */
  lemma TooLargeFrames(q: Stored, push: bool, m: seq<Byte>)
    requires |q.payload| > MAX_SIP_PAYLOAD && (q.payload <= m || m <= q.payload)
    ensures OnTime(Got(Decide(q, Validate(q.payload), push)), q.payload, m) <==> FramesRight(push, q.payload, m)
  {
  }

  lemma DecideFrames(q: Stored, v: Verdict, push: bool, m: seq<Byte>, starts: bool)
    requires q.payload <= m || m <= q.payload
    requires |q.payload| < |m| ==> v == if starts then Partial else NotSip
    requires |q.payload| == |m| ==> v == Complete
    requires |q.payload| > |m| ==> v == Multiple(|m|)
    ensures var f := Decide(q, v, push);
            (f.Split? ==> f.end <= |q.payload|)
            && (OnTime(Got(f), q.payload, m) <==> (push && |q.payload| < |m| ==> starts))
  {
  }

  lemma SmallFrames(q: Stored, push: bool, m: seq<Byte>, p: seq<Byte>)
    requires p == q.payload && 0 < |p| <= MAX_SIP_PAYLOAD && (p <= m || m <= p) && WellFormed(m) && 0 !in p
    ensures OnTime(Got(Decide(q, Validate(p), push)), p, m) <==> FramesRight(push, p, m)
  {
    VerdictExactly(m, p);
    DecideFrames(q, Validate(p), push, m, StartsLikeSip(p));
    if m <= p {
      StartAgrees(m, p);
    }
  }

  /** The fate of a segment that is appended to what is pending for the message `m`: right
      exactly in these cases. */
  lemma FateFrames(pending: Option<Stored>, s: Segment, m: seq<Byte>, p: seq<Byte>)
    requires pending.Some? ==> pending.value.flow == s.flow
    requires Healthy(pending) && Appends(pending, s) && s.payload != []
    requires p == PayloadOf(pending) + s.payload && WellFormed(m) && (p <= m || m <= p) && 0 !in p
    ensures OnTime(Got(FateOf(pending, s)), p, m) <==> FramesRight(s.push, p, m)
  {
    ExtendedAppends(pending, s);
    var q := Extended(Joined(pending, s), s).value;
    if |p| <= MAX_SIP_PAYLOAD {
      SmallFrames(q, s.push, m, p);
    } else {
      TooLargeFrames(q, s.push, m);
    }
  }

  lemma {:induction false} NoNul(ms: seq<seq<Byte>>)
    requires AllWellFormed(ms)
    ensures 0 !in Concat(ms)
  {
    if ms != [] {
      NoNul(ms[..|ms| - 1]);
      assert WellFormed(ms[|ms| - 1]);
    }
  }

  lemma NoNulBehind(a: seq<Byte>, p: seq<Byte>, ms: seq<seq<Byte>>)
    requires AllWellFormed(ms) && a + p <= Concat(ms)
    ensures 0 !in p
  {
    NoNul(ms);
    forall i | 0 <= i < |p|
      ensures p[i] != 0
    {
      assert p[i] == (a + p)[|a| + i] == Concat(ms)[|a| + i];
    }
  }

  lemma OneMore(out: seq<seq<Byte>>, ms: seq<seq<Byte>>, got: Option<Stored>)
    requires out < ms && (got.Some? ==> got.value.payload == ms[|out|])
    ensures out + (if got.Some? then [got.value.payload] else []) <= ms
  {
  }

  /** Where the next message of the stream is. */
  lemma NextOf(out: seq<seq<Byte>>, ms: seq<seq<Byte>>, p: seq<Byte>)
    requires out <= ms && Concat(out) + p <= Concat(ms) && p != []
    ensures out < ms && (p <= ms[|out|] || ms[|out|] <= p)
  {
    if |out| == |ms| {
      assert out == ms;
      NothingLeft(ms, p);
    } else {
      SplitAt(out, ms);
      NextMessage(out, ms[|out|], ms[|out| + 1..], p);
    }
  }

  lemma SplitAt(out: seq<seq<Byte>>, ms: seq<seq<Byte>>)
    requires out <= ms && |out| < |ms|
    ensures ms == out + ([ms[|out|]] + ms[|out| + 1..])
  {
  }

  /** One more segment of the flow completes the next message or leaves the rest. */
  lemma FramedSegment(h: History, s: Segment, ms: seq<seq<Byte>>, pending: Option<Stored>, f: Fate)
    requires pending == Lookup(h.pending, FlowIn, s.flow) && f == FateOf(pending, s) && s.payload != []
    requires Conserved(h, s.flow) && Undisturbed(h, s, s.flow, ms)
    requires AllWellFormed(ms) && h.returned <= ms && h.arrived + s.payload <= Concat(ms)
    ensures h.returned + (if Got(f).Some? then [Got(f).value.payload] else []) <= ms
  {
    var p := PayloadOf(pending) + s.payload;
    Reassociate(Concat(h.returned), PayloadOf(pending), s.payload);
    assert |p| > 0;
    NextOf(h.returned, ms, p);
    NoNulBehind(Concat(h.returned), p, ms);
    FateFrames(pending, s, ms[|h.returned|], p);
    assert |h.returned| < |ms|;
    OneMore(h.returned, ms, Got(f));
  }

  lemma AdvanceFrames(h: History, s: Segment, flow: Flow, ms: seq<seq<Byte>>)
    requires AllWellFormed(ms) && Framed(h, flow, ms) && Undisturbed(h, s, flow, ms)
    ensures Framed(Advance(h, s, flow), flow, ms)
  {
    AdvanceConserves(h, s, flow);
    if Brings(s, flow) && h.arrived + s.payload <= Concat(ms) {
      var f := FateOf(Lookup(h.pending, FlowIn, flow), s);
      assert h.arrived <= h.arrived + s.payload;
      FramedSegment(h, s, ms, Lookup(h.pending, FlowIn, flow), f);
      AdvanceIs(h, s, f);
    }
  }

  lemma StepsFrame(flow: Flow, ms: seq<seq<Byte>>)
    requires AllWellFormed(ms)
    ensures forall h, s :: Framing(flow, ms)(h) && Flowing(flow, ms)(h, s) ==> Framing(flow, ms)(Step(flow)(h, s))
  {
    forall h, s | Framing(flow, ms)(h) && Flowing(flow, ms)(h, s)
      ensures Framing(flow, ms)(Step(flow)(h, s))
    {
      AdvanceFrames(h, s, flow, ms);
    }
  }

  lemma StartIsFramed(flow: Flow, ms: seq<seq<Byte>>)
    ensures Framing(flow, ms)(START)
  {
  }

  lemma RunIsFramed(segs: seq<Segment>, n: nat, flow: Flow, ms: seq<seq<Byte>>)
    requires n <= |segs| && AllOk(START, segs, n, Step(flow), Flowing(flow, ms)) && AllWellFormed(ms)
    ensures Framing(flow, ms)(HistoryTo(segs, n, flow))
  {
    StepsFrame(flow, ms);
    StartIsFramed(flow, ms);
    RunKeeps(START, segs, n, Step(flow), Flowing(flow, ms), Framing(flow, ms));
  }

  /** Framing: for every way of cutting a stream of well-formed messages into segments,
      and every interleaving with other flows, the payloads returned are a prefix of the
      messages, and what is pending is exactly the rest of what arrived. */
  lemma MessagesAreFramed(segs: seq<Segment>, n: nat, flow: Flow, ms: seq<seq<Byte>>)
    requires n <= |segs| && AllOk(START, segs, n, Step(flow), Flowing(flow, ms)) && AllWellFormed(ms)
    requires HistoryTo(segs, n, flow).arrived <= Concat(ms)
    ensures var h := HistoryTo(segs, n, flow);
            h.returned <= ms && Concat(h.returned) + Rest(h, flow) == h.arrived
  {
    RunIsFramed(segs, n, flow, ms);
    FramedIs(HistoryTo(segs, n, flow), flow, ms);
  }

  /** Each segment of the stream returns the next message exactly when it brings the data
      to the end of that message, and nothing otherwise. */
  lemma SegmentReturnsExactly(segs: seq<Segment>, n: nat, flow: Flow, ms: seq<seq<Byte>>)
    requires n < |segs| && AllOk(START, segs, n + 1, Step(flow), Flowing(flow, ms)) && AllWellFormed(ms)
    requires HistoryTo(segs, n + 1, flow).arrived <= Concat(ms) && Brings(segs[n], flow)
    ensures var h := HistoryTo(segs, n, flow);
            var out := h.returned;
            out < ms && Emitted(h.pending, segs[n])
                        == if |Rest(h, flow)| + |segs[n].payload| < |ms[|out|]| then [] else [ms[|out|]]
  {
    RunIsFramed(segs, n, flow, ms);
    LastSegment(segs, n, flow, ms);
    ReturnsExactly(HistoryTo(segs, n, flow), segs[n], flow, ms);
  }

  lemma LastSegment(segs: seq<Segment>, n: nat, flow: Flow, ms: seq<seq<Byte>>)
    requires n < |segs| && AllOk(START, segs, n + 1, Step(flow), Flowing(flow, ms)) && Brings(segs[n], flow)
    ensures Flowing(flow, ms)(HistoryTo(segs, n, flow), segs[n]) && Following(flow)(HistoryTo(segs, n, flow), segs[n])
    ensures HistoryTo(segs, n + 1, flow).arrived == HistoryTo(segs, n, flow).arrived + segs[n].payload
  {
  }

  /** A segment of the flow returns the next message of the stream exactly when it brings
      the data to its end, and nothing otherwise. */
  predicate ReturnsOnTime(h: History, s: Segment, flow: Flow, ms: seq<seq<Byte>>) {
    h.returned < ms
    && Emitted(h.pending, s) == if |Rest(h, flow)| + |s.payload| < |ms[|h.returned|]| then [] else [ms[|h.returned|]]
  }

  lemma ReturnsExactly(h: History, s: Segment, flow: Flow, ms: seq<seq<Byte>>)
    requires Framing(flow, ms)(h) && Following(flow)(h, s) && Brings(s, flow) && AllWellFormed(ms)
    requires h.arrived + s.payload <= Concat(ms)
    ensures ReturnsOnTime(h, s, flow, ms) <==> Undisturbed(h, s, flow, ms)
  {
    assert h.arrived <= h.arrived + s.payload;
    var pending, p := Lookup(h.pending, FlowIn, flow), Rest(h, flow) + s.payload;
    Reassociate(Concat(h.returned), PayloadOf(pending), s.payload);
    NextOf(h.returned, ms, p);
    NoNulBehind(Concat(h.returned), p, ms);
    FateFrames(pending, s, ms[|h.returned|], p);
    EmittedOnTime(h, s, pending, FateOf(pending, s), ms[|h.returned|]);
  }

  lemma EmittedOnTime(h: History, s: Segment, pending: Option<Stored>, f: Fate, m: seq<Byte>)
    requires pending == Lookup(h.pending, FlowIn, s.flow) && f == FateOf(pending, s) && s.payload != []
    ensures OnTime(Got(f), PayloadOf(pending) + s.payload, m)
       <==> Emitted(h.pending, s) == if |PayloadOf(pending)| + |s.payload| < |m| then [] else [m]
  {
  }

  lemma AdvanceArrives(h: History, s: Segment, flow: Flow, g: History)
    requires g == Step(flow)(h, s)
    ensures g.arrived == if Brings(s, flow) then h.arrived + s.payload else h.arrived
  {
  }

  /** So much has arrived. */
  function Having(some: seq<Byte>): History -> bool {
    (h: History) => some <= h.arrived
  }

  lemma StillHaving(some: seq<Byte>, h: History, s: Segment, flow: Flow)
    requires Having(some)(h)
    ensures Having(some)(Step(flow)(h, s))
  {
    AdvanceArrives(h, s, flow, Step(flow)(h, s));
  }

  lemma NowHaving(h: History, s: Segment, flow: Flow, g: History)
    requires g == Step(flow)(h, s) && Brings(s, flow)
    ensures Having(h.arrived + s.payload)(g)
  {
    AdvanceArrives(h, s, flow, g);
  }

  lemma HavingWithin(some: seq<Byte>, h: History, all: seq<Byte>)
    requires Having(some)(h) && h.arrived <= all
    ensures some <= all
  {
  }

  lemma NowHavingAt(segs: seq<Segment>, i: nat, flow: Flow, h: History)
    requires i < |segs| && Brings(segs[i], flow) && h == HistoryTo(segs, i, flow)
    ensures Having(h.arrived + segs[i].payload)(FoldTo(START, segs, i + 1, Step(flow)))
  {
    FoldMore(START, segs, i, Step(flow));
    NowHaving(h, segs[i], flow, FoldTo(START, segs, i + 1, Step(flow)));
  }

  lemma StepsHave(some: seq<Byte>, flow: Flow)
    ensures forall h, s :: Having(some)(h) ==> Having(some)(Step(flow)(h, s))
  {
    forall h, s | Having(some)(h)
      ensures Having(some)(Step(flow)(h, s))
    {
      StillHaving(some, h, s, flow);
    }
  }

  /** What a segment brings is part of all that arrives. */
  lemma OneMoreArrives(segs: seq<Segment>, i: nat, n: nat, flow: Flow, all: seq<Byte>, some: seq<Byte>)
    requires i < n <= |segs| && Brings(segs[i], flow) && HistoryTo(segs, n, flow).arrived <= all
    requires some == HistoryTo(segs, i, flow).arrived + segs[i].payload
    ensures some <= all
  {
    NowHavingAt(segs, i, flow, HistoryTo(segs, i, flow));
    StepsHave(some, flow);
    FoldKeeps(START, segs, i + 1, n, Step(flow), Having(some));
    HavingWithin(some, HistoryTo(segs, n, flow), all);
  }

  function Timely(flow: Flow, ms: seq<seq<Byte>>): (History, Segment) -> bool {
    (h, s) => Brings(s, flow) ==> ReturnsOnTime(h, s, flow, ms)
  }

  lemma TimelyExactly(h: History, s: Segment, flow: Flow, ms: seq<seq<Byte>>)
    requires Framing(flow, ms)(h) && Following(flow)(h, s) && AllWellFormed(ms)
    requires Brings(s, flow) ==> h.arrived + s.payload <= Concat(ms)
    ensures Flowing(flow, ms)(h, s) <==> Timely(flow, ms)(h, s)
  {
    if Brings(s, flow) {
      ReturnsExactly(h, s, flow, ms);
    }
  }

  /** Framing, exactly: in a run that appends the segments of a flow, all of them return
      their messages on time if and only if each gets the right fate. */
  lemma FramedExactly(segs: seq<Segment>, n: nat, flow: Flow, ms: seq<seq<Byte>>)
    requires n <= |segs| && AllOk(START, segs, n, Step(flow), Following(flow)) && AllWellFormed(ms)
    requires HistoryTo(segs, n, flow).arrived <= Concat(ms)
    ensures AllOk(START, segs, n, Step(flow), Flowing(flow, ms))
       <==> AllOk(START, segs, n, Step(flow), Timely(flow, ms))
  {
    forall i | 0 <= i < n && Framing(flow, ms)(FoldTo(START, segs, i, Step(flow)))
      ensures Flowing(flow, ms)(FoldTo(START, segs, i, Step(flow)), segs[i])
         <==> Timely(flow, ms)(FoldTo(START, segs, i, Step(flow)), segs[i])
    {
      if Brings(segs[i], flow) {
        OneMoreArrives(segs, i, n, flow, Concat(ms), HistoryTo(segs, i, flow).arrived + segs[i].payload);
      }
      TimelyExactly(HistoryTo(segs, i, flow), segs[i], flow, ms);
    }
    StepsFrame(flow, ms);
    StartIsFramed(flow, ms);
    if AllOk(START, segs, n, Step(flow), Timely(flow, ms)) {
      RunMeets(START, segs, n, Step(flow), Flowing(flow, ms), Timely(flow, ms), Framing(flow, ms));
    } else if AllOk(START, segs, n, Step(flow), Flowing(flow, ms)) {
      forall i | 0 <= i < n
        ensures Framing(flow, ms)(FoldTo(START, segs, i, Step(flow)))
      {
        RunIsFramed(segs, i, flow, ms);
      }
    }
  }

  lemma FramedIs(h: History, flow: Flow, ms: seq<seq<Byte>>)
    requires Framing(flow, ms)(h) && h.arrived <= Concat(ms)
    ensures h.returned <= ms && Concat(h.returned) + Rest(h, flow) == h.arrived
  {
  }

  lemma OneStepRun(s: Segment, flow: Flow, h: History, ms: seq<seq<Byte>>)
    requires Undisturbed(START, s, flow, ms) && h == Advance(START, s, flow)
    ensures AllOk(START, [s], 1, Step(flow), Flowing(flow, ms)) && HistoryTo([s], 1, flow) == h
  {
    assert HistoryTo([s], 0, flow) == START;
  }

  lemma WholeMessage(s: Segment)
    requires WellFormed(s.payload) && |s.payload| <= MAX_SIP_PAYLOAD && |s.frames| == 1
    ensures Validate(s.payload) == Complete && FateOf(None, s).Return? && FateOf(None, s).p.payload == s.payload
  {
    VerdictExactly(s.payload, s.payload);
  }

  lemma WholeMessageReturned(s: Segment, h: History, f: Fate)
    requires f == FateOf(None, s) && f.Return? && f.p.payload == s.payload != []
    requires h == Advance(START, s, s.flow)
    ensures h.returned == [s.payload] && Rest(h, s.flow) == []
  {
    AdvanceIs(START, s, f);
  }

  lemma WholeMessageFits(s: Segment)
    requires |s.payload| <= MAX_SIP_PAYLOAD && |s.frames| == 1 && StartsLikeSip(s.payload)
    ensures Undisturbed(START, s, s.flow, [s.payload])
  {
    assert Rest(START, s.flow) + s.payload == s.payload;
  }

  /** The simplest such run: a message in one segment is returned at once. */
  lemma OneSegmentRun(s: Segment, flow: Flow)
    requires WellFormed(s.payload) && |s.payload| <= MAX_SIP_PAYLOAD && |s.frames| == 1 && flow == s.flow
    ensures AllOk(START, [s], 1, Step(flow), Flowing(flow, [s.payload]))
    ensures HistoryTo([s], 1, flow).returned == [s.payload] && Rest(HistoryTo([s], 1, flow), flow) == []
  {
    var h := Advance(START, s, flow);
    WholeMessage(s);
    WholeMessageReturned(s, h, FateOf(None, s));
    WholeMessageFits(s);
    OneStepRun(s, flow, h, [s.payload]);
  }

  // ---------------------------------------------------------------------------
  // The reassembler
  // ---------------------------------------------------------------------------

  lemma TakenIs(ps: seq<Stored>, s: Segment, p: Stored)
    requires p == Joined(Lookup(ps, FlowIn, s.flow), s) && s.payload != []
    ensures p.flow == s.flow && NextList(ps, s) == Act(ps, p.flow, FateAfter(p, s))
    ensures Returned(ps, s) == Got(FateAfter(p, s))
  {
  }

  lemma JoinedIs(ps: seq<Stored>, s: Segment, f: int, own: Stored)
    requires f == Find(ps, FlowIn, s.flow) && own == Stored(s.flow, 0, s.payload, s.frames)
    ensures var p := Joined(Lookup(ps, FlowIn, s.flow), s);
            p.flow == s.flow
            && if f >= 0
               then p == ps[f].(frames := ps[f].frames + s.frames,
                                seqno := if ps[f].seqno == 0 then s.seqno else ps[f].seqno)
                    && Put(ps, FlowIn, p) == ps[f := p]
               else p == own.(seqno := s.seqno) && Put(ps, FlowIn, p) == (ps + [own])[|ps| := p]
  {
  }

  lemma DecideIs(q: Stored, v: Verdict, push: bool, r: Stored)
    requires v.Multiple? ==> 0 < v.end < |q.payload|
    requires r == if v.Multiple? then q.(payload := q.payload[..v.end]) else q
    ensures var f := Decide(q, v, push);
            Got(f) == if v == Complete || v.Multiple? || (v == NotSip && push) then Some(r) else None
    ensures forall ps {:trigger Act(ps, q.flow, Decide(q, v, push))} ::
              Act(ps, q.flow, Decide(q, v, push))
              == if v.Multiple? then Drop(ps, FlowIn, q.flow) + [r.(payload := q.payload[|r.payload|..])]
                 else if v == Complete || (v == NotSip && push) then Drop(ps, FlowIn, q.flow) else Put(ps, FlowIn, q)
  {
  }

  /** The source's `sip_validate_packet`: with more than one message, it also cuts the
      packet's payload behind the first one. */
  method ValidatePacket(packet: Packet) returns (v: Verdict)
    modifies packet`payload
    ensures v == Validate(old(packet.payload))
    ensures packet.payload == if v.Multiple? then old(packet.payload)[..v.end] else old(packet.payload)
  {
    v := Validate(packet.payload);
    if v.Multiple? {
      packet.SetPayload(packet.payload[..v.end]);
    }
  }

  class TcpReassembler {
    var tcpReasm: seq<Packet>

    constructor ()
      ensures Valid() && tcpReasm == []
    {
      tcpReasm := [];
    }

    ghost predicate Valid()
      reads this
    {
      Distinct(tcpReasm)
    }

    static ghost function Value(p: Packet): Stored
      reads p
    {
      Stored(Flow(p.src, p.dst), p.tcpSeq, p.payload, p.frames)
    }

    static ghost function Values(list: seq<Packet>): (r: seq<Stored>)
      reads list
      ensures |r| == |list| && forall i :: 0 <= i < |list| ==> r[i] == Value(list[i])
    {
      if list == [] then [] else Values(list[..|list| - 1]) + [Value(list[|list| - 1])]
    }

    static lemma ValuesWithout(list: seq<Packet>, i: nat)
      requires i < |list|
      ensures Values(list[..i] + list[i + 1..]) == Values(list)[..i] + Values(list)[i + 1..]
    {
      var r := list[..i] + list[i + 1..];
      var vs, ws := Values(list), Values(r);
      forall j | 0 <= j < |r|
        ensures ws[j] == vs[if j < i then j else j + 1]
      {
        assert r[j] == list[if j < i then j else j + 1];
      }
      SameWithout(ws, vs, i);
    }

    method FindPacket(flow: Flow) returns (i: int)
      ensures i == Find(Values(tcpReasm), FlowIn, flow)
    {
      ghost var ps := Values(tcpReasm);
      i := 0;
      while i < |tcpReasm|
        invariant 0 <= i <= |tcpReasm| && FindFrom(ps, FlowIn, flow, 0) == FindFrom(ps, FlowIn, flow, i)
      {
        var p := tcpReasm[i];
        if p.src == flow.src && p.dst == flow.dst {
          return;
        }
        i := i + 1;
      }
      i := -1;
    }

    method Remove(pkt: Packet, ghost i: nat)
      requires Valid() && i < |tcpReasm| && tcpReasm[i] == pkt
      modifies this
      ensures Valid() && pkt !in tcpReasm
      ensures Values(tcpReasm) == old(Values(tcpReasm))[..i] + old(Values(tcpReasm))[i + 1..]
    {
      var k := IndexOf(tcpReasm, pkt);
      assert k == i;
      DistinctWithout(tcpReasm, k);
      ValuesWithout(tcpReasm, k);
      tcpReasm := tcpReasm[..k] + tcpReasm[k + 1..];
    }

    method Append(pkt: Packet)
      requires Valid() && pkt !in tcpReasm
      modifies this
      ensures Valid() && tcpReasm == old(tcpReasm) + [pkt]
      ensures Values(tcpReasm) == old(Values(tcpReasm)) + [Value(pkt)]
    {
      tcpReasm := tcpReasm + [pkt];
      assert Values(tcpReasm) == old(Values(tcpReasm)) + [Value(pkt)];
    }

    /** Gives the packet `i` the frames of a segment and, if it has none, its sequence
        number. */
    method AddFrames(pkt: Packet, frames: seq<Frame>, seqno: nat, ghost i: nat)
      requires Valid() && i < |tcpReasm| && tcpReasm[i] == pkt
      modifies pkt
      ensures Value(pkt) == old(Value(pkt)).(frames := old(pkt.frames) + frames,
                                             seqno := if old(pkt.tcpSeq) == 0 then seqno else old(pkt.tcpSeq))
      ensures Values(tcpReasm) == old(Values(tcpReasm))[i := Value(pkt)]
    {
      var k := 0;
      while k < |frames|
        invariant 0 <= k <= |frames| && pkt.frames == old(pkt.frames) + frames[..k]
        modifies pkt`frames
      {
        pkt.AddFrame(frames[k]);
        k := k + 1;
      }
      if pkt.tcpSeq == 0 {
        pkt.tcpSeq := seqno;
      }
      assert forall j :: 0 <= j < |tcpReasm| && j != i ==> tcpReasm[j] != pkt;
    }

    /** The packet that takes the segment, with its frames and its first sequence
        number. */
    method Join(packet: Packet, seqno: nat, ghost s: Segment, ghost ps: seq<Stored>)
        returns (pkt: Packet, ghost i: nat, ghost p: Stored)
      requires Valid() && packet !in tcpReasm && packet.tcpSeq == 0 && Values(tcpReasm) == ps
      requires s.flow == Flow(packet.src, packet.dst) && s.seqno == seqno
      requires s.payload == packet.payload && s.frames == packet.frames
      modifies this, packet, tcpReasm
      ensures Valid() && i == PlaceOf(ps, FlowIn, s.flow) && i < |tcpReasm| && tcpReasm[i] == pkt
      ensures pkt == packet || pkt in old(tcpReasm)
      ensures Value(pkt) == p == Joined(Lookup(ps, FlowIn, s.flow), s) && Values(tcpReasm) == Put(ps, FlowIn, p)
    {
      var f := FindPacket(Flow(packet.src, packet.dst));
      JoinedIs(ps, s, f, Value(packet));
      if f >= 0 {
        pkt, i := tcpReasm[f], f;
        AddFrames(pkt, packet.frames, seqno, i);
      } else {
        pkt, i := packet, |tcpReasm|;
        JoinOwn(packet, seqno, ps);
      }
      p := Value(pkt);
    }

    /** A packet without a pending one of its flow goes to the end of the list. */
    method JoinOwn(packet: Packet, seqno: nat, ghost ps: seq<Stored>)
      requires Valid() && packet !in tcpReasm && packet.tcpSeq == 0 && Values(tcpReasm) == ps
      modifies this, packet
      ensures Valid() && tcpReasm == old(tcpReasm) + [packet] && Value(packet) == old(Value(packet)).(seqno := seqno)
      ensures Values(tcpReasm) == (ps + [old(Value(packet))])[|ps| := Value(packet)]
    {
      Append(packet);
      AddFrames(packet, [], seqno, |tcpReasm| - 1);
    }

    /** Adds the payload of the segment, unless the packet grows too large. */
    method Extend(pkt: Packet, seqno: nat, payload: seq<Byte>, ghost s: Segment, ghost i: nat) returns (fits: bool)
      requires Valid() && i < |tcpReasm| && tcpReasm[i] == pkt && s.seqno == seqno && s.payload == payload
      modifies pkt
      ensures fits <==> Extended(old(Value(pkt)), s).Some?
      ensures fits ==> Value(pkt) == Extended(old(Value(pkt)), s).value
      ensures Values(tcpReasm) == old(Values(tcpReasm))[i := Value(pkt)]
    {
      ghost var vs := Values(tcpReasm);
      fits := true;
      if |pkt.frames| == 1 {
        pkt.SetPayload(payload);
      } else if |pkt.payload| + |payload| > MAX_CAPTURE_LEN {
        fits := false;
      } else if pkt.tcpSeq < seqno {
        pkt.tcpSeq := seqno;
        pkt.SetPayload(pkt.payload + payload);
      } else {
        pkt.SetPayload(payload + pkt.payload);
      }
      fits := fits && |pkt.payload| <= MAX_CAPTURE_LEN;
      assert forall j :: 0 <= j < |tcpReasm| && j != i ==> tcpReasm[j] != pkt;
    }

    /** Takes a segment's packet, whose payload is set and whose sequence number is not.
        Returns a packet that is ready, or nothing. */
    method Reassemble(packet: Packet, seqno: nat, payload: seq<Byte>, push: bool) returns (pkt: Packet?)
      requires Valid() && packet !in tcpReasm && packet.tcpSeq == 0 && packet.payload == payload
      modifies this, packet, tcpReasm
      ensures var s := old(Segment(Flow(packet.src, packet.dst), seqno, payload, packet.frames, push));
              Valid() && Values(tcpReasm) == NextList(old(Values(tcpReasm)), s)
              && Gives(pkt, Returned(old(Values(tcpReasm)), s))
    {
      if |payload| == 0 {
        return packet;
      }
      ghost var s := Segment(Flow(packet.src, packet.dst), seqno, payload, packet.frames, push);
      ghost var ps := Values(tcpReasm);
      var joined, i, p := Join(packet, seqno, s, ps);
      TakenIs(ps, s, p);
      pkt := Take(joined, seqno, payload, push, s, ps, p, i);
    }

    /** The result is the packet, outside of the list, or nothing. */
    ghost predicate Gives(pkt: Packet?, out: Option<Stored>)
      reads this, if pkt == null then {} else {pkt}
    {
      match out
      case None => pkt == null
      case Some(v) => pkt != null && pkt !in tcpReasm && Value(pkt) == v
    }

    /** Adds the segment's payload to the packet that took its frames, and acts on the
        verdict. */
    method Take(joined: Packet, seqno: nat, payload: seq<Byte>, push: bool,
                ghost s: Segment, ghost ps: seq<Stored>, ghost p: Stored, ghost i: nat)
        returns (pkt: Packet?)
      requires Valid() && i < |tcpReasm| && tcpReasm[i] == joined && i == PlaceOf(ps, FlowIn, p.flow)
      requires Value(joined) == p && Values(tcpReasm) == Put(ps, FlowIn, p)
      requires s.seqno == seqno && s.payload == payload && s.push == push
      modifies this, joined
      ensures var f := FateAfter(p, s); Valid() && Values(tcpReasm) == Act(ps, p.flow, f) && Gives(pkt, Got(f))
    {
      var fits := Extend(joined, seqno, payload, s, i);
      ghost var q := Value(joined);
      if fits {
        PutThenChange(ps, FlowIn, Values(tcpReasm), i, p, q);
        pkt := Conclude(joined, push, ps, q, i);
      } else {
        PutThenRemove(ps, FlowIn, Values(tcpReasm), i, p, q);
        Remove(joined, i);
        pkt := null;
      }
    }

    /** Validates the packet's payload and acts on the verdict. */
    method Conclude(joined: Packet, push: bool, ghost ps: seq<Stored>, ghost q: Stored, ghost i: nat)
        returns (pkt: Packet?)
      requires Valid() && i < |tcpReasm| && tcpReasm[i] == joined && i == PlaceOf(ps, FlowIn, q.flow)
      requires Value(joined) == q && Values(tcpReasm) == Put(ps, FlowIn, q)
      modifies this, joined
      ensures var f := Decide(q, Validate(q.payload), push);
              Valid() && Values(tcpReasm) == Act(ps, q.flow, f) && Gives(pkt, Got(f))
    {
      var full := joined.payload;
      var v := Validated(joined, i);
      pkt := Resolve(joined, full, v, push, ps, q, i, Value(joined), Values(tcpReasm));
    }

    /** Acts on a verdict; with several messages, the packet already holds only the
        first. */
    method Resolve(joined: Packet, full: seq<Byte>, v: Verdict, push: bool,
                   ghost ps: seq<Stored>, ghost q: Stored, ghost i: nat, ghost r: Stored, ghost vs: seq<Stored>)
        returns (pkt: Packet?)
      requires Valid() && i < |tcpReasm| && tcpReasm[i] == joined && i == PlaceOf(ps, FlowIn, q.flow)
      requires v.Multiple? ==> 0 < v.end < |full| <= MAX_SIP_PAYLOAD
      requires q.payload == full && r == (if v.Multiple? then q.(payload := full[..v.end]) else q)
      requires Value(joined) == r && Values(tcpReasm) == vs && vs == Put(ps, FlowIn, q)[i := r]
      modifies this
      ensures Valid() && Values(tcpReasm) == Act(ps, q.flow, Decide(q, v, push))
      ensures Gives(pkt, Got(Decide(q, v, push)))
    {
      ghost var f := Decide(q, v, push);
      DecideIs(q, v, push, r);
      if v == Complete || v.Multiple? || (v == NotSip && push) {
        PutThenRemove(ps, FlowIn, vs, i, q, r);
        Remove(joined, i);
        if v.Multiple? {
          KeepRest(joined, full, r);
        }
        pkt := joined;
      } else {
        pkt := null;
      }
    }

    method Validated(joined: Packet, ghost i: nat) returns (v: Verdict)
      requires Valid() && i < |tcpReasm| && tcpReasm[i] == joined
      modifies joined`payload
      ensures v == Validate(old(joined.payload))
      ensures joined.payload == if v.Multiple? then old(joined.payload)[..v.end] else old(joined.payload)
      ensures Values(tcpReasm) == old(Values(tcpReasm))[i := Value(joined)]
    {
      v := ValidatePacket(joined);
      assert forall j :: 0 <= j < |tcpReasm| && j != i ==> tcpReasm[j] != joined;
    }

    /** Puts the part of the payload that the packet does not keep back into the list. */
    method KeepRest(pkt: Packet, full: seq<Byte>, ghost r: Stored)
      requires Valid() && |full| <= MAX_SIP_PAYLOAD && |pkt.payload| < |full| && Value(pkt) == r
      modifies this
      ensures Valid() && (pkt !in old(tcpReasm) ==> pkt !in tcpReasm)
      ensures Values(tcpReasm) == old(Values(tcpReasm)) + [r.(payload := full[|r.payload|..])]
    {
      var cont := pkt.Clone();
      var rest := |full| - |pkt.payload|;
      if 0 < rest < MAX_CAPTURE_LEN {
        cont.SetPayload(full[|pkt.payload|..]);
        Append(cont);
      }
    }
  }
}
