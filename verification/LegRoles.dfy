/** Log lines that give a leg two roles, or another ingress leg (src/state.cpp): which of
    them cost legs the timers that end their data, and which do not. */
module LegRoles {
  import opened Common
  import opened Calls
  import opened LegStores

  /** No chains of legs, and all data is timed. */
  ghost predicate Sound(s: State) {
    NoChain(s.left) && Covered(s)
  }

  ghost predicate AllTimed(s: State) {
    forall id :: Stored(s, id) ==> Timed(s, id)
  }

  /** What the store can check before it takes a line: a known egress leg has this ingress
      leg, or is it, or has a live group entry; and a new pair makes no chain. */
  predicate KeepsTimers(s: State, egress: Id, ingress: Id) {
    if egress in s.left then s.left[egress] == ingress || egress == ingress || HasGroupEntry(s, egress)
    else
      (ingress in s.left ==> s.left[ingress] in {ingress, egress})
      && forall id :: id in s.left && s.left[id] == egress ==> ingress in {egress, id}
  }

  predicate Accepts(s: State, e: Event) {
    e.Logged? ==> KeepsTimers(s, e.egress, e.ingress)
  }

  /** Roles that are kept cost nothing. */
  lemma RolesKeepTimers(s: State, egress: Id, ingress: Id)
    requires KeepsRoles(s.left, egress, ingress)
    ensures KeepsTimers(s, egress, ingress)
  {
  }

  // ---------------------------------------------------------------------------
  // Accepted lines keep all data timed
  // ---------------------------------------------------------------------------

  /** The map after a line. */
  function LeftAfter(left: map<Id, Id>, egress: Id, ingress: Id): map<Id, Id> {
    if egress in left then left else left[egress := ingress]
  }

  lemma NoNewChain(s: State, egress: Id, ingress: Id)
    requires NoChain(s.left) && KeepsTimers(s, egress, ingress)
    ensures NoChain(LeftAfter(s.left, egress, ingress))
  {
    var l := LeftAfter(s.left, egress, ingress);
    forall id | id in l
      ensures Short(l, id)
    {
      if id in s.left {
        assert Short(s.left, id);
      }
    }
  }

  lemma InsertLineKeeps(s: State, e: Event)
    requires Sound(s) && e.Logged? && Accepts(s, e)
    ensures Sound(Insert(s, e))
  {
    var r := Insert(s, e);
    NoNewChain(s, e.egress, e.ingress);
    forall id | HasGroupEntry(s, id) || id == e.egress || id == e.ingress
      ensures HasGroupEntry(r, id)
    {
    }
    forall id | Stored(r, id)
      ensures Timed(r, id)
    {
      assert Stored(s, id) || id == e.egress || id == e.ingress;
    }
    forall id | id in r.unclassified && IngressOf(r.left, id).Some? && id != e.egress && id != e.ingress
      ensures HasGroupEntry(r, id)
    {
      KnownBefore(s.left, e.egress, e.ingress, id);
    }
  }

  /** A line tells the ingress legs of the two legs that it names only. */
  lemma KnownBefore(left: map<Id, Id>, egress: Id, ingress: Id, id: Id)
    requires id != egress && id != ingress && IngressOf(LeftAfter(left, egress, ingress), id).Some?
    ensures IngressOf(left, id).Some?
  {
    var l := LeftAfter(left, egress, ingress);
    if id in l.Values {
      var k :| k in l && l[k] == id;
      assert k in left && left[k] == id;
    }
  }

  lemma UpdateKeepsTimers(s: State, e: Event, lives: Lives, r: State)
    requires Sound(s) && Accepts(s, e) && Updates(s, e, lives, r)
    ensures Sound(r)
  {
    if r != s {
      if e.Logged? {
        InsertLineKeeps(s, e);
      } else {
        InsertCapturedKeeps(s, e);
      }
      var m := CleanUnclassified(Insert(s, e), e.t.unclassified, lives.unclassified);
      CleanUnclassifiedKeeps(Insert(s, e), e.t.unclassified, lives.unclassified);
      var gs: set<Id> :| CleansGroups(m, e.t.classified, lives.classified, gs, r);
      ForgetKeeps(m, gs, r);
    }
  }

  /** The states that some events lead through. */
  ghost predicate IsRun(states: seq<State>, evs: seq<Event>, lives: Lives) {
    |states| == |evs| + 1 && forall i :: 0 <= i < |evs| ==> Updates(states[i], evs[i], lives, states[i + 1])
  }

  /** In every run whose lines are accepted, whatever else they do to the roles, all data
      has an entry that will end it. */
  lemma {:induction false} AcceptedRunKeepsTimers(states: seq<State>, evs: seq<Event>, lives: Lives, n: nat)
    requires IsRun(states, evs, lives) && n <= |evs| && Sound(states[0])
    requires forall i :: 0 <= i < n ==> Accepts(states[i], evs[i])
    ensures Sound(states[n]) && AllTimed(states[n])
  {
    if n > 0 {
      AcceptedRunKeepsTimers(states, evs, lives, n - 1);
      UpdateKeepsTimers(states[n - 1], evs[n - 1], lives, states[n]);
    }
  }

  // ---------------------------------------------------------------------------
  // What an update leaves alone
  // ---------------------------------------------------------------------------

  /** One clock reading for all. */
  function At(now: int): Times {
    Times(now, now, now, now, now)
  }

  predicate IsOld(b: Backlog, id: Id, now: int, life: nat) {
    id in b && now - b[id] > life
  }

  ghost predicate News(s: State, e: Event) {
    e.Captured? ==> IsNews(s, e.id, e.leg)
  }

  /** The groups that an update forgets, among the old ones after its insertions. */
  lemma GroupsForgotten(s: State, e: Event, lives: Lives, r: State) returns (gs: set<Id>)
    requires Updates(s, e, lives, r) && News(s, e)
    ensures var i := Insert(s, e);
            && (forall h :: h in gs ==> IsOld(i.classified, h, e.t.classified, lives.classified))
            && r.left == i.left && r.classified == i.classified - GroupsOf(i.left, gs)
            && (forall h :: h in r.classified ==> !IsOld(r.classified, h, e.t.classified, lives.classified))
            && CleansGroups(CleanUnclassified(i, e.t.unclassified, lives.unclassified), e.t.classified,
                            lives.classified, gs, r)
  {
    var m := CleanUnclassified(Insert(s, e), e.t.unclassified, lives.unclassified);
    gs :| CleansGroups(m, e.t.classified, lives.classified, gs, r);
    forall h | h in r.classified
      ensures !IsOld(r.classified, h, e.t.classified, lives.classified)
    {
      assert h !in Expired(r.classified, e.t.classified, lives.classified);
    }
  }

  /** The group that a leg belongs to as an egress leg is not forgotten. */
  predicate AboveIsYoung(s: State, y: Id, now: int, life: nat) {
    y in s.left && s.left[y] != y ==> !IsOld(s.classified, s.left[y], now, life)
  }

  /** An old group takes the entries of its egress legs along. */
  lemma EntryTakesAlong(s: State, e: Event, lives: Lives, r: State, y: Id, x: Id)
    requires Updates(s, e, lives, r) && News(s, e)
    requires var i := Insert(s, e);
             && IsOld(i.classified, y, e.t.classified, lives.classified)
             && AboveIsYoung(i, y, e.t.classified, lives.classified) && x in i.left && i.left[x] == y
    ensures x !in r.classified
  {
    var gs := GroupsForgotten(s, e, lives, r);
    assert y !in r.classified by {
      assert r.classified.Keys <= Insert(s, e).classified.Keys;
      assert y in r.classified ==> IsOld(r.classified, y, e.t.classified, lives.classified);
    }
    assert y in gs;
  }

  /** The groups that a leg belongs to are not forgotten. */
  predicate GroupsYoung(s: State, id: Id, now: int, life: nat) {
    !IsOld(s.classified, id, now, life) && (id in s.left ==> !IsOld(s.classified, s.left[id], now, life))
  }

  /** A leg with a known ingress leg, whose groups are not forgotten, keeps its data, and
      loses its own entry when that is old. */
  lemma LegStays(s: State, e: Event, lives: Lives, r: State, id: Id)
    requires Updates(s, e, lives, r) && News(s, e)
    requires var i := Insert(s, e);
             id in i.info && id in i.left && GroupsYoung(i, id, e.t.classified, lives.classified)
    ensures id in r.info && r.left == Insert(s, e).left
    ensures var i := Insert(s, e);
            if IsOld(i.unclassified, id, e.t.unclassified, lives.unclassified) then id !in r.unclassified
            else id in i.unclassified ==> id in r.unclassified && r.unclassified[id] == i.unclassified[id]
  {
    var i := Insert(s, e);
    var gs := GroupsForgotten(s, e, lives, r);
    assert IngressOf(i.left, id).Some?;
    assert id !in GroupsOf(i.left, gs);
  }

  // ---------------------------------------------------------------------------
  // Stranded data
  // ---------------------------------------------------------------------------

  /** No update has named the leg. */
  predicate Unknown(s: State, z: Id) {
    z !in s.left && z !in s.left.Values && z !in s.sip
  }

  predicate Names(e: Event, z: Id) {
    match e
    case Captured(id, _, _) => id == z
    case Logged(egress, ingress, _, _, _) => egress == z || ingress == z
  }

  lemma StaysUnknown(s: State, e: Event, lives: Lives, r: State, z: Id)
    requires Updates(s, e, lives, r) && Unknown(s, z) && !Names(e, z)
    ensures Unknown(r, z)
  {
    if r != s {
      var gs := GroupsForgotten(s, e, lives, r);
      if e.Logged? && e.egress !in s.left {
        assert Insert(s, e).left.Values <= s.left.Values + {e.ingress};
      }
    }
  }

  /** A captured call of a leg that nothing names otherwise. */
  function Passing(z: Id, now: int): Event {
    Captured(z, Leg(CallSetup, [], []), At(now))
  }

  /** The leg has data and an entry of its own since `since`, but no group entry, though its
      ingress leg is known. */
  predicate Lone(s: State, id: Id, since: int) {
    && id in s.info && id in s.left && id in s.unclassified && s.unclassified[id] == since
    && !HasGroupEntry(s, id)
  }

  /** When its own entry runs out, its data stays behind without an entry. */
  lemma LoneIsStranded(s: State, e: Event, id: Id, since: int, z: Id, lives: Lives, r: State)
    requires Lone(s, id, since) && Unknown(s, z)
    requires e == Passing(z, since + lives.unclassified + 1) && Updates(s, e, lives, r)
    ensures !AllTimed(r)
  {
    assert id != z && IngressOf(s.left, z) == None;
    LegStays(s, e, lives, r, id);
    var gs := GroupsForgotten(s, e, lives, r);
    assert Stored(r, id) && !Timed(r, id);
  }

  /** The group whose entry an update renews. */
  function Renewed(s: State, e: Event): Option<Id> {
    match e
    case Captured(id, _, _) => IngressOf(s.left, id)
    case Logged(_, ingress, _, _, _) => Some(ingress)
  }

  /** An update names the leg, or renews a group that it belongs to. */
  predicate Touches(s: State, e: Event, id: Id) {
    Names(e, id) || Renewed(s, e) == Some(id) || (id in s.left && Renewed(s, e) == Some(s.left[id]))
  }

  /** Data that is stranded stays as long as nothing touches the leg or its group. */
  lemma StrandedStays(s: State, e: Event, lives: Lives, r: State, id: Id)
    requires Updates(s, e, lives, r) && Stored(s, id) && !Timed(s, id) && !Touches(s, e, id)
    ensures Stored(r, id) && !Timed(r, id)
  {
    if r != s {
      var gs := GroupsForgotten(s, e, lives, r);
      assert id !in GroupsOf(Insert(s, e).left, gs);
    }
  }

  lemma {:induction false} StrandedForLong(states: seq<State>, evs: seq<Event>, lives: Lives, n: nat, id: Id)
    requires IsRun(states, evs, lives) && n <= |evs| && Stored(states[0], id) && !Timed(states[0], id)
    requires forall i :: 0 <= i < n ==> !Touches(states[i], evs[i], id)
    ensures Stored(states[n], id) && !Timed(states[n], id)
  {
    if n > 0 {
      StrandedForLong(states, evs, lives, n - 1, id);
      StrandedStays(states[n - 1], evs[n - 1], lives, states[n], id);
    }
  }

  /** A line that tells nothing but the two legs. */
  function Line(egress: Id, ingress: Id, now: int): Event {
    Logged(egress, ingress, map[], map[], At(now))
  }

  /** A line with another ingress leg leaves its egress leg alone, when the group of the
      first ingress leg has no entry. */
  lemma RemappedIsLone(s: State, egress: Id, ingress: Id, now: int, lives: Lives, r: State)
    requires egress in s.left && !KeepsTimers(s, egress, ingress)
    requires Updates(s, Line(egress, ingress, now), lives, r)
    ensures Lone(r, egress, now)
  {
    var e := Line(egress, ingress, now);
    LegStays(s, e, lives, r, egress);
    var gs := GroupsForgotten(s, e, lives, r);
  }

  // ---------------------------------------------------------------------------
  // Chains
  // ---------------------------------------------------------------------------

  /** The ingress leg `x` of the leg `id` is itself an egress leg of `y`. */
  predicate Chain(left: map<Id, Id>, id: Id, x: Id, y: Id) {
    id in left && left[id] == x && x in left && left[x] == y && y != x && y != id
  }

  lemma NewChain(s: State, egress: Id, ingress: Id) returns (id: Id, x: Id, y: Id)
    requires egress !in s.left && !KeepsTimers(s, egress, ingress)
    ensures Chain(LeftAfter(s.left, egress, ingress), id, x, y)
  {
    if k :| k in s.left && s.left[k] == egress && ingress !in {egress, k} {
      id, x, y := k, egress, ingress;
    } else {
      id, x, y := egress, ingress, s.left[ingress];
    }
  }

  /** A known pair changes no role. */
  predicate Repeats(s: State, e: Event) {
    RepeatsIn(s.left, e)
  }

  predicate RepeatsIn(left: map<Id, Id>, e: Event) {
    e.Logged? ==> e.egress in left && left[e.egress] == e.ingress
  }

  /** The entry of a group runs out in silence. */
  lemma EntryRunsOut(s: State, e: Event, id: Id, z: Id, now: int, lives: Lives, r: State)
    requires Unknown(s, z) && e == Passing(z, now) && Updates(s, e, lives, r)
    requires id in s.classified ==> now - s.classified[id] > lives.classified
    ensures r.left == s.left && id !in r.classified
  {
    assert IngressOf(s.left, z) == None;
    var gs := GroupsForgotten(s, e, lives, r);
  }

  /** No entry of the second backlog is from after `last`. */
  predicate NoneAfter(b: Backlog, last: int) {
    forall id :: id in b ==> b[id] <= last
  }

  /** In silence, all entries of the second backlog run out. */
  lemma AllRunOut(s: State, e: Event, z: Id, last: int, lives: Lives, r: State)
    requires Unknown(s, z) && NoneAfter(s.classified, last) && Updates(s, e, lives, r)
    requires e == Passing(z, last + lives.classified + 1)
    ensures r.left == s.left && r.classified == map[]
  {
    forall id | id in r.classified
      ensures false
    {
      EntryRunsOut(s, e, id, z, last + lives.classified + 1, lives, r);
    }
    LeftStep(s, e, lives, r);
  }

  /** Then a line of the chain's second pair gives the last leg the only entry. */
  lemma LastLegDated(s: State, e: Event, lives: Lives, r: State, x: Id, y: Id, now: int)
    requires x in s.left && s.left[x] == y && s.classified == map[]
    requires e == Line(x, y, now) && Updates(s, e, lives, r)
    ensures r.left == s.left && r.classified == map[y := now]
  {
    var gs := GroupsForgotten(s, e, lives, r);
    assert gs == {};
  }

  /** When that entry is old, it takes along the one that a line of the first pair brings. */
  lemma FirstLegIsLone(s: State, e: Event, lives: Lives, r: State, id: Id, x: Id, y: Id, now: int, late: int)
    requires Chain(s.left, id, x, y) && s.classified == map[y := now]
    requires late == now + lives.classified + 1 && e == Line(id, x, late) && Updates(s, e, lives, r)
    ensures Lone(r, id, late) && r.left == s.left
  {
    var i := Insert(s, e);
    assert id != x && i.left == s.left && i.classified == map[y := now, x := late] && i.unclassified[id] == late;
    EntryTakesAlong(s, e, lives, r, y, x);
    LegStays(s, e, lives, r, id);
    var gs := GroupsForgotten(s, e, lives, r);
  }

  // ---------------------------------------------------------------------------
  // Runs in which data is stranded
  // ---------------------------------------------------------------------------

  lemma {:induction false} Longer(ids: set<Id>) returns (n: nat)
    ensures forall id :: id in ids ==> |id| < n
    decreases |ids|
  {
    n := 0;
    if ids != {} {
      var id :| id in ids;
      n := Longer(ids - {id});
      n := if n <= |id| then |id| + 1 else n;
    }
  }

  lemma FreshId(ids: set<Id>) returns (z: Id)
    ensures z !in ids
  {
    var n := Longer(ids);
    var ones: seq<Byte> := seq(n, _ => 1);
    z := ones;
  }

  /** The clock does not go back. */
  ghost predicate Clocked(evs: seq<Event>, clock: int) {
    && (forall i :: 0 <= i < |evs| ==> Ordered(evs[i].t) && clock <= evs[i].t.own)
    && forall i, j :: 0 <= i < j < |evs| ==> evs[i].t.classified <= evs[j].t.own
  }

  /** A run from `s` that begins with a line of these two legs; what follows changes no
      role: captured calls, and lines of known pairs. */
  ghost predicate RunOfLine(s: State, egress: Id, ingress: Id, lives: Lives, clock: int, states: seq<State>,
                            evs: seq<Event>) {
    && IsRun(states, evs, lives) && states[0] == s && Clocked(evs, clock)
    && |evs| > 0 && evs[0].Logged? && evs[0].egress == egress && evs[0].ingress == ingress
    && forall i :: 0 < i < |evs| ==> Repeats(states[i], evs[i])
  }

  /** The line costs no data its entry, whatever follows. */
  ghost predicate LineIsSafe(s: State, egress: Id, ingress: Id, lives: Lives, clock: int) {
    forall states, evs :: RunOfLine(s, egress, ingress, lives, clock, states, evs) ==> AllTimed(states[|evs|])
  }

  lemma RepeatIsAccepted(s: State, e: Event)
    requires Repeats(s, e)
    ensures Accepts(s, e)
  {
  }

  lemma AcceptedLineIsSafe(s: State, egress: Id, ingress: Id, lives: Lives, clock: int)
    requires Sound(s) && KeepsTimers(s, egress, ingress)
    ensures LineIsSafe(s, egress, ingress, lives, clock)
  {
    forall states, evs | RunOfLine(s, egress, ingress, lives, clock, states, evs)
      ensures AllTimed(states[|evs|])
    {
      forall i | 0 <= i < |evs|
        ensures Accepts(states[i], evs[i])
      {
        if i > 0 {
          RepeatIsAccepted(states[i], evs[i]);
        }
      }
      AcceptedRunKeepsTimers(states, evs, lives, |evs|);
    }
  }

  /** What follows the first event changes no role, and data is left without an entry. */
  ghost predicate IsStranded(states: seq<State>, evs: seq<Event>)
    requires |states| == |evs| + 1
  {
    (forall i :: 0 < i < |evs| ==> Repeats(states[i], evs[i])) && !AllTimed(states[|evs|])
  }

  /** Whatever the code makes of the events. */
  ghost predicate Strands(s: State, evs: seq<Event>, lives: Lives) {
    forall states :: IsRun(states, evs, lives) && states[0] == s ==> IsStranded(states, evs)
  }

  // A remapped line, and a captured call when the leg's own entry is old.

  function RemappingEvents(egress: Id, ingress: Id, z: Id, clock: int, lives: Lives): seq<Event> {
    [Line(egress, ingress, clock), Passing(z, clock + lives.unclassified + 1)]
  }

  lemma RemappingStrands(s: State, egress: Id, ingress: Id, z: Id, clock: int, lives: Lives, evs: seq<Event>)
    requires egress in s.left && !KeepsTimers(s, egress, ingress)
    requires evs == RemappingEvents(egress, ingress, z, clock, lives)
    requires Unknown(s, z) && z != egress && z != ingress
    ensures Strands(s, evs, lives)
  {
    RemappingNeverTimed(s, egress, ingress, z, clock, lives, evs[0], evs[1]);
    TwoSteps(s, evs, lives);
  }

  lemma RemappingNeverTimed(s: State, egress: Id, ingress: Id, z: Id, clock: int, lives: Lives, e: Event, f: Event)
    requires egress in s.left && !KeepsTimers(s, egress, ingress)
    requires Unknown(s, z) && z != egress && z != ingress
    requires e == Line(egress, ingress, clock) && f == Passing(z, clock + lives.unclassified + 1)
    ensures NeverTimed(s, e, f, lives)
  {
    forall a, r | Updates(s, e, lives, a) && Updates(a, f, lives, r)
      ensures !AllTimed(r)
    {
      RemappedIsStranded(s, a, r, e, f, egress, ingress, z, clock, lives);
    }
  }

  ghost predicate NeverTimed(s: State, e: Event, f: Event, lives: Lives) {
    forall a, r :: Updates(s, e, lives, a) && Updates(a, f, lives, r) ==> !AllTimed(r)
  }

  lemma TwoSteps(s: State, evs: seq<Event>, lives: Lives)
    requires |evs| == 2 && evs[1].Captured? && NeverTimed(s, evs[0], evs[1], lives)
    ensures Strands(s, evs, lives)
  {
    forall states | IsRun(states, evs, lives) && states[0] == s
      ensures IsStranded(states, evs)
    {
      StepOf(states, evs, lives, 0);
      StepOf(states, evs, lives, 1);
      assert !AllTimed(states[2]);
    }
  }

  lemma StepOf(states: seq<State>, evs: seq<Event>, lives: Lives, i: nat)
    requires IsRun(states, evs, lives) && i < |evs|
    ensures Updates(states[i], evs[i], lives, states[i + 1])
  {
  }

  lemma RemappedIsStranded(s: State, a: State, r: State, e: Event, f: Event, egress: Id, ingress: Id, z: Id,
                           clock: int, lives: Lives)
    requires e == Line(egress, ingress, clock) && f == Passing(z, clock + lives.unclassified + 1)
    requires egress in s.left && !KeepsTimers(s, egress, ingress)
    requires Unknown(s, z) && z != egress && z != ingress
    requires Updates(s, e, lives, a) && Updates(a, f, lives, r)
    ensures !AllTimed(r)
  {
    RemappedIsLone(s, egress, ingress, clock, lives, a);
    StaysUnknown(s, e, lives, a, z);
    LoneIsStranded(a, f, egress, clock, z, lives, r);
  }

  // A line that makes a chain, and what lets the entries run out in the wrong order.

  function ChainEvents(egress: Id, ingress: Id, clock: int, id: Id, x: Id, y: Id, z: Id, z_: Id, now: int,
                       lives: Lives): seq<Event> {
    var late := now + lives.classified + 1;
    [Line(egress, ingress, clock), Passing(z, now), Line(x, y, now), Line(id, x, late),
     Passing(z_, late + lives.unclassified + 1)]
  }

  lemma {:induction false} LeftStays(states: seq<State>, evs: seq<Event>, lives: Lives, left: map<Id, Id>, n: nat)
    requires IsRun(states, evs, lives) && 1 <= n <= |evs| && states[1].left == left
    requires forall i :: 1 <= i < n ==> RepeatsIn(left, evs[i])
    ensures states[n].left == left
  {
    if n > 1 {
      LeftStays(states, evs, lives, left, n - 1);
      StepOf(states, evs, lives, n - 1);
      LeftStep(states[n - 1], evs[n - 1], lives, states[n]);
    }
  }

  lemma LeftStep(s: State, e: Event, lives: Lives, r: State)
    requires Updates(s, e, lives, r)
    ensures r.left == if e.Logged? then LeftAfter(s.left, e.egress, e.ingress) else s.left
  {
    if r != s {
      var gs := GroupsForgotten(s, e, lives, r);
    }
  }

  lemma {:induction false} UnknownStays(states: seq<State>, evs: seq<Event>, lives: Lives, z: Id, n: nat)
    requires IsRun(states, evs, lives) && n <= |evs| && Unknown(states[0], z)
    requires forall i :: 0 <= i < n ==> !Names(evs[i], z)
    ensures Unknown(states[n], z)
  {
    if n > 0 {
      UnknownStays(states, evs, lives, z, n - 1);
      StepOf(states, evs, lives, n - 1);
      StaysUnknown(states[n - 1], evs[n - 1], lives, states[n], z);
    }
  }

  lemma {:induction false} LastEntry(b: Backlog, ids: set<Id>) returns (last: int)
    requires ids <= b.Keys
    ensures forall id :: id in ids ==> b[id] <= last
    decreases |ids|
  {
    last := 0;
    if ids != {} {
      var id :| id in ids;
      last := LastEntry(b, ids - {id});
      last := if last < b[id] then b[id] else last;
    }
  }

  /** What the first line leaves. */
  lemma PlanBegins(s: State, e: Event, egress: Id, ingress: Id, clock: int, lives: Lives, a: State, z: Id, last: int)
    requires e == Line(egress, ingress, clock) && Updates(s, e, lives, a) && clock <= last
    requires NoneAfter(s.classified, last) && Unknown(s, z) && z != egress && z != ingress
    ensures a.left == LeftAfter(s.left, egress, ingress) && Unknown(a, z) && NoneAfter(a.classified, last)
  {
    LeftStep(s, e, lives, a);
    StaysUnknown(s, e, lives, a, z);
    var gs := GroupsForgotten(s, e, lives, a);
  }

  /** The two steps after the silence. */
  lemma PlanStrands(s: State, e: Event, a: State, f: Event, b: State, g: Event, r: State, id: Id, x: Id, y: Id, z: Id,
                    now: int, lives: Lives, late: int)
    requires Chain(s.left, id, x, y) && s.classified == map[] && late == now + lives.classified + 1
    requires e == Line(x, y, now) && f == Line(id, x, late) && g == Passing(z, late + lives.unclassified + 1)
    requires Updates(s, e, lives, a) && Updates(a, f, lives, b) && Updates(b, g, lives, r) && Unknown(b, z)
    ensures !AllTimed(r)
  {
    LastLegDated(s, e, lives, a, x, y, now);
    FirstLegIsLone(a, f, lives, b, id, x, y, now, late);
    LoneIsStranded(b, g, id, late, z, lives, r);
  }

  /** The events, one by one. */
  predicate IsPlan(evs: seq<Event>, egress: Id, ingress: Id, clock: int, id: Id, x: Id, y: Id, z: Id, z_: Id, now: int,
                   late: int, end: int) {
    && |evs| == 5 && evs[0] == Line(egress, ingress, clock) && evs[1] == Passing(z, now) && evs[2] == Line(x, y, now)
    && evs[3] == Line(id, x, late) && evs[4] == Passing(z_, end)
  }

  lemma PlanRepeats(evs: seq<Event>, left: map<Id, Id>, egress: Id, ingress: Id, clock: int, id: Id, x: Id, y: Id,
                    z: Id, z_: Id, now: int, late: int, end: int)
    requires IsPlan(evs, egress, ingress, clock, id, x, y, z, z_, now, late, end) && Chain(left, id, x, y)
    ensures forall i :: 1 <= i < 5 ==> RepeatsIn(left, evs[i])
    ensures z_ !in {z, egress, ingress} && z_ !in left && z_ !in left.Values ==>
              forall i :: 0 <= i < 4 ==> !Names(evs[i], z_)
  {
    assert x in left.Values && y in left.Values;
  }

  lemma PlanIsRepeating(states: seq<State>, evs: seq<Event>, lives: Lives, left: map<Id, Id>)
    requires IsRun(states, evs, lives) && |evs| == 5 && states[1].left == left
    requires forall i :: 1 <= i < 5 ==> RepeatsIn(left, evs[i])
    ensures forall i :: 0 < i < |evs| ==> Repeats(states[i], evs[i])
  {
    forall i | 0 < i < |evs|
      ensures Repeats(states[i], evs[i])
    {
      LeftStays(states, evs, lives, left, i);
    }
  }

  lemma PlanIsSilent(s: State, e: Event, a: State, f: Event, r: State, egress: Id, ingress: Id, clock: int, z: Id,
                     last: int, lives: Lives)
    requires e == Line(egress, ingress, clock) && f == Passing(z, last + lives.classified + 1)
    requires Updates(s, e, lives, a) && Updates(a, f, lives, r)
    requires clock <= last && NoneAfter(s.classified, last) && Unknown(s, z) && z != egress && z != ingress
    ensures a.left == r.left == LeftAfter(s.left, egress, ingress) && r.classified == map[]
  {
    PlanBegins(s, e, egress, ingress, clock, lives, a, z, last);
    AllRunOut(a, f, z, last, lives, r);
  }

  lemma PlanPasses(states: seq<State>, evs: seq<Event>, lives: Lives, left: map<Id, Id>, egress: Id, ingress: Id,
                   clock: int, id: Id, x: Id, y: Id, z: Id, z_: Id, now: int, late: int, end: int)
    requires IsRun(states, evs, lives) && IsPlan(evs, egress, ingress, clock, id, x, y, z, z_, now, late, end)
    requires states[1].left == left && Chain(left, id, x, y) && Unknown(states[0], z_)
    requires z_ !in {z, egress, ingress} && z_ !in left && z_ !in left.Values
    ensures Unknown(states[4], z_) && forall i :: 0 < i < |evs| ==> Repeats(states[i], evs[i])
  {
    PlanRepeats(evs, left, egress, ingress, clock, id, x, y, z, z_, now, late, end);
    UnknownStays(states, evs, lives, z_, 4);
    PlanIsRepeating(states, evs, lives, left);
  }

  lemma PlanHead(states: seq<State>, evs: seq<Event>, lives: Lives, egress: Id, ingress: Id, clock: int, id: Id, x: Id,
                 y: Id, z: Id, z_: Id, last: int, now: int, late: int, end: int)
    requires IsRun(states, evs, lives) && IsPlan(evs, egress, ingress, clock, id, x, y, z, z_, now, late, end)
    requires clock <= last && now == last + lives.classified + 1 && NoneAfter(states[0].classified, last)
    requires Unknown(states[0], z) && z != egress && z != ingress
    ensures states[1].left == states[2].left == LeftAfter(states[0].left, egress, ingress)
    ensures states[2].classified == map[]
  {
    StepOf(states, evs, lives, 0);
    StepOf(states, evs, lives, 1);
    PlanIsSilent(states[0], evs[0], states[1], evs[1], states[2], egress, ingress, clock, z, last, lives);
  }

  lemma PlanTail(states: seq<State>, evs: seq<Event>, lives: Lives, egress: Id, ingress: Id, clock: int, id: Id, x: Id,
                 y: Id, z: Id, z_: Id, now: int, late: int, end: int)
    requires IsRun(states, evs, lives) && IsPlan(evs, egress, ingress, clock, id, x, y, z, z_, now, late, end)
    requires Chain(states[2].left, id, x, y) && states[2].classified == map[] && Unknown(states[4], z_)
    requires late == now + lives.classified + 1 && end == late + lives.unclassified + 1
    ensures !AllTimed(states[5])
  {
    StepOf(states, evs, lives, 2);
    StepOf(states, evs, lives, 3);
    StepOf(states, evs, lives, 4);
    PlanStrands(states[2], evs[2], states[3], evs[3], states[4], evs[4], states[5], id, x, y, z_, now, lives, late);
  }

  lemma PlanRun(states: seq<State>, evs: seq<Event>, lives: Lives, left: map<Id, Id>, egress: Id, ingress: Id,
                clock: int, id: Id, x: Id, y: Id, z: Id, z_: Id, last: int, now: int, late: int, end: int)
    requires IsRun(states, evs, lives) && IsPlan(evs, egress, ingress, clock, id, x, y, z, z_, now, late, end)
    requires clock <= last && now == last + lives.classified + 1 && NoneAfter(states[0].classified, last)
    requires late == now + lives.classified + 1 && end == late + lives.unclassified + 1
    requires left == LeftAfter(states[0].left, egress, ingress) && Chain(left, id, x, y)
    requires Unknown(states[0], z) && z !in {egress, ingress} && Unknown(states[0], z_) && z_ !in {z, egress, ingress}
    ensures IsStranded(states, evs)
  {
    PlanHead(states, evs, lives, egress, ingress, clock, id, x, y, z, z_, last, now, late, end);
    assert left.Values <= states[0].left.Values + {ingress};
    PlanPasses(states, evs, lives, left, egress, ingress, clock, id, x, y, z, z_, now, late, end);
    PlanTail(states, evs, lives, egress, ingress, clock, id, x, y, z, z_, now, late, end);
  }

  lemma PlanIsClocked(evs: seq<Event>, egress: Id, ingress: Id, clock: int, id: Id, x: Id, y: Id, z: Id, z_: Id,
                      now: int, lives: Lives)
    requires evs == ChainEvents(egress, ingress, clock, id, x, y, z, z_, now, lives) && clock <= now
    ensures Clocked(evs, clock)
  {
    assert forall i :: 0 <= i < 5 ==> evs[i].t == At(evs[i].t.own);
  }

  /** A line that makes a chain strands the chain's first leg. */
  lemma ChainStrands(s: State, egress: Id, ingress: Id, clock: int, lives: Lives, z: Id, z_: Id)
      returns (evs: seq<Event>)
    requires egress !in s.left && !KeepsTimers(s, egress, ingress)
    requires Unknown(s, z) && Unknown(s, z_) && z != z_ && {egress, ingress} !! {z, z_}
    ensures evs != [] && evs[0] == Line(egress, ingress, clock) && Clocked(evs, clock) && Strands(s, evs, lives)
  {
    var left := LeftAfter(s.left, egress, ingress);
    var id, x, y := NewChain(s, egress, ingress);
    var last := LastEntry(s.classified, s.classified.Keys);
    last := if last < clock then clock else last;
    var now := last + lives.classified + 1;
    var late := now + lives.classified + 1;
    var end := late + lives.unclassified + 1;
    evs := ChainEvents(egress, ingress, clock, id, x, y, z, z_, now, lives);
    PlanIsClocked(evs, egress, ingress, clock, id, x, y, z, z_, now, lives);
    forall states | IsRun(states, evs, lives) && states[0] == s
      ensures IsStranded(states, evs)
    {
      PlanRun(states, evs, lives, left, egress, ingress, clock, id, x, y, z, z_, last, now, late, end);
    }
  }

  // ---------------------------------------------------------------------------
  // Exactly the accepted lines are safe
  // ---------------------------------------------------------------------------

  /** A line that is not accepted is the beginning of a run that strands data, whatever
      the store makes of the events. */
  lemma StrandingRun(s: State, egress: Id, ingress: Id, lives: Lives, clock: int) returns (evs: seq<Event>)
    requires !KeepsTimers(s, egress, ingress)
    ensures evs != [] && evs[0] == Line(egress, ingress, clock) && Clocked(evs, clock) && Strands(s, evs, lives)
  {
    var named := s.left.Keys + s.left.Values + s.sip.Keys + {egress, ingress};
    var z := FreshId(named);
    var z_ := FreshId(named + {z});
    if egress in s.left {
      evs := RemappingEvents(egress, ingress, z, clock, lives);
      RemappingStrands(s, egress, ingress, z, clock, lives, evs);
    } else {
      evs := ChainStrands(s, egress, ingress, clock, lives, z, z_);
    }
  }

  /** The model's own choice of groups is one that the code may make. */
  lemma UpdateIsPossible(s: State, e: Event, lives: Lives)
    ensures Updates(s, e, lives, Update(s, e, lives))
  {
    var m := CleanUnclassified(Insert(s, e), e.t.unclassified, lives.unclassified);
    var gs := Expired(m.classified, e.t.classified, lives.classified);
    assert CleansGroups(m, e.t.classified, lives.classified, gs,
                        CleanClassified(m, e.t.classified, lives.classified));
  }

  lemma {:induction false} RunExists(s: State, evs: seq<Event>, lives: Lives) returns (states: seq<State>)
    ensures IsRun(states, evs, lives) && states[0] == s
    decreases |evs|
  {
    states := [s];
    if evs != [] {
      var n := |evs| - 1;
      var front := RunExists(s, evs[..n], lives);
      UpdateIsPossible(front[n], evs[n], lives);
      states := RunMore(front, evs, n, lives, Update(front[n], evs[n], lives));
    }
  }

  lemma RunMore(front: seq<State>, evs: seq<Event>, n: nat, lives: Lives, last: State) returns (states: seq<State>)
    requires |evs| == n + 1 && IsRun(front, evs[..n], lives) && Updates(front[n], evs[n], lives, last)
    ensures IsRun(states, evs, lives) && states[0] == front[0]
  {
    states := front + [last];
    forall i | 0 <= i < |evs|
      ensures Updates(states[i], evs[i], lives, states[i + 1])
    {
      if i < n {
        assert Updates(front[i], evs[..n][i], lives, front[i + 1]);
      }
    }
  }

  /** Lines that break the roles, exactly: from every sound store, a line costs no leg the
      entry that will end its data, in whatever run of captured calls and known pairs
      follows, if and only if the store's guard accepts it. */
  lemma LineIsSafeExactly(s: State, egress: Id, ingress: Id, lives: Lives, clock: int)
    requires Sound(s)
    ensures LineIsSafe(s, egress, ingress, lives, clock) <==> KeepsTimers(s, egress, ingress)
  {
    if KeepsTimers(s, egress, ingress) {
      AcceptedLineIsSafe(s, egress, ingress, lives, clock);
    } else {
      var evs := StrandingRun(s, egress, ingress, lives, clock);
      var states := RunExists(s, evs, lives);
      assert IsStranded(states, evs);
      assert RunOfLine(s, egress, ingress, lives, clock, states, evs);
    }
  }

  // ---------------------------------------------------------------------------
  // Failing runs from the empty store
  // ---------------------------------------------------------------------------

  lemma Glue(states: seq<State>, evs: seq<Event>, more: seq<State>, next: seq<Event>, lives: Lives)
      returns (all: seq<State>)
    requires IsRun(states, evs, lives) && IsRun(more, next, lives) && states[|evs|] == more[0]
    ensures IsRun(all, evs + next, lives) && all[0] == states[0] && all[|evs| + |next|] == more[|next|]
    ensures forall i :: 0 <= i <= |next| ==> all[|evs| + i] == more[i]
  {
    all := states + more[1..];
    forall i | 0 <= i < |evs + next|
      ensures Updates(all[i], (evs + next)[i], lives, all[i + 1])
    {
      if i < |evs| {
        StepOf(states, evs, lives, i);
      } else {
        StepOf(more, next, lives, i - |evs|);
      }
    }
  }

  lemma ClockedOn(evs: seq<Event>, next: seq<Event>, clock: int, later: int)
    requires Clocked(evs, clock) && Clocked(next, later) && clock <= later
    requires forall i :: 0 <= i < |evs| ==> evs[i].t.classified <= later
    ensures Clocked(evs + next, clock)
  {
  }

  /** The rest of a run, from a line that is not accepted. */
  lemma StrandFrom(states: seq<State>, evs: seq<Event>, egress: Id, ingress: Id, lives: Lives, clock: int, later: int)
      returns (all: seq<State>, more: seq<Event>)
    requires IsRun(states, evs, lives) && Clocked(evs, clock) && clock <= later
    requires forall i :: 0 <= i < |evs| ==> evs[i].t.classified <= later
    requires !KeepsTimers(states[|evs|], egress, ingress)
    ensures |evs| < |more| && more[..|evs|] == evs && more[|evs|] == Line(egress, ingress, later)
    ensures IsRun(all, more, lives) && Clocked(more, clock) && all[0] == states[0]
    ensures (forall i :: |evs| < i < |more| ==> Repeats(all[i], more[i])) && !AllTimed(all[|more|])
  {
    var next := StrandingRun(states[|evs|], egress, ingress, lives, later);
    var rest := RunExists(states[|evs|], next, lives);
    assert IsStranded(rest, next);
    all := Glue(states, evs, rest, next, lives);
    more := evs + next;
    ClockedOn(evs, next, clock, later);
    forall i | |evs| < i < |more|
      ensures Repeats(all[i], more[i])
    {
      assert Repeats(rest[i - |evs|], next[i - |evs|]);
    }
  }

  /** What the first line makes of the empty store. */
  lemma FirstLine(egress: Id, ingress: Id, lives: Lives, r: State, e: Event)
    requires e == Line(egress, ingress, 0) && Updates(EMPTY, e, lives, r)
    ensures r.left == map[egress := ingress] && r.sip == map[]
    ensures forall id :: id in r.classified ==> id == ingress && r.classified[id] == 0
  {
    var gs := GroupsForgotten(EMPTY, e, lives, r);
  }

  lemma FirstGroupEnds(egress: Id, first: Id, other: Id, lives: Lives, a: State, r: State, e: Event, f: Event, z: Id)
    requires egress != first && egress != other && first != other && z != egress && z != first
    requires e == Line(egress, first, 0) && f == Passing(z, lives.classified + 1)
    requires Updates(EMPTY, e, lives, a) && Updates(a, f, lives, r)
    ensures !KeepsTimers(r, egress, other)
  {
    FirstLine(egress, first, lives, a, e);
    EntryRunsOut(a, f, first, z, lives.classified + 1, lives, r);
    EntryRunsOut(a, f, egress, z, lives.classified + 1, lives, r);
  }

  /** A line, silence until its entries are old, and a line with another ingress leg: data
      is left behind without an entry. */
  lemma RemappingFromEmpty(egress: Id, first: Id, other: Id, lives: Lives) returns (states: seq<State>, evs: seq<Event>)
    requires egress != first && egress != other && first != other
    ensures IsRun(states, evs, lives) && states[0] == EMPTY && Clocked(evs, 0)
    ensures |evs| > 2 && evs[0] == Line(egress, first, 0) && evs[1].Captured?
    ensures evs[2] == Line(egress, other, lives.classified + 1)
    ensures (forall i :: 2 < i < |evs| ==> Repeats(states[i], evs[i])) && !AllTimed(states[|evs|])
  {
    var z := FreshId({egress, first});
    var now := lives.classified + 1;
    var begin := [Line(egress, first, 0), Passing(z, now)];
    var two := RunExists(EMPTY, begin, lives);
    StepOf(two, begin, lives, 0);
    StepOf(two, begin, lives, 1);
    FirstGroupEnds(egress, first, other, lives, two[1], two[2], begin[0], begin[1], z);
    states, evs := StrandFrom(two, begin, egress, other, lives, 0, now);
    assert evs[0] == evs[..2][0] && evs[1] == evs[..2][1];
  }

  /** Two lines that make a chain of three legs: data is left behind without an entry. */
  lemma ChainFromEmpty(a: Id, b: Id, c: Id, lives: Lives) returns (states: seq<State>, evs: seq<Event>)
    requires a != b && a != c && b != c
    ensures IsRun(states, evs, lives) && states[0] == EMPTY && Clocked(evs, 0)
    ensures |evs| > 1 && evs[0] == Line(a, b, 0) && evs[1] == Line(b, c, 0)
    ensures (forall i :: 1 < i < |evs| ==> Repeats(states[i], evs[i])) && !AllTimed(states[|evs|])
  {
    var begin := [Line(a, b, 0)];
    var one := RunExists(EMPTY, begin, lives);
    StepOf(one, begin, lives, 0);
    FirstLine(a, b, lives, one[1], begin[0]);
    assert a in one[1].left && one[1].left[a] == b;
    states, evs := StrandFrom(one, begin, b, c, lives, 0, 0);
    assert evs[0] == evs[..1][0];
  }

  /** After every run that keeps the roles, the store is sound. */
  lemma ProperRunIsSound(clock: int, evs: seq<Event>, n: nat, lives: Lives)
    requires n <= |evs| && AllOk(Start(clock), evs, n, Step(lives), ProperIn())
    ensures Sound(RunTo(clock, evs, n, lives).s)
  {
    RunIsGood(clock, evs, n, lives);
    OneRoleNoChain(RunTo(clock, evs, n, lives).s.left);
  }
}
