/** The store of call legs behind the server (src/state.cpp): what the captured calls and
    the switch's log lines say about each leg, the map from egress to ingress legs, and
    the two backlogs by whose times legs are forgotten. */
module LegStores {
  import opened Common
  import opened Calls

  /** A Call-ID. */
  type Id = CString

  /** What a captured call says about a leg: its state, the fields that the source's
      comparison looks at, and the packet counters that it does not look at. */
  datatype Leg = Leg(state: CallState, shown: seq<CString>, counters: seq<nat>)

  predicate SameLeg(a: Leg, b: Leg) {
    a.state == b.state && a.shown == b.shown
  }

  /** What a log line says about a leg: values by field name. */
  type Fields = map<CString, CString>

  /** Ids and the time they were last updated. */
  type Backlog = map<Id, int>

  // ---------------------------------------------------------------------------
  // The state as a value
  // ---------------------------------------------------------------------------

  /** The two maps of leg data, the left view of the map from egress to ingress legs, and
      the two backlogs. */
  datatype State = State(sip: map<Id, Leg>, info: map<Id, Fields>, left: map<Id, Id>,
                         unclassified: Backlog, classified: Backlog)

  const EMPTY: State := State(map[], map[], map[], map[], map[])

  predicate Stored(s: State, id: Id) {
    id in s.sip || id in s.info
  }

  /** The ingress leg of a leg's group, if it is known; an ingress leg is its own. */
  function IngressOf(left: map<Id, Id>, id: Id): Option<Id> {
    if id in left.Values then Some(id) else if id in left then Some(left[id]) else None
  }

  /** The entries that are older than the lifetime. */
  function Expired(b: Backlog, now: int, life: nat): set<Id> {
    set id | id in b && now - b[id] > life
  }

  /** Those of the ids whose group is not known. */
  function Unowned(left: map<Id, Id>, ids: set<Id>): set<Id> {
    set id | id in ids && IngressOf(left, id) == None
  }

  /** The given ingress legs and all of their egress legs. */
  function GroupsOf(left: map<Id, Id>, gs: set<Id>): set<Id> {
    gs + set id | id in left && left[id] in gs
  }

  /** Old entries leave the first backlog; the data of a leg goes along unless its group
      is known. */
  function CleanUnclassified(s: State, now: int, life: nat): State {
    var old_ := Expired(s.unclassified, now, life);
    var dead := Unowned(s.left, old_);
    s.(sip := s.sip - dead, info := s.info - dead, unclassified := s.unclassified - old_)
  }

  /** The groups of old entries of the second backlog are forgotten. */
  function CleanClassified(s: State, now: int, life: nat): State {
    Forget(s, GroupsOf(s.left, Expired(s.classified, now, life)))
  }

  function Forget(s: State, dead: set<Id>): State {
    s.(sip := s.sip - dead, info := s.info - dead, unclassified := s.unclassified - dead,
       classified := s.classified - dead)
  }

  /** The clock readings of one update, in the order in which they are taken: for the
      leg's entry, for the ingress leg's entry when a log line brings one, for the group's
      entry, and for the two cleanups. */
  datatype Times = Times(own: int, other: int, group: int, unclassified: int, classified: int)

  predicate Ordered(t: Times) {
    t.own <= t.other <= t.group <= t.unclassified <= t.classified
  }

  /** One update: from a captured call, or from a line of the switch's log. */
  datatype Event =
    | Captured(id: Id, leg: Leg, t: Times)
    | Logged(egress: Id, ingress: Id, egressFields: Fields, ingressFields: Fields, t: Times)

  predicate IsNews(s: State, id: Id, leg: Leg) {
    !(id in s.sip && SameLeg(leg, s.sip[id]))
  }

  /** The insertions of an update, before the cleanups. */
  function Insert(s: State, e: Event): State {
    match e
    case Captured(id, leg, t) =>
      var g := IngressOf(s.left, id);
      s.(sip := s.sip[id := leg], unclassified := s.unclassified[id := t.own],
         classified := if g.Some? then s.classified[g.value := t.group] else s.classified)
    case Logged(egress, ingress, egressFields, ingressFields, t) =>
      s.(info := s.info[egress := egressFields][ingress := ingressFields],
         unclassified := s.unclassified[egress := t.own][ingress := t.other],
         left := if egress in s.left then s.left else s.left[egress := ingress],
         classified := s.classified[ingress := t.group])
  }

  /** The lifetimes of the two backlogs. */
  datatype Lives = Lives(unclassified: nat, classified: nat)

  function Clean(s: State, t: Times, lives: Lives): State {
    CleanClassified(CleanUnclassified(s, t.unclassified, lives.unclassified), t.classified, lives.classified)
  }

  /** An update; a captured call that brings no news is not looked at further. */
  function Update(s: State, e: Event, lives: Lives): State {
    if e.Captured? && !IsNews(s, e.id, e.leg) then s else Clean(Insert(s, e), e.t, lives)
  }

  /** What the code may make of an update, whatever the roles: it forgets groups of old
      entries, the oldest first, until no old entry is left.  Forgetting one group may take
      the entry of another one along. */
  ghost predicate Updates(s: State, e: Event, lives: Lives, r: State) {
    match e
    case Captured(id, leg, t) => if !IsNews(s, id, leg) then r == s else Cleans(Insert(s, e), t, lives, r)
    case Logged(_, _, _, _, t) => Cleans(Insert(s, e), t, lives, r)
  }

  ghost predicate Cleans(s: State, t: Times, lives: Lives, r: State) {
    exists gs: set<Id> :: CleansGroups(CleanUnclassified(s, t.unclassified, lives.unclassified), t.classified,
                                       lives.classified, gs, r)
  }

  ghost predicate CleansGroups(s: State, now: int, life: nat, gs: set<Id>, r: State) {
    && gs <= Expired(s.classified, now, life) && r == Forget(s, GroupsOf(s.left, gs))
    && Expired(r.classified, now, life) == {}
  }

  // ---------------------------------------------------------------------------
  // Runs
  // ---------------------------------------------------------------------------

  /** A state and what led to it: the last clock reading, when each leg and each group
      was last updated, and when the two backlogs were last cleaned. */
  datatype World = World(s: State, clock: int, seen: map<Id, int>, groups: map<Id, int>,
                         cleanedUnclassified: int, cleanedClassified: int)

  function Start(clock: int): World {
    World(EMPTY, clock, map[], map[], clock, clock)
  }

  function Advance(w: World, e: Event, lives: Lives): World {
    if e.Captured? && !IsNews(w.s, e.id, e.leg) then w
    else
      var g := if e.Captured? then IngressOf(w.s.left, e.id) else Some(e.ingress);
      World(Update(w.s, e, lives), e.t.classified,
            if e.Captured? then w.seen[e.id := e.t.own] else w.seen[e.egress := e.t.own][e.ingress := e.t.other],
            if g.Some? then w.groups[g.value := e.t.group] else w.groups,
            e.t.unclassified, e.t.classified)
  }

  /** A log line keeps the roles: the egress leg keeps its ingress leg, and no leg is both
      an ingress and an egress leg. */
  predicate KeepsRoles(left: map<Id, Id>, egress: Id, ingress: Id) {
    && (egress in left ==> left[egress] == ingress)
    && egress != ingress && egress !in left.Values && ingress !in left
  }

  /** The clock does not go back, and roles are kept. */
  predicate Proper(w: World, e: Event) {
    && w.clock <= e.t.own && Ordered(e.t)
    && (e.Logged? ==> KeepsRoles(w.s.left, e.egress, e.ingress))
  }

  function Step(lives: Lives): (World, Event) -> World {
    (w: World, e: Event) => Advance(w, e, lives)
  }

  function ProperIn(): (World, Event) -> bool {
    (w: World, e: Event) => Proper(w, e)
  }

  function RunTo(clock: int, evs: seq<Event>, n: nat, lives: Lives): World
    requires n <= |evs|
  {
    FoldTo(Start(clock), evs, n, Step(lives))
  }

  /** No leg has two roles. */
  ghost predicate OneRole(left: map<Id, Id>) {
    left.Keys !! left.Values
  }

  /** A leg's ingress leg is no egress leg of a third one. */
  predicate Short(left: map<Id, Id>, id: Id)
    requires id in left
  {
    left[id] in left ==> left[left[id]] in {left[id], id}
  }

  ghost predicate NoChain(left: map<Id, Id>) {
    forall id {:trigger Short(left, id)} :: id in left ==> Short(left, id)
  }

  /** An entry of the second backlog ends a leg: its own, or that of its ingress leg. */
  predicate HasGroupEntry(s: State, id: Id) {
    id in s.classified || (id in s.left && s.left[id] in s.classified)
  }

  /** A leg with data has an entry in one of the backlogs. */
  ghost predicate Timed(s: State, id: Id) {
    id in s.unclassified || HasGroupEntry(s, id)
  }

  /** Legs with data are timed; and where the group of an entry is known, it has an entry
      too, which ends the data after this one is gone. */
  ghost predicate Covered(s: State) {
    && (forall id :: Stored(s, id) ==> Timed(s, id))
    && (forall id :: id in s.unclassified && IngressOf(s.left, id).Some? ==> HasGroupEntry(s, id))
  }

  /** The store is covered, and only ingress legs have group entries. */
  ghost predicate Consistent(s: State) {
    OneRole(s.left) && s.classified.Keys <= s.left.Values && Covered(s)
  }

  /** Every entry holds the time of the last update and is not older than its lifetime. */
  ghost predicate UpToDate(b: Backlog, last: map<Id, int>, cleaned: int, clock: int, life: nat) {
    forall id :: id in b ==> id in last && b[id] == last[id] <= clock && cleaned - b[id] <= life
  }

  ghost predicate Good(w: World, lives: Lives) {
    && Consistent(w.s)
    && UpToDate(w.s.unclassified, w.seen, w.cleanedUnclassified, w.clock, lives.unclassified)
    && UpToDate(w.s.classified, w.groups, w.cleanedClassified, w.clock, lives.classified)
  }

  ghost function GoodFor(lives: Lives): World -> bool {
    (w: World) => Good(w, lives)
  }

  // ---------------------------------------------------------------------------
  // The cleanups keep the store consistent
  // ---------------------------------------------------------------------------

  lemma CleanUnclassifiedKeeps(s: State, now: int, life: nat)
    requires Covered(s)
    ensures Covered(CleanUnclassified(s, now, life))
    ensures Consistent(s) ==> Consistent(CleanUnclassified(s, now, life))
  {
    var r := CleanUnclassified(s, now, life);
    forall id | Stored(r, id)
      ensures Timed(r, id)
    {
      assert Timed(s, id);
    }
  }

  /** Exactly the legs whose group is among the expired ones lose everything. */
  lemma InGroups(left: map<Id, Id>, gs: set<Id>, id: Id)
    requires OneRole(left) && gs <= left.Values
    ensures id in GroupsOf(left, gs) <==> IngressOf(left, id).Some? && IngressOf(left, id).value in gs
  {
  }

  /** Without chains, a leg that is not forgotten keeps the entry that will end it. */
  lemma GroupEntryStays(s: State, gs: set<Id>, r: State, id: Id)
    requires HasGroupEntry(s, id) && id !in GroupsOf(s.left, gs) && r == Forget(s, GroupsOf(s.left, gs))
    requires id in s.left ==> Short(s.left, id)
    ensures HasGroupEntry(r, id)
  {
  }

  lemma ForgetKeeps(s: State, gs: set<Id>, r: State)
    requires NoChain(s.left) && Covered(s) && r == Forget(s, GroupsOf(s.left, gs))
    ensures Covered(r)
  {
    forall id | HasGroupEntry(s, id) && id !in GroupsOf(s.left, gs)
      ensures HasGroupEntry(r, id)
    {
      assert id in s.left ==> Short(s.left, id);
      GroupEntryStays(s, gs, r, id);
    }
    assert forall id :: Stored(r, id) ==> Stored(s, id) && Timed(s, id);
  }

  lemma OneRoleNoChain(left: map<Id, Id>)
    requires OneRole(left)
    ensures NoChain(left)
  {
    forall id | id in left
      ensures Short(left, id)
    {
      assert left[id] in left.Values;
    }
  }

  lemma CleanClassifiedKeeps(s: State, now: int, life: nat)
    requires Consistent(s)
    ensures Consistent(CleanClassified(s, now, life))
  {
    OneRoleNoChain(s.left);
    ForgetKeeps(s, Expired(s.classified, now, life), CleanClassified(s, now, life));
  }

  // ---------------------------------------------------------------------------
  // The insertions keep it consistent, if roles are kept
  // ---------------------------------------------------------------------------

  lemma InsertCapturedKeeps(s: State, e: Event)
    requires Covered(s) && e.Captured?
    ensures Covered(Insert(s, e)) && (Consistent(s) ==> Consistent(Insert(s, e)))
  {
    var r := Insert(s, e);
    forall id | Stored(s, id) || id in s.unclassified
      ensures Timed(s, id) ==> Timed(r, id)
    {
    }
  }

  /** The map after a line that keeps the roles. */
  lemma LeftKeeps(left: map<Id, Id>, egress: Id, ingress: Id)
    requires OneRole(left) && KeepsRoles(left, egress, ingress)
    ensures var l := if egress in left then left else left[egress := ingress];
            OneRole(l) && l.Values == left.Values + {ingress} && l.Keys == left.Keys + {egress}
            && (forall id ::
                  IngressOf(l, id) == if id == egress || id == ingress then Some(ingress) else IngressOf(left, id))
  {
    var l := if egress in left then left else left[egress := ingress];
    assert l[egress] == ingress && ingress in l.Values;
    forall g | g in left.Values
      ensures g in l.Values
    {
      var id :| id in left && left[id] == g;
      assert l[id] == g;
    }
    assert l.Values == left.Values + {ingress};
    forall id
      ensures IngressOf(l, id) == if id == egress || id == ingress then Some(ingress) else IngressOf(left, id)
    {
      assert id in left.Values ==> id in l.Values;
    }
  }

  lemma InsertLoggedKeeps(s: State, e: Event)
    requires Consistent(s) && e.Logged? && KeepsRoles(s.left, e.egress, e.ingress)
    ensures Consistent(Insert(s, e))
  {
    var r := Insert(s, e);
    LeftKeeps(s.left, e.egress, e.ingress);
    forall id | Timed(s, id) || id == e.egress || id == e.ingress
      ensures Timed(r, id)
    {
    }
    forall id | id in r.unclassified && IngressOf(r.left, id).Some?
      ensures HasGroupEntry(r, id)
    {
      assert id == e.egress || id == e.ingress || HasGroupEntry(s, id);
    }
  }

  lemma UpdateKeeps(s: State, e: Event, lives: Lives)
    requires Consistent(s) && (e.Logged? ==> KeepsRoles(s.left, e.egress, e.ingress))
    ensures Consistent(Insert(s, e)) && Consistent(Update(s, e, lives))
  {
    if e.Captured? {
      InsertCapturedKeeps(s, e);
    } else {
      InsertLoggedKeeps(s, e);
    }
    var r := CleanUnclassified(Insert(s, e), e.t.unclassified, lives.unclassified);
    CleanUnclassifiedKeeps(Insert(s, e), e.t.unclassified, lives.unclassified);
    CleanClassifiedKeeps(r, e.t.classified, lives.classified);
  }

  // ---------------------------------------------------------------------------
  // Backlog times
  // ---------------------------------------------------------------------------

  lemma UpToDateAfter(b: Backlog, c: Backlog, last: map<Id, int>, more: map<Id, int>, life: nat,
                      cleaned: int, clock: int, now: int, later: int)
    requires UpToDate(b, last, cleaned, clock, life) && clock <= now <= later
    requires forall id :: id in c ==> now - c[id] <= life
    requires forall id :: id in c ==> id in more && ((c[id] == more[id] <= later)
                                        || (id in b && c[id] == b[id] && id in last && more[id] == last[id]))
    ensures UpToDate(c, more, now, later, life)
  {
  }

  lemma AdvanceKeeps(w: World, e: Event, lives: Lives)
    requires Good(w, lives) && Proper(w, e)
    ensures Good(Advance(w, e, lives), lives)
  {
    UpdateKeeps(w.s, e, lives);
    if !(e.Captured? && !IsNews(w.s, e.id, e.leg)) {
      var v, s, r := Advance(w, e, lives), Insert(w.s, e), Update(w.s, e, lives);
      UpToDateAfter(w.s.unclassified, r.unclassified, w.seen, v.seen, lives.unclassified,
                    w.cleanedUnclassified, w.clock, e.t.unclassified, e.t.classified);
      UpToDateAfter(w.s.classified, r.classified, w.groups, v.groups, lives.classified,
                    w.cleanedClassified, w.clock, e.t.classified, e.t.classified);
    }
  }

  lemma RunIsGood(clock: int, evs: seq<Event>, n: nat, lives: Lives)
    requires n <= |evs| && AllOk(Start(clock), evs, n, Step(lives), ProperIn())
    ensures Good(RunTo(clock, evs, n, lives), lives)
  {
    forall w, e | GoodFor(lives)(w) && ProperIn()(w, e)
      ensures GoodFor(lives)(Step(lives)(w, e))
    {
      AdvanceKeeps(w, e, lives);
    }
    RunKeeps(Start(clock), evs, n, Step(lives), ProperIn(), GoodFor(lives));
  }

  /** No leg outlives its timers: after every run, whatever has data was updated within
      the first lifetime, or belongs to a group that was updated within the second one,
      as of the last cleanups. */
  lemma NoLegOutlivesItsTimers(clock: int, evs: seq<Event>, n: nat, lives: Lives, id: Id)
    requires n <= |evs| && AllOk(Start(clock), evs, n, Step(lives), ProperIn())
    requires Stored(RunTo(clock, evs, n, lives).s, id)
    ensures var w := RunTo(clock, evs, n, lives);
            var g := IngressOf(w.s.left, id);
            (id in w.seen && w.cleanedUnclassified - w.seen[id] <= lives.unclassified)
            || (g.Some? && g.value in w.groups && w.cleanedClassified - w.groups[g.value] <= lives.classified)
  {
    RunIsGood(clock, evs, n, lives);
    assert Timed(RunTo(clock, evs, n, lives).s, id);
  }

  // ---------------------------------------------------------------------------
  // Groups live and die together
  // ---------------------------------------------------------------------------

  /** Nothing is left of the group of `g`. */
  ghost predicate Forgotten(s: State, g: Id) {
    g !in s.classified
    && forall id :: IngressOf(s.left, id) == Some(g) ==> !Stored(s, id) && id !in s.unclassified
  }

  /** What the two cleanups do to a leg whose group is known. */
  lemma CleanGroup(s: State, t: Times, lives: Lives, id: Id, g: Id)
    requires Consistent(s) && IngressOf(s.left, id) == Some(g) && g in s.classified
    ensures var r := Clean(s, t, lives);
            var late := t.classified - s.classified[g] > lives.classified;
            (id in r.sip <==> id in s.sip && !late) && (id in r.info <==> id in s.info && !late)
            && (id in r.unclassified ==> !late) && (g in r.classified <==> !late)
  {
    var m := CleanUnclassified(s, t.unclassified, lives.unclassified);
    var gs := Expired(m.classified, t.classified, lives.classified);
    InGroups(m.left, gs, id);
    InGroups(m.left, gs, g);
  }

  lemma CleanForgets(s: State, t: Times, lives: Lives, g: Id)
    requires Consistent(s) && g in s.classified && t.classified - s.classified[g] > lives.classified
    ensures Forgotten(Clean(s, t, lives), g)
  {
    CleanGroup(s, t, lives, g, g);
    forall id | IngressOf(s.left, id) == Some(g)
      ensures !Stored(Clean(s, t, lives), id) && id !in Clean(s, t, lives).unclassified
    {
      CleanGroup(s, t, lives, id, g);
    }
  }

  lemma GroupAfterUpdate(w: World, e: Event, lives: Lives, id: Id, g: Id)
    requires Good(w, lives) && Proper(w, e) && !(e.Captured? && !IsNews(w.s, e.id, e.leg))
    requires Stored(w.s, id) && IngressOf(Advance(w, e, lives).s.left, id) == Some(g)
    ensures var v := Advance(w, e, lives);
            g in v.groups
            && (Stored(v.s, id) <==> v.cleanedClassified - v.groups[g] <= lives.classified)
            && (!Stored(v.s, id) ==> Forgotten(v.s, g))
            && (Stored(v.s, id) ==> (id in w.s.sip ==> id in v.s.sip) && (id in w.s.info ==> id in v.s.info))
  {
    UpdateKeeps(w.s, e, lives);
    var s, v := Insert(w.s, e), Advance(w, e, lives);
    assert Timed(s, id);
    assert g in s.classified && s.classified[g] == v.groups[g];
    CleanGroup(s, e.t, lives, id, g);
    if e.t.classified - s.classified[g] > lives.classified {
      CleanForgets(s, e.t, lives, g);
    }
  }

  /** Groups live and die together: in every update of every run that cleans up, a leg
      whose ingress leg is known keeps its data exactly when its group was updated within
      the lifetime, and otherwise nothing of the group is left. */
  lemma GroupsLiveAndDieTogether(clock: int, evs: seq<Event>, n: nat, lives: Lives, id: Id, g: Id)
    requires n < |evs| && AllOk(Start(clock), evs, n + 1, Step(lives), ProperIn())
    requires var w := RunTo(clock, evs, n, lives);
             Stored(w.s, id) && !(evs[n].Captured? && !IsNews(w.s, evs[n].id, evs[n].leg))
    requires IngressOf(RunTo(clock, evs, n + 1, lives).s.left, id) == Some(g)
    ensures var v := RunTo(clock, evs, n + 1, lives);
            g in v.groups
            && (Stored(v.s, id) <==> v.cleanedClassified - v.groups[g] <= lives.classified)
            && (!Stored(v.s, id) ==> Forgotten(v.s, g))
  {
    var w := RunTo(clock, evs, n, lives);
    RunIsGood(clock, evs, n, lives);
    assert ProperIn()(w, evs[n]);
    GroupAfterUpdate(w, evs[n], lives, id, g);
  }

  // ---------------------------------------------------------------------------
  // The right view: egress legs in the order of their ingress legs
  // ---------------------------------------------------------------------------

  /** One entry of the right view. */
  datatype Pair = Pair(ingress: Id, egress: Id)

  predicate NotAfter(a: Id, b: Id) {
    StrCmp(a, b) <= 0
  }

  /** The right view holds what the left view holds, in ascending order. */
  ghost predicate Views(left: map<Id, Id>, right: seq<Pair>) {
    && (forall i :: 0 <= i < |right| ==> right[i].egress in left && left[right[i].egress] == right[i].ingress)
    && (forall e :: e in left ==> Pair(left[e], e) in right)
    && (forall i, j :: 0 <= i < j < |right| ==> NotAfter(right[i].ingress, right[j].ingress))
    && (forall i, j :: 0 <= i < j < |right| ==> right[i].egress != right[j].egress)
  }

  /** Where a pair is inserted: behind all pairs that do not come after it. */
  function UpperBound(right: seq<Pair>, ingress: Id, from: nat): (r: nat)
    requires from <= |right|
    ensures from <= r <= |right|
    ensures forall i :: from <= i < r ==> NotAfter(right[i].ingress, ingress)
    ensures r < |right| ==> !NotAfter(right[r].ingress, ingress)
    decreases |right| - from
  {
    if from < |right| && NotAfter(right[from].ingress, ingress) then UpperBound(right, ingress, from + 1) else from
  }

  lemma NotAfterAll(a: Id, b: Id, c: Id)
    ensures !NotAfter(a, b) ==> NotAfter(b, a) && a != b
    ensures NotAfter(a, b) && NotAfter(b, c) ==> NotAfter(a, c)
    ensures NotAfter(a, b) && NotAfter(b, a) ==> a == b
  {
    StrCmpFlips(a, b);
    if NotAfter(a, b) && NotAfter(b, c) {
      StrCmpTransitive(a, b, c);
    }
  }

  lemma OrderedInsert(right: seq<Pair>, p: Pair, k: nat, r: seq<Pair>)
    requires k <= |right| && r == right[..k] + [p] + right[k..]
    requires forall i, j :: 0 <= i < j < |right| ==> NotAfter(right[i].ingress, right[j].ingress)
    requires forall i :: 0 <= i < k ==> NotAfter(right[i].ingress, p.ingress)
    requires forall i :: k <= i < |right| ==> NotAfter(p.ingress, right[i].ingress)
    ensures forall i, j :: 0 <= i < j < |r| ==> NotAfter(r[i].ingress, r[j].ingress)
  {
    assert forall i :: 0 <= i < |r| && i != k ==> r[i] == right[if i < k then i else i - 1];
  }

  lemma BehindBound(right: seq<Pair>, ingress: Id, k: nat)
    requires forall i, j :: 0 <= i < j < |right| ==> NotAfter(right[i].ingress, right[j].ingress)
    requires k == UpperBound(right, ingress, 0)
    ensures forall i :: k <= i < |right| ==> NotAfter(ingress, right[i].ingress)
  {
    if k < |right| {
      NotAfterAll(right[k].ingress, ingress, ingress);
      forall i | k <= i < |right|
        ensures NotAfter(ingress, right[i].ingress)
      {
        NotAfterAll(ingress, right[k].ingress, right[i].ingress);
      }
    }
  }

  lemma DistinctInsert(right: seq<Pair>, p: Pair, k: nat, r: seq<Pair>)
    requires k <= |right| && r == right[..k] + [p] + right[k..]
    requires forall i, j :: 0 <= i < j < |right| ==> right[i].egress != right[j].egress
    requires forall i :: 0 <= i < |right| ==> right[i].egress != p.egress
    ensures forall i, j :: 0 <= i < j < |r| ==> r[i].egress != r[j].egress
  {
    assert forall i :: 0 <= i < |r| && i != k ==> r[i] == right[if i < k then i else i - 1];
  }

  lemma MembersInsert(right: seq<Pair>, p: Pair, k: nat, r: seq<Pair>)
    requires k <= |right| && r == right[..k] + [p] + right[k..]
    ensures forall q :: q in r <==> q == p || q in right
  {
    assert right == right[..k] + right[k..];
  }

  /** Inserting a pair with a new egress leg keeps the views equal. */
  lemma ViewsInsert(left: map<Id, Id>, right: seq<Pair>, p: Pair, l: map<Id, Id>, r: seq<Pair>)
    requires Views(left, right) && p.egress !in left && l == left[p.egress := p.ingress]
    requires var k := UpperBound(right, p.ingress, 0); r == right[..k] + [p] + right[k..]
    ensures Views(l, r)
  {
    var k := UpperBound(right, p.ingress, 0);
    BehindBound(right, p.ingress, k);
    OrderedInsert(right, p, k, r);
    DistinctInsert(right, p, k, r);
    MembersInsert(right, p, k, r);
    assert forall i :: 0 <= i < |r| ==> r[i] in r;
  }

  // ---------------------------------------------------------------------------
  // Groups in the right view
  // ---------------------------------------------------------------------------

  /** The egress legs of an ingress leg among the first `n` entries of the right view. */
  function EgressTo(right: seq<Pair>, n: nat, g: Id): seq<Id>
    requires n <= |right|
  {
    if n == 0 then []
    else EgressTo(right, n - 1, g) + if right[n - 1].ingress == g then [right[n - 1].egress] else []
  }

  lemma {:induction false} EgressToMembers(right: seq<Pair>, n: nat, g: Id)
    requires n <= |right| && forall i, j :: 0 <= i < j < |right| ==> right[i].egress != right[j].egress
    ensures forall e :: e in EgressTo(right, n, g) <==> exists i :: 0 <= i < n && right[i] == Pair(g, e)
    ensures Distinct(EgressTo(right, n, g))
  {
    if n > 0 {
      EgressToMembers(right, n - 1, g);
      forall e
        ensures e in EgressTo(right, n, g) <==> exists i :: 0 <= i < n && right[i] == Pair(g, e)
      {
        assert right[n - 1] == Pair(g, e) ==> e in EgressTo(right, n, g);
      }
    }
  }

  /** They are exactly the legs that the left view maps to the ingress leg. */
  lemma EgressExactly(left: map<Id, Id>, right: seq<Pair>, g: Id)
    requires Views(left, right)
    ensures forall e :: e in EgressTo(right, |right|, g) <==> e in left && left[e] == g
    ensures Distinct(EgressTo(right, |right|, g))
  {
    EgressToMembers(right, |right|, g);
  }

  lemma {:induction false} EgressOutside(right: seq<Pair>, m: nat, n: nat, g: Id)
    requires m <= n <= |right| && forall i :: m <= i < n ==> right[i].ingress != g
    ensures EgressTo(right, n, g) == EgressTo(right, m, g)
  {
    if m < n {
      EgressOutside(right, m, n - 1, g);
    }
  }

  lemma ValuesInView(left: map<Id, Id>, right: seq<Pair>, g: Id)
    requires Views(left, right)
    ensures g in left.Values <==> exists i :: 0 <= i < |right| && right[i].ingress == g
  {
    if g in left.Values {
      var e :| e in left && left[e] == g;
      assert Pair(left[e], e) in right;
    }
  }

  /** What the server tells about one leg, and about one group of legs. */
  datatype LegView = LegView(id: Id, info: Option<Fields>, sip: Option<Leg>)
  datatype CallGroup = CallGroup(ingress: LegView, egress: seq<LegView>)

  function ViewOf(s: State, id: Id): LegView {
    LegView(id, if id in s.info then Some(s.info[id]) else None, if id in s.sip then Some(s.sip[id]) else None)
  }

  function ViewsOf(s: State, ids: seq<Id>): (r: seq<LegView>)
    ensures |r| == |ids| && forall i :: 0 <= i < |ids| ==> r[i] == ViewOf(s, ids[i])
  {
    if ids == [] then [] else ViewsOf(s, ids[..|ids| - 1]) + [ViewOf(s, ids[|ids| - 1])]
  }

  lemma ViewsMore(s: State, ids: seq<Id>, id: Id)
    ensures ViewsOf(s, ids + [id]) == ViewsOf(s, ids) + [ViewOf(s, id)]
  {
    assert (ids + [id])[..|ids|] == ids;
  }

  /** A leg that no captured call tells anything about may be active too. */
  predicate LegActive(s: State, id: Id) {
    id in s.sip ==> s.sip[id].state in {NoState, CallSetup, InCall}
  }

  /** The ingress leg or one of its egress legs is active. */
  ghost predicate GroupActive(s: State, g: Id) {
    LegActive(s, g) || exists e :: e in s.left && s.left[e] == g && LegActive(s, e)
  }

  /** An entry names an ingress leg. */
  ghost predicate Told(us: seq<CallGroup>, g: Id) {
    exists i :: 0 <= i < |us| && us[i].ingress.id == g
  }

  /** An entry tells about its ingress leg and about exactly its egress legs. */
  ghost predicate Tells(u: CallGroup, s: State) {
    && u.ingress == ViewOf(s, u.ingress.id)
    && (forall i :: 0 <= i < |u.egress| ==> u.egress[i] == ViewOf(s, u.egress[i].id))
    && (forall e :: (exists i :: 0 <= i < |u.egress| && u.egress[i].id == e)
                    <==> e in s.left && s.left[e] == u.ingress.id)
    && forall i, j :: 0 <= i < j < |u.egress| ==> u.egress[i].id != u.egress[j].id
  }

  /** The entries are in strictly ascending order of their ingress legs. */
  ghost predicate Ascending(us: seq<CallGroup>) {
    forall i, j :: 0 <= i < j < |us| ==> StrCmp(us[i].ingress.id, us[j].ingress.id) < 0
  }

  ghost function IngressTo(right: seq<Pair>, n: nat): set<Id>
    requires n <= |right|
  {
    set i | 0 <= i < n :: right[i].ingress
  }

  lemma TellsIs(u: CallGroup, s: State, g: Id, ids: seq<Id>)
    requires u == CallGroup(ViewOf(s, g), ViewsOf(s, ids)) && Distinct(ids)
    requires forall e :: e in ids <==> e in s.left && s.left[e] == g
    ensures Tells(u, s)
  {
    forall e
      ensures (exists i :: 0 <= i < |u.egress| && u.egress[i].id == e) <==> e in ids
    {
      if e in ids {
        var i :| 0 <= i < |ids| && ids[i] == e;
        assert u.egress[i].id == e;
      }
    }
  }

  lemma ViewedValues(left: map<Id, Id>, right: seq<Pair>)
    requires Views(left, right)
    ensures IngressTo(right, |right|) == left.Values
  {
    forall g
      ensures g in IngressTo(right, |right|) <==> g in left.Values
    {
      ValuesInView(left, right, g);
    }
  }

  /** The list is complete for the groups among the first `n` entries of the right view. */
  ghost predicate ListedTo(us: seq<CallGroup>, s: State, right: seq<Pair>, n: nat, onlyActive: bool)
    requires n <= |right|
  {
    && Ascending(us) && (forall i :: 0 <= i < |us| ==> Tells(us[i], s))
    && forall g :: Told(us, g) <==> g in IngressTo(right, n) && (onlyActive ==> GroupActive(s, g))
  }

  /** The entry `n` begins a new group. */
  predicate AtGroup(right: seq<Pair>, n: nat) {
    0 < n < |right| ==> right[n - 1].ingress != right[n].ingress
  }

  lemma EarlierGroups(right: seq<Pair>, it: nat, k: nat)
    requires k < it < |right| && AtGroup(right, it)
    requires forall i, j :: 0 <= i < j < |right| ==> NotAfter(right[i].ingress, right[j].ingress)
    ensures StrCmp(right[k].ingress, right[it].ingress) < 0
  {
    assert k == it - 1 || NotAfter(right[k].ingress, right[it - 1].ingress);
    NotAfterAll(right[k].ingress, right[it - 1].ingress, right[it].ingress);
    NotAfterAll(right[it - 1].ingress, right[k].ingress, right[it - 1].ingress);
  }

  /** A further group comes behind all groups so far. */
  lemma OneMoreGroup(us: seq<CallGroup>, u: CallGroup, s: State, right: seq<Pair>, it: nat, onlyActive: bool)
    requires Views(s.left, right) && it < |right| && AtGroup(right, it) && ListedTo(us, s, right, it, onlyActive)
    requires Tells(u, s) && u.ingress.id == right[it].ingress
    ensures Ascending(us + [u]) && forall i :: 0 <= i < |us + [u]| ==> Tells((us + [u])[i], s)
    ensures forall g :: Told(us + [u], g) <==> Told(us, g) || g == right[it].ingress
  {
    forall i | 0 <= i < |us|
      ensures StrCmp(us[i].ingress.id, u.ingress.id) < 0
    {
      assert Told(us, us[i].ingress.id);
      var k :| 0 <= k < it && right[k].ingress == us[i].ingress.id;
      EarlierGroups(right, it, k);
    }
    ToldMore(us, u);
  }

  lemma ToldMore(us: seq<CallGroup>, u: CallGroup)
    ensures forall g :: Told(us + [u], g) <==> Told(us, g) || g == u.ingress.id
  {
    forall g
      ensures Told(us + [u], g) <==> Told(us, g) || g == u.ingress.id
    {
      assert (us + [u])[|us|] == u;
      if Told(us, g) {
        var i :| 0 <= i < |us| && us[i].ingress.id == g;
        assert (us + [u])[i].ingress.id == g;
      }
    }
  }

  lemma NextGroup(right: seq<Pair>, it: nat, next: nat)
    requires it < next <= |right| && forall i :: it <= i < next ==> right[i].ingress == right[it].ingress
    requires next < |right| ==> right[next].ingress != right[it].ingress
    ensures IngressTo(right, next) == IngressTo(right, it) + {right[it].ingress} && AtGroup(right, next)
  {
  }

  lemma NoneActive(s: State, right: seq<Pair>, g: Id, lo: nat, hi: nat)
    requires Views(s.left, right) && lo <= hi <= |right| && !LegActive(s, g)
    requires forall i :: 0 <= i < |right| ==> (lo <= i < hi <==> right[i].ingress == g)
    requires forall k :: lo <= k < hi ==> !LegActive(s, right[k].egress)
    ensures !GroupActive(s, g)
  {
    forall e | e in s.left && s.left[e] == g
      ensures !LegActive(s, e)
    {
      assert Pair(s.left[e], e) in right;
    }
  }

  // ---------------------------------------------------------------------------
  // The store
  // ---------------------------------------------------------------------------

  lemma {:induction false} OldestExists(b: Backlog, ids: set<Id>) returns (r: Id)
    requires ids != {} && ids <= b.Keys
    ensures r in ids && forall id :: id in ids ==> b[r] <= b[id]
    decreases |ids|
  {
    r :| r in ids;
    if ids != {r} {
      var q := OldestExists(b, ids - {r});
      r := if b[q] < b[r] then q else r;
    }
  }

  /** The first entry of a backlog by time, if there is one. */
  method Oldest(b: Backlog) returns (r: Option<Id>)
    ensures r.None? <==> b == map[]
    ensures r.Some? ==> r.value in b && forall id :: id in b ==> b[r.value] <= b[id]
  {
    if |b| == 0 {
      return None;
    }
    ghost var q := OldestExists(b, b.Keys);
    var id :| id in b && forall k :: k in b ==> b[id] <= b[k];
    return Some(id);
  }

  class LegStore {
    const lives: Lives
    var sipCalls: map<Id, Leg>
    var class4Info: map<Id, Fields>
    var left: map<Id, Id>
    var right: seq<Pair>
    var unclassified: Backlog
    var classified: Backlog

    constructor (lives: Lives)
      ensures Valid() && Value() == EMPTY && this.lives == lives
    {
      this.lives := lives;
      sipCalls, class4Info, left, right, unclassified, classified := map[], map[], map[], [], map[], map[];
    }

    ghost predicate Valid()
      reads this
    {
      Views(left, right)
    }

    ghost function Value(): State
      reads this
    {
      State(sipCalls, class4Info, left, unclassified, classified)
    }

    /** The part of the right view with this ingress leg. */
    method EqualRange(g: Id) returns (lo: nat, hi: nat)
      requires Valid()
      ensures lo <= hi <= |right| && forall i :: 0 <= i < |right| ==> (lo <= i < hi <==> right[i].ingress == g)
    {
      lo := 0;
      while lo < |right| && StrCmp(right[lo].ingress, g) < 0
        invariant lo <= |right| && forall i :: 0 <= i < lo ==> right[i].ingress != g
      {
        assert right[lo].ingress != g;
        lo := lo + 1;
      }
      hi := lo;
      while hi < |right| && right[hi].ingress == g
        invariant lo <= hi <= |right| && forall i :: lo <= i < hi ==> right[i].ingress == g
      {
        hi := hi + 1;
      }
      if hi < |right| {
        BehindRange(right, g, lo, hi);
      }
    }

    method FindIngressLeg(id: Id) returns (r: Option<Id>)
      requires Valid()
      ensures r == IngressOf(left, id)
    {
      ValuesInView(left, right, id);
      var lo, hi := EqualRange(id);
      if lo < hi {
        assert right[lo].ingress == id;
        return Some(id);
      }
      return if id in left then Some(left[id]) else None;
    }

    /** Inserts into both views, unless the egress leg is there already. */
    method InsertPair(egress: Id, ingress: Id)
      requires Valid()
      modifies this`left, this`right
      ensures Valid()
      ensures left == if egress in old(left) then old(left) else old(left)[egress := ingress]
    {
      if egress in left {
        return;
      }
      ghost var l, v := left, right;
      var k := 0;
      while k < |right| && NotAfter(right[k].ingress, ingress)
        invariant k <= |right| && UpperBound(right, ingress, 0) == UpperBound(right, ingress, k)
      {
        k := k + 1;
      }
      right := right[..k] + [Pair(ingress, egress)] + right[k..];
      left := left[egress := ingress];
      ViewsInsert(l, v, Pair(ingress, egress), left, right);
    }

    /** The entries `gone` are taken out of the first backlog of `s`, and the data of the
        legs `dead` along. */
    ghost predicate Without(s: State, gone: set<Id>, dead: set<Id>)
      reads this
    {
      && left == s.left && classified == s.classified && unclassified == s.unclassified - gone
      && sipCalls == s.sip - dead && class4Info == s.info - dead
    }

    method CleanupUnclassified(now: int)
      requires Valid()
      modifies this`sipCalls, this`class4Info, this`unclassified
      ensures Value() == CleanUnclassified(old(Value()), now, lives.unclassified)
    {
      ghost var s, gone: set<Id>, dead: set<Id> := Value(), {}, {};
      var first := Oldest(unclassified);
      while first.Some? && now - unclassified[first.value] > lives.unclassified
        invariant first.None? <==> unclassified == map[]
        invariant first.Some? ==>
                    first.value in unclassified
                    && forall id :: id in unclassified ==> unclassified[first.value] <= unclassified[id]
        invariant gone <= Expired(s.unclassified, now, lives.unclassified) && dead == Unowned(s.left, gone)
        invariant Without(s, gone, dead)
        decreases unclassified.Keys
      {
        UnownedMore(left, gone, first.value);
        gone, dead := ForgetEntry(first.value, s, gone, dead);
        first := Oldest(unclassified);
      }
      AllGone(s.unclassified, unclassified, gone, now, lives.unclassified);
    }

    /** Takes one entry out of the first backlog, and its data along unless its group is
        known. */
    method ForgetEntry(id: Id, ghost s: State, ghost gone: set<Id>, ghost dead: set<Id>)
        returns (ghost gone_: set<Id>, ghost dead_: set<Id>)
      requires Valid() && Without(s, gone, dead) && id in unclassified
      modifies this`sipCalls, this`class4Info, this`unclassified
      ensures gone_ == gone + {id} && dead_ == if IngressOf(left, id).None? then dead + {id} else dead
      ensures Without(s, gone_, dead_) && unclassified.Keys == old(unclassified.Keys) - {id}
    {
      MinusMinus(s.unclassified, gone, {id});
      MinusMinus(s.sip, dead, {id});
      MinusMinus(s.info, dead, {id});
      gone_, dead_ := gone + {id}, dead;
      var ingress := FindIngressLeg(id);
      if ingress.None? {
        sipCalls := sipCalls - {id};
        class4Info := class4Info - {id};
        dead_ := dead + {id};
      }
      unclassified := unclassified - {id};
    }

    method CleanupSingleCall(id: Id)
      modifies this`sipCalls, this`class4Info, this`unclassified, this`classified
      ensures Value() == Forget(old(Value()), {id})
    {
      sipCalls := sipCalls - {id};
      class4Info := class4Info - {id};
      classified := classified - {id};
      unclassified := unclassified - {id};
    }

    /** Forgets an ingress leg and all of its egress legs. */
    method CleanupGroup(g: Id)
      requires Valid()
      modifies this`sipCalls, this`class4Info, this`unclassified, this`classified
      ensures Value() == Forget(old(Value()), GroupsOf(left, {g}))
    {
      var lo, hi := EqualRange(g);
      RangeIsGroup(left, right, g, lo, hi);
      ForgetMore(Value(), EgressIn(right, lo, hi), {g});
      CleanupRange(lo, hi, Value());
      CleanupSingleCall(g);
    }

    method CleanupRange(lo: nat, hi: nat, ghost s: State)
      requires lo <= hi <= |right| && s == Value()
      modifies this`sipCalls, this`class4Info, this`unclassified, this`classified
      ensures Value() == Forget(s, EgressIn(right, lo, hi))
    {
      ghost var dead: set<Id> := {};
      ForgetNothing(s);
      var i := lo;
      while i < hi
        invariant lo <= i <= hi && dead == EgressIn(right, lo, i) && Value() == Forget(s, dead)
      {
        EgressInMore(right, lo, i);
        ForgetMore(s, dead, {right[i].egress});
        dead := dead + {right[i].egress};
        CleanupSingleCall(right[i].egress);
        i := i + 1;
      }
    }

    /** Forgets the groups `gs` of old entries of the second backlog: all of them, if the
        roles are kept. */
    method CleanupClassified(now: int) returns (ghost gs: set<Id>)
      requires Valid()
      modifies this`sipCalls, this`class4Info, this`unclassified, this`classified
      ensures gs <= Expired(old(classified), now, lives.classified)
      ensures Value() == Forget(old(Value()), GroupsOf(left, gs))
      ensures Expired(classified, now, lives.classified) == {}
      ensures OneRole(left) && old(classified).Keys <= left.Values ==>
                Value() == CleanClassified(old(Value()), now, lives.classified)
    {
      ghost var s := Value();
      gs := {};
      ForgetNothing(s);
      NoGroups(left);
      var first := Oldest(classified);
      while first.Some? && now - classified[first.value] > lives.classified
        invariant first.None? <==> classified == map[]
        invariant first.Some? ==>
                    first.value in classified
                    && forall id :: id in classified ==> classified[first.value] <= classified[id]
        invariant gs <= Expired(s.classified, now, lives.classified) && Value() == Forget(s, GroupsOf(left, gs))
        decreases classified.Keys
      {
        MoreGroups(left, gs, first.value);
        ForgetMore(s, GroupsOf(left, gs), GroupsOf(left, {first.value}));
        CleanupGroup(first.value);
        gs := gs + {first.value};
        first := Oldest(classified);
      }
      if OneRole(left) && s.classified.Keys <= left.Values {
        AllGroupsGone(s, classified, gs, now, lives.classified);
      }
    }

    /** An update from a captured call, with its clock readings.  Returns whether it
        brings news. */
    method UpdateFromSngrep(id: Id, leg: Leg, t: Times) returns (news: bool)
      requires Valid()
      modifies this
      ensures Valid() && news == IsNews(old(Value()), id, leg)
      ensures !news ==> Value() == old(Value())
      ensures left == old(left)
      ensures Updates(old(Value()), Captured(id, leg, t), lives, Value())
      ensures Consistent(old(Value())) ==> Value() == Update(old(Value()), Captured(id, leg, t), lives)
    {
      if id in sipCalls && SameLeg(leg, sipCalls[id]) {
        return false;
      }
      ghost var s, e := Value(), Captured(id, leg, t);
      sipCalls := sipCalls[id := leg];
      unclassified := unclassified[id := t.own];
      var ingress := FindIngressLeg(id);
      if ingress.Some? {
        classified := classified[ingress.value := t.group];
      }
      assert Value() == Insert(s, e);
      Cleanup(t, Insert(s, e));
      if Consistent(s) {
        InsertCapturedKeeps(s, e);
      }
      return true;
    }

    /** An update from a line of the log that names both legs. */
    method UpdateFromClass4(egress: Id, ingress: Id, egressFields: Fields, ingressFields: Fields, t: Times)
        returns (r: Id)
      requires Valid() && ingress != []
      modifies this
      ensures Valid() && r == egress
      ensures left == if egress in old(left) then old(left) else old(left)[egress := ingress]
      ensures Updates(old(Value()), Logged(egress, ingress, egressFields, ingressFields, t), lives, Value())
      ensures Consistent(old(Value())) && KeepsRoles(old(left), egress, ingress) ==>
                Value() == Update(old(Value()), Logged(egress, ingress, egressFields, ingressFields, t), lives)
    {
      ghost var s, e := Value(), Logged(egress, ingress, egressFields, ingressFields, t);
      class4Info := class4Info[egress := egressFields];
      unclassified := unclassified[egress := t.own];
      class4Info := class4Info[ingress := ingressFields];
      unclassified := unclassified[ingress := t.other];
      InsertPair(egress, ingress);
      classified := classified[ingress := t.group];
      assert Value() == Insert(s, e);
      Cleanup(t, Insert(s, e));
      if Consistent(s) && KeepsRoles(s.left, egress, ingress) {
        InsertLoggedKeeps(s, e);
      }
      return egress;
    }

    /** Both cleanups, one after the other. */
    method Cleanup(t: Times, ghost s: State)
      requires Valid() && s == Value()
      modifies this`sipCalls, this`class4Info, this`unclassified, this`classified
      ensures Cleans(s, t, lives, Value())
      ensures Consistent(s) ==> Value() == Clean(s, t, lives)
    {
      CleanupUnclassified(t.unclassified);
      if Consistent(s) {
        CleanUnclassifiedKeeps(s, t.unclassified, lives.unclassified);
      }
      ghost var m := Value();
      ghost var gs := CleanupClassified(t.classified);
      assert CleansGroups(m, t.classified, lives.classified, gs, Value());
    }

    // -------------------------------------------------------------------------
    // What the server tells about all groups
    // -------------------------------------------------------------------------

    /** The next entry with another ingress leg, or the end. */
    method NextDifferentKey(start: nat) returns (r: nat)
      requires start <= |right|
      ensures start <= r <= |right| && (start < |right| ==> start < r)
      ensures start < |right| ==> forall i :: start <= i < r ==> right[i].ingress == right[start].ingress
      ensures r < |right| ==> right[r].ingress != right[start].ingress
    {
      r := start;
      if r == |right| {
        return;
      }
      r := r + 1;
      while r < |right| && right[r].ingress == right[start].ingress
        invariant start < r <= |right| && forall i :: start <= i < r ==> right[i].ingress == right[start].ingress
      {
        r := r + 1;
      }
    }

    method GatherLegFields(id: Id) returns (v: LegView)
      ensures v == ViewOf(Value(), id)
    {
      v := LegView(id, if id in class4Info then Some(class4Info[id]) else None,
                   if id in sipCalls then Some(sipCalls[id]) else None);
    }

    /** The group of an ingress leg, with exactly its egress legs. */
    method PrepareUpdate(g: Id) returns (u: CallGroup)
      requires Valid()
      ensures u.ingress.id == g && Tells(u, Value())
    {
      var lo, hi := EqualRange(g);
      EgressOutside(right, 0, lo, g);
      EgressOutside(right, hi, |right|, g);
      EgressExactly(left, right, g);
      var legs := GatherRange(lo, hi, g, Value());
      var first := GatherLegFields(g);
      u := CallGroup(first, legs);
      TellsIs(u, Value(), g, EgressTo(right, |right|, g));
    }

    method GatherRange(lo: nat, hi: nat, g: Id, ghost s: State) returns (legs: seq<LegView>)
      requires lo <= hi <= |right| && s == Value() && EgressTo(right, lo, g) == []
      requires forall i :: lo <= i < hi ==> right[i].ingress == g
      ensures legs == ViewsOf(s, EgressTo(right, hi, g))
    {
      legs := [];
      var i := lo;
      while i < hi
        invariant lo <= i <= hi && legs == ViewsOf(s, EgressTo(right, i, g))
      {
        ViewsMore(s, EgressTo(right, i, g), right[i].egress);
        var v := GatherLegFields(right[i].egress);
        legs := legs + [v];
        i := i + 1;
      }
    }

    method IsLegActive(id: Id) returns (r: bool)
      ensures r == LegActive(Value(), id)
    {
      r := id !in sipCalls || sipCalls[id].state in {NoState, CallSetup, InCall};
    }

    method IsCallActive(g: Id) returns (r: bool)
      requires Valid()
      ensures r == GroupActive(Value(), g)
    {
      var first := IsLegActive(g);
      if first {
        return true;
      }
      var i, hi := EqualRange(g);
      ghost var lo := i;
      while i < hi
        invariant lo <= i <= hi && forall k :: lo <= k < i ==> !LegActive(Value(), right[k].egress)
      {
        var active := IsLegActive(right[i].egress);
        if active {
          return true;
        }
        i := i + 1;
      }
      NoneActive(Value(), right, g, lo, hi);
      return false;
    }

    /** One entry per group, in ascending order of the ingress legs. */
    method GenerateUpdateList(onlyActive: bool) returns (us: seq<CallGroup>)
      requires Valid()
      ensures Ascending(us) && forall i :: 0 <= i < |us| ==> Tells(us[i], Value())
      ensures forall g :: Told(us, g) <==> g in left.Values && (onlyActive ==> GroupActive(Value(), g))
    {
      us := [];
      var it := 0;
      while it < |right|
        invariant it <= |right| && AtGroup(right, it) && ListedTo(us, Value(), right, it, onlyActive)
      {
        us := AddGroup(us, it, onlyActive, Value());
        var next := NextDifferentKey(it);
        NextGroup(right, it, next);
        it := next;
      }
      ViewedValues(left, right);
    }

    /** Tells about the group at `it`, unless only active ones are asked for. */
    method AddGroup(us: seq<CallGroup>, it: nat, onlyActive: bool, ghost s: State) returns (vs: seq<CallGroup>)
      requires Valid() && s == Value() && it < |right| && AtGroup(right, it) && ListedTo(us, s, right, it, onlyActive)
      ensures Ascending(vs) && forall i :: 0 <= i < |vs| ==> Tells(vs[i], s)
      ensures forall g :: Told(vs, g) <==>
                (g in IngressTo(right, it) + {right[it].ingress} && (onlyActive ==> GroupActive(s, g)))
    {
      var g := right[it].ingress;
      vs := us;
      var active := !onlyActive;
      if onlyActive {
        active := IsCallActive(g);
      }
      if active {
        var u := PrepareUpdate(g);
        OneMoreGroup(us, u, s, right, it, onlyActive);
        vs := us + [u];
      }
    }
  }

  ghost function EgressIn(right: seq<Pair>, lo: nat, hi: nat): set<Id>
    requires lo <= hi <= |right|
  {
    set i | lo <= i < hi :: right[i].egress
  }

  lemma EgressInMore(right: seq<Pair>, lo: nat, i: nat)
    requires lo <= i < |right|
    ensures EgressIn(right, lo, i + 1) == EgressIn(right, lo, i) + {right[i].egress}
  {
  }

  lemma ForgetNothing(s: State)
    ensures Forget(s, {}) == s
  {
  }

  lemma ForgetMore(s: State, a: set<Id>, b: set<Id>)
    ensures Forget(Forget(s, a), b) == Forget(s, a + b)
  {
    MinusMinus(s.sip, a, b);
    MinusMinus(s.info, a, b);
    MinusMinus(s.unclassified, a, b);
    MinusMinus(s.classified, a, b);
  }

  lemma NoGroups(left: map<Id, Id>)
    ensures GroupsOf(left, {}) == {}
  {
  }

  lemma MoreGroups(left: map<Id, Id>, gs: set<Id>, g: Id)
    ensures GroupsOf(left, gs + {g}) == GroupsOf(left, gs) + GroupsOf(left, {g})
  {
  }

  lemma RangeIsGroup(left: map<Id, Id>, right: seq<Pair>, g: Id, lo: nat, hi: nat)
    requires Views(left, right) && lo <= hi <= |right|
    requires forall i :: 0 <= i < |right| ==> (lo <= i < hi <==> right[i].ingress == g)
    ensures EgressIn(right, lo, hi) + {g} == GroupsOf(left, {g})
  {
    forall e | e in left && left[e] == g
      ensures e in EgressIn(right, lo, hi)
    {
      assert Pair(left[e], e) in right;
    }
  }

  lemma AllGroupsGone(s: State, rest: Backlog, gs: set<Id>, now: int, life: nat)
    requires OneRole(s.left) && s.classified.Keys <= s.left.Values
    requires gs <= Expired(s.classified, now, life) && rest == s.classified - GroupsOf(s.left, gs)
    requires forall id :: id in rest ==> now - rest[id] <= life
    ensures gs == Expired(s.classified, now, life)
  {
    forall id | id in Expired(s.classified, now, life)
      ensures id in gs
    {
      assert id !in GroupsOf(s.left, gs) ==> id in rest;
    }
  }

  lemma BehindRange(right: seq<Pair>, g: Id, lo: nat, hi: nat)
    requires lo <= hi < |right| && right[hi].ingress != g && StrCmp(right[lo].ingress, g) >= 0
    requires forall i, j :: 0 <= i < j < |right| ==> NotAfter(right[i].ingress, right[j].ingress)
    requires forall i :: lo <= i < hi ==> right[i].ingress == g
    ensures forall i :: hi <= i < |right| ==> right[i].ingress != g
  {
    StrCmpFlips(right[lo].ingress, g);
    assert lo == hi || NotAfter(right[lo].ingress, right[hi].ingress);
    forall i | hi <= i < |right|
      ensures right[i].ingress != g
    {
      NotAfterAll(g, right[hi].ingress, g);
      assert i == hi || NotAfter(right[hi].ingress, right[i].ingress);
    }
  }

  lemma UnownedMore(left: map<Id, Id>, ids: set<Id>, id: Id)
    ensures Unowned(left, ids + {id})
         == if IngressOf(left, id).None? then Unowned(left, ids) + {id} else Unowned(left, ids)
  {
  }

  /** When the oldest entry left is young enough, all old ones are gone. */
  lemma AllGone(b: Backlog, rest: Backlog, gone: set<Id>, now: int, life: nat)
    requires gone <= Expired(b, now, life) && rest == b - gone
    requires forall id :: id in rest ==> now - rest[id] <= life
    ensures gone == Expired(b, now, life)
  {
    forall id | id in Expired(b, now, life)
      ensures id in gone
    {
      assert id !in gone ==> id in rest;
    }
  }
}