/** What the store of call legs holds after a run (src/state.cpp), told from the updates of
    the run alone: which line of the log and which captured call each value is from. */
module LegRuns {
  import opened Common
  import opened Calls
  import opened LegStores
  import opened LegRoles

  // ---------------------------------------------------------------------------
  // Lines and captured calls of a leg
  // ---------------------------------------------------------------------------

  predicate LineOf(e: Event, id: Id) {
    e.Logged? && (e.egress == id || e.ingress == id)
  }

  /** What a line tells about a leg; a leg in both roles is an ingress leg. */
  function FieldsOf(e: Event, id: Id): Fields
    requires LineOf(e, id)
  {
    if e.ingress == id then e.ingressFields else e.egressFields
  }

  predicate CaptureOf(e: Event, id: Id) {
    e.Captured? && e.id == id
  }

  /** The latest line that names the leg, among the first `n` updates. */
  ghost predicate LastLine(evs: seq<Event>, n: nat, id: Id, k: nat) {
    k < n <= |evs| && LineOf(evs[k], id) && forall j :: k < j < n ==> !LineOf(evs[j], id)
  }

  /** The latest captured call of the leg that differs from the one before it in more than
      its counters. */
  ghost predicate LastNews(evs: seq<Event>, n: nat, id: Id, k: nat) {
    k < n <= |evs| && CaptureOf(evs[k], id)
    && forall j :: k < j < n && CaptureOf(evs[j], id) ==>
         evs[j].leg.state == evs[k].leg.state && evs[j].leg.shown == evs[k].leg.shown
  }

  /** The first line in which the leg is the egress leg. */
  ghost predicate FirstPair(evs: seq<Event>, n: nat, id: Id, k: nat) {
    k < n <= |evs| && evs[k].Logged? && evs[k].egress == id
    && forall j :: 0 <= j < k ==> !(evs[j].Logged? && evs[j].egress == id)
  }

  /** The store has this call of the leg already. */
  predicate Repeated(s: State, e: Event) {
    e.Captured? && e.id in s.sip && e.leg.state == s.sip[e.id].state && e.leg.shown == s.sip[e.id].shown
  }

  predicate LegOf(e: Event, id: Id) {
    LineOf(e, id) || CaptureOf(e, id)
  }

  /** The clock reading that an update takes for a leg. */
  function OwnTime(e: Event, id: Id): int {
    if e.Logged? && e.ingress == id then e.t.other else e.t.own
  }

  /** A line renews its ingress leg; a captured call renews its leg, if it is the ingress leg
      of another one, and otherwise its ingress leg. */
  ghost predicate Renews(left: map<Id, Id>, e: Event, g: Id) {
    match e
    case Logged(_, ingress, _, _, _) => ingress == g
    case Captured(id, _, _) =>
      if exists x :: x in left && left[x] == id then id == g else id in left && left[id] == g
  }

  // ---------------------------------------------------------------------------
  // One update
  // ---------------------------------------------------------------------------

  /** A repeated call changes nothing. */
  lemma RepeatedIsNoNews(s: State, e: Event, lives: Lives, r: State)
    requires Updates(s, e, lives, r)
    ensures Repeated(s, e) ==> r == s
    ensures Repeated(s, e) <==> !News(s, e)
  {
  }

  lemma StepInfo(s: State, e: Event, lives: Lives, r: State, id: Id)
    requires Updates(s, e, lives, r) && id in r.info
    ensures if LineOf(e, id) then r.info[id] == FieldsOf(e, id) else id in s.info && r.info[id] == s.info[id]
  {
    RepeatedIsNoNews(s, e, lives, r);
    if !Repeated(s, e) {
      var gs := GroupsForgotten(s, e, lives, r);
    }
  }

  lemma StepSip(s: State, e: Event, lives: Lives, r: State, id: Id)
    requires Updates(s, e, lives, r) && id in r.sip
    ensures if CaptureOf(e, id) && !Repeated(s, e) then r.sip[id] == e.leg
            else id in s.sip && r.sip[id] == s.sip[id]
  {
    RepeatedIsNoNews(s, e, lives, r);
    if !Repeated(s, e) {
      var gs := GroupsForgotten(s, e, lives, r);
    }
  }

  lemma StepOwn(s: State, e: Event, lives: Lives, r: State, id: Id)
    requires Updates(s, e, lives, r) && id in r.unclassified
    ensures if LegOf(e, id) && !Repeated(s, e) then r.unclassified[id] == OwnTime(e, id)
            else id in s.unclassified && r.unclassified[id] == s.unclassified[id]
  {
    RepeatedIsNoNews(s, e, lives, r);
    if !Repeated(s, e) {
      var gs := GroupsForgotten(s, e, lives, r);
    }
  }

  lemma StepGroup(s: State, e: Event, lives: Lives, r: State, g: Id)
    requires Updates(s, e, lives, r) && g in r.classified
    ensures if Renews(s.left, e, g) && !Repeated(s, e) then r.classified[g] == e.t.group
            else g in s.classified && r.classified[g] == s.classified[g]
  {
    RepeatedIsNoNews(s, e, lives, r);
    if !Repeated(s, e) {
      var gs := GroupsForgotten(s, e, lives, r);
    }
  }

  // ---------------------------------------------------------------------------
  // Every run
  // ---------------------------------------------------------------------------

  function ValueIn<V>(m: map<Id, V>, id: Id): Option<V> {
    if id in m then Some(m[id]) else None
  }

  /** What is held and was not from the beginning is since the latest update that could
      bring it. */
  lemma {:induction false} Latest<V>(held: seq<Option<V>>, brings: seq<bool>, n: nat) returns (k: nat)
    requires |held| == |brings| + 1 && n < |held| && held[0] == None && held[n].Some?
    requires forall i :: 0 <= i < |brings| && !brings[i] && held[i + 1].Some? ==> held[i + 1] == held[i]
    ensures k < n && brings[k] && forall j :: k < j < n ==> !brings[j]
    ensures forall j :: k < j <= n ==> held[j] == held[n]
  {
    if brings[n - 1] {
      k := n - 1;
    } else {
      assert held[n - 1 + 1].Some?;
      k := Latest(held, brings, n - 1);
    }
  }

  lemma InfoSteps(states: seq<State>, evs: seq<Event>, lives: Lives, id: Id, held: seq<Option<Fields>>)
    requires IsRun(states, evs, lives) && |held| == |states|
    requires forall i :: 0 <= i < |states| ==> held[i] == ValueIn(states[i].info, id)
    ensures forall i :: 0 <= i < |evs| && held[i + 1].Some? ==>
              if LineOf(evs[i], id) then held[i + 1] == Some(FieldsOf(evs[i], id)) else held[i + 1] == held[i]
  {
    forall i | 0 <= i < |evs| && held[i + 1].Some?
      ensures if LineOf(evs[i], id) then held[i + 1] == Some(FieldsOf(evs[i], id)) else held[i + 1] == held[i]
    {
      StepOf(states, evs, lives, i);
      StepInfo(states[i], evs[i], lives, states[i + 1], id);
    }
  }

  /** In every run, whatever roles change, what is stored of the log about a leg is what
      the latest line that names it tells, in the role in which it names it. */
  lemma InfoIsLatest(states: seq<State>, evs: seq<Event>, lives: Lives, n: nat, id: Id) returns (k: nat)
    requires IsRun(states, evs, lives) && states[0] == EMPTY && n <= |evs| && id in states[n].info
    ensures LastLine(evs, n, id, k) && states[n].info[id] == FieldsOf(evs[k], id)
  {
    var held := seq(|states|, i requires 0 <= i < |states| => ValueIn(states[i].info, id));
    var brings := seq(|evs|, i requires 0 <= i < |evs| => LineOf(evs[i], id));
    InfoSteps(states, evs, lives, id, held);
    k := Latest(held, brings, n);
    assert LineOf(evs[k], id) && held[k + 1] == Some(FieldsOf(evs[k], id));
    assert held[k + 1] == held[n] == Some(states[n].info[id]);
    assert forall j :: k < j < n ==> brings[j] == LineOf(evs[j], id);
  }

  /** The stored call of a leg is the latest captured one with news. */
  lemma SipIsLatest(states: seq<State>, evs: seq<Event>, lives: Lives, n: nat, id: Id) returns (k: nat)
    requires IsRun(states, evs, lives) && states[0] == EMPTY && n <= |evs| && id in states[n].sip
    ensures LastNews(evs, n, id, k) && states[n].sip[id] == evs[k].leg
  {
    var held := seq(|states|, i requires 0 <= i < |states| => ValueIn(states[i].sip, id));
    var brings := seq(|evs|, i requires 0 <= i < |evs| && |states| == |evs| + 1 =>
      CaptureOf(evs[i], id) && !Repeated(states[i], evs[i]));
    forall i | 0 <= i < |evs| && held[i + 1].Some?
      ensures if brings[i] then held[i + 1] == Some(evs[i].leg) else held[i + 1] == held[i]
    {
      StepOf(states, evs, lives, i);
      StepSip(states[i], evs[i], lives, states[i + 1], id);
    }
    k := Latest(held, brings, n);
    assert held[k + 1] == held[n] && held[n] == Some(states[n].sip[id]);
    forall j | k < j < n && CaptureOf(evs[j], id)
      ensures evs[j].leg.state == evs[k].leg.state && evs[j].leg.shown == evs[k].leg.shown
    {
      assert !brings[j] && held[j] == held[n];
    }
  }

  /** An entry of the first backlog has the time of the latest update with news that names
      its leg. */
  lemma OwnTimeIsLatest(states: seq<State>, evs: seq<Event>, lives: Lives, n: nat, id: Id) returns (k: nat)
    requires IsRun(states, evs, lives) && states[0] == EMPTY && n <= |evs| && id in states[n].unclassified
    ensures k < n && LegOf(evs[k], id) && states[n].unclassified[id] == OwnTime(evs[k], id)
    ensures forall j :: k < j < n && LegOf(evs[j], id) ==> Repeated(states[j], evs[j])
  {
    var held := seq(|states|, i requires 0 <= i < |states| => ValueIn(states[i].unclassified, id));
    var brings := seq(|evs|, i requires 0 <= i < |evs| && |states| == |evs| + 1 =>
      LegOf(evs[i], id) && !Repeated(states[i], evs[i]));
    forall i | 0 <= i < |evs| && held[i + 1].Some?
      ensures if brings[i] then held[i + 1] == Some(OwnTime(evs[i], id)) else held[i + 1] == held[i]
    {
      StepOf(states, evs, lives, i);
      StepOwn(states[i], evs[i], lives, states[i + 1], id);
    }
    k := Latest(held, brings, n);
    assert held[k + 1] == held[n] && held[n] == Some(states[n].unclassified[id]);
    assert forall j :: k < j < n ==> brings[j] == (LegOf(evs[j], id) && !Repeated(states[j], evs[j]));
  }

  /** An entry of the second backlog has the time of the latest update with news that renews
      its group. */
  lemma GroupTimeIsLatest(states: seq<State>, evs: seq<Event>, lives: Lives, n: nat, g: Id) returns (k: nat)
    requires IsRun(states, evs, lives) && states[0] == EMPTY && n <= |evs| && g in states[n].classified
    ensures k < n && Renews(states[k].left, evs[k], g) && states[n].classified[g] == evs[k].t.group
    ensures forall j :: k < j < n && Renews(states[j].left, evs[j], g) ==> Repeated(states[j], evs[j])
  {
    var held := seq(|states|, i requires 0 <= i < |states| => ValueIn(states[i].classified, g));
    ghost var brings := seq(|evs|, i requires 0 <= i < |evs| && |states| == |evs| + 1 =>
      Renews(states[i].left, evs[i], g) && !Repeated(states[i], evs[i]));
    forall i | 0 <= i < |evs| && held[i + 1].Some?
      ensures if brings[i] then held[i + 1] == Some(evs[i].t.group) else held[i + 1] == held[i]
    {
      StepOf(states, evs, lives, i);
      StepGroup(states[i], evs[i], lives, states[i + 1], g);
    }
    k := Latest(held, brings, n);
    assert held[k + 1] == held[n] && held[n] == Some(states[n].classified[g]);
    assert forall j :: k < j < n ==> brings[j] == (Renews(states[j].left, evs[j], g) && !Repeated(states[j], evs[j]));
  }

  /** The ingress leg of a leg is the one of the first line in which it is the egress leg. */
  lemma {:induction false} LeftIsFirst(states: seq<State>, evs: seq<Event>, lives: Lives, n: nat, id: Id)
      returns (k: nat)
    requires IsRun(states, evs, lives) && states[0] == EMPTY && n <= |evs| && id in states[n].left
    ensures FirstPair(evs, n, id, k) && states[n].left[id] == evs[k].ingress
  {
    StepOf(states, evs, lives, n - 1);
    LeftStep(states[n - 1], evs[n - 1], lives, states[n]);
    if id in states[n - 1].left {
      k := LeftIsFirst(states, evs, lives, n - 1, id);
    } else {
      k := n - 1;
      forall j | 0 <= j < k
        ensures !(evs[j].Logged? && evs[j].egress == id)
      {
        if evs[j].Logged? && evs[j].egress == id {
          PairIsKept(states, evs, lives, k, id, j);
        }
      }
    }
  }

  /** A leg that was once an egress leg has an ingress leg for good. */
  lemma {:induction false} PairIsKept(states: seq<State>, evs: seq<Event>, lives: Lives, n: nat, id: Id, k: nat)
    requires IsRun(states, evs, lives) && k < n <= |evs| && evs[k].Logged? && evs[k].egress == id
    ensures id in states[n].left
  {
    StepOf(states, evs, lives, n - 1);
    LeftStep(states[n - 1], evs[n - 1], lives, states[n]);
    if k < n - 1 {
      PairIsKept(states, evs, lives, n - 1, id, k);
    }
  }

  // ---------------------------------------------------------------------------
  // What is stored, and what is not
  // ---------------------------------------------------------------------------

  predicate RolesKept(s: State, e: Event) {
    e.Logged? ==> KeepsRoles(s.left, e.egress, e.ingress)
  }

  /** A leg belongs to the group of its ingress leg, and an ingress leg to its own. */
  ghost predicate InGroup(left: map<Id, Id>, id: Id, g: Id) {
    (id in left && left[id] == g) || (id == g && exists x :: x in left && left[x] == id)
  }

  /** The entry of a group is not old after the update's insertions. */
  ghost predicate GroupIsYoung(s: State, e: Event, life: nat, g: Id) {
    if Renews(s.left, e, g) then e.t.classified - e.t.group <= life
    else g in s.classified && e.t.classified - s.classified[g] <= life
  }

  predicate LegIsYoung(s: State, e: Event, life: nat, id: Id) {
    if LegOf(e, id) then e.t.unclassified - OwnTime(e, id) <= life
    else id in s.unclassified && e.t.unclassified - s.unclassified[id] <= life
  }

  /** The cleanups spare a leg: it is in a young group, or in none and young itself. */
  ghost predicate Spared(s: State, e: Event, lives: Lives, left: map<Id, Id>, id: Id) {
    if exists g :: InGroup(left, id, g) then exists g :: InGroup(left, id, g) && GroupIsYoung(s, e, lives.classified, g)
    else LegIsYoung(s, e, lives.unclassified, id)
  }

  /** Where the roles are kept, an update does what all old groups forgotten makes of it. */
  lemma UpdateIsExact(s: State, e: Event, lives: Lives, r: State)
    requires Consistent(s) && RolesKept(s, e) && Updates(s, e, lives, r)
    ensures r == Update(s, e, lives)
  {
    if News(s, e) {
      UpdateKeeps(s, e, lives);
      var i := Insert(s, e);
      var m := CleanUnclassified(i, e.t.unclassified, lives.unclassified);
      var gs: set<Id> :| CleansGroups(m, e.t.classified, lives.classified, gs, r);
      assert forall id :: id in r.classified ==> id !in Expired(r.classified, e.t.classified, lives.classified);
      AllGroupsGone(m, r.classified, gs, e.t.classified, lives.classified);
    }
  }

  lemma InGroupIs(left: map<Id, Id>, id: Id)
    requires OneRole(left)
    ensures forall g :: InGroup(left, id, g) <==> IngressOf(left, id) == Some(g)
  {
  }

  lemma GroupTimeInserted(s: State, e: Event, life: nat, g: Id)
    requires News(s, e)
    ensures GroupIsYoung(s, e, life, g) <==>
            var b := Insert(s, e).classified; g in b && e.t.classified - b[g] <= life
  {
  }

  lemma LegTimeInserted(s: State, e: Event, life: nat, id: Id)
    requires News(s, e)
    ensures LegIsYoung(s, e, life, id) <==>
            var b := Insert(s, e).unclassified; id in b && e.t.unclassified - b[id] <= life
  {
  }

  lemma GroupedStays(i: State, t: Times, lives: Lives, id: Id, g: Id)
    requires Consistent(i) && IngressOf(i.left, id) == Some(g)
    ensures var r, young := Clean(i, t, lives), g in i.classified && t.classified - i.classified[g] <= lives.classified;
            (id in r.sip <==> id in i.sip && young) && (id in r.info <==> id in i.info && young)
  {
    if Stored(i, id) {
      assert Timed(i, id);
      CleanGroup(i, t, lives, id, g);
    }
  }

  lemma SingleStays(i: State, t: Times, lives: Lives, id: Id)
    requires Consistent(i) && IngressOf(i.left, id) == None
    ensures var r := Clean(i, t, lives);
            var young := id in i.unclassified && t.unclassified - i.unclassified[id] <= lives.unclassified;
            (id in r.sip <==> id in i.sip && young) && (id in r.info <==> id in i.info && young)
  {
    var m := CleanUnclassified(i, t.unclassified, lives.unclassified);
    var gs := Expired(m.classified, t.classified, lives.classified);
    InGroups(m.left, gs, id);
    assert Stored(i, id) ==> Timed(i, id);
  }

  /** What the cleanups leave of a leg. */
  lemma CleanedExactly(i: State, t: Times, lives: Lives, id: Id)
    requires Consistent(i)
    ensures var r := Clean(i, t, lives);
            var young := match IngressOf(i.left, id)
                         case Some(g) => g in i.classified && t.classified - i.classified[g] <= lives.classified
                         case None =>
                           id in i.unclassified && t.unclassified - i.unclassified[id] <= lives.unclassified;
            (id in r.sip <==> id in i.sip && young) && (id in r.info <==> id in i.info && young) && r.left == i.left
  {
    match IngressOf(i.left, id)
    case Some(g) => GroupedStays(i, t, lives, id, g);
    case None => SingleStays(i, t, lives, id);
  }

  lemma SparedIs(s: State, e: Event, lives: Lives, i: State, id: Id)
    requires News(s, e) && i == Insert(s, e) && OneRole(i.left)
    ensures Spared(s, e, lives, i.left, id) <==>
            match IngressOf(i.left, id)
            case Some(g) => g in i.classified && e.t.classified - i.classified[g] <= lives.classified
            case None => id in i.unclassified && e.t.unclassified - i.unclassified[id] <= lives.unclassified
  {
    InGroupIs(i.left, id);
    if IngressOf(i.left, id).Some? {
      GroupTimeInserted(s, e, lives.classified, IngressOf(i.left, id).value);
      assert InGroup(i.left, id, IngressOf(i.left, id).value);
    } else {
      LegTimeInserted(s, e, lives.unclassified, id);
    }
  }

  /** Where the roles are kept, an update with news leaves exactly the data that it brings
      and that was there, of the legs that the cleanups spare. */
  lemma StoredExactly(s: State, e: Event, lives: Lives, r: State, id: Id)
    requires Consistent(s) && RolesKept(s, e) && Updates(s, e, lives, r) && !Repeated(s, e)
    ensures Consistent(r)
    ensures id in r.info <==> (LineOf(e, id) || id in s.info) && Spared(s, e, lives, r.left, id)
    ensures id in r.sip <==> (CaptureOf(e, id) || id in s.sip) && Spared(s, e, lives, r.left, id)
  {
    RepeatedIsNoNews(s, e, lives, r);
    UpdateIsExact(s, e, lives, r);
    UpdateKeeps(s, e, lives);
    SparedIs(s, e, lives, Insert(s, e), id);
    CleanedExactly(Insert(s, e), e.t, lives, id);
  }

  lemma {:induction false} ProperRunIsConsistent(states: seq<State>, evs: seq<Event>, lives: Lives, n: nat)
    requires IsRun(states, evs, lives) && states[0] == EMPTY && n <= |evs|
    requires forall i :: 0 <= i < n ==> RolesKept(states[i], evs[i])
    ensures Consistent(states[n])
  {
    if n > 0 {
      ProperRunIsConsistent(states, evs, lives, n - 1);
      StepOf(states, evs, lives, n - 1);
      UpdateIsExact(states[n - 1], evs[n - 1], lives, states[n]);
      UpdateKeeps(states[n - 1], evs[n - 1], lives);
    }
  }

  /** In every run that keeps the roles, each update with news leaves exactly that data. */
  lemma RunStoresExactly(states: seq<State>, evs: seq<Event>, lives: Lives, n: nat, id: Id)
    requires IsRun(states, evs, lives) && states[0] == EMPTY && n < |evs| && !Repeated(states[n], evs[n])
    requires forall i :: 0 <= i <= n ==> RolesKept(states[i], evs[i])
    ensures var s, e, r := states[n], evs[n], states[n + 1];
            && (id in r.info <==> (LineOf(e, id) || id in s.info) && Spared(s, e, lives, r.left, id))
            && (id in r.sip <==> (CaptureOf(e, id) || id in s.sip) && Spared(s, e, lives, r.left, id))
  {
    ProperRunIsConsistent(states, evs, lives, n);
    StepOf(states, evs, lives, n);
    StoredExactly(states[n], evs[n], lives, states[n + 1], id);
  }

  // ---------------------------------------------------------------------------
  // What the server tells after a run
  // ---------------------------------------------------------------------------

  /** What is told about a leg is all that is stored, and from its latest line and its latest
      call with news. */
  ghost predicate ViewIsLatest(v: LegView, evs: seq<Event>, s: State) {
    && (v.info.Some? <==> v.id in s.info) && (v.sip.Some? <==> v.id in s.sip)
    && (v.info.Some? ==> exists k: nat :: LastLine(evs, |evs|, v.id, k) && v.info.value == FieldsOf(evs[k], v.id))
    && (v.sip.Some? ==> exists k: nat :: LastNews(evs, |evs|, v.id, k) && v.sip.value == evs[k].leg)
  }

  /** The leg was first an egress leg of this ingress leg. */
  ghost predicate FirstWith(evs: seq<Event>, egress: Id, ingress: Id) {
    exists k: nat :: FirstPair(evs, |evs|, egress, k) && evs[k].ingress == ingress
  }

  /** A group is told with the latest about its legs, and with exactly the legs that were
      first egress legs of its ingress leg. */
  ghost predicate GroupIsLatest(u: CallGroup, evs: seq<Event>, s: State) {
    && ViewIsLatest(u.ingress, evs, s)
    && (forall i :: 0 <= i < |u.egress| ==> ViewIsLatest(u.egress[i], evs, s))
    && forall e :: FirstWith(evs, e, u.ingress.id) <==> exists i :: 0 <= i < |u.egress| && u.egress[i].id == e
  }

  lemma ViewIs(states: seq<State>, evs: seq<Event>, lives: Lives, v: LegView)
    requires IsRun(states, evs, lives) && states[0] == EMPTY && v == ViewOf(states[|evs|], v.id)
    ensures ViewIsLatest(v, evs, states[|evs|])
  {
    if v.info.Some? {
      var k := InfoIsLatest(states, evs, lives, |evs|, v.id);
    }
    if v.sip.Some? {
      var k := SipIsLatest(states, evs, lives, |evs|, v.id);
    }
  }

  lemma FirstIs(states: seq<State>, evs: seq<Event>, lives: Lives, id: Id, g: Id)
    requires IsRun(states, evs, lives) && states[0] == EMPTY
    ensures FirstWith(evs, id, g) <==> id in states[|evs|].left && states[|evs|].left[id] == g
  {
    if k: nat :| FirstPair(evs, |evs|, id, k) && evs[k].ingress == g {
      PairIsKept(states, evs, lives, |evs|, id, k);
    }
    if id in states[|evs|].left {
      var k := LeftIsFirst(states, evs, lives, |evs|, id);
      assert forall j: nat :: FirstPair(evs, |evs|, id, j) ==> j == k;
    }
  }

  lemma GroupIs(states: seq<State>, evs: seq<Event>, lives: Lives, u: CallGroup)
    requires IsRun(states, evs, lives) && states[0] == EMPTY && Tells(u, states[|evs|])
    ensures GroupIsLatest(u, evs, states[|evs|])
  {
    ViewIs(states, evs, lives, u.ingress);
    forall i | 0 <= i < |u.egress|
      ensures ViewIsLatest(u.egress[i], evs, states[|evs|])
    {
      ViewIs(states, evs, lives, u.egress[i]);
    }
    forall e
      ensures FirstWith(evs, e, u.ingress.id) <==> exists i :: 0 <= i < |u.egress| && u.egress[i].id == e
    {
      FirstIs(states, evs, lives, e, u.ingress.id);
    }
  }

  /** A captured call has told that the leg came to its end. */
  predicate Ended(s: State, id: Id) {
    id in s.sip && s.sip[id].state in {Cancelled, Rejected, Diverted, Busy, Completed}
  }

  lemma EndedIs(s: State, id: Id)
    ensures LegActive(s, id) <==> !Ended(s, id)
  {
    if id in s.sip {
      match s.sip[id].state
      case NoState | CallSetup | InCall =>
      case Cancelled | Rejected | Diverted | Busy | Completed =>
    }
  }

  lemma ActiveIs(states: seq<State>, evs: seq<Event>, lives: Lives, g: Id)
    requires IsRun(states, evs, lives) && states[0] == EMPTY
    ensures GroupActive(states[|evs|], g) <==>
            exists id :: (id == g || FirstWith(evs, id, g)) && !Ended(states[|evs|], id)
  {
    var s := states[|evs|];
    forall id
      ensures FirstWith(evs, id, g) <==> id in s.left && s.left[id] == g
      ensures LegActive(s, id) <==> !Ended(s, id)
    {
      FirstIs(states, evs, lives, id, g);
      EndedIs(s, id);
    }
    assert LegActive(s, g) <==> !Ended(s, g);
  }

  /** An update, with its clock readings. */
  method Apply(store: LegStore, e: Event)
    requires store.Valid() && (e.Logged? ==> e.ingress != [])
    modifies store
    ensures store.Valid() && Updates(old(store.Value()), e, store.lives, store.Value())
  {
    match e
    case Captured(id, leg, t) =>
      var news := store.UpdateFromSngrep(id, leg, t);
    case Logged(egress, ingress, egressFields, ingressFields, t) =>
      var id := store.UpdateFromClass4(egress, ingress, egressFields, ingressFields, t);
  }

  /** A server that has taken some updates tells, about every group or the active ones, the
      latest that the updates say about its legs. */
  method Serve(lives: Lives, evs: seq<Event>, onlyActive: bool)
      returns (us: seq<CallGroup>, store: LegStore, ghost states: seq<State>)
    requires forall i :: 0 <= i < |evs| && evs[i].Logged? ==> evs[i].ingress != []
    ensures IsRun(states, evs, lives) && states[0] == EMPTY && store.Value() == states[|evs|]
    ensures Ascending(us) && forall i :: 0 <= i < |us| ==> GroupIsLatest(us[i], evs, states[|evs|])
    ensures forall g :: Told(us, g) <==>
              (exists e :: FirstWith(evs, e, g))
              && (onlyActive ==> exists id :: (id == g || FirstWith(evs, id, g)) && !Ended(states[|evs|], id))
  {
    store := new LegStore(lives);
    states := [EMPTY];
    var n := 0;
    while n < |evs|
      invariant n <= |evs| && |states| == n + 1 && fresh(store) && store.Valid() && store.lives == lives
      invariant states[0] == EMPTY && store.Value() == states[n]
      invariant forall i :: 0 <= i < n ==> Updates(states[i], evs[i], lives, states[i + 1])
    {
      Apply(store, evs[n]);
      states := states + [store.Value()];
      n := n + 1;
    }
    us := store.GenerateUpdateList(onlyActive);
    forall i | 0 <= i < |us|
      ensures GroupIsLatest(us[i], evs, states[|evs|])
    {
      GroupIs(states, evs, lives, us[i]);
    }
    forall g
      ensures g in states[n].left.Values <==> exists e :: FirstWith(evs, e, g)
    {
      IngressIs(states, evs, lives, g);
    }
    forall g
      ensures GroupActive(states[n], g) <==> exists id :: (id == g || FirstWith(evs, id, g)) && !Ended(states[n], id)
    {
      ActiveIs(states, evs, lives, g);
    }
  }

  lemma IngressIs(states: seq<State>, evs: seq<Event>, lives: Lives, g: Id)
    requires IsRun(states, evs, lives) && states[0] == EMPTY
    ensures g in states[|evs|].left.Values <==> exists e :: FirstWith(evs, e, g)
  {
    forall e
      ensures FirstWith(evs, e, g) <==> e in states[|evs|].left && states[|evs|].left[e] == g
    {
      FirstIs(states, evs, lives, e, g);
    }
  }
}
