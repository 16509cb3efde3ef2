/** Chronological traversal of a call group (src/group.c): every step merges the
    messages of all calls again and looks up the neighbour of the current one. */
module Groups {
  import opened Common
  import opened Vectors
  import opened Calls

  /** The test of the message sorter: the item may follow what is not newer. */
  predicate NotOlder(cur: Msg, prev: Msg) {
    prev.time - cur.time <= 0
  }

  predicate NotNewer(one: Msg, two: Msg) {
    one.time <= two.time
  }

  /** The messages of the first `n` calls, call by call. */
  ghost function AllTo(calls: seq<Call>, n: nat): seq<Msg>
    requires n <= |calls|
    reads calls
  {
    if n == 0 then [] else AllTo(calls, n - 1) + calls[n - 1].msgs
  }

  /** What one traversal step walks along: the only call's messages as they
      arrived, or the time-sorted merge of several calls. */
  ghost function Timeline(calls: seq<Call>): seq<Msg>
    reads calls
  {
    if |calls| == 1 then calls[0].msgs else PlaceAll(AllTo(calls, |calls|), NotOlder)
  }

  predicate Shown(msg: Msg, sdpOnly: bool) {
    !sdpOnly || msg.hasSdp
  }

  function ShownFilter(sdpOnly: bool): Msg -> bool {
    (m: Msg) => Shown(m, sdpOnly)
  }

  function At(ms: seq<Msg>, i: int): Option<Msg> {
    if 0 <= i < |ms| then Some(ms[i]) else None
  }

  /** Where the search for the next message starts. */
  function StartAfter(ms: seq<Msg>, msg: Option<Msg>): (k: nat)
    ensures k <= |ms|
  {
    if msg.None? then 0 else IndexOf(ms, msg.value) + 1
  }

  function NextOf(ms: seq<Msg>, msg: Option<Msg>, sdpOnly: bool): Option<Msg> {
    At(ms, NextAt(ms, Some(ShownFilter(sdpOnly)), StartAfter(ms, msg)))
  }

  /** Where the search for the previous message starts.  Without a current message
      that is behind the last one, or nowhere when the group has a single call. */
  function StartBefore(ms: seq<Msg>, msg: Option<Msg>, single: bool): (i: int)
    ensures -1 <= i <= |ms|
  {
    if msg.Some? then IndexOf(ms, msg.value) else if single then -1 else |ms|
  }

  function PrevOf(ms: seq<Msg>, msg: Option<Msg>, single: bool, sdpOnly: bool): Option<Msg> {
    var i := StartBefore(ms, msg, single);
    if i == -1 then None else At(ms, PrevAt(ms, Some(ShownFilter(sdpOnly)), i))
  }

  class Group {
    var calls: seq<Call>
    var sdpOnly: bool

    ghost predicate Valid()
      reads this, calls
    {
      Distinct(AllTo(calls, |calls|))
    }

    /** The messages of all calls, merged through the time sorter. */
    method Merge() returns (messages: Vector<Msg>)
      ensures messages.Valid() && fresh(messages) && (messages.list == null || fresh(messages.list))
      ensures messages.items == PlaceAll(AllTo(calls, |calls|), NotOlder)
    {
      messages := new Vector(1, 10);
      messages.SetSorter(Some(NotOlder));
      var i := 0;
      while i < |calls|
        invariant 0 <= i <= |calls|
        invariant messages.Valid() && fresh(messages) && (messages.list == null || fresh(messages.list))
        invariant messages.sorter == Some(NotOlder)
        invariant messages.items == PlaceAll(AllTo(calls, i), NotOlder)
      {
        MergeOneMore(calls, i);
        AppendMsgs(messages, calls[i].msgs);
        i := i + 1;
      }
    }

    method AppendMsgs(messages: Vector<Msg>, msgs: seq<Msg>)
      requires messages.Valid() && messages.sorter == Some(NotOlder)
      modifies messages, messages.list
      ensures messages.Valid() && (messages.list == old(messages.list) || fresh(messages.list))
      ensures messages.sorter == Some(NotOlder)
      ensures messages.items == PlaceOnto(old(messages.items), msgs, |msgs|, NotOlder)
    {
      var i := 0;
      while i < |msgs|
        invariant 0 <= i <= |msgs|
        invariant messages.Valid() && (messages.list == old(messages.list) || fresh(messages.list))
        invariant messages.sorter == Some(NotOlder)
        invariant messages.items == PlaceOnto(old(messages.items), msgs, i, NotOlder)
      {
        var _ := messages.Append(Some(msgs[i]));
        i := i + 1;
      }
    }

    /** The message one step further along the timeline, merged afresh. */
    method Neighbour(msg: Option<Msg>) returns (next: Option<Msg>)
      ensures next == At(Timeline(calls), StartAfter(Timeline(calls), msg))
    {
      if |calls| == 1 {
        var k := if msg.None? then 0 else IndexOf(calls[0].msgs, msg.value) + 1;
        next := At(calls[0].msgs, k);
      } else {
        var messages := Merge();
        if msg.None? {
          next := messages.Item(0);
        } else {
          var i := messages.Index(msg.value);
          next := messages.Item(i + 1);
        }
      }
    }

    method GetNextMsg(msg: Option<Msg>) returns (next: Option<Msg>)
      requires Valid()
      ensures next == NextOf(Timeline(calls), msg, sdpOnly)
      decreases |Timeline(calls)| - StartAfter(Timeline(calls), msg)
    {
      next := Neighbour(msg);
      if next.Some? {
        TimelineIsDistinct(calls);
        LookAhead(Timeline(calls), msg, next, sdpOnly);
        if sdpOnly && !next.value.hasSdp {
          next := GetNextMsg(next);
        }
      }
    }

    method NeighbourBefore(msg: Option<Msg>) returns (prev: Option<Msg>)
      ensures prev == At(Timeline(calls), StartBefore(Timeline(calls), msg, |calls| == 1) - 1)
    {
      if |calls| == 1 {
        var i := if msg.None? then -1 else IndexOf(calls[0].msgs, msg.value);
        prev := if i == -1 then None else At(calls[0].msgs, i - 1);
      } else {
        var messages := Merge();
        if msg.None? {
          prev := messages.Item(messages.count - 1);
        } else {
          var i := messages.Index(msg.value);
          prev := messages.Item(i - 1);
        }
      }
    }

    method GetPrevMsg(msg: Option<Msg>) returns (prev: Option<Msg>)
      requires Valid()
      ensures prev == PrevOf(Timeline(calls), msg, |calls| == 1, sdpOnly)
      decreases StartBefore(Timeline(calls), msg, |calls| == 1) + 1
    {
      prev := NeighbourBefore(msg);
      if prev.Some? {
        TimelineIsDistinct(calls);
        LookBack(Timeline(calls), msg, prev, |calls| == 1, sdpOnly);
        if sdpOnly && !prev.value.hasSdp {
          prev := GetPrevMsg(prev);
        }
      }
    }
  }

  /** One look back: the message before `i` is the answer, or the search goes on
      before it. */
  lemma PrevOfStep(ms: seq<Msg>, i: nat, single: bool, sdpOnly: bool)
    requires 0 < i <= |ms| && Distinct(ms)
    ensures StartBefore(ms, Some(ms[i - 1]), single) == i - 1
    ensures PrevAt(ms, Some(ShownFilter(sdpOnly)), i)
         == if Shown(ms[i - 1], sdpOnly) then i - 1 else PrevAt(ms, Some(ShownFilter(sdpOnly)), i - 1)
  {
    IndexOfDistinct(ms, i - 1);
  }

  /** One look at the timeline: the message at `k` is the answer, or the search
      goes on behind it. */
  lemma NextOfStep(ms: seq<Msg>, k: nat, sdpOnly: bool)
    requires k < |ms| && Distinct(ms)
    ensures StartAfter(ms, Some(ms[k])) == k + 1
    ensures NextAt(ms, Some(ShownFilter(sdpOnly)), k)
         == if Shown(ms[k], sdpOnly) then k else NextAt(ms, Some(ShownFilter(sdpOnly)), k + 1)
  {
    IndexOfDistinct(ms, k);
  }

  /** The neighbour is the next message to show, or the search goes on from it. */
  lemma LookAhead(ms: seq<Msg>, msg: Option<Msg>, next: Option<Msg>, sdpOnly: bool)
    requires Distinct(ms) && next.Some? && next == At(ms, StartAfter(ms, msg))
    ensures StartAfter(ms, msg) < StartAfter(ms, next) <= |ms|
    ensures NextOf(ms, msg, sdpOnly) == if Shown(next.value, sdpOnly) then next else NextOf(ms, next, sdpOnly)
  {
    NextOfStep(ms, StartAfter(ms, msg), sdpOnly);
  }

  lemma LookBack(ms: seq<Msg>, msg: Option<Msg>, prev: Option<Msg>, single: bool, sdpOnly: bool)
    requires Distinct(ms) && prev.Some? && prev == At(ms, StartBefore(ms, msg, single) - 1)
    ensures 0 <= StartBefore(ms, prev, single) < StartBefore(ms, msg, single)
    ensures PrevOf(ms, msg, single, sdpOnly)
         == if Shown(prev.value, sdpOnly) then prev else PrevOf(ms, prev, single, sdpOnly)
  {
    PrevOfStep(ms, StartBefore(ms, msg, single), single, sdpOnly);
  }

  lemma MergeOneMore(calls: seq<Call>, i: nat)
    requires i < |calls|
    ensures PlaceAll(AllTo(calls, i + 1), NotOlder)
         == PlaceOnto(PlaceAll(AllTo(calls, i), NotOlder), calls[i].msgs, |calls[i].msgs|, NotOlder)
  {
    PlaceOntoConcat([], AllTo(calls, i), calls[i].msgs, |calls[i].msgs|, NotOlder);
  }

  lemma IndexOfDistinct(ms: seq<Msg>, i: nat)
    requires i < |ms| && Distinct(ms)
    ensures IndexOf(ms, ms[i]) == i
  {
    assert ms[i] !in ms[..i];
    IndexOfIs(ms, ms[i], i);
  }

  lemma TimelineIsDistinct(calls: seq<Call>)
    requires Distinct(AllTo(calls, |calls|))
    ensures Distinct(Timeline(calls))
  {
    if |calls| == 1 {
      assert AllTo(calls, 1) == AllTo(calls, 0) + calls[0].msgs == calls[0].msgs;
    } else {
      PlaceAllDistinct(AllTo(calls, |calls|), NotOlder);
    }
  }

  // ---------------------------------------------------------------------------
  // What the traversal visits
  // ---------------------------------------------------------------------------

  /** The messages that repeated next steps deliver, starting behind `msg`. */
  ghost function Walk(ms: seq<Msg>, msg: Option<Msg>, sdpOnly: bool): seq<Msg>
    requires Distinct(ms)
    decreases |ms| - StartAfter(ms, msg)
  {
    var next := NextOf(ms, msg, sdpOnly);
    if next.None? then []
    else
      IndexOfDistinct(ms, NextAt(ms, Some(ShownFilter(sdpOnly)), StartAfter(ms, msg)));
      [next.value] + Walk(ms, next, sdpOnly)
  }

  /** Walking on from a message delivers exactly the shown messages behind it. */
  lemma {:induction false} WalkIsRest(ms: seq<Msg>, msg: Option<Msg>, sdpOnly: bool)
    requires Distinct(ms)
    ensures FilterTo(ms, |ms|, ShownFilter(sdpOnly))
         == FilterTo(ms, StartAfter(ms, msg), ShownFilter(sdpOnly)) + Walk(ms, msg, sdpOnly)
    decreases |ms| - StartAfter(ms, msg)
  {
    var f, k := ShownFilter(sdpOnly), StartAfter(ms, msg);
    var p := NextAt(ms, Some(f), k);
    FilterToNext(ms, f, k);
    if p < |ms| {
      NextOfStep(ms, p, sdpOnly);
      WalkIsRest(ms, Some(ms[p]), sdpOnly);
      WalkOn(ms, msg, sdpOnly, p);
      RestOfWalk(ms, f, k, p, Walk(ms, Some(ms[p]), sdpOnly));
    }
  }

  lemma RestOfWalk(ms: seq<Msg>, f: Msg -> bool, k: nat, p: nat, walk: seq<Msg>)
    requires k <= p < |ms| && FilterTo(ms, p, f) == FilterTo(ms, k, f)
    requires FilterTo(ms, p + 1, f) == FilterTo(ms, p, f) + [ms[p]]
    requires FilterTo(ms, |ms|, f) == FilterTo(ms, p + 1, f) + walk
    ensures FilterTo(ms, |ms|, f) == FilterTo(ms, k, f) + ([ms[p]] + walk)
  {
    Reassociate(FilterTo(ms, k, f), [ms[p]], walk);
  }

  lemma WalkOn(ms: seq<Msg>, msg: Option<Msg>, sdpOnly: bool, p: nat)
    requires Distinct(ms) && p == NextAt(ms, Some(ShownFilter(sdpOnly)), StartAfter(ms, msg)) < |ms|
    ensures Walk(ms, msg, sdpOnly) == [ms[p]] + Walk(ms, Some(ms[p]), sdpOnly)
    ensures FilterTo(ms, p + 1, ShownFilter(sdpOnly)) == FilterTo(ms, p, ShownFilter(sdpOnly)) + [ms[p]]
  {
  }

  /** The walk of a whole group, from no message to the end. */
  ghost function GroupWalk(calls: seq<Call>, sdpOnly: bool): seq<Msg>
    requires Distinct(AllTo(calls, |calls|))
    reads calls
  {
    TimelineIsDistinct(calls);
    Walk(Timeline(calls), None, sdpOnly)
  }

  lemma GroupWalkIsFilter(calls: seq<Call>, sdpOnly: bool)
    requires Distinct(AllTo(calls, |calls|))
    ensures GroupWalk(calls, sdpOnly) == Filter(Timeline(calls), ShownFilter(sdpOnly))
  {
    TimelineIsDistinct(calls);
    WalkIsRest(Timeline(calls), None, sdpOnly);
  }

  lemma {:induction false} FilterToCounts<T>(s: seq<T>, n: nat, f: T -> bool, x: T)
    requires n <= |s|
    ensures multiset(FilterTo(s, n, f))[x] == if f(x) then multiset(s[..n])[x] else 0
  {
    if n > 0 {
      FilterToCounts(s, n - 1, f, x);
      MultisetSnoc(s, n);
    }
  }

  lemma SameItemsFilter<T(!new)>(a: seq<T>, b: seq<T>, f: T -> bool)
    requires multiset(a) == multiset(b)
    ensures multiset(Filter(a, f)) == multiset(Filter(b, f))
  {
    assert a[..|a|] == a && b[..|b|] == b;
    forall x
      ensures multiset(Filter(a, f))[x] == multiset(Filter(b, f))[x]
    {
      FilterToCounts(a, |a|, f, x);
      FilterToCounts(b, |b|, f, x);
    }
  }

  lemma {:induction false} FilterToSorted<T(!new)>(s: seq<T>, n: nat, f: T -> bool, le: (T, T) -> bool)
    requires n <= |s| && Sorted(s, le)
    ensures Sorted(FilterTo(s, n, f), le)
  {
    if n > 0 {
      FilterToSorted(s, n - 1, f, le);
      var front := FilterTo(s, n - 1, f);
      FilterToMembers(s, n - 1, f);
      forall i | 0 <= i < |front|
        ensures le(front[i], s[n - 1])
      {
        assert front[i] in front && front[i] in s[..n - 1];
        var m :| 0 <= m < n - 1 && s[m] == front[i];
      }
    }
  }

  lemma FilterKept<T>(x: T, f: T -> bool, g: T -> bool)
    ensures Filter(Keep(x, f), g) == if f(x) then Keep(x, g) else []
  {
    assert FilterTo([x], 1, g) == FilterTo([x], 0, g) + Keep([x][0], g);
  }

  /** Filtering twice is filtering by both tests. */
  lemma {:induction false} FilterToFilter<T(!new)>(s: seq<T>, n: nat, f: T -> bool, g: T -> bool, h: T -> bool)
    requires n <= |s| && forall x :: h(x) == (f(x) && g(x))
    ensures Filter(FilterTo(s, n, f), g) == FilterTo(s, n, h)
  {
    if n > 0 {
      FilterToFilter(s, n - 1, f, g, h);
      FilterConcat(FilterTo(s, n - 1, f), Keep(s[n - 1], f), g);
      FilterKept(s[n - 1], f, g);
    }
  }

  /** Traversing a group visits every shown message exactly once and no other. */
  lemma TraversalVisitsAll(calls: seq<Call>, sdpOnly: bool)
    requires Distinct(AllTo(calls, |calls|))
    ensures multiset(GroupWalk(calls, sdpOnly)) == multiset(Filter(AllTo(calls, |calls|), ShownFilter(sdpOnly)))
  {
    GroupWalkIsFilter(calls, sdpOnly);
    if |calls| == 1 {
      assert AllTo(calls, 1) == AllTo(calls, 0) + calls[0].msgs == calls[0].msgs;
    } else {
      PlaceAllPermutes(AllTo(calls, |calls|), NotOlder);
      SameItemsFilter(Timeline(calls), AllTo(calls, |calls|), ShownFilter(sdpOnly));
    }
  }

  /** With several calls the traversal is in time order. */
  lemma TraversalIsChronological(calls: seq<Call>, sdpOnly: bool)
    requires Distinct(AllTo(calls, |calls|)) && |calls| != 1
    ensures Sorted(GroupWalk(calls, sdpOnly), NotNewer)
    ensures var w := GroupWalk(calls, sdpOnly); forall i, j :: 0 <= i < j < |w| ==> w[i].time <= w[j].time
  {
    var all := AllTo(calls, |calls|);
    GroupWalkIsFilter(calls, sdpOnly);
    PlaceAllSorts(all, NotOlder, NotNewer, set m | m in all);
    FilterToSorted(Timeline(calls), |Timeline(calls)|, ShownFilter(sdpOnly), NotNewer);
  }

  /** With a single call the traversal visits its shown messages in the order in which they
      arrived. */
  lemma SingleCallInOrder(call: Call, sdpOnly: bool)
    requires Distinct(call.msgs)
    ensures AllTo([call], 1) == call.msgs && GroupWalk([call], sdpOnly) == Filter(call.msgs, ShownFilter(sdpOnly))
  {
    assert AllTo([call], 1) == AllTo([call], 0) + call.msgs == call.msgs;
    GroupWalkIsFilter([call], sdpOnly);
  }

  function AtTime(t: int): Msg -> bool {
    (m: Msg) => m.time == t
  }

  function ShownAtTime(t: int, sdpOnly: bool): Msg -> bool {
    (m: Msg) => Shown(m, sdpOnly) && m.time == t
  }

  /** Messages of one time are visited in the order in which the calls hold them. */
  lemma TraversalIsStable(calls: seq<Call>, sdpOnly: bool, t: int)
    requires Distinct(AllTo(calls, |calls|)) && |calls| != 1
    ensures Filter(GroupWalk(calls, sdpOnly), AtTime(t)) == Filter(AllTo(calls, |calls|), ShownAtTime(t, sdpOnly))
  {
    var ms := Timeline(calls);
    GroupWalkIsFilter(calls, sdpOnly);
    FilterToFilter(ms, |ms|, ShownFilter(sdpOnly), AtTime(t), ShownAtTime(t, sdpOnly));
    PlaceAllIsStable(AllTo(calls, |calls|), NotOlder, NotNewer, ShownAtTime(t, sdpOnly));
  }

  /** A step back undoes a step forward from every shown message. */
  lemma PrevUndoesNextStep(ms: seq<Msg>, msg: Option<Msg>, single: bool, sdpOnly: bool)
    requires Distinct(ms) && (msg.Some? ==> msg.value in ms && Shown(msg.value, sdpOnly))
    requires msg.None? || NextOf(ms, msg, sdpOnly).Some?
    ensures PrevOf(ms, NextOf(ms, msg, sdpOnly), single, sdpOnly) == msg
  {
    if msg.Some? {
      var i :| 0 <= i < |ms| && ms[i] == msg.value;
      PrevUndoesLaterStep(ms, i, single, sdpOnly);
    } else {
      PrevUndoesFirstStep(ms, single, sdpOnly);
    }
  }

  lemma PrevUndoesFirstStep(ms: seq<Msg>, single: bool, sdpOnly: bool)
    requires Distinct(ms)
    ensures PrevOf(ms, NextOf(ms, None, sdpOnly), single, sdpOnly) == None
  {
    var f := Some(ShownFilter(sdpOnly));
    var j := NextAt(ms, f, 0);
    if j < |ms| {
      IndexOfDistinct(ms, j);
      assert StartBefore(ms, Some(ms[j]), single) == j;
    }
    var q := PrevAt(ms, f, j);
    if q >= 0 {
      NextAtSkips(ms, f, 0, q);
    }
  }

  lemma PrevUndoesLaterStep(ms: seq<Msg>, i: nat, single: bool, sdpOnly: bool)
    requires Distinct(ms) && i < |ms| && Shown(ms[i], sdpOnly)
    requires NextOf(ms, Some(ms[i]), sdpOnly).Some?
    ensures PrevOf(ms, NextOf(ms, Some(ms[i]), sdpOnly), single, sdpOnly) == Some(ms[i])
  {
    var f := Some(ShownFilter(sdpOnly));
    IndexOfDistinct(ms, i);
    var j := NextAt(ms, f, i + 1);
    IndexOfDistinct(ms, j);
    PrevUndoesNext(ms, f, i, j);
  }

  /** From behind the last message of several calls, a step back reaches the message
      at which the walk forward ends. */
  lemma PrevFromEnd(ms: seq<Msg>, i: nat, sdpOnly: bool)
    requires Distinct(ms) && i < |ms| && Shown(ms[i], sdpOnly)
    requires NextOf(ms, Some(ms[i]), sdpOnly).None?
    ensures PrevOf(ms, None, false, sdpOnly) == Some(ms[i])
  {
    IndexOfDistinct(ms, i);
    PrevUndoesNext(ms, Some(ShownFilter(sdpOnly)), i, |ms|);
  }

  // ---------------------------------------------------------------------------
  // Which messages are visited, and what unknown ones lead to
  // ---------------------------------------------------------------------------

  lemma {:induction false} AllToMembers(calls: seq<Call>, n: nat, m: Msg)
    requires n <= |calls|
    ensures m in AllTo(calls, n) <==> exists c :: 0 <= c < n && m in calls[c].msgs
  {
    if n > 0 {
      AllToMembers(calls, n - 1, m);
    }
  }

  /** The messages of a call lie behind those of the calls before it, in their order. */
  lemma {:induction false} AllToAt(calls: seq<Call>, n: nat, c: nat, i: nat)
    requires c < n <= |calls| && i < |calls[c].msgs|
    ensures |AllTo(calls, c)| + i < |AllTo(calls, n)| && AllTo(calls, n)[|AllTo(calls, c)| + i] == calls[c].msgs[i]
  {
    if c < n - 1 {
      AllToAt(calls, n - 1, c, i);
    }
  }

  /** The traversal visits the messages of all calls, or those of them with SDP. */
  lemma VisitsExactly(calls: seq<Call>, sdpOnly: bool, m: Msg)
    requires Distinct(AllTo(calls, |calls|))
    ensures m in GroupWalk(calls, sdpOnly) <==>
            (sdpOnly ==> m.hasSdp) && exists c :: 0 <= c < |calls| && m in calls[c].msgs
  {
    var w, all := GroupWalk(calls, sdpOnly), AllTo(calls, |calls|);
    TraversalVisitsAll(calls, sdpOnly);
    FilterToMembers(all, |all|, ShownFilter(sdpOnly));
    AllToMembers(calls, |calls|, m);
    assert all[..|all|] == all;
    assert m in w <==> m in multiset(w);
    assert m in Filter(all, ShownFilter(sdpOnly)) <==> m in multiset(Filter(all, ShownFilter(sdpOnly)));
  }

  /** From a message that is not there, a step forward starts over, and a step back leads
      nowhere; without a message, a step back in a single call leads nowhere. */
  lemma UnknownSteps(ms: seq<Msg>, msg: Msg, single: bool, sdpOnly: bool)
    requires msg !in ms
    ensures NextOf(ms, Some(msg), sdpOnly) == NextOf(ms, None, sdpOnly)
    ensures PrevOf(ms, Some(msg), single, sdpOnly) == None && PrevOf(ms, None, true, sdpOnly) == None
  {
  }
}
