/** The call list of src/sip.c: a sorted vector of calls and the Call-ID hash
    table that indexes it. */
module CallStores {
  import opened Common
  import opened Vectors
  import opened HashTables
  import opened Calls

  /** The position of the listed call with Call-ID `k`, by linear search, or -1. */
  function PositionOf(list: seq<Call>, k: CString): (i: int)
    ensures -1 <= i < |list|
    ensures i >= 0 ==> list[i].callid == k
    ensures i == -1 ==> forall j :: 0 <= j < |list| ==> list[j].callid != k
  {
    PositionTo(list, |list|, k)
  }

  function PositionTo(list: seq<Call>, n: nat, k: CString): (i: int)
    requires n <= |list|
    ensures -1 <= i < n
    ensures i >= 0 ==> list[i].callid == k
    ensures i == -1 ==> forall j :: 0 <= j < n ==> list[j].callid != k
  {
    if n == 0 then -1 else if list[n - 1].callid == k then n - 1 else PositionTo(list, n - 1, k)
  }

  /** What the index has to hold under `k`. */
  function Listed(list: seq<Call>, k: CString): seq<Call> {
    var i := PositionOf(list, k);
    if i == -1 then [] else [list[i]]
  }

  ghost predicate UniqueCallIds(list: seq<Call>) {
    forall i, j :: 0 <= i < j < |list| ==> list[i].callid != list[j].callid
  }

  ghost predicate UniqueIndices(list: seq<Call>, last: nat) {
    && (forall i :: 0 <= i < |list| ==> 1 <= list[i].index <= last)
    && forall i, j :: 0 <= i < j < |list| ==> list[i].index != list[j].index
  }

  /** With unique Call-IDs, the search finds a call wherever it is listed. */
  lemma ListedIs(list: seq<Call>, call: Call)
    requires UniqueCallIds(list) && call in list
    ensures Listed(list, call.callid) == [call]
  {
    var j :| 0 <= j < |list| && list[j] == call;
    var i := PositionOf(list, call.callid);
    assert i == j;
  }

  /** The search only depends on which calls are listed. */
  lemma ListedSame(a: seq<Call>, b: seq<Call>, k: CString)
    requires UniqueCallIds(a) && UniqueCallIds(b)
    requires forall i :: 0 <= i < |a| && a[i].callid == k ==> a[i] in b
    requires forall i :: 0 <= i < |b| && b[i].callid == k ==> b[i] in a
    ensures Listed(a, k) == Listed(b, k)
  {
    var i := PositionOf(a, k);
    if i >= 0 {
      ListedIs(a, a[i]);
      ListedIs(b, a[i]);
    } else {
      assert forall j :: 0 <= j < |a| ==> a[j].callid != k;
    }
  }

  ghost function Members(list: seq<Call>): set<Call> {
    set c | c in list
  }

  /** `r` is `s` with one more call at `p`. */
  ghost predicate OneMore(r: seq<Call>, s: seq<Call>, p: nat, call: Call) {
    && p <= |s| && |r| == |s| + 1 && r[p] == call
    && (forall i :: 0 <= i < p ==> r[i] == s[i])
    && forall i :: p < i <= |s| ==> r[i] == s[i - 1]
  }

  lemma OneMoreMembers(r: seq<Call>, s: seq<Call>, p: nat, call: Call)
    requires OneMore(r, s, p, call)
    ensures Members(r) == Members(s) + {call}
  {
    forall i | 0 <= i < |s|
      ensures s[i] in r
    {
      assert r[if i < p then i else i + 1] == s[i];
    }
  }

  lemma OneMoreUnique(r: seq<Call>, s: seq<Call>, p: nat, call: Call, last: nat)
    requires OneMore(r, s, p, call) && UniqueCallIds(s) && UniqueIndices(s, last) && 1 <= call.index <= last
    requires forall i :: 0 <= i < |s| ==> s[i].callid != call.callid && s[i].index != call.index
    ensures UniqueCallIds(r) && UniqueIndices(r, last)
  {
  }

  /** Wherever the sorter puts a new call, the listed calls stay unique. */
  lemma AppendedCalls(s: seq<Call>, call: Call, sorter: Option<(Call, Call) -> bool>, last: nat)
    requires UniqueCallIds(s) && UniqueIndices(s, last) && 1 <= call.index <= last
    requires forall i :: 0 <= i < |s| ==> s[i].callid != call.callid && s[i].index != call.index
    ensures UniqueCallIds(Appended(s, call, sorter)) && UniqueIndices(Appended(s, call, sorter), last)
    ensures Members(Appended(s, call, sorter)) == Members(s) + {call}
  {
    var p := AppendedShape(s, call, sorter);
    OneMoreMembers(Appended(s, call, sorter), s, p, call);
    OneMoreUnique(Appended(s, call, sorter), s, p, call, last);
  }

  lemma {:induction false} AppendAllCalls(s: seq<Call>, n: nat, sorter: Option<(Call, Call) -> bool>, last: nat)
    requires n <= |s| && UniqueCallIds(s) && UniqueIndices(s, last)
    ensures UniqueCallIds(AppendAll([], s, n, sorter)) && UniqueIndices(AppendAll([], s, n, sorter), last)
    ensures Members(AppendAll([], s, n, sorter)) == Members(s[..n])
  {
    if n > 0 {
      AppendAllCalls(s, n - 1, sorter, last);
      var front := AppendAll([], s, n - 1, sorter);
      assert s[..n] == s[..n - 1] + [s[n - 1]];
      forall i | 0 <= i < |front|
        ensures front[i].callid != s[n - 1].callid && front[i].index != s[n - 1].index
      {
        assert front[i] in Members(front);
        var m :| 0 <= m < n - 1 && s[m] == front[i];
      }
      AppendedCalls(front, s[n - 1], sorter, last);
    }
  }

  lemma {:induction false} FilterToCalls(s: seq<Call>, n: nat, shown: Call -> bool, last: nat)
    requires n <= |s| && UniqueCallIds(s) && UniqueIndices(s, last)
    ensures UniqueCallIds(FilterTo(s, n, shown)) && UniqueIndices(FilterTo(s, n, shown), last)
    ensures forall i :: 0 <= i < |FilterTo(s, n, shown)| ==> FilterTo(s, n, shown)[i] in s[..n]
    ensures |FilterTo(s, n, shown)| <= n
  {
    if n > 0 {
      FilterToCalls(s, n - 1, shown, last);
      var front := FilterTo(s, n - 1, shown);
      assert s[..n] == s[..n - 1] + [s[n - 1]];
      forall i | 0 <= i < |front|
        ensures front[i].callid != s[n - 1].callid && front[i].index != s[n - 1].index
      {
        assert front[i] in s[..n - 1];
        var m :| 0 <= m < n - 1 && s[m] == front[i];
      }
    }
  }

  // ---------------------------------------------------------------------------
  // Order
  // ---------------------------------------------------------------------------

  function KeyOf(keys: map<Call, Attr>, c: Call): Attr {
    if c in keys then keys[c] else Number(0)
  }

  /** The test of the call list sorter: strictly beyond the previous call. */
  predicate Beyond(cur: Attr, prev: Attr, asc: bool) {
    if asc then AttrCompare(cur, prev) > 0 else AttrCompare(cur, prev) < 0
  }

  predicate InOrder(one: Attr, two: Attr, asc: bool) {
    if asc then AttrCompare(one, two) <= 0 else AttrCompare(one, two) >= 0
  }

  function SorterOf(keys: map<Call, Attr>, asc: bool): (Call, Call) -> bool {
    (cur: Call, prev: Call) => Beyond(KeyOf(keys, cur), KeyOf(keys, prev), asc)
  }

  ghost function OrderOf(keys: map<Call, Attr>, asc: bool): (Call, Call) -> bool {
    (one: Call, two: Call) => InOrder(KeyOf(keys, one), KeyOf(keys, two), asc)
  }

  // ---------------------------------------------------------------------------
  // Index agreement
  // ---------------------------------------------------------------------------

  /** Adding a call whose Call-ID is new adds one answer to the search. */
  lemma ListedAfterAppend(s: seq<Call>, r: seq<Call>, call: Call, k: CString)
    requires UniqueCallIds(s) && UniqueCallIds(r) && Members(r) == Members(s) + {call}
    requires Listed(s, call.callid) == []
    ensures Listed(r, k) == Listed(s, k) + if k == call.callid then [call] else []
  {
    assert forall c: Call :: c in r <==> c in Members(r);
    if k == call.callid {
      assert call in Members(r);
      ListedIs(r, call);
    } else {
      forall i | 0 <= i < |r| && r[i].callid == k
        ensures r[i] in s
      {
        assert r[i] in Members(r);
      }
      forall i | 0 <= i < |s| && s[i].callid == k
        ensures s[i] in r
      {
        assert s[i] in Members(s);
      }
      ListedSame(s, r, k);
    }
  }

  /** Dropping the call at `v` drops the answer for its Call-ID and no other. */
  lemma ListedAfterRemoval(s: seq<Call>, v: nat, k: CString, last: nat)
    requires v < |s| && UniqueCallIds(s) && UniqueIndices(s, last)
    ensures var r := s[..v] + s[v + 1..];
            && UniqueCallIds(r) && UniqueIndices(r, last)
            && Listed(r, k) == if k == s[v].callid then [] else Listed(s, k)
  {
    var r := s[..v] + s[v + 1..];
    assert forall i :: 0 <= i < |r| ==> r[i] == s[if i < v then i else i + 1];
    if k == s[v].callid {
      assert forall i :: 0 <= i < |r| ==> r[i].callid != k;
    } else {
      forall i | 0 <= i < |s| && s[i].callid == k
        ensures s[i] in r
      {
        assert s[i] == r[if i < v then i else i - 1];
      }
      ListedSame(s, r, k);
    }
  }

  lemma DroppedCalls(s: seq<Call>, v: nat, last: nat)
    requires v < |s| && UniqueCallIds(s) && UniqueIndices(s, last)
    ensures UniqueCallIds(s[..v] + s[v + 1..]) && UniqueIndices(s[..v] + s[v + 1..], last)
    ensures forall k :: Listed(s[..v] + s[v + 1..], k) == if k == s[v].callid then [] else Listed(s, k)
    ensures Listed(s, s[v].callid) == [s[v]]
    ensures s[v] !in s[..v]
  {
    ListedIs(s, s[v]);
    ListedAfterRemoval(s, v, [], last);
    forall k {
      ListedAfterRemoval(s, v, k, last);
    }
  }

  /** The position of the first unlocked call at or behind `from`, or the length. */
  ghost function VictimFrom(list: seq<Call>, from: nat): (v: nat)
    requires from <= |list|
    reads list
    ensures from <= v <= |list|
    ensures v < |list| ==> !list[v].locked
    decreases |list| - from
  {
    if from == |list| || !list[from].locked then from else VictimFrom(list, from + 1)
  }

  /** The list after one rotation. */
  ghost function WithoutVictim(list: seq<Call>): seq<Call>
    reads list
  {
    var v := VictimFrom(list, 0);
    if v < |list| then list[..v] + list[v + 1..] else list
  }

  /** The list a new call finds. */
  ghost function Room(list: seq<Call>, limit: nat): seq<Call>
    reads list
  {
    if |list| == limit then WithoutVictim(list) else list
  }

  /** All calls before the one that leaves are locked. */
  lemma {:induction false} VictimIsFirst(list: seq<Call>, from: nat)
    requires from <= |list|
    ensures forall i :: from <= i < VictimFrom(list, from) ==> list[i].locked
    decreases |list| - from
  {
    if from < |list| && list[from].locked {
      VictimIsFirst(list, from + 1);
    }
  }

  /** Rotation never removes a locked call, and removes at most one. */
  lemma RotationSparesLocked(list: seq<Call>, i: nat)
    requires i < |list| && list[i].locked
    ensures list[i] in WithoutVictim(list)
    ensures |list| - 1 <= |WithoutVictim(list)| <= |list|
  {
    var v, r := VictimFrom(list, 0), WithoutVictim(list);
    assert list[i] == r[if i < v then i else i - 1];
  }

  /** A new call makes the list outgrow its limit exactly when it has done so before or
      when it is full of locked calls; a list that has outgrown its limit is not rotated. */
  lemma RoomIsFullExactly(list: seq<Call>, limit: nat)
    ensures |Room(list, limit)| >= limit
       <==> |list| > limit || (|list| == limit && forall i :: 0 <= i < |list| ==> list[i].locked)
    ensures |list| > limit ==> Room(list, limit) == list
    ensures |list| <= limit ==> |Room(list, limit)| <= limit
  {
    VictimIsFirst(list, 0);
  }

  // ---------------------------------------------------------------------------
  // Counts
  // ---------------------------------------------------------------------------

  /** How many calls are listed, are listed and locked, were ever created, and left by
      rotation and by the two clears. */
  datatype Tally = Tally(listed: nat, locked: nat, created: nat, rotated: nat, cleared: nat)

  predicate AddsUp(t: Tally) {
    t.locked <= t.listed && t.created == t.listed + t.rotated + t.cleared
  }

  /** What a user of the store does. */
  datatype Op =
    | Message(callid: CString, msg: Msg, matches: bool)
    | RotateList
    | ClearList
    | ClearHidden(shown: Call -> bool)
    | SortList(field: SortField, asc: bool)
    | Lock(i: nat, lock: bool)

  /** A new call: a full list is rotated before, unless every call is locked. */
  function WithNewCall(t: Tally, limit: nat): Tally {
    if t.listed == limit && t.locked < t.listed then t.(created := t.created + 1, rotated := t.rotated + 1)
    else t.(listed := t.listed + 1, created := t.created + 1)
  }

  predicate MessageCounted(limit: nat, t: Tally, u: Tally) {
    u == t || u == WithNewCall(t, limit)
  }

  /** Rotation takes a call unless every call is locked. */
  function Rotated(t: Tally): Tally {
    if t.locked < t.listed then t.(listed := t.listed - 1, rotated := t.rotated + 1) else t
  }

  predicate SomeCleared(t: Tally, u: Tally) {
    u.listed <= t.listed && u.locked <= t.locked
    && u == t.(listed := u.listed, locked := u.locked, cleared := t.cleared + t.listed - u.listed)
  }

  predicate OneLocked(lock: bool, t: Tally, u: Tally) {
    u == t.(locked := u.locked)
    && if lock then t.locked <= u.locked <= t.locked + 1 else u.locked <= t.locked <= u.locked + 1
  }

  /** What an operation does to the counts. */
  predicate Counted(op: Op, limit: nat, t: Tally, u: Tally) {
    match op
    case Message(_, _, _) => MessageCounted(limit, t, u)
    case RotateList => u == Rotated(t)
    case ClearList => u == t.(listed := 0, locked := 0, cleared := t.cleared + t.listed)
    case ClearHidden(_) => SomeCleared(t, u)
    case SortList(_, _) => u == t
    case Lock(_, lock) => OneLocked(lock, t, u)
  }

  /** The counts before and after each of the first `n` operations. */
  ghost predicate AccountTo(ops: seq<Op>, n: nat, limit: nat, counts: seq<Tally>)
    requires n <= |ops|
  {
    && |counts| == n + 1 && (forall i :: 0 <= i <= n ==> AddsUp(counts[i]))
    && forall i :: 0 <= i < n ==> Counted(ops[i], limit, counts[i], counts[i + 1])
  }

  ghost predicate Account(ops: seq<Op>, limit: nat, counts: seq<Tally>) {
    AccountTo(ops, |ops|, limit, counts)
  }

  lemma AccountMore(ops: seq<Op>, i: nat, limit: nat, counts: seq<Tally>, u: Tally)
    requires i < |ops| && AccountTo(ops, i, limit, counts) && AddsUp(u) && Counted(ops[i], limit, counts[i], u)
    ensures AccountTo(ops, i + 1, limit, counts + [u])
  {
  }

  /** The counts after a message, by the size `n` of the list that a new call finds. */
  lemma NewCallCounted(limit: nat, t: Tally, u: Tally, n: nat)
    requires t.created == t.listed + t.rotated + t.cleared && u.created == u.listed + u.rotated + u.cleared
    requires u.cleared == t.cleared && u.locked == t.locked
    requires n == if t.listed == limit && t.locked < t.listed then t.listed - 1 else t.listed
    requires if u.created == t.created then u.listed == t.listed else u.created == t.created + 1 && u.listed == n + 1
    ensures MessageCounted(limit, t, u)
  {
  }

  ghost function LockedOf(list: seq<Call>): set<Call>
    reads list
  {
    set c | c in list && c.locked
  }

  lemma {:induction false} MembersCount(list: seq<Call>)
    requires Distinct(list)
    ensures |Members(list)| == |list|
    decreases |list|
  {
    if list != [] {
      var n := |list| - 1;
      MembersCount(list[..n]);
      assert list == list[..n] + [list[n]];
      assert Members(list) == Members(list[..n]) + {list[n]};
    }
  }

  lemma SubsetCount(a: set<Call>, b: set<Call>)
    requires a <= b
    ensures |a| <= |b| && (|a| == |b| ==> a == b)
  {
    assert b == a + (b - a);
  }

  /** A list has room for an unlocked call exactly when it has fewer locked calls than
      calls. */
  lemma LockedCount(list: seq<Call>)
    requires Distinct(list)
    ensures |LockedOf(list)| <= |list|
    ensures |LockedOf(list)| == |list| <==> forall i :: 0 <= i < |list| ==> list[i].locked
  {
    MembersCount(list);
    SubsetCount(LockedOf(list), Members(list));
    if forall i :: 0 <= i < |list| ==> list[i].locked {
      assert LockedOf(list) == Members(list);
    }
    if |LockedOf(list)| == |list| {
      assert forall i :: 0 <= i < |list| ==> list[i] in Members(list);
    }
  }

  /** Rotation takes no locked call. */
  lemma WithoutVictimLocks(list: seq<Call>)
    ensures LockedOf(WithoutVictim(list)) == LockedOf(list)
  {
    var r := WithoutVictim(list);
    forall c | c in list && c.locked
      ensures c in r
    {
      var i :| 0 <= i < |list| && list[i] == c;
      RotationSparesLocked(list, i);
    }
  }

  /** It takes one call exactly when there is an unlocked one. */
  lemma WithoutVictimCount(list: seq<Call>)
    requires Distinct(list)
    ensures |WithoutVictim(list)| == if |LockedOf(list)| < |list| then |list| - 1 else |list|
  {
    LockedCount(list);
    VictimIsFirst(list, 0);
  }

  lemma RoomCount(list: seq<Call>, limit: nat, room: seq<Call>)
    requires UniqueCallIds(list) && room == Room(list, limit)
    ensures |room| == if |list| == limit && |LockedOf(list)| < |list| then |list| - 1 else |list|
  {
    WithoutVictimCount(list);
  }

  lemma FilterLocks(list: seq<Call>, shown: Call -> bool)
    ensures |LockedOf(Filter(list, shown))| <= |LockedOf(list)|
  {
    FilterToSome(list, |list|, shown);
    SubsetCount(LockedOf(Filter(list, shown)), LockedOf(list));
  }

  lemma {:induction false} FilterToSome(list: seq<Call>, n: nat, shown: Call -> bool)
    requires n <= |list|
    ensures forall c :: c in FilterTo(list, n, shown) ==> c in list
  {
    if n > 0 {
      FilterToSome(list, n - 1, shown);
    }
  }

  class CallStore {
    const limit: nat
    const onlyCalls: bool
    const ignoreIncomplete: bool
    var list: Vector<Call>
    var callids: HashTable<Call>
    var lastIndex: nat
    var callCountUnrotated: nat
    var sortBy: SortField
    var asc: bool
    var changed: bool
    ghost var rotated: nat  // calls removed by rotation
    ghost var cleared: nat  // calls removed by the two clears

    ghost predicate Agrees(items: seq<Call>)
      requires callids.size >= 1 && |callids.chains| == callids.size
      reads this, callids
    {
      forall k: CString :: callids.Queue(k) == Listed(items, k)
    }

    /** The store is sound and its index stands for `all`: the listed calls, or
        the listed calls and a new one that is not listed yet. */
    ghost predicate ValidAs(all: seq<Call>)
      reads this, list, list.list, callids, callids.buckets, callids.entries
    {
      && limit >= 1 && callids.size == limit
      && list.Valid() && callids.Valid()
      && UniqueCallIds(all) && UniqueIndices(all, lastIndex)
      && Agrees(all)
      && callCountUnrotated + |all| - |list.items| == lastIndex == |all| + rotated + cleared
    }

    ghost predicate Valid()
      reads this, list, list.list, callids, callids.buckets, callids.entries
    {
      ValidAs(list.items)
    }

    constructor (limit: nat, onlyCalls: bool, ignoreIncomplete: bool)
      requires limit >= 1
      ensures Valid() && fresh(list) && (list.list == null || fresh(list.list)) && list.items == []
      ensures fresh(callids) && fresh(callids.buckets) && callids.entries == {}
      ensures AllTrack(list.items) && Ordered() && Counts() == Tally(0, 0, 0, 0, 0)
      ensures this.limit == limit && this.onlyCalls == onlyCalls && this.ignoreIncomplete == ignoreIncomplete
    {
      this.limit, this.onlyCalls, this.ignoreIncomplete := limit, onlyCalls, ignoreIncomplete;
      list := new Vector(200, 50);
      callids := new HashTable(limit);
      lastIndex, callCountUnrotated, sortBy, asc, changed := 0, 0, ByIndex, true, false;
      rotated, cleared := 0, 0;
      new;
      list.SetSorter(Some(SorterOf(map[], true)));
    }

    method Find(callid: CString) returns (r: Option<Call>)
      requires Valid()
      ensures r == if Listed(list.items, callid) == [] then None else Some(Listed(list.items, callid)[0])
    {
      r := callids.Find(callid);
    }

    /** Drops the first unlocked call of the list, from the index and from the list. */
    method Rotate()
      requires Valid()
      modifies this`rotated, list, list.list, callids, callids.buckets, callids.entries
      ensures Valid() && list.list == old(list.list) && callids.entries == old(callids.entries)
      ensures list.sorter == old(list.sorter)
      ensures list.items == old(WithoutVictim(list.items))
    {
      ghost var w := WithoutVictim(list.items);
      var v, item := FirstUnlocked();
      if item.Some? {
        assert w == list.items[..v] + list.items[v + 1..];
        Drop(item.value, v);
      }
    }

    method FirstUnlocked() returns (current: nat, item: Option<Call>)
      requires list.Valid()
      ensures current == VictimFrom(list.items, 0)
      ensures item == list.Item(current)
    {
      current, item := IteratorNext(list, -1, None);
      while item.Some? && item.value.locked
        invariant 0 <= current <= list.count && item == list.Item(current)
        invariant VictimFrom(list.items, 0) == VictimFrom(list.items, current)
        decreases list.count - current
      {
        current, item := IteratorNext(list, current, None);
      }
    }

    method Drop(call: Call, ghost v: nat)
      requires Valid() && v < |list.items| && list.items[v] == call
      modifies this`rotated, list, list.list, callids, callids.buckets, callids.entries
      ensures Valid() && list.list == old(list.list) && callids.entries == old(callids.entries)
      ensures list.sorter == old(list.sorter)
      ensures list.items == old(list.items)[..v] + old(list.items)[v + 1..]
    {
      ghost var rest := list.items[..v] + list.items[v + 1..];
      Unindex(call, list.items, v, rest);
      Unlist(call, v, rest);
      rotated := rotated + 1;
    }

    method Unindex(call: Call, ghost items: seq<Call>, ghost v: nat, ghost rest: seq<Call>)
      requires callids.Valid() && Agrees(items) && UniqueCallIds(items) && UniqueIndices(items, lastIndex)
      requires v < |items| && items[v] == call && rest == items[..v] + items[v + 1..]
      modifies callids, callids.buckets, callids.entries
      ensures callids.Valid() && Agrees(rest) && UniqueCallIds(rest) && UniqueIndices(rest, lastIndex)
      ensures callids.entries == old(callids.entries)
    {
      DroppedCalls(items, v, lastIndex);
      callids.Remove(call.callid);
    }

    method Unlist(call: Call, ghost v: nat, ghost rest: seq<Call>)
      requires list.Valid() && v < |list.items| && list.items[v] == call && UniqueCallIds(list.items)
      requires rest == list.items[..v] + list.items[v + 1..]
      modifies list, list.list
      ensures list.Valid() && list.list == old(list.list) && list.sorter == old(list.sorter) && list.items == rest
    {
      IndexOfIs(list.items, call, v);
      list.Remove(call);
    }

    // -------------------------------------------------------------------------
    // A message arrives
    // -------------------------------------------------------------------------

    method MakeRoom(ghost callid: CString, ghost room: seq<Call>)
      requires Valid() && Listed(list.items, callid) == [] && room == Room(list.items, limit)
      modifies this`rotated, list, list.list, callids, callids.buckets, callids.entries
      ensures Valid() && Listed(list.items, callid) == []
      ensures list.list == old(list.list) && callids.entries == old(callids.entries)
      ensures list.sorter == old(list.sorter)
      ensures list.items == room
    {
      if limit == list.count {
        ghost var s := list.items;
        ghost var v := VictimFrom(s, 0);
        if v < |s| {
          DroppedCalls(s, v, lastIndex);
        }
        Rotate();
      }
    }

    /** Creates a call and enters it in the index, not yet in the list. */
    method CreateCall(callid: CString) returns (call: Call, ghost all: seq<Call>)
      requires Valid() && Listed(list.items, callid) == []
      modifies this`lastIndex, callids, callids.buckets, callids.entries
      ensures ValidAs(all) && all == list.items + [call]
      ensures fresh(call) && fresh(callids.entries - old(callids.entries))
      ensures call.callid == callid && call.index == lastIndex == old(lastIndex) + 1
      ensures call.msgs == [] && call.dialog == NEW_DIALOG && !call.locked
    {
      call := new Call(callid, lastIndex + 1);
      all := list.items + [call];
      NewCallListed(list.items, call, lastIndex, all);
      IndexCall(call, all);
    }

    method IndexCall(call: Call, ghost all: seq<Call>)
      requires Valid() && call.index == lastIndex + 1
      requires UniqueCallIds(all) && UniqueIndices(all, lastIndex + 1) && |all| == |list.items| + 1
      requires forall k :: Listed(all, k) == Listed(list.items, k) + if k == call.callid then [call] else []
      modifies this`lastIndex, callids, callids.buckets, callids.entries
      ensures ValidAs(all) && fresh(callids.entries - old(callids.entries))
      ensures lastIndex == old(lastIndex) + 1
    {
      callids.Insert(call.callid, call);
      lastIndex := lastIndex + 1;
    }

    /** Hands a message to its call. */
    method AddToCall(call: Call, msg: Msg)
      requires call.Tracks()
      modifies call, this`changed
      ensures call.Tracks() && call.msgs == old(call.msgs) + [msg] && call.locked == old(call.locked) && changed
    {
      var _ := call.AddMessage(msg);
      AfterPrefix(old(call.msgs), call.msgs, |old(call.msgs)|);
      if call.IsInvite() {
        call.UpdateState(msg);
      }
      changed := true;
    }

    /** The first message of a call: creates, indexes and lists it. */
    method NewCall(callid: CString, msg: Msg) returns (call: Call)
      requires Valid() && Listed(list.items, callid) == []
      modifies this`lastIndex, this`callCountUnrotated, this`changed
      modifies list, list.list, callids, callids.buckets, callids.entries
      ensures Valid() && fresh(call) && (list.list == old(list.list) || fresh(list.list))
      ensures fresh(callids.entries - old(callids.entries))
      ensures call.callid == callid && call.index == lastIndex == old(lastIndex) + 1
      ensures call.msgs == [msg] && call.Tracks() && !call.locked
      ensures list.items == Appended(old(list.items), call, list.sorter)
      ensures LockedOf(list.items) == LockedOf(old(list.items))
      ensures list.sorter.Some? <==> old(list.sorter.Some?)
      ensures old(list.sorter.Some?) && InFixedOrder(old(list.items), sortBy, asc) ==>
                InFixedOrder(list.items, sortBy, asc)
    {
      ghost var items := list.items;
      ghost var all;
      call, all := CreateCall(callid);
      AddToCall(call, msg);
      ListCall(call, all);
      NewUnlocked(items, call, list.sorter);
    }

    /** Makes room for a new call and enters it; `room` is the list that it finds. */
    method Admit(callid: CString, msg: Msg, ghost room: seq<Call>) returns (call: Call)
      requires Valid() && Listed(list.items, callid) == [] && room == Room(list.items, limit)
      modifies this`rotated, this`lastIndex, this`callCountUnrotated, this`changed
      modifies list, list.list, callids, callids.buckets, callids.entries
      ensures Valid() && fresh(call) && call.Tracks() && Entered(room, callid, call, msg) && SameStorage()
      ensures LockedOf(list.items) == LockedOf(room) && lastIndex == old(lastIndex) + 1
      ensures old(list.sorter.Some?) && InFixedOrder(room, sortBy, asc) ==> InFixedOrder(list.items, sortBy, asc)
    {
      MakeRoom(callid, room);
      call := NewCall(callid, msg);
    }

    /** Collects the current attribute of every listed call. */
    method SortKeys() returns (keys: map<Call, Attr>)
      requires list.Valid()
      ensures KeysOf(keys, list.items, sortBy)
    {
      keys := map[];
      var i := 0;
      while i < list.count
        invariant 0 <= i <= list.count
        invariant forall j :: 0 <= j < i ==> list.items[j] in keys
        invariant forall c :: c in keys ==> keys[c] == Attribute(c, sortBy)
      {
        var c := list.Item(i).value;
        keys := keys[c := Attribute(c, sortBy)];
        i := i + 1;
      }
    }

    /** Points a present sorter to the sort options and current attributes, before
        `call` is appended. */
    method RefreshSorter(call: Call)
      requires list.Valid() && call !in list.items
      modifies list`sorter
      ensures list.Valid() && (list.sorter.Some? <==> old(list.sorter.Some?))
      ensures old(list.sorter.Some? && ListInOrder(list.items, sortBy, asc))
              ==> ListInOrder(Appended(list.items, call, list.sorter), sortBy, asc)
      ensures old(list.sorter.Some?) && InFixedOrder(list.items, sortBy, asc)
              ==> InFixedOrder(Appended(list.items, call, list.sorter), sortBy, asc)
    {
      if list.sorter.Some? {
        var keys := SortKeys();
        keys := keys[call := Attribute(call, sortBy)];
        list.SetSorter(Some(SorterOf(keys, asc)));
        if ListInOrder(list.items, sortBy, asc) {
          AppendedInOrder(list.items, call, keys, sortBy, asc);
        }
        if IsFixed(sortBy) {
          FixedIsOrder(list.items, sortBy, asc);
          FixedIsOrder(Appended(list.items, call, list.sorter), sortBy, asc);
        }
      }
    }

    /** Lists an indexed call, where the sorter puts it. */
    method ListCall(call: Call, ghost all: seq<Call>)
      requires ValidAs(all) && all == list.items + [call]
      modifies this`callCountUnrotated, list, list.list
      ensures Valid() && (list.list == old(list.list) || fresh(list.list))
      ensures list.sorter.Some? <==> old(list.sorter.Some?)
      ensures list.items == Appended(old(list.items), call, list.sorter)
      ensures old(list.sorter.Some? && ListInOrder(list.items, sortBy, asc)) ==> ListInOrder(list.items, sortBy, asc)
      ensures old(list.sorter.Some?) && InFixedOrder(old(list.items), sortBy, asc) ==>
                InFixedOrder(list.items, sortBy, asc)
    {
      LastIsNew(list.items, call, all);
      RefreshSorter(call);
      ghost var r := Appended(list.items, call, list.sorter);
      SortedCallListed(list.items, call, list.sorter, lastIndex, all, r);
      AppendIndexed(call, all, r);
    }

    method AppendIndexed(call: Call, ghost all: seq<Call>, ghost r: seq<Call>)
      requires ValidAs(all) && |all| == |list.items| + 1
      requires r == Appended(list.items, call, list.sorter) && UniqueCallIds(r) && UniqueIndices(r, lastIndex)
      requires forall k :: Listed(r, k) == Listed(all, k)
      modifies this`callCountUnrotated, list, list.list
      ensures Valid() && (list.list == old(list.list) || fresh(list.list)) && list.sorter == old(list.sorter)
      ensures list.items == r && ListInOrder(r, sortBy, asc) == old(ListInOrder(r, sortBy, asc))
    {
      var _ := list.Append(Some(call));
      callCountUnrotated := callCountUnrotated + 1;
    }

    /** The other calls are as they were, and no call loses a message or changes its lock. */
    twostate predicate OthersKept(items: seq<Call>, new target: Option<Call>)
      reads items
    {
      forall i :: 0 <= i < |items| ==>
        && old(items[i].msgs) <= items[i].msgs && items[i].locked == old(items[i].locked)
        && (Some(items[i]) != target ==>
              items[i].msgs == old(items[i].msgs) && items[i].dialog == old(items[i].dialog))
    }

    /** The message went to a listed call. */
    twostate predicate Joined(items: seq<Call>, call: Call, msg: Msg)
      requires call in items
      reads this, list, items
    {
      && list.items == items
      && call.msgs == old(call.msgs) + [msg] && call.locked == old(call.locked)
    }

    /** The message opened a new call, which went into the list `room`. */
    twostate predicate Entered(room: seq<Call>, callid: CString, new call: Call, msg: Msg)
      reads this, list, call
    {
      && call.callid == callid && call.msgs == [msg] && !call.locked
      && list.items == Appended(room, call, list.sorter) && call.index == lastIndex
    }

    /** No lock changes; without a new call the list stays, and with one it is one longer
        than `room`. */
    twostate predicate CountsKept(items: seq<Call>, room: seq<Call>)
      reads this, list, list.items, items
    {
      && LockedOf(list.items) == old(LockedOf(items))
      && if lastIndex == old(lastIndex) then list.items == items
         else lastIndex == old(lastIndex) + 1 && |list.items| == |room| + 1
    }

    /** The arrays and the nodes of the store are the ones before, or new. */
    twostate predicate SameStorage()
      reads this, list, callids
    {
      && (list.list == old(list.list) || fresh(list.list))
      && (forall e :: e in callids.entries ==> e in old(callids.entries) || fresh(e))
      && (list.sorter.Some? <==> old(list.sorter.Some?))
    }

    /** A message of a listed call. */
    method CheckKnown(call: Call, msg: Msg, ghost items: seq<Call>)
      requires Valid() && list.items == items && call in items && AllTrack(items)
      modifies call, this`changed
      ensures Valid() && Joined(items, call, msg) && SameStorage()
      ensures AllTrack(list.items) && OthersKept(items, Some(call)) && CountsKept(items, items)
    {
      AddToCall(call, msg);
    }

    /** A new call leaves the listed ones alone. */
    method AdmitOnly(callid: CString, msg: Msg, ghost items: seq<Call>, ghost room: seq<Call>) returns (call: Call)
      requires Valid() && list.items == items && AllTrack(items)
      requires Listed(items, callid) == [] && room == Room(items, limit) && LockedOf(room) == LockedOf(items)
      modifies this`rotated, this`lastIndex, this`callCountUnrotated, this`changed
      modifies list, list.list, callids, callids.buckets, callids.entries
      ensures Valid() && fresh(call) && call.Tracks() && Entered(room, callid, call, msg) && SameStorage()
      ensures AllTrack(items) && OthersKept(items, None) && CountsKept(items, room)
      ensures old(list.sorter.Some?) && InFixedOrder(room, sortBy, asc) ==> InFixedOrder(list.items, sortBy, asc)
    {
      call := Admit(callid, msg, room);
    }

    /** The first message of a call that is not listed; `room` is the list that it finds. */
    method CheckUnknown(callid: CString, msg: Msg, ghost items: seq<Call>, ghost room: seq<Call>) returns (call: Call)
      requires Valid() && list.items == items && AllTrack(items)
      requires Listed(items, callid) == [] && room == Room(items, limit)
      requires (forall i :: 0 <= i < |room| ==> room[i] in items) && LockedOf(room) == LockedOf(items)
      modifies this`rotated, this`lastIndex, this`callCountUnrotated, this`changed
      modifies list, list.list, callids, callids.buckets, callids.entries
      ensures Valid() && fresh(call) && Entered(room, callid, call, msg) && SameStorage()
      ensures AllTrack(list.items) && OthersKept(items, Some(call)) && CountsKept(items, room)
      ensures old(list.sorter.Some?) && InFixedOrder(room, sortBy, asc) ==> InFixedOrder(list.items, sortBy, asc)
    {
      call := AdmitOnly(callid, msg, items, room);
      NewTracks(items, room, call, list.sorter);
    }

    /** Looks for the call of a message, and whether the store takes it. */
    method Decide(callid: CString, msg: Msg, matches: bool, ghost known: seq<Call>)
        returns (wanted: bool, found: Option<Call>)
      requires Valid() && known == Listed(list.items, callid)
      ensures wanted <==> msg.reqresp != 0 && !(known == [] && Skipped(msg, matches, onlyCalls, ignoreIncomplete))
      ensures wanted ==> found == if known == [] then None else Some(known[0])
    {
      if msg.reqresp == 0 {
        return false, None;
      }
      found := Find(callid);
      if found == None {
        if !matches || (onlyCalls && msg.reqresp != METHOD_INVITE)
           || (ignoreIncomplete && msg.reqresp > METHOD_MESSAGE) {
          return false, None;
        }
      }
      wanted := true;
    }

    /** `call` took the message: the listed call of that Call-ID, or a new one. */
    twostate predicate Taken(items: seq<Call>, room: seq<Call>, known: seq<Call>, callid: CString, new call: Call,
                             msg: Msg)
      reads this, list, items, call
    {
      if known == [] then fresh(call) && Entered(room, callid, call, msg)
      else call in items && known == [call] && Joined(items, call, msg)
    }

    /** Hands the message to the call that was found, or to a new one. */
    method Take(callid: CString, msg: Msg, found: Option<Call>, ghost items: seq<Call>, ghost room: seq<Call>,
                ghost known: seq<Call>) returns (ghost call: Call)
      requires Valid() && AllTrack(items) && items == list.items && room == Room(items, limit)
      requires known == Listed(items, callid) && found == if known == [] then None else Some(known[0])
      modifies this`rotated, this`lastIndex, this`callCountUnrotated, this`changed
      modifies list, list.list, items, callids, callids.buckets, callids.entries
      ensures Valid() && AllTrack(list.items) && SameStorage()
      ensures Taken(items, room, known, callid, call, msg) && OthersKept(items, Some(call)) && CountsKept(items, room)
      ensures old(list.sorter.Some?) && InFixedOrder(items, sortBy, asc) ==> InFixedOrder(list.items, sortBy, asc)
    {
      if found == None {
        RoomFacts(items, limit, sortBy, asc);
        call := CheckUnknown(callid, msg, items, room);
      } else {
        call := found.value;
        CheckKnown(found.value, msg, items);
      }
    }

    /** The store's part of handling a parsed message: `matches` tells whether the
        payload matched the expression the user asked for, `target` is the call
        that takes the message.  Before, `items` are listed, `known` under the Call-ID;
        a new call finds `room`. */
    method CheckPacket(callid: CString, msg: Msg, matches: bool, ghost items: seq<Call>, ghost room: seq<Call>,
                       ghost known: seq<Call>) returns (r: Option<Msg>, ghost target: Option<Call>)
      requires Valid() && AllTrack(items) && items == list.items
      requires room == Room(items, limit) && known == Listed(items, callid)
      modifies this`rotated, this`lastIndex, this`callCountUnrotated, this`changed
      modifies list, list.list, items, callids, callids.buckets, callids.entries
      ensures Valid() && AllTrack(list.items)
      ensures SameStorage()
      ensures r == if msg.reqresp == 0 || (known == [] && Skipped(msg, matches, onlyCalls, ignoreIncomplete))
                   then None else Some(msg)
      ensures r == None ==> target == None && list.items == items && lastIndex == old(lastIndex)
      ensures r.Some? ==> target.Some? && Taken(items, room, known, callid, target.value, msg)
      ensures OthersKept(items, target) && CountsKept(items, room)
      ensures old(list.sorter.Some?) && InFixedOrder(items, sortBy, asc) ==> InFixedOrder(list.items, sortBy, asc)
    {
      var wanted, found := Decide(callid, msg, matches, known);
      r, target := None, None;
      if wanted {
        ghost var call := Take(callid, msg, found, items, room, known);
        r, target := Some(msg), Some(call);
      }
    }

    // -------------------------------------------------------------------------
    // Clearing and sorting
    // -------------------------------------------------------------------------

    method Clear()
      requires Valid()
      modifies this`callids, this`cleared, list, list.list
      ensures Valid() && list.items == [] && fresh(callids) && fresh(callids.buckets) && callids.entries == {}
      ensures list.list == old(list.list) && list.sorter == old(list.sorter)
    {
      ghost var n := |list.items|;
      callids := new HashTable(limit);
      list.Clear();
      cleared := cleared + n;
    }

    /** Keeps the calls the filter shows, in a list without sorter. */
    method ClearSoft(shown: Call -> bool)
      requires Valid()
      modifies this`callids, this`list, this`cleared
      ensures Valid() && list.items == old(Filter(list.items, shown)) && list.sorter == None
      ensures fresh(callids) && fresh(callids.buckets) && fresh(callids.entries)
      ensures fresh(list) && (list.list == null || fresh(list.list))
    {
      ghost var s := list.items;
      callids := new HashTable(limit);
      list := CopyIf(list, shown);
      FilterToCalls(s, |s|, shown, lastIndex);
      cleared := cleared + |s| - |list.items|;
      Reindex();
    }

    /** Fills an empty index from the list. */
    method Reindex()
      requires list.Valid() && callids.Valid() && callids.entries == {} && (forall k :: callids.Queue(k) == [])
      requires UniqueCallIds(list.items)
      modifies callids, callids.buckets
      ensures callids.Valid() && Agrees(list.items) && fresh(callids.entries)
    {
      ghost var items := list.items;
      var i := 0;
      while i < list.count
        invariant 0 <= i <= list.count && callids.Valid() && fresh(callids.entries)
        invariant Agrees(items[..i])
      {
        var call := list.Item(i).value;
        NextListed(items, i);
        IndexNext(call, items[..i], items[..i + 1]);
        i := i + 1;
      }
      assert items[..i] == items;
    }

    method IndexNext(call: Call, ghost s: seq<Call>, ghost r: seq<Call>)
      requires callids.Valid() && Agrees(s)
      requires forall k :: Listed(r, k) == Listed(s, k) + if k == call.callid then [call] else []
      modifies callids, callids.buckets, callids.entries
      ensures callids.Valid() && Agrees(r) && fresh(callids.entries - old(callids.entries))
    {
      callids.Insert(call.callid, call);
    }

    /** Replaces the list by a clone, which its sorter puts in order. */
    method SortList()
      requires Valid()
      modifies this`list, list`sorter
      ensures Valid() && fresh(list) && (list.list == null || fresh(list.list))
      ensures multiset(list.items) == old(multiset(list.items))
      ensures old(list.sorter).Some? ==> ListInOrder(list.items, sortBy, asc)
      ensures old(list.sorter).None? ==> list.items == old(list.items)
      ensures list.sorter.Some? <==> old(list.sorter).Some?
    {
      CallsDistinct(list.items);
      RefreshForClone();
      ghost var r := AppendAll([], list.items, |list.items|, list.sorter);
      ClonedCalls(list.items, list.sorter, lastIndex, r);
      ReplaceByClone(r);
    }

    method RefreshForClone()
      requires list.Valid() && Distinct(list.items)
      modifies list`sorter
      ensures list.Valid() && (list.sorter.Some? <==> old(list.sorter.Some?))
      ensures list.sorter.Some? ==> ListInOrder(AppendAll([], list.items, |list.items|, list.sorter), sortBy, asc)
    {
      if list.sorter.Some? {
        var keys := SortKeys();
        list.SetSorter(Some(SorterOf(keys, asc)));
        AppendAllInOrder(list.items, keys, sortBy, asc);
      }
    }

    method ReplaceByClone(ghost r: seq<Call>)
      requires Valid() && r == AppendAll([], list.items, |list.items|, list.sorter) && |r| == |list.items|
      requires UniqueCallIds(r) && UniqueIndices(r, lastIndex)
      requires forall k :: Listed(r, k) == Listed(list.items, k)
      modifies this`list
      ensures Valid() && list.items == r && fresh(list) && (list.list == null || fresh(list.list))
      ensures list.sorter == old(list.sorter)
      ensures ListInOrder(r, sortBy, asc) == old(ListInOrder(r, sortBy, asc))
    {
      list := Clone(list);
    }

    method SetSortOptions(field: SortField, asc: bool)
      requires Valid()
      modifies this`list, list`sorter, this`sortBy, this`asc
      ensures Valid() && fresh(list) && (list.list == null || fresh(list.list))
      ensures sortBy == field && this.asc == asc
      ensures multiset(list.items) == old(multiset(list.items))
      ensures list.sorter.Some? <==> old(list.sorter).Some?
      ensures old(list.sorter).Some? ==> ListInOrder(list.items, sortBy, asc)
    {
      this.sortBy, this.asc := field, asc;
      SortList();
    }

    // -------------------------------------------------------------------------
    // Runs
    // -------------------------------------------------------------------------

    /** As long as there is a sorter, an attribute that never changes keeps its order. */
    ghost predicate Ordered()
      reads this, list
    {
      list.sorter.Some? && IsFixed(sortBy) ==> InFixedOrder(list.items, sortBy, asc)
    }

    /** The counts of the store. */
    ghost function Counts(): Tally
      reads this, list, list.items
    {
      Tally(|list.items|, |LockedOf(list.items)|, lastIndex, rotated, cleared)
    }

    /** The parts of the store and the listed calls are the ones before, or new. */
    twostate predicate SameParts(items: seq<Call>)
      reads this, list, callids
    {
      && (list == old(list) || fresh(list)) && (callids == old(callids) || fresh(callids))
      && (list.list == null || list.list == old(list.list) || fresh(list.list))
      && (callids.buckets == old(callids.buckets) || fresh(callids.buckets))
      && (forall e :: e in callids.entries ==> e in old(callids.entries) || fresh(e))
      && ListKept(items)
    }

    /** The listed calls are some of the ones before, or new. */
    twostate predicate ListKept(items: seq<Call>)
      reads this, list
    {
      forall i :: 0 <= i < |list.items| ==> list.items[i] in items || fresh(list.items[i])
    }

    /** Messages are only added. */
    twostate predicate HistoriesGrow(items: seq<Call>)
      reads items
    {
      forall i :: 0 <= i < |items| ==> old(items[i].msgs) <= items[i].msgs
    }

    /** The call for one message; only messages and a new call are added. */
    method TakePacket(callid: CString, msg: Msg, matches: bool, ghost items: seq<Call>, ghost room: seq<Call>)
      requires Valid() && AllTrack(items) && items == list.items && room == Room(items, limit)
      requires forall i :: 0 <= i < |room| ==> room[i] in items
      modifies this`rotated, this`lastIndex, this`callCountUnrotated, this`changed
      modifies list, list.list, items, callids, callids.buckets, callids.entries
      ensures Valid() && AllTrack(list.items) && SameStorage() && ListKept(items) && HistoriesGrow(items)
      ensures CountsKept(items, room)
      ensures old(list.sorter.Some?) && InFixedOrder(items, sortBy, asc) ==> InFixedOrder(list.items, sortBy, asc)
    {
      ghost var known := Listed(items, callid);
      var r, target := CheckPacket(callid, msg, matches, items, room, known);
      if target.Some? && known == [] {
        NewListed(items, room, target.value, list.sorter);
      }
    }

    /** The same with the counts. */
    method TakeCounted(callid: CString, msg: Msg, matches: bool, ghost items: seq<Call>, ghost room: seq<Call>,
                       ghost t: Tally)
      requires Valid() && AllTrack(items) && items == list.items && room == Room(items, limit) && t == Counts()
      requires forall i :: 0 <= i < |room| ==> room[i] in items
      requires |room| == if t.listed == limit && t.locked < t.listed then t.listed - 1 else t.listed
      modifies this`rotated, this`lastIndex, this`callCountUnrotated, this`changed
      modifies list, list.list, items, callids, callids.buckets, callids.entries
      ensures Valid() && AllTrack(list.items) && SameStorage() && ListKept(items) && HistoriesGrow(items)
      ensures MessageCounted(limit, t, Counts())
      ensures old(list.sorter.Some?) && InFixedOrder(items, sortBy, asc) ==> InFixedOrder(list.items, sortBy, asc)
    {
      TakePacket(callid, msg, matches, items, room);
      NewCallCounted(limit, t, Counts(), |room|);
    }

    method Arrive(callid: CString, msg: Msg, matches: bool, ghost items: seq<Call>, ghost t: Tally)
      requires Valid() && AllTrack(items) && Ordered() && items == list.items && t == Counts()
      modifies this`rotated, this`lastIndex, this`callCountUnrotated, this`changed
      modifies list, list.list, items, callids, callids.buckets, callids.entries
      ensures Valid() && AllTrack(list.items) && Ordered() && SameParts(items) && HistoriesGrow(items)
      ensures MessageCounted(limit, t, Counts())
    {
      ghost var room := Room(items, limit);
      RoomFacts(items, limit, sortBy, asc);
      RoomCount(items, limit, room);
      TakeCounted(callid, msg, matches, items, room, t);
    }

    method RotateTo(ghost items: seq<Call>, ghost rest: seq<Call>)
      requires Valid() && AllTrack(items) && items == list.items && rest == WithoutVictim(items)
      requires forall i :: 0 <= i < |rest| ==> rest[i] in items
      requires list.sorter.Some? && IsFixed(sortBy) ==> InFixedOrder(rest, sortBy, asc)
      modifies this`rotated, list, list.list, callids, callids.buckets, callids.entries
      ensures Valid() && AllTrack(rest) && Ordered() && SameParts(items) && HistoriesGrow(items)
      ensures list.items == rest && LockedOf(rest) == old(LockedOf(rest))
    {
      Rotate();
    }

    method RotateOnce(ghost items: seq<Call>, ghost t: Tally)
      requires Valid() && AllTrack(items) && Ordered() && items == list.items && t == Counts()
      modifies this`rotated, list, list.list, callids, callids.buckets, callids.entries
      ensures Valid() && AllTrack(list.items) && Ordered() && SameParts(items) && HistoriesGrow(items)
      ensures Counts() == Rotated(t)
    {
      RoomFacts(items, |items|, sortBy, asc);
      CallsDistinct(items);
      WithoutVictimCount(items);
      RotateTo(items, Room(items, |items|));
    }

    method ClearAll(ghost items: seq<Call>, ghost t: Tally)
      requires Valid() && items == list.items && t == Counts()
      modifies this`callids, this`cleared, list, list.list
      ensures Valid() && AllTrack(list.items) && Ordered() && SameParts(items) && HistoriesGrow(items)
      ensures Counts() == t.(listed := 0, locked := 0, cleared := t.cleared + t.listed)
    {
      Clear();
    }

    method KeepShown(shown: Call -> bool, ghost items: seq<Call>, ghost t: Tally)
      requires Valid() && AllTrack(items) && items == list.items && t == Counts()
      modifies this`callids, this`list, this`cleared
      ensures Valid() && AllTrack(list.items) && Ordered() && SameParts(items) && HistoriesGrow(items)
      ensures SomeCleared(t, Counts())
    {
      FilterToCalls(items, |items|, shown, lastIndex);
      FilterLocks(items, shown);
      ClearSoft(shown);
    }

    method SortBy(field: SortField, asc: bool, ghost items: seq<Call>, ghost t: Tally)
      requires Valid() && AllTrack(items) && items == list.items && t == Counts()
      modifies this`list, list`sorter, this`sortBy, this`asc
      ensures Valid() && AllTrack(list.items) && Ordered() && SameParts(items) && HistoriesGrow(items)
      ensures Counts() == t
    {
      SetSortOptions(field, asc);
      SameItems(items, list.items);
      FixedIsOrder(list.items, field, asc);
    }

    /** A group locks its calls, and unlocks the ones it lets go. */
    method SetLock(i: nat, lock: bool, ghost items: seq<Call>, ghost t: Tally)
      requires Valid() && AllTrack(items) && Ordered() && items == list.items && t == Counts()
      modifies items
      ensures Valid() && AllTrack(list.items) && Ordered() && SameParts(items) && HistoriesGrow(items)
      ensures OneLocked(lock, t, Counts()) && list.items == items && (i < |items| ==> items[i].locked == lock)
    {
      if i < list.count {
        var call := list.Item(i).value;
        LockOne(call, lock, items, LockedOf(items));
      }
    }

    static method LockOne(call: Call, lock: bool, ghost items: seq<Call>, ghost locked: set<Call>)
      requires call in items && locked == LockedOf(items) && AllTrack(items)
      modifies call`locked
      ensures AllTrack(items) && call.locked == lock
      ensures if lock then |locked| <= |LockedOf(items)| <= |locked| + 1
              else |LockedOf(items)| <= |locked| <= |LockedOf(items)| + 1
    {
      call.locked := lock;
      OneMoreOrLess(locked, call);
      assert LockedOf(items) == if lock then locked + {call} else locked - {call};
    }

    method Apply(op: Op, ghost items: seq<Call>, ghost t: Tally)
      requires Valid() && AllTrack(items) && Ordered() && items == list.items && t == Counts()
      modifies this, list, list.list, items, callids, callids.buckets, callids.entries
      ensures Valid() && AllTrack(list.items) && Ordered() && SameParts(items) && HistoriesGrow(items)
      ensures Counted(op, limit, t, Counts())
    {
      match op
      case Message(callid, msg, matches) => Arrive(callid, msg, matches, items, t);
      case RotateList => RotateOnce(items, t);
      case ClearList => ClearAll(items, t);
      case ClearHidden(shown) => KeepShown(shown, items, t);
      case SortList(field, asc) => SortBy(field, asc, items, t);
      case Lock(i, lock) => SetLock(i, lock, items, t);
    }

    /** A step, seen by calls that had the messages `history` earlier, listed or not. */
    method ApplyAfter(op: Op, ghost items: seq<Call>, ghost before: seq<Call>, ghost history: seq<seq<Msg>>,
                      ghost t: Tally) returns (ghost u: Tally)
      requires Valid() && AllTrack(items) && Ordered() && items == list.items && Remember(before, history)
      requires t == Counts()
      modifies this, list, list.list, items, callids, callids.buckets, callids.entries
      ensures Valid() && AllTrack(list.items) && Ordered() && SameParts(items) && Remember(before, history)
      ensures u == Counts() && AddsUp(u) && Counted(op, limit, t, u)
    {
      Apply(op, items, t);
      u := Counts();
      CallsDistinct(list.items);
      LockedCount(list.items);
      forall i | 0 <= i < |before|
        ensures history[i] <= before[i].msgs
      {
        if before[i] in items {
          assert old(before[i].msgs) <= before[i].msgs;
        }
      }
    }

    ghost predicate Accounts(ops: seq<Op>, n: nat, counts: seq<Tally>, t: Tally)
      reads this, list, list.items
    {
      n <= |ops| && AccountTo(ops, n, limit, counts) && counts[0] == t && counts[n] == Counts()
    }

    /** In every run the index stands for the list, the dialogs are where the messages
        have brought them, a call keeps its messages, and an order by an attribute that
        never changes stays.  `counts` are the counts before and after every operation. */
    method Run(ops: seq<Op>) returns (ghost counts: seq<Tally>)
      requires Valid() && AllTrack(list.items) && Ordered()
      modifies this, list, list.list, list.items, callids, callids.buckets, callids.entries
      ensures Valid() && AllTrack(list.items) && Ordered()
      ensures SameParts(old(list.items)) && HistoriesGrow(old(list.items))
      ensures Account(ops, limit, counts) && counts[0] == old(Counts()) && counts[|ops|] == Counts()
    {
      ghost var before, t := list.items, Counts();
      ghost var history := seq(|before|, i requires 0 <= i < |before| reads before => before[i].msgs);
      CallsDistinct(list.items);
      LockedCount(list.items);
      counts := [t];
      var i := 0;
      while i < |ops|
        invariant 0 <= i <= |ops| && Valid() && AllTrack(list.items) && Ordered()
        invariant SameParts(before) && Remember(before, history) && Accounts(ops, i, counts, t)
      {
        ghost var u := ApplyAfter(ops[i], list.items, before, history, counts[i]);
        AccountMore(ops, i, limit, counts, u);
        counts := counts + [u];
        i := i + 1;
      }
    }
  }

  ghost predicate Remember(calls: seq<Call>, history: seq<seq<Msg>>)
    reads calls
  {
    |history| == |calls| && forall i :: 0 <= i < |calls| ==> history[i] <= calls[i].msgs
  }

  lemma OneMoreOrLess(locked: set<Call>, call: Call)
    ensures |locked| <= |locked + {call}| <= |locked| + 1
    ensures |locked - {call}| <= |locked| <= |locked - {call}| + 1
  {
    if call in locked {
      assert locked + {call} == locked && locked - {call} + {call} == locked;
    } else {
      assert locked - {call} == locked;
    }
  }

  lemma SameItems(a: seq<Call>, b: seq<Call>)
    requires multiset(a) == multiset(b)
    ensures |a| == |b| && (forall i :: 0 <= i < |b| ==> b[i] in a) && LockedOf(a) == LockedOf(b)
  {
    assert |multiset(a)| == |a| && |multiset(b)| == |b|;
    assert forall c :: c in a <==> c in multiset(a);
    assert forall c :: c in b <==> c in multiset(b);
  }

  lemma NextListed(s: seq<Call>, i: nat)
    requires i < |s| && UniqueCallIds(s)
    ensures forall k :: Listed(s[..i + 1], k) == Listed(s[..i], k) + if k == s[i].callid then [s[i]] else []
  {
    var a, b, call := s[..i], s[..i + 1], s[i];
    assert b == a + [call];
    assert forall j :: 0 <= j < i ==> a[j] == s[j] && s[j].callid != call.callid;
    OneMoreMembers(b, a, i, call);
    forall k {
      ListedAfterAppend(a, b, call, k);
    }
  }

  lemma CallsDistinct(s: seq<Call>)
    requires UniqueCallIds(s)
    ensures Distinct(s)
  {
  }

  /** A clone lists the same calls, so the index stands. */
  lemma ClonedCalls(s: seq<Call>, sorter: Option<(Call, Call) -> bool>, last: nat, r: seq<Call>)
    requires UniqueCallIds(s) && UniqueIndices(s, last) && r == AppendAll([], s, |s|, sorter)
    ensures UniqueCallIds(r) && UniqueIndices(r, last)
    ensures forall k :: Listed(r, k) == Listed(s, k)
    ensures multiset(r) == multiset(s)
    ensures sorter.None? ==> r == s
  {
    AppendAllCalls(s, |s|, sorter, last);
    assert s[..|s|] == s;
    forall k {
      SameMembersListed(r, s, k);
    }
    if sorter.None? {
      AppendAllUnsorted([], s, |s|);
    } else {
      PlaceAllPermutes(s, sorter.value);
    }
  }

  /** A message of an unknown call is passed over. */
  predicate Skipped(msg: Msg, matches: bool, onlyCalls: bool, ignoreIncomplete: bool) {
    || !matches
    || (onlyCalls && msg.reqresp != METHOD_INVITE)
    || (ignoreIncomplete && msg.reqresp > METHOD_MESSAGE)
  }

  ghost predicate AllTrack(list: seq<Call>)
    reads list
  {
    forall i :: 0 <= i < |list| ==> list[i].Tracks()
  }

  lemma RoomFacts(list: seq<Call>, limit: nat, field: SortField, asc: bool)
    ensures forall i :: 0 <= i < |Room(list, limit)| ==> Room(list, limit)[i] in list
    ensures LockedOf(Room(list, limit)) == LockedOf(list)
    ensures InFixedOrder(list, field, asc) ==> InFixedOrder(Room(list, limit), field, asc)
  {
    WithoutVictimLocks(list);
    if InFixedOrder(list, field, asc) {
      RoomInOrder(list, limit, field, asc);
    }
  }

  lemma NewTracks(items: seq<Call>, room: seq<Call>, call: Call, sorter: Option<(Call, Call) -> bool>)
    requires AllTrack(items) && call.Tracks() && forall i :: 0 <= i < |room| ==> room[i] in items
    ensures AllTrack(Appended(room, call, sorter))
  {
    AppendedListed(room, call, sorter);
  }

  lemma AppendedListed(s: seq<Call>, call: Call, sorter: Option<(Call, Call) -> bool>)
    ensures forall i :: 0 <= i < |Appended(s, call, sorter)| ==>
              Appended(s, call, sorter)[i] == call || Appended(s, call, sorter)[i] in s
  {
    var r := Appended(s, call, sorter);
    var p := AppendedShape(s, call, sorter);
    assert forall i :: 0 <= i < |r| ==> r[i] == if i < p then s[i] else if i == p then call else s[i - 1];
  }

  lemma NewListed(items: seq<Call>, room: seq<Call>, call: Call, sorter: Option<(Call, Call) -> bool>)
    requires forall i :: 0 <= i < |room| ==> room[i] in items
    ensures forall i :: 0 <= i < |Appended(room, call, sorter)| ==>
              Appended(room, call, sorter)[i] in items || Appended(room, call, sorter)[i] == call
  {
    AppendedListed(room, call, sorter);
  }

  /** A new call adds no lock. */
  lemma NewUnlocked(room: seq<Call>, call: Call, sorter: Option<(Call, Call) -> bool>)
    requires !call.locked
    ensures LockedOf(Appended(room, call, sorter)) == LockedOf(room)
  {
    var r := Appended(room, call, sorter);
    var p := AppendedShape(room, call, sorter);
    OneMoreMembers(r, room, p, call);
    assert forall c :: c in r <==> c in Members(r);
    assert forall c :: c in room <==> c in Members(room);
  }

  lemma LastIsNew(s: seq<Call>, call: Call, all: seq<Call>)
    requires all == s + [call] && UniqueCallIds(all)
    ensures call !in s
  {
    assert all[|s|] == call;
    assert forall i :: 0 <= i < |s| ==> s[i] == all[i];
  }

  /** A call with a new Call-ID and the next index at the end of the list. */
  lemma NewCallListed(s: seq<Call>, call: Call, last: nat, all: seq<Call>)
    requires UniqueCallIds(s) && UniqueIndices(s, last) && call.index == last + 1
    requires Listed(s, call.callid) == [] && all == s + [call]
    ensures UniqueCallIds(all) && UniqueIndices(all, last + 1)
    ensures forall k :: Listed(all, k) == Listed(s, k) + if k == call.callid then [call] else []
  {
    AppendedCalls(s, call, None, last + 1);
    forall k {
      ListedAfterAppend(s, all, call, k);
    }
  }

  /** The sorter's choice of a place is nothing to the search. */
  lemma SortedCallListed(s: seq<Call>, call: Call, sorter: Option<(Call, Call) -> bool>, last: nat,
                         all: seq<Call>, r: seq<Call>)
    requires UniqueCallIds(all) && UniqueIndices(all, last) && all == s + [call] && r == Appended(s, call, sorter)
    ensures UniqueCallIds(r) && UniqueIndices(r, last)
    ensures forall k :: Listed(r, k) == Listed(all, k)
  {
    assert forall i :: 0 <= i < |s| ==> s[i] == all[i];
    assert all[|s|] == call;
    AppendedCalls(s, call, sorter, last);
    AppendedCalls(s, call, None, last);
    forall k {
      SameMembersListed(r, all, k);
    }
  }

  lemma SameMembersListed(a: seq<Call>, b: seq<Call>, k: CString)
    requires UniqueCallIds(a) && UniqueCallIds(b) && Members(a) == Members(b)
    ensures Listed(a, k) == Listed(b, k)
  {
    assert forall i :: 0 <= i < |a| ==> a[i] in Members(a);
    assert forall i :: 0 <= i < |b| ==> b[i] in Members(b);
    ListedSame(a, b, k);
  }

  // ---------------------------------------------------------------------------
  // The sorter keeps the order
  // ---------------------------------------------------------------------------

  /** The listed calls are in the order of the sort options. */
  ghost predicate ListInOrder(list: seq<Call>, field: SortField, asc: bool)
    reads list
  {
    forall i, j :: 0 <= i < j < |list| ==> InOrder(Attribute(list[i], field), Attribute(list[j], field), asc)
  }

  /** The attributes that never change once a call is created. */
  predicate IsFixed(field: SortField) {
    field in {ByIndex, ByCallId}
  }

  function FixedAttribute(call: Call, field: SortField): Attr {
    if field == ByCallId then Text(call.callid) else Number(call.index)
  }

  /** The calls are in the order of an attribute that never changes. */
  ghost predicate InFixedOrder(list: seq<Call>, field: SortField, asc: bool) {
    IsFixed(field)
    && forall i, j :: 0 <= i < j < |list| ==>
         InOrder(FixedAttribute(list[i], field), FixedAttribute(list[j], field), asc)
  }

  lemma FixedIsOrder(list: seq<Call>, field: SortField, asc: bool)
    ensures IsFixed(field) ==> (InFixedOrder(list, field, asc) <==> ListInOrder(list, field, asc))
  {
    assert IsFixed(field) ==>
             forall i :: 0 <= i < |list| ==> FixedAttribute(list[i], field) == Attribute(list[i], field);
  }

  /** Rotation keeps a list in order. */
  lemma RoomInOrder(list: seq<Call>, limit: nat, field: SortField, asc: bool)
    requires InFixedOrder(list, field, asc)
    ensures InFixedOrder(Room(list, limit), field, asc)
  {
    var v, r := VictimFrom(list, 0), Room(list, limit);
    assert |list| == limit && v < |list| ==> forall i :: 0 <= i < |r| ==> r[i] == list[if i < v then i else i + 1];
  }

  /** `keys` holds the current attribute of every call in `list`. */
  ghost predicate KeysOf(keys: map<Call, Attr>, list: seq<Call>, field: SortField)
    reads list
  {
    forall i :: 0 <= i < |list| ==> list[i] in keys && keys[list[i]] == Attribute(list[i], field)
  }

  lemma OrderLaws(a: Attr, b: Attr, c: Attr, asc: bool)
    ensures InOrder(a, b, asc) || InOrder(b, a, asc)
    ensures InOrder(a, b, asc) && InOrder(b, c, asc) ==> InOrder(a, c, asc)
    ensures Beyond(a, b, asc) <==> !InOrder(a, b, asc)
  {
    AttrCompareOrders(a, b, c);
    AttrCompareOrders(c, b, a);
    AttrCompareOrders(a, c, b);
  }

  lemma SorterFollowsOrder(keys: map<Call, Attr>, asc: bool, u: set<Call>)
    ensures TotalPreorder(OrderOf(keys, asc), u) && Follows(SorterOf(keys, asc), OrderOf(keys, asc), u)
  {
    forall a: Attr, b: Attr, c: Attr
      ensures InOrder(a, b, asc) || InOrder(b, a, asc)
      ensures InOrder(a, b, asc) && InOrder(b, c, asc) ==> InOrder(a, c, asc)
      ensures Beyond(a, b, asc) <==> !InOrder(a, b, asc)
    {
      OrderLaws(a, b, c, asc);
    }
  }

  /** A sorted append keeps a list that is in order in order. */
  lemma AppendedInOrder(s: seq<Call>, call: Call, keys: map<Call, Attr>, field: SortField, asc: bool)
    requires ListInOrder(s, field, asc) && call !in s
    requires KeysOf(keys, s, field) && call in keys && keys[call] == Attribute(call, field)
    ensures ListInOrder(Appended(s, call, Some(SorterOf(keys, asc))), field, asc)
  {
    var sorter := SorterOf(keys, asc);
    var r := Appended(s, call, Some(sorter));
    var u := Members(s) + {call};
    SorterFollowsOrder(keys, asc, u);
    PlaceKeepsSorted(s, call, sorter, OrderOf(keys, asc), u);
    KeysOfAppended(s, call, keys, field, Some(sorter));
  }

  lemma KeysOfAppended(s: seq<Call>, call: Call, keys: map<Call, Attr>, field: SortField,
                       sorter: Option<(Call, Call) -> bool>)
    requires KeysOf(keys, s, field) && call in keys && keys[call] == Attribute(call, field)
    ensures KeysOf(keys, Appended(s, call, sorter), field)
  {
    var r := Appended(s, call, sorter);
    var p := AppendedShape(s, call, sorter);
    assert forall i :: 0 <= i < |r| ==> r[i] == if i < p then s[i] else if i == p then call else s[i - 1];
  }

  /** Cloning the list through its sorter puts any list in order. */
  lemma AppendAllInOrder(s: seq<Call>, keys: map<Call, Attr>, field: SortField, asc: bool)
    requires Distinct(s) && KeysOf(keys, s, field)
    ensures ListInOrder(AppendAll([], s, |s|, Some(SorterOf(keys, asc))), field, asc)
  {
    var sorter := SorterOf(keys, asc);
    SorterFollowsOrder(keys, asc, Members(s));
    PlaceAllSorts(s, sorter, OrderOf(keys, asc), Members(s));
    PlaceAllMembers(s, sorter);
    OrderedKeys(AppendAll([], s, |s|, Some(sorter)), keys, field, asc);
  }

  lemma OrderedKeys(r: seq<Call>, keys: map<Call, Attr>, field: SortField, asc: bool)
    requires KeysOf(keys, r, field) && Sorted(r, OrderOf(keys, asc))
    ensures ListInOrder(r, field, asc)
  {
  }

  // ---------------------------------------------------------------------------
  // What the order and the tests mean
  // ---------------------------------------------------------------------------

  /** The first call's value is the smaller one. */
  ghost predicate Before(one: Call, two: Call, field: SortField)
    reads one, two
  {
    match field
    case ByIndex => one.index < two.index
    case ByMsgCount => |one.msgs| < |two.msgs|
    case ByCallId => Precedes(one.callid, two.callid)
    case ByState => Rank(one.dialog.state) < Rank(two.dialog.state)
  }

  /** A list is in order exactly when no call comes before one that it should follow: in an
      ascending list, one with a smaller value, in a descending one, one with a greater. */
  lemma OrderMeans(list: seq<Call>, field: SortField, asc: bool)
    ensures ListInOrder(list, field, asc) <==>
              forall i, j :: 0 <= i < j < |list| ==>
                if asc then !Before(list[j], list[i], field) else !Before(list[i], list[j], field)
  {
    forall i, j | 0 <= i < j < |list|
      ensures InOrder(Attribute(list[i], field), Attribute(list[j], field), asc) <==>
              if asc then !Before(list[j], list[i], field) else !Before(list[i], list[j], field)
    {
      PairMeans(list[i], list[j], field);
    }
  }

  lemma PairMeans(one: Call, two: Call, field: SortField)
    ensures AttrCompare(Attribute(one, field), Attribute(two, field)) < 0 <==> Before(one, two, field)
    ensures AttrCompare(Attribute(one, field), Attribute(two, field)) > 0 <==> Before(two, one, field)
  {
    AttrCompareExactly(Attribute(one, field), Attribute(two, field));
    if field == ByState {
      StateOrder(one.dialog.state, two.dialog.state);
      StateOrder(two.dialog.state, one.dialog.state);
      AttrCompareOrders(Attribute(one, field), Attribute(two, field), Number(0));
    }
  }

  /** Which messages may open a call: an INVITE (2), when only calls are wanted; a request
      that can begin a dialog (up to 11), when incomplete dialogs are not. */
  lemma SkippedExactly(msg: Msg, matches: bool, onlyCalls: bool, ignoreIncomplete: bool)
    ensures Skipped(msg, matches, onlyCalls, ignoreIncomplete) <==>
            !(matches && (!onlyCalls || msg.reqresp == 2) && (!ignoreIncomplete || msg.reqresp <= 11))
  {
  }
}
