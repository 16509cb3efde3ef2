/** What the counts of a call store say after a run (src/sip.c): which calls are where, and
    when the list outgrows its limit. */
module CallRuns {
  import opened Common
  import opened Vectors
  import opened Calls
  import opened CallStores

  // ---------------------------------------------------------------------------
  // Every call is accounted for
  // ---------------------------------------------------------------------------

  predicate Clears(op: Op) {
    op.ClearList? || op.ClearHidden?
  }

  /** Without clears, every call that was created since is listed or was rotated away. */
  lemma {:induction false} NoCallIsLost(ops: seq<Op>, limit: nat, counts: seq<Tally>, n: nat)
    requires Account(ops, limit, counts) && n <= |ops| && forall i :: 0 <= i < n ==> !Clears(ops[i])
    ensures counts[n].cleared == counts[0].cleared
    ensures counts[n].created - counts[0].created
         == (counts[n].listed - counts[0].listed) + (counts[n].rotated - counts[0].rotated)
  {
    if n > 0 {
      NoCallIsLost(ops, limit, counts, n - 1);
      assert Counted(ops[n - 1], limit, counts[n - 1], counts[n]);
    }
  }

  // ---------------------------------------------------------------------------
  // The limit
  // ---------------------------------------------------------------------------

  /** A new call comes while the list is full of locked calls. */
  predicate Jams(limit: nat, t: Tally, u: Tally) {
    t.created < u.created && t.listed == t.locked == limit
  }

  /** An operation takes the list beyond its limit exactly when it jams. */
  lemma OutgrowsExactly(ops: seq<Op>, limit: nat, counts: seq<Tally>, i: nat)
    requires Account(ops, limit, counts) && i < |ops|
    ensures counts[i].listed <= limit < counts[i + 1].listed <==> Jams(limit, counts[i], counts[i + 1])
  {
    assert Counted(ops[i], limit, counts[i], counts[i + 1]);
    assert AddsUp(counts[i]);
  }

  ghost predicate Within(limit: nat, counts: seq<Tally>, n: nat)
    requires n < |counts|
  {
    forall i :: 0 <= i <= n ==> counts[i].listed <= limit
  }

  lemma WithinStep(limit: nat, counts: seq<Tally>, n: nat)
    requires n + 1 < |counts|
    ensures Within(limit, counts, n + 1) <==> Within(limit, counts, n) && counts[n + 1].listed <= limit
  {
  }

  /** A list that starts within its limit stays there exactly when nothing jams. */
  lemma {:induction false} WithinExactly(ops: seq<Op>, limit: nat, counts: seq<Tally>, n: nat)
    requires Account(ops, limit, counts) && n <= |ops| && counts[0].listed <= limit
    ensures Within(limit, counts, n) <==> forall i :: 0 <= i < n ==> !Jams(limit, counts[i], counts[i + 1])
  {
    if n > 0 {
      WithinExactly(ops, limit, counts, n - 1);
      OutgrowsExactly(ops, limit, counts, n - 1);
      WithinStep(limit, counts, n - 1);
    }
  }

  /** Operation `k` jammed, and none since has brought the list back. */
  ghost predicate BeyondSince(limit: nat, counts: seq<Tally>, k: nat, n: nat)
    requires k < n < |counts|
  {
    Jams(limit, counts[k], counts[k + 1]) && forall i :: k < i <= n ==> counts[i].listed > limit
  }

  lemma BeyondStep(ops: seq<Op>, limit: nat, counts: seq<Tally>, k: nat, n: nat)
    requires Account(ops, limit, counts) && k < n < |ops|
    ensures BeyondSince(limit, counts, k, n + 1) <==> BeyondSince(limit, counts, k, n) && counts[n + 1].listed > limit
  {
  }

  /** The list is beyond its limit in the end exactly when some operation jammed and none
      since has brought it back. */
  lemma {:induction false} BeyondExactly(ops: seq<Op>, limit: nat, counts: seq<Tally>, n: nat)
    requires Account(ops, limit, counts) && n <= |ops| && counts[0].listed <= limit
    ensures counts[n].listed > limit <==> exists k :: 0 <= k < n && BeyondSince(limit, counts, k, n)
  {
    if counts[n].listed > limit {
      BeyondExactly(ops, limit, counts, n - 1);
      OutgrowsExactly(ops, limit, counts, n - 1);
      if counts[n - 1].listed > limit {
        var k :| 0 <= k < n - 1 && BeyondSince(limit, counts, k, n - 1);
        BeyondStep(ops, limit, counts, k, n - 1);
      } else {
        assert BeyondSince(limit, counts, n - 1, n);
      }
    }
  }

  predicate OnlyAdds(op: Op) {
    op.Message? || op.SortList? || op.Lock?
  }

  /** A list beyond its limit is not rotated any more: every new call makes it longer,
      locked calls or not, until the user rotates or clears it. */
  lemma {:induction false} BeyondGrows(ops: seq<Op>, limit: nat, counts: seq<Tally>, i: nat, n: nat)
    requires Account(ops, limit, counts) && i <= n <= |ops| && counts[i].listed > limit
    requires forall k :: i <= k < n ==> OnlyAdds(ops[k])
    ensures counts[n].listed - counts[i].listed == counts[n].created - counts[i].created
    ensures counts[n].rotated == counts[i].rotated && counts[n].created >= counts[i].created
  {
    if i < n {
      BeyondGrows(ops, limit, counts, i, n - 1);
      assert Counted(ops[n - 1], limit, counts[n - 1], counts[n]);
    }
  }

  /** How many of the first `n` operations lock a call. */
  function NewLocks(ops: seq<Op>, n: nat): nat
    requires n <= |ops|
  {
    if n == 0 then 0 else NewLocks(ops, n - 1) + if ops[n - 1].Lock? && ops[n - 1].lock then 1 else 0
  }

  lemma {:induction false} LocksBound(ops: seq<Op>, limit: nat, counts: seq<Tally>, n: nat)
    requires Account(ops, limit, counts) && n <= |ops|
    ensures counts[n].locked <= counts[0].locked + NewLocks(ops, n)
  {
    if n > 0 {
      LocksBound(ops, limit, counts, n - 1);
      assert Counted(ops[n - 1], limit, counts[n - 1], counts[n]);
    }
  }

  lemma {:induction false} NewLocksGrow(ops: seq<Op>, m: nat, n: nat)
    requires m <= n <= |ops|
    ensures NewLocks(ops, m) <= NewLocks(ops, n)
  {
    if m < n {
      NewLocksGrow(ops, m, n - 1);
    }
  }

  /** With fewer locks than the limit, the list stays within it. */
  lemma FewLocksAreSafe(ops: seq<Op>, limit: nat, counts: seq<Tally>, n: nat)
    requires Account(ops, limit, counts) && n <= |ops| && counts[0].listed <= limit
    requires counts[0].locked + NewLocks(ops, n) < limit
    ensures Within(limit, counts, n)
  {
    forall i | 0 <= i < n
      ensures !Jams(limit, counts[i], counts[i + 1])
    {
      LocksBound(ops, limit, counts, i);
      NewLocksGrow(ops, i, n);
    }
    WithinExactly(ops, limit, counts, n);
  }

  // ---------------------------------------------------------------------------
  // A session
  // ---------------------------------------------------------------------------

  /** A run on a new store: with fewer locks than the limit, its list is within the limit;
      without clears, every call is listed or was rotated away. */
  method Session(limit: nat, onlyCalls: bool, ignoreIncomplete: bool, ops: seq<Op>) returns (store: CallStore)
    requires limit >= 1
    ensures store.Valid() && AllTrack(store.list.items) && store.Ordered() && store.limit == limit
    ensures NewLocks(ops, |ops|) < limit ==> |store.list.items| <= limit
    ensures (forall i :: 0 <= i < |ops| ==> !Clears(ops[i])) ==>
              store.callCountUnrotated == |store.list.items| + store.rotated
  {
    store := new CallStore(limit, onlyCalls, ignoreIncomplete);
    ghost var counts := store.Run(ops);
    if NewLocks(ops, |ops|) < limit {
      FewLocksAreSafe(ops, limit, counts, |ops|);
    }
    if forall i :: 0 <= i < |ops| ==> !Clears(ops[i]) {
      NoCallIsLost(ops, limit, counts, |ops|);
    }
  }

  /** A new store of limit one: a call, a lock, and another call take it beyond its limit. */
  method JamFromNew(a: CString, b: CString, m: Msg) returns (store: CallStore)
    requires a != b && m.reqresp == METHOD_INVITE
    ensures store.Valid() && store.limit == 1 && |store.list.items| == 2
  {
    store := new CallStore(1, false, false);
    ghost var call := FirstCall(store, a, m);
    store.SetLock(0, true, [call], store.Counts());
    SecondCall(store, call, b, m);
  }

  method FirstCall(store: CallStore, a: CString, m: Msg) returns (ghost call: Call)
    requires store.Valid() && store.limit == 1 && store.list.items == [] && m.reqresp == METHOD_INVITE
    requires !store.ignoreIncomplete && store.Ordered()
    modifies store, store.list, store.list.list, store.callids, store.callids.buckets, store.callids.entries
    ensures store.Valid() && store.list.items == [call] && AllTrack([call]) && call.callid == a && store.Ordered()
    ensures store.list == old(store.list) && store.callids == old(store.callids) && fresh(call)
    ensures store.SameStorage()
  {
    var _, target := store.CheckPacket(a, m, true, [], [], []);
    call := target.value;
    assert store.list.items == [call];
  }

  method SecondCall(store: CallStore, ghost call: Call, b: CString, m: Msg)
    requires store.Valid() && store.limit == 1 && store.list.items == [call] && m.reqresp == METHOD_INVITE
    requires AllTrack([call]) && call.locked && call.callid != b && !store.ignoreIncomplete
    modifies store, store.list, store.list.list, call, store.callids, store.callids.buckets, store.callids.entries
    ensures store.Valid() && |store.list.items| == 2
  {
    assert PositionTo([call], 1, b) == -1;
    var _, target := store.CheckPacket(b, m, true, [call], [call], []);
  }
}
