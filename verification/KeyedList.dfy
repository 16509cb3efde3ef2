/** Lists that hold at most one item per key: what both reassemblers keep of unfinished
    packets. */
module KeyedLists {
  import opened Common

  /** The position of the first item with `key` at or behind `from`, or -1. */
  function FindFrom<T, K(==)>(ps: seq<T>, keyOf: T -> K, key: K, from: nat): (i: int)
    requires from <= |ps|
    ensures i == -1 || from <= i < |ps|
    ensures i >= 0 ==> keyOf(ps[i]) == key && forall j :: from <= j < i ==> keyOf(ps[j]) != key
    ensures i == -1 ==> forall j :: from <= j < |ps| ==> keyOf(ps[j]) != key
    decreases |ps| - from
  {
    if from == |ps| then -1 else if keyOf(ps[from]) == key then from else FindFrom(ps, keyOf, key, from + 1)
  }

  /** The position of the first item with `key`, or -1. */
  function Find<T, K(==)>(ps: seq<T>, keyOf: T -> K, key: K): (i: int)
    ensures -1 <= i < |ps|
    ensures i >= 0 ==> keyOf(ps[i]) == key
    ensures i == -1 ==> forall j :: 0 <= j < |ps| ==> keyOf(ps[j]) != key
  {
    FindFrom(ps, keyOf, key, 0)
  }

  /** Where an item with `key` is or goes. */
  function PlaceOf<T, K(==)>(ps: seq<T>, keyOf: T -> K, key: K): nat {
    var f := Find(ps, keyOf, key);
    if f >= 0 then f else |ps|
  }

  /** The item takes the place of the one with its key, or goes to the end. */
  function Put<T, K(==)>(ps: seq<T>, keyOf: T -> K, p: T): seq<T> {
    var i := Find(ps, keyOf, keyOf(p));
    if i >= 0 then ps[i := p] else ps + [p]
  }

  function Drop<T, K(==)>(ps: seq<T>, keyOf: T -> K, key: K): seq<T> {
    var i := Find(ps, keyOf, key);
    if i >= 0 then ps[..i] + ps[i + 1..] else ps
  }

  function Lookup<T, K(==)>(ps: seq<T>, keyOf: T -> K, key: K): Option<T> {
    var i := Find(ps, keyOf, key);
    if i == -1 then None else Some(ps[i])
  }

  ghost predicate UniqueKeys<T, K>(ps: seq<T>, keyOf: T -> K) {
    forall i, j :: 0 <= i < j < |ps| ==> keyOf(ps[i]) != keyOf(ps[j])
  }

  lemma LookupIs<T, K>(ps: seq<T>, keyOf: T -> K, i: nat)
    requires UniqueKeys(ps, keyOf) && i < |ps|
    ensures Lookup(ps, keyOf, keyOf(ps[i])) == Some(ps[i])
  {
    var j := Find(ps, keyOf, keyOf(ps[i]));
    assert i == j;
  }

  lemma PutLookup<T, K>(ps: seq<T>, keyOf: T -> K, p: T, key: K)
    requires UniqueKeys(ps, keyOf)
    ensures UniqueKeys(Put(ps, keyOf, p), keyOf)
    ensures Lookup(Put(ps, keyOf, p), keyOf, key) == if key == keyOf(p) then Some(p) else Lookup(ps, keyOf, key)
  {
    var r, d, i := Put(ps, keyOf, p), PlaceOf(ps, keyOf, keyOf(p)), Find(ps, keyOf, key);
    assert r[d] == p && forall m :: 0 <= m < |ps| && m != d ==> r[m] == ps[m];
    if key == keyOf(p) {
      LookupIs(r, keyOf, d);
    } else if i >= 0 {
      LookupIs(r, keyOf, i);
    }
  }

  /** A list without its item `d`. */
  lemma WithoutItem<T, K>(ps: seq<T>, keyOf: T -> K, r: seq<T>, d: nat)
    requires UniqueKeys(ps, keyOf) && d < |ps| && r == ps[..d] + ps[d + 1..]
    ensures UniqueKeys(r, keyOf) && forall m :: 0 <= m < |r| ==> keyOf(r[m]) != keyOf(ps[d])
    ensures forall m :: 0 <= m < |r| ==> r[m] == ps[if m < d then m else m + 1]
  {
  }

  lemma DropLookup<T, K>(ps: seq<T>, keyOf: T -> K, k: K, key: K)
    requires UniqueKeys(ps, keyOf)
    ensures UniqueKeys(Drop(ps, keyOf, k), keyOf)
    ensures Lookup(Drop(ps, keyOf, k), keyOf, key) == if key == k then None else Lookup(ps, keyOf, key)
  {
    var r, d, i := Drop(ps, keyOf, k), Find(ps, keyOf, k), Find(ps, keyOf, key);
    if d >= 0 {
      WithoutItem(ps, keyOf, r, d);
      if i >= 0 && i != d {
        var m := if i < d then i else i - 1;
        assert r[m] == ps[i];
        LookupIs(r, keyOf, m);
      }
    }
  }

  /** Taking an item out again leaves the list without its key. */
  lemma PutThenRemove<T, K>(ps: seq<T>, keyOf: T -> K, r: seq<T>, i: nat, p: T, q: T)
    requires i == PlaceOf(ps, keyOf, keyOf(p)) && r == Put(ps, keyOf, p)[i := q]
    ensures r[..i] + r[i + 1..] == Drop(ps, keyOf, keyOf(p))
  {
    if i < |ps| {
      SameSides(ps, r, i);
    } else {
      assert r[..i] == ps && r[i + 1..] == [];
    }
  }

  lemma SameSides<T>(ps: seq<T>, r: seq<T>, i: nat)
    requires i < |ps| == |r| && forall j :: 0 <= j < |ps| && j != i ==> r[j] == ps[j]
    ensures r[..i] == ps[..i] && r[i + 1..] == ps[i + 1..]
  {
  }

  lemma PutThenChange<T, K>(ps: seq<T>, keyOf: T -> K, r: seq<T>, i: nat, p: T, q: T)
    requires i == PlaceOf(ps, keyOf, keyOf(p)) && r == Put(ps, keyOf, p)[i := q] && keyOf(q) == keyOf(p)
    ensures r == Put(ps, keyOf, q)
  {
  }

  lemma PutAt<T, K>(ps: seq<T>, keyOf: T -> K, r: seq<T>, i: nat, p: T)
    requires i == PlaceOf(ps, keyOf, keyOf(p)) && |r| == (if i < |ps| then |ps| else |ps| + 1) && r[i] == p
    requires forall j :: 0 <= j < |ps| && j != i ==> r[j] == ps[j]
    ensures r == Put(ps, keyOf, p)
  {
  }
}
