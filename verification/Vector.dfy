/** The growable pointer vector of src/vector.c, its iterators, and the
    insertion step that every sorter of the program performs on it. */
module Vectors {
  import opened Common

  // ---------------------------------------------------------------------------
  // What a sorter computes
  // ---------------------------------------------------------------------------

  /** Where the sorters' backward scan stops when only the first `n` elements are
      left to compare: behind the last element that `item` may follow. */
  function Position<T>(s: seq<T>, n: nat, item: T, after: (T, T) -> bool): (p: nat)
    requires n <= |s|
    ensures p <= n
  {
    if n == 0 then 0
    else if after(item, s[n - 1]) then n
    else Position(s, n - 1, item, after)
  }

  lemma {:induction false} PositionIsLast<T>(s: seq<T>, n: nat, item: T, after: (T, T) -> bool)
    requires n <= |s|
    ensures var p := Position(s, n, item, after);
            && (p > 0 ==> after(item, s[p - 1]))
            && forall k :: p <= k < n ==> !after(item, s[k])
  {
    if n > 0 && !after(item, s[n - 1]) {
      PositionIsLast(s, n - 1, item, after);
    }
  }

  /** `s` with `item` at `p`.  An item equal to the one already in its slot stays
      at the end. */
  function PlaceAt<T(==)>(s: seq<T>, item: T, p: nat): (r: seq<T>)
    requires p <= |s|
    ensures |r| == |s| + 1
  {
    if p < |s| && s[p] == item then s + [item] else s[..p] + [item] + s[p..]
  }

  /** Appending `item` to a vector with a sorter. */
  function Place<T(==)>(s: seq<T>, item: T, after: (T, T) -> bool): (r: seq<T>)
    ensures |r| == |s| + 1
  {
    PlaceAt(s, item, Position(s, |s|, item, after))
  }

  /** Appending `item` to a vector that holds `s`. */
  function Appended<T(==)>(s: seq<T>, item: T, sorter: Option<(T, T) -> bool>): (r: seq<T>)
    ensures |r| == |s| + 1
  {
    if sorter.None? then s + [item] else Place(s, item, sorter.value)
  }

  /** An append inserts the item somewhere. */
  lemma AppendedShape<T>(s: seq<T>, item: T, sorter: Option<(T, T) -> bool>) returns (p: nat)
    ensures p <= |s|
    ensures forall i :: 0 <= i < p ==> Appended(s, item, sorter)[i] == s[i]
    ensures Appended(s, item, sorter)[p] == item
    ensures forall i :: p < i <= |s| ==> Appended(s, item, sorter)[i] == s[i - 1]
  {
    if sorter.None? {
      p := |s|;
    } else {
      p := Position(s, |s|, item, sorter.value);
      if p < |s| && s[p] == item {
        p := |s|;
      }
    }
  }

  /** Appending the first `n` of `items` in turn to a vector that holds `s`. */
  function AppendAll<T(==)>(s: seq<T>, items: seq<T>, n: nat, sorter: Option<(T, T) -> bool>): (r: seq<T>)
    requires n <= |items|
    ensures |r| == |s| + n
  {
    if n == 0 then s else Appended(AppendAll(s, items, n - 1, sorter), items[n - 1], sorter)
  }

  lemma {:induction false} AppendAllUnsorted<T>(s: seq<T>, items: seq<T>, n: nat)
    requires n <= |items|
    ensures AppendAll(s, items, n, None) == s + items[..n]
  {
    if n > 0 {
      AppendAllUnsorted(s, items, n - 1);
      assert items[..n] == items[..n - 1] + [items[n - 1]];
    }
  }

  function PlaceOnto<T(==)>(s: seq<T>, items: seq<T>, n: nat, after: (T, T) -> bool): seq<T>
    requires n <= |items|
  {
    AppendAll(s, items, n, Some(after))
  }

  function PlaceAll<T(==)>(items: seq<T>, after: (T, T) -> bool): seq<T> {
    PlaceOnto([], items, |items|, after)
  }

  lemma {:induction false} PlaceOntoPrefix<T>(s: seq<T>, a: seq<T>, b: seq<T>, n: nat, after: (T, T) -> bool)
    requires n <= |a| && n <= |b| && forall k :: 0 <= k < n ==> a[k] == b[k]
    ensures PlaceOnto(s, a, n, after) == PlaceOnto(s, b, n, after)
  {
    if n > 0 {
      PlaceOntoPrefix(s, a, b, n - 1, after);
    }
  }

  lemma {:induction false} PlaceOntoConcat<T>(s: seq<T>, a: seq<T>, b: seq<T>, n: nat, after: (T, T) -> bool)
    requires n <= |b|
    ensures PlaceOnto(s, a + b, |a| + n, after) == PlaceOnto(PlaceOnto(s, a, |a|, after), b, n, after)
  {
    if n == 0 {
      PlaceOntoPrefix(s, a + b, a, |a|, after);
    } else {
      PlaceOntoConcat(s, a, b, n - 1, after);
    }
  }

  /** `le` is a total preorder of the items in `u`. */
  ghost predicate TotalPreorder<T>(le: (T, T) -> bool, u: set<T>) {
    && (forall a, b | a in u && b in u :: le(a, b) || le(b, a))
    && (forall a, b, c | a in u && b in u && c in u :: le(a, b) && le(b, c) ==> le(a, c))
  }

  /** The comparison `after(item, previous)` of a sorter follows the order `le` on
      the items in `u`; it is free to say either on ties. */
  ghost predicate Follows<T>(after: (T, T) -> bool, le: (T, T) -> bool, u: set<T>) {
    && (forall a, b | a in u && b in u :: after(a, b) ==> le(b, a))
    && (forall a, b | a in u && b in u :: !after(a, b) ==> le(a, b))
  }

  ghost predicate Sorted<T>(s: seq<T>, le: (T, T) -> bool) {
    forall i, j :: 0 <= i < j < |s| ==> le(s[i], s[j])
  }

  /** One sorted append keeps the vector sorted, for any sorter that follows
      the order. */
  lemma PlaceKeepsSorted<T>(s: seq<T>, item: T, after: (T, T) -> bool, le: (T, T) -> bool, u: set<T>)
    requires TotalPreorder(le, u) && Follows(after, le, u)
    requires (forall i :: 0 <= i < |s| ==> s[i] in u) && item in u
    requires Sorted(s, le) && item !in s
    ensures Sorted(Place(s, item, after), le)
  {
    var p := Position(s, |s|, item, after);
    var r := Place(s, item, after);
    PositionIsLast(s, |s|, item, after);
    forall i, j | 0 <= i < j < |r|
      ensures le(r[i], r[j])
    {
      if j == p && i < p - 1 {
        assert le(s[i], s[p - 1]) && le(s[p - 1], item);
      }
    }
  }

  lemma PlacePermutes<T>(s: seq<T>, item: T, after: (T, T) -> bool)
    ensures multiset(Place(s, item, after)) == multiset(s) + multiset{item}
  {
    var p := Position(s, |s|, item, after);
    assert s == s[..p] + s[p..];
  }

  lemma MultisetSnoc<T>(s: seq<T>, n: nat)
    requires 0 < n <= |s|
    ensures multiset(s[..n]) == multiset(s[..n - 1]) + multiset{s[n - 1]}
  {
    assert s[..n] == s[..n - 1] + [s[n - 1]];
  }

  lemma {:induction false} PlaceOntoPermutes<T>(items: seq<T>, n: nat, after: (T, T) -> bool)
    requires n <= |items|
    ensures multiset(PlaceOnto([], items, n, after)) == multiset(items[..n])
  {
    if n > 0 {
      PlaceOntoPermutes(items, n - 1, after);
      PlacePermutes(PlaceOnto([], items, n - 1, after), items[n - 1], after);
      MultisetSnoc(items, n);
    }
  }

  lemma PlaceAllPermutes<T>(items: seq<T>, after: (T, T) -> bool)
    ensures multiset(PlaceAll(items, after)) == multiset(items)
  {
    PlaceOntoPermutes(items, |items|, after);
    assert items[..|items|] == items;
  }

  lemma {:induction false} DistinctCounts<T>(s: seq<T>, n: nat)
    requires n <= |s| && Distinct(s)
    ensures forall x :: multiset(s[..n])[x] <= 1
  {
    if n > 0 {
      DistinctCounts(s, n - 1);
      MultisetSnoc(s, n);
      assert s[n - 1] !in s[..n - 1];
    }
  }

  lemma CountsDistinct<T>(s: seq<T>)
    requires forall x :: multiset(s)[x] <= 1
    ensures Distinct(s)
  {
    forall i, j | 0 <= i < j < |s|
      ensures s[i] != s[j]
    {
      assert s == s[..j] + s[j..];
      assert s[i] in s[..j] && s[j] in s[j..];
      assert multiset(s)[s[i]] == multiset(s[..j])[s[i]] + multiset(s[j..])[s[i]];
    }
  }

  /** Sorting keeps items distinct. */
  lemma PlaceAllDistinct<T>(items: seq<T>, after: (T, T) -> bool)
    requires Distinct(items)
    ensures Distinct(PlaceAll(items, after))
  {
    DistinctCounts(items, |items|);
    assert items[..|items|] == items;
    PlaceAllPermutes(items, after);
    CountsDistinct(PlaceAll(items, after));
  }

  lemma PlaceAllMembers<T>(items: seq<T>, after: (T, T) -> bool)
    ensures forall i :: 0 <= i < |PlaceAll(items, after)| ==> PlaceAll(items, after)[i] in items
  {
    var r := PlaceAll(items, after);
    PlaceAllPermutes(items, after);
    forall i | 0 <= i < |r|
      ensures r[i] in items
    {
      assert r[i] in multiset(r);
    }
  }

  lemma {:induction false} PlaceOntoSorts<T>(
      items: seq<T>, n: nat, after: (T, T) -> bool, le: (T, T) -> bool, u: set<T>)
    requires n <= |items| && TotalPreorder(le, u) && Follows(after, le, u) && Distinct(items)
    requires forall i :: 0 <= i < |items| ==> items[i] in u
    ensures Sorted(PlaceOnto([], items, n, after), le)
  {
    if n > 0 {
      PlaceOntoSorts(items, n - 1, after, le, u);
      var front := PlaceOnto([], items, n - 1, after);
      PlaceOntoPermutes(items, n - 1, after);
      assert items[n - 1] !in multiset(front);
      forall i | 0 <= i < |front|
        ensures front[i] in u
      {
        assert front[i] in multiset(front);
      }
      PlaceKeepsSorted(front, items[n - 1], after, le, u);
    }
  }

  /** Filling an empty vector through its sorter sorts distinct items, whatever order
      they came in. */
  lemma PlaceAllSorts<T>(items: seq<T>, after: (T, T) -> bool, le: (T, T) -> bool, u: set<T>)
    requires TotalPreorder(le, u) && Follows(after, le, u) && Distinct(items)
    requires forall i :: 0 <= i < |items| ==> items[i] in u
    ensures Sorted(PlaceAll(items, after), le)
    ensures multiset(PlaceAll(items, after)) == multiset(items)
  {
    PlaceOntoSorts(items, |items|, after, le, u);
    PlaceAllPermutes(items, after);
  }

  /** An item that is there twice may stay where it came in: the slot that a strict sorter
      finds for it is filled with it already. */
  lemma RepeatedItemStays(items: seq<int>, after: (int, int) -> bool)
    requires items == [1, 2, 1] && forall cur, prev :: after(cur, prev) <==> cur > prev
    ensures PlaceAll(items, after) == items
  {
    assert PlaceOnto([], items, 1, after) == [1];
    assert PlaceOnto([], items, 2, after) == [1, 2] by {
      assert Position([1], 1, 2, after) == 1;
    }
    assert Position([1, 2], 2, 1, after) == 0;
  }

  /** The sorter lets an item follow its equals, as the time sorters do. */
  ghost predicate FollowsEquals<T(!new)>(after: (T, T) -> bool, le: (T, T) -> bool) {
    forall a, b :: after(a, b) <==> le(b, a)
  }

  /** `same` picks items of one rank. */
  ghost predicate OneRank<T(!new)>(same: T -> bool, le: (T, T) -> bool) {
    forall x, y :: same(x) && same(y) ==> le(x, y)
  }

  lemma InsertionIsStable<T>(a: seq<T>, x: T, b: seq<T>, same: T -> bool)
    requires same(x) ==> forall k :: 0 <= k < |b| ==> !same(b[k])
    ensures Filter(a + [x] + b, same) == Filter(a + b, same) + Keep(x, same)
  {
    FilterConcat(a + [x], b, same);
    FilterToPrefix(a + [x], a, |a|, same);
    FilterConcat(a, b, same);
    if same(x) {
      FilterToSkips(b, same, 0, |b|);
    }
  }

  lemma PlaceAtIsStable<T>(s: seq<T>, p: nat, item: T, same: T -> bool)
    requires p <= |s| && (same(item) ==> forall k :: p <= k < |s| ==> !same(s[k]))
    ensures Filter(PlaceAt(s, item, p), same) == Filter(s, same) + Keep(item, same)
  {
    if p < |s| && s[p] != item {
      InsertionIsStable(s[..p], item, s[p..], same);
      assert s[..p] + s[p..] == s;
    } else {
      if p == |s| {
        assert s[..p] + [item] + s[p..] == s + [item];
      }
      FilterToPrefix(s + [item], s, |s|, same);
    }
  }

  /** Such a sorter is stable: the items of one rank keep the order in which
      they were appended. */
  lemma PlaceIsStable<T(!new)>(s: seq<T>, item: T, after: (T, T) -> bool, le: (T, T) -> bool, same: T -> bool)
    requires FollowsEquals(after, le) && OneRank(same, le)
    ensures Filter(Place(s, item, after), same) == Filter(s, same) + Keep(item, same)
  {
    var p := Position(s, |s|, item, after);
    PositionIsLast(s, |s|, item, after);
    forall k | p <= k < |s|
      ensures same(item) ==> !same(s[k])
    {
      assert !le(s[k], item);
    }
    PlaceAtIsStable(s, p, item, same);
  }

  lemma {:induction false} PlaceOntoIsStable<T(!new)>(
      items: seq<T>, n: nat, after: (T, T) -> bool, le: (T, T) -> bool, same: T -> bool)
    requires n <= |items| && FollowsEquals(after, le) && OneRank(same, le)
    ensures Filter(PlaceOnto([], items, n, after), same) == FilterTo(items, n, same)
  {
    if n > 0 {
      PlaceOntoIsStable(items, n - 1, after, le, same);
      PlaceIsStable(PlaceOnto([], items, n - 1, after), items[n - 1], after, le, same);
    }
  }

  lemma PlaceAllIsStable<T(!new)>(items: seq<T>, after: (T, T) -> bool, le: (T, T) -> bool, same: T -> bool)
    requires FollowsEquals(after, le) && OneRank(same, le)
    ensures Filter(PlaceAll(items, after), same) == Filter(items, same)
  {
    PlaceOntoIsStable(items, |items|, after, le, same);
  }

  // ---------------------------------------------------------------------------
  // The vector
  // ---------------------------------------------------------------------------

  class Vector<T(==)> {
    var list: array?<Option<T>>  // not allocated before the first append
    var count: nat
    var limit: nat
    var step: nat
    var sorter: Option<(T, T) -> bool>
    ghost var items: seq<T>      // the stored items, in list order

    ghost predicate Valid()
      reads this, list
    {
      && 0 < step && |items| == count <= limit
      && (list == null ==> count == 0)
      && (list != null ==> list.Length == limit && forall k :: 0 <= k < count ==> list[k] == Some(items[k]))
    }

    constructor (limit: nat, step: nat)
      requires 0 < step
      ensures Valid() && fresh(this) && list == null && items == []
      ensures sorter == None && this.limit == limit && this.step == step
    {
      this.count, this.limit, this.step, this.list, this.sorter := 0, limit, step, null, None;
      items := [];
    }

    method SetSorter(sorter: Option<(T, T) -> bool>)
      requires Valid()
      modifies this`sorter
      ensures Valid() && this.sorter == sorter
    {
      this.sorter := sorter;
    }

    function Item(index: int): (item: Option<T>)
      requires Valid()
      reads this, list
      ensures item == if 0 <= index < |items| then Some(items[index]) else None
    {
      if index >= count || index < 0 then None else list[index]
    }

    method Index(item: T) returns (r: int)
      requires Valid()
      ensures r == IndexOf(items, item)
    {
      var i := 0;
      while i < count
        invariant 0 <= i <= count
        invariant item !in items[..i]
      {
        if list[i] == Some(item) {
          IndexOfIs(items, item, i);
          return i;
        }
        i := i + 1;
      }
      return -1;
    }

    /** What the storage holds beyond its limit is copied and the limit raised
        by one step. */
    method Grow()
      requires Valid() && list != null
      modifies this`list, this`limit
      ensures Valid() && fresh(list)
      ensures list != null && limit == old(limit) + step
    {
      var bigger := new Option<T>[limit + step](_ => None);
      forall k | 0 <= k < list.Length {
        bigger[k] := list[k];
      }
      list := bigger;
      limit := limit + step;
    }

    /** Appends `item` and lets the sorter put it in its place; a missing item is
        refused.  `r` is the length before, which is the item's index only when
        there is no sorter. */
    method Append(item: Option<T>) returns (r: nat)
      requires Valid()
      modifies this, list
      ensures Valid() && (list == old(list) || fresh(list)) && sorter == old(sorter) && step == old(step)
      ensures r == |old(items)|
      ensures item.None? ==> items == old(items)
      ensures item.Some? ==> items == Appended(old(items), item.value, sorter)
    {
      if item.None? {
        return count;
      }
      if list == null {
        list := new Option<T>[limit](_ => None);
      }
      if count == limit {
        Grow();
      }
      list[count] := item;
      count := count + 1;
      items := items + [item.value];
      if sorter.Some? {
        RunSorter(item.value, old(items));
      }
      return count - 1;
    }

    /** The loop shared by the time sorters and the call list sorter: `item` is
        the last element, everything before it is compared backwards. */
    method RunSorter(item: T, ghost before: seq<T>)
      requires Valid() && sorter.Some? && items == before + [item]
      modifies this`items, list
      ensures Valid() && items == Place(before, item, sorter.value)
    {
      var i := count - 2;
      while i >= 0 && !sorter.value(item, list[i].value)
        invariant -1 <= i <= count - 2
        invariant Position(before, |before|, item, sorter.value) == Position(before, i + 1, item, sorter.value)
      {
        i := i - 1;
      }
      InsertLast(item, before, i + 1, sorter.value);
    }

    /** Moves the last element's slot to where the sorter wants it. */
    method InsertLast(item: T, ghost before: seq<T>, pos: nat, ghost after: (T, T) -> bool)
      requires Valid() && items == before + [item] && pos == Position(before, |before|, item, after)
      modifies this`items, list
      ensures Valid() && items == Place(before, item, after)
    {
      ghost var all := items;
      InsertedIsPlaceAt(before, item, pos);
      var _ := Insert(Some(item), pos);
      assert items == Inserted(all, item, pos);
    }

    /** Moves the last element's slot to `pos`: the elements from `pos` shift up
        by one over the last one.  Positions at or behind the last element and a
        slot that already holds the item leave the vector alone.  Below two items
        the source's unsigned bound wraps around, hence the precondition. */
    method Insert(item: Option<T>, pos: int) returns (r: nat)
      requires Valid() && (count >= 2 || (count == 1 && pos <= 0))
      modifies this`items, list
      ensures Valid() && r == count
      ensures items == if item.None? then old(items) else Inserted(old(items), item.value, pos)
    {
      if item.None? {
        return count;
      }
      if pos < 0 || (count >= 2 && pos > count - 2) {
        return count;
      }
      if list[pos] == item {
        return count;
      }
      forall k | pos < k < count {
        list[k] := list[k - 1];
      }
      list[pos] := item;
      items := old(items)[..pos] + [item.value] + old(items)[pos..count - 1];
      return count;
    }

    /** Drops the first occurrence of `item`; an absent item changes nothing. */
    method Remove(item: T)
      requires Valid()
      modifies this`count, this`items, list
      ensures Valid()
      ensures items == Without(old(items), item)
    {
      var idx := Index(item);
      if idx == -1 {
        return;
      }
      count := count - 1;
      forall k | idx <= k < count {
        list[k] := list[k + 1];
      }
      list[count] := None;
      items := old(items)[..idx] + old(items)[idx + 1..];
    }

    method Clear()
      requires Valid()
      modifies this`count, this`items, list
      ensures Valid() && items == []
    {
      while count > 0
        invariant Valid() && list == old(list) && limit == old(limit)
        decreases count
      {
        Remove(list[0].value);
      }
    }
  }

  // ---------------------------------------------------------------------------
  // Iterators and copies
  // ---------------------------------------------------------------------------

  predicate Passes<T>(filter: Option<T -> bool>, x: T) {
    filter.None? || filter.value(x)
  }

  /** Where the next item at or behind `from` that the filter lets through is. */
  function NextAt<T>(s: seq<T>, filter: Option<T -> bool>, from: nat): (r: nat)
    requires from <= |s|
    ensures from <= r <= |s|
    ensures r < |s| ==> Passes(filter, s[r])
    decreases |s| - from
  {
    if from == |s| || Passes(filter, s[from]) then from else NextAt(s, filter, from + 1)
  }

  /** Where the last item before `from` that the filter lets through is. */
  function PrevAt<T>(s: seq<T>, filter: Option<T -> bool>, from: nat): (r: int)
    requires from <= |s|
    ensures -1 <= r < from
    ensures r >= 0 ==> Passes(filter, s[r])
  {
    if from == 0 || Passes(filter, s[from - 1]) then from - 1 else PrevAt(s, filter, from - 1)
  }

  /** Stepping back from where a step forward led returns to the start, when the
      filter lets the start through. */
  lemma {:induction false} PrevUndoesNext<T>(s: seq<T>, filter: Option<T -> bool>, i: nat, j: nat)
    requires i < j <= |s| && Passes(filter, s[i]) && NextAt(s, filter, i + 1) >= j
    ensures PrevAt(s, filter, j) == i
    decreases j
  {
    if i < j - 1 {
      NextAtSkips(s, filter, i + 1, j - 1);
      PrevUndoesNext(s, filter, i, j - 1);
    }
  }

  lemma {:induction false} NextAtSkips<T>(s: seq<T>, filter: Option<T -> bool>, from: nat, k: nat)
    requires from <= |s| && from <= k < NextAt(s, filter, from)
    ensures !Passes(filter, s[k])
    decreases k - from
  {
    if from < k {
      NextAtSkips(s, filter, from + 1, k);
    }
  }

  lemma {:induction false} FilterToNext<T>(s: seq<T>, f: T -> bool, from: nat)
    requires from <= |s|
    ensures FilterTo(s, NextAt(s, Some(f), from), f) == FilterTo(s, from, f)
    decreases |s| - from
  {
    if from < |s| && !f(s[from]) {
      FilterToNext(s, f, from + 1);
    }
  }

  /** Moves an iterator that stands at `current` to the next item its filter lets
      through, or behind the last item. */
  method IteratorNext<T(==)>(vector: Vector<T>, current: int, filter: Option<T -> bool>)
      returns (next: int, item: Option<T>)
    requires vector.Valid() && -1 <= current <= vector.count
    ensures next == if current == |vector.items| then current else NextAt(vector.items, filter, current + 1)
    ensures item == vector.Item(next)
  {
    if current >= vector.count {
      return current, None;
    }
    next := current + 1;
    while vector.Item(next).Some? && !Passes(filter, vector.Item(next).value)
      invariant current < next <= vector.count
      invariant NextAt(vector.items, filter, current + 1) == NextAt(vector.items, filter, next)
      decreases vector.count - next
    {
      next := next + 1;
    }
    item := vector.Item(next);
  }

  /** Moves an iterator that stands at `current` to the previous item its filter
      lets through, or before the first. */
  method IteratorPrev<T(==)>(vector: Vector<T>, current: int, filter: Option<T -> bool>)
      returns (prev: int, item: Option<T>)
    requires vector.Valid() && -1 <= current <= vector.count
    ensures prev == if current == -1 then -1 else PrevAt(vector.items, filter, current)
    ensures item == vector.Item(prev)
  {
    if current == -1 {
      return -1, None;
    }
    prev := current - 1;
    while vector.Item(prev).Some? && !Passes(filter, vector.Item(prev).value)
      invariant -1 <= prev < current
      invariant PrevAt(vector.items, filter, current) == PrevAt(vector.items, filter, prev + 1)
      decreases prev
    {
      prev := prev - 1;
    }
    item := vector.Item(prev);
  }

  /** Appends to a vector without sorter. */
  method AppendLast<T(==)>(v: Vector<T>, item: T)
    requires v.Valid() && v.sorter == None
    modifies v, v.list
    ensures v.Valid() && v.sorter == None && (v.list == old(v.list) || fresh(v.list))
    ensures v.items == old(v.items) + [item]
  {
    var _ := v.Append(Some(item));
  }

  /** An iterator over `s` stands at a passing item, or behind the last item. */
  ghost predicate Stands<T>(s: seq<T>, filter: T -> bool, current: int, item: Option<T>) {
    0 <= current <= |s| && if current < |s| then item == Some(s[current]) && filter(s[current]) else item == None
  }

  /** A turn of the iterator passes over no item that its filter lets through. */
  method NextPassing<T(==)>(vector: Vector<T>, current: int, filter: T -> bool, ghost s: seq<T>)
      returns (next: int, item: Option<T>)
    requires vector.Valid() && vector.items == s && -1 <= current < |s|
    ensures Stands(s, filter, next, item) && current < next
    ensures FilterTo(s, next, filter) == FilterTo(s, current + 1, filter)
  {
    FilterToNext(s, filter, current + 1);
    next, item := IteratorNext(vector, current, Some(filter));
  }

  /** Copies the items a filter lets through into a vector without sorter. */
  method CopyIf<T(==)>(original: Vector<T>, filter: T -> bool) returns (clone: Vector<T>)
    requires original.Valid()
    ensures clone.Valid() && fresh(clone) && (clone.list == null || fresh(clone.list)) && clone.sorter == None
    ensures clone.items == Filter(original.items, filter)
  {
    ghost var s := original.items;
    clone := new Vector(0, 1);
    var current, item := NextPassing(original, -1, filter, s);
    while item.Some?
      invariant original.Valid() && original.items == s && Stands(s, filter, current, item)
      invariant clone.Valid() && fresh(clone) && (clone.list == null || fresh(clone.list)) && clone.sorter == None
      invariant clone.items == FilterTo(s, current, filter)
      decreases |s| - current
    {
      AppendLast(clone, item.value);
      current, item := NextPassing(original, current, filter, s);
    }
  }

  /** A turn of an iterator without filter. */
  method NextItem<T(==)>(vector: Vector<T>, current: int, ghost s: seq<T>) returns (next: int, item: Option<T>)
    requires vector.Valid() && vector.items == s && -1 <= current < |s|
    ensures next == current + 1 && item == if next < |s| then Some(s[next]) else None
  {
    next, item := IteratorNext(vector, current, None);
  }

  /** Appends every item of `src` to `dst`. */
  method AppendVector<T(==)>(dst: Vector<T>, src: Vector<T>)
    requires dst.Valid() && src.Valid() && dst != src && (dst.list == null || dst.list != src.list)
    modifies dst, dst.list
    ensures dst.Valid() && (dst.list == old(dst.list) || fresh(dst.list)) && dst.sorter == old(dst.sorter)
    ensures dst.items == AppendAll(old(dst.items), src.items, |src.items|, dst.sorter)
  {
    ghost var s, before := src.items, dst.items;
    var current, item := NextItem(src, -1, s);
    while item.Some?
      invariant src.Valid() && src.items == s && 0 <= current <= |s|
      invariant item == if current < |s| then Some(s[current]) else None
      invariant dst.Valid() && (dst.list == old(dst.list) || fresh(dst.list)) && dst.sorter == old(dst.sorter)
      invariant dst.items == AppendAll(before, s, current, dst.sorter)
      decreases |s| - current
    {
      var _ := dst.Append(item);
      current, item := NextItem(src, current, s);
    }
  }

  /** A clone takes the same items through the same sorter, so cloning a vector
      that is out of order sorts it. */
  method Clone<T(==)>(original: Vector<T>) returns (clone: Vector<T>)
    requires original.Valid()
    ensures clone.Valid() && fresh(clone) && (clone.list == null || fresh(clone.list))
    ensures clone.sorter == original.sorter
    ensures clone.items == AppendAll([], original.items, |original.items|, original.sorter)
  {
    clone := new Vector(original.limit, original.step);
    clone.SetSorter(original.sorter);
    AppendVector(clone, original);
  }

  /** `s` without the first occurrence of `x`. */
  function Without<T(==)>(s: seq<T>, x: T): seq<T> {
    var i := IndexOf(s, x);
    if i == -1 then s else s[..i] + s[i + 1..]
  }

  lemma IndexOfIs<T>(s: seq<T>, x: T, i: nat)
    requires i < |s| && s[i] == x && x !in s[..i]
    ensures IndexOf(s, x) == i
  {
    var r := IndexOf(s, x);
    assert forall k :: 0 <= k < i ==> s[..i][k] == s[k];
    assert r >= 0 ==> forall k :: 0 <= k < r ==> s[..r][k] == s[k];
  }

  /** What inserting `item` at `pos` makes of `s`: the elements from `pos` shift
      up by one over the last one. */
  function Inserted<T(==)>(s: seq<T>, item: T, pos: int): seq<T>
    requires |s| >= 2 || (|s| == 1 && pos <= 0)
  {
    if pos < 0 || (|s| >= 2 && pos > |s| - 2) || s[pos] == item then s
    else s[..pos] + [item] + s[pos..|s| - 1]
  }

  lemma InsertedIsPlaceAt<T>(s: seq<T>, item: T, p: nat)
    requires p <= |s|
    ensures Inserted(s + [item], item, p) == PlaceAt(s, item, p)
  {
    var t := s + [item];
    assert t[..p] == s[..p];
    assert t[p..|t| - 1] == s[p..];
    if p == |s| {
      assert s[..p] == s && s[p..] == [];
    }
  }
}
