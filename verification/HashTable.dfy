/** The chained hash table of src/hash.c: an array of buckets, each the head of a
    singly linked list of entries. */
module HashTables {
  import opened Common

  const SIZE_T_RANGE: nat := 0x1_0000_0000_0000_0000

  /** What a `char` contributes to the hash once it is widened to `size_t`. */
  function Widen(c: Byte): nat {
    if c < 128 then c else SIZE_T_RANGE - 256 + c
  }

  /** The hash after `n` rounds of the loop.  The pointer moves before the
      character is read, so the first character never counts and the terminating
      NUL does. */
  function HashTo(key: CString, n: nat): nat
    requires n <= |key|
  {
    if n == 0 then 5381
    else BitXor(33 * HashTo(key, n - 1) % SIZE_T_RANGE, Widen(if n < |key| then key[n] else 0))
  }

  /** The bucket of `key`, in range for every table size of at least one. */
  function Slot(key: CString, size: nat): (pos: nat)
    requires size >= 1
    ensures pos < size
  {
    BitAnd(HashTo(key, |key|), size - 1)
  }

  /** For a power of two the mask takes the remainder, so every bucket can be hit. */
  lemma SlotOfPowerOfTwo(key: CString, k: nat)
    ensures Slot(key, Pow2(k)) == HashTo(key, |key|) % Pow2(k)
  {
    BitAndMask(HashTo(key, |key|), k);
  }

  /** The first character of a key never counts. */
  lemma {:induction false} FirstNeverCounts(a: CString, b: CString, n: nat)
    requires n <= |a| == |b| && a != [] && a[1..] == b[1..]
    ensures HashTo(a, n) == HashTo(b, n)
  {
    if n > 0 {
      FirstNeverCounts(a, b, n - 1);
      if n < |a| {
        assert a[n] == a[1..][n - 1] == b[1..][n - 1] == b[n];
      }
    }
  }

  lemma {:induction false} XorZero(a: nat)
    ensures BitXor(a, 0) == a
  {
    if a > 0 {
      XorZero(a / 2);
    }
  }

  lemma HashStep(key: CString, n: nat, h: nat, c: Byte)
    requires 0 < n <= |key| && h == 33 * HashTo(key, n - 1) % 18446744073709551616
    requires c == if n < |key| then key[n] else 0
    ensures HashTo(key, n) == BitXor(h, if c < 128 then c else c + 18446744073709551360)
  {
  }

  /** The hash of the empty key. */
  lemma HashOfNone()
    ensures HashTo([], 0) == 5381
  {
  }

  /** The hash of keys of one character. */
  lemma HashOfOne(key: CString, n: nat, first: nat)
    requires |key| == n == 1 && first == 177573
    ensures HashTo(key, n) == first
  {
    assert HashTo(key, n - 1) == 5381;
    HashStep(key, n, first, 0);
    XorZero(first);
  }

  /** The hash of keys of two characters; one that is not ASCII counts as a negative
      number. */
  lemma HashOfTwo(key: CString, c: int, first: nat, h: nat, n: nat)
    requires |key| == n == 2 && c == key[1] && first == 177573
    requires h == BitXor(first, if c < 128 then c else c + 18446744073709551360)
    ensures HashTo(key, n) == 33 * h % 18446744073709551616
  {
    assert HashTo(key, n - 2) == 5381;
    HashStep(key, n - 1, first, key[n - 1]);
    HashStep(key, n, 33 * h % 18446744073709551616, 0);
    XorZero(33 * h % 18446744073709551616);
  }

  class Entry<V> {
    const key: CString
    const data: V
    var next: Entry?<V>

    constructor (key: CString, data: V)
      ensures this.key == key && this.data == data && next == null
    {
      this.key, this.data, this.next := key, data, null;
    }
  }

  /** The data stored under `key` in the first `n` entries of a chain, oldest first. */
  ghost function QueueTo<V>(chain: seq<Entry<V>>, n: nat, key: CString): seq<V>
    requires n <= |chain|
  {
    if n == 0 then []
    else QueueTo(chain, n - 1, key) + if chain[n - 1].key == key then [chain[n - 1].data] else []
  }

  /** The data stored under `key` in the bucket chains. */
  ghost function QueueIn<V>(chains: seq<seq<Entry<V>>>, key: CString): seq<V>
    requires chains != []
  {
    var chain := chains[Slot(key, |chains|)];
    QueueTo(chain, |chain|, key)
  }

  lemma {:induction false} QueueToPrefix<V>(a: seq<Entry<V>>, b: seq<Entry<V>>, n: nat, key: CString)
    requires n <= |a| && n <= |b| && forall i :: 0 <= i < n ==> a[i] == b[i]
    ensures QueueTo(a, n, key) == QueueTo(b, n, key)
  {
    if n > 0 {
      QueueToPrefix(a, b, n - 1, key);
    }
  }

  lemma {:induction false} QueueToNone<V>(chain: seq<Entry<V>>, n: nat, key: CString)
    requires n <= |chain| && forall i :: 0 <= i < n ==> chain[i].key != key
    ensures QueueTo(chain, n, key) == []
  {
    if n > 0 {
      QueueToNone(chain, n - 1, key);
    }
  }

  /** The first entry with `key` holds the head of its queue. */
  lemma {:induction false} QueueToHead<V>(chain: seq<Entry<V>>, n: nat, key: CString, i: nat)
    requires i < n <= |chain| && chain[i].key == key && forall j :: 0 <= j < i ==> chain[j].key != key
    ensures QueueTo(chain, n, key) != [] && QueueTo(chain, n, key)[0] == chain[i].data
  {
    if n == i + 1 {
      QueueToNone(chain, i, key);
    } else {
      QueueToHead(chain, n - 1, key, i);
    }
  }

  /** Unlinking the first entry with `key` drops the head of its queue and leaves
      every other queue alone. */
  lemma {:induction false} QueueToUnlink<V>(a: seq<Entry<V>>, b: seq<Entry<V>>, n: nat, key: CString,
                                            k: CString, i: nat)
    requires i < n <= |a| && |b| == |a| - 1 && a[i].key == key && forall j :: 0 <= j < i ==> a[j].key != key
    requires forall j :: 0 <= j < i ==> b[j] == a[j]
    requires forall j :: i < j < |a| ==> a[j] == b[j - 1]
    ensures k != key ==> QueueTo(b, n - 1, k) == QueueTo(a, n, k)
    ensures k == key ==> QueueTo(a, n, k) != [] && QueueTo(b, n - 1, k) == QueueTo(a, n, k)[1..]
  {
    if n == i + 1 {
      QueueToPrefix(a, b, i, k);
      if k == key {
        QueueToNone(a, i, k);
      }
    } else {
      QueueToUnlink(a, b, n - 1, key, k, i);
    }
  }

  /** Adding an entry to a chain. */
  lemma QueueInAdd<V>(chains: seq<seq<Entry<V>>>, pos: nat, entry: Entry<V>, k: CString)
    requires pos < |chains| && pos == Slot(entry.key, |chains|)
    ensures QueueIn(chains[pos := chains[pos] + [entry]], k)
         == QueueIn(chains, k) + if k == entry.key then [entry.data] else []
  {
    QueueToPrefix(chains[pos], chains[pos] + [entry], |chains[pos]|, k);
  }

  /** Taking the first entry of its key out of a chain. */
  lemma QueueInTake<V>(chains: seq<seq<Entry<V>>>, pos: nat, i: nat, key: CString, k: CString)
    requires pos < |chains| && pos == Slot(key, |chains|) && i < |chains[pos]| && chains[pos][i].key == key
    requires forall j :: 0 <= j < i ==> chains[pos][j].key != key
    ensures QueueIn(chains, key) != []
    ensures QueueIn(chains[pos := chains[pos][..i] + chains[pos][i + 1..]], k)
         == if k == key then QueueIn(chains, key)[1..] else QueueIn(chains, k)
  {
    var chain := chains[pos];
    QueueToUnlink(chain, chain[..i] + chain[i + 1..], |chain|, key, key, i);
    QueueToUnlink(chain, chain[..i] + chain[i + 1..], |chain|, key, k, i);
  }

  /** `nodes` are the entries of the list that starts at `head`, in list order,
      and all belong to bucket `pos`. */
  ghost predicate Linked<V>(head: Entry?<V>, nodes: seq<Entry<V>>, pos: nat, size: nat)
    requires size >= 1
    reads nodes
  {
    && head == (if nodes == [] then null else nodes[0])
    && (forall i :: 0 <= i < |nodes| - 1 ==> nodes[i].next == nodes[i + 1])
    && (nodes != [] ==> nodes[|nodes| - 1].next == null)
    && Distinct(nodes)
    && forall i :: 0 <= i < |nodes| ==> Slot(nodes[i].key, size) == pos
  }

  ghost predicate Within<V>(nodes: seq<Entry<V>>, entries: set<Entry<V>>) {
    forall i :: 0 <= i < |nodes| ==> nodes[i] in entries
  }

  /** An entry hangs in no chain but that of its own bucket. */
  lemma OtherChain<V>(head: Entry?<V>, nodes: seq<Entry<V>>, pos: nat, size: nat, entry: Entry?<V>)
    requires size >= 1 && Linked(head, nodes, pos, size)
    requires entry != null ==> Slot(entry.key, size) != pos
    ensures entry !in nodes
  {
  }

  /** A list whose links skip node `i` is the list of the other nodes. */
  lemma LinkedWithout<V>(head: Entry?<V>, nodes: seq<Entry<V>>, i: nat, pos: nat, size: nat)
    requires i < |nodes| && size >= 1 && Distinct(nodes)
    requires forall j :: 0 <= j < |nodes| ==> Slot(nodes[j].key, size) == pos
    requires forall j :: 0 <= j < |nodes| - 1 && j != i - 1 ==> nodes[j].next == nodes[j + 1]
    requires i != |nodes| - 1 ==> nodes[|nodes| - 1].next == null
    requires i > 0 ==> head == nodes[0] && nodes[i - 1].next == if i + 1 < |nodes| then nodes[i + 1] else null
    requires i == 0 ==> head == if 1 < |nodes| then nodes[1] else null
    ensures Linked(head, nodes[..i] + nodes[i + 1..], pos, size)
  {
    var rest := nodes[..i] + nodes[i + 1..];
    forall j | 0 <= j < |rest| - 1
      ensures rest[j].next == rest[j + 1]
    {
      assert rest[j] == nodes[if j < i then j else j + 1];
      assert rest[j + 1] == nodes[if j + 1 < i then j + 1 else j + 2];
    }
  }

  class HashTable<V> {
    const size: nat
    const buckets: array<Entry?<V>>
    ghost var chains: seq<seq<Entry<V>>>  // the entries of each bucket, in list order
    ghost var entries: set<Entry<V>>

    ghost predicate Valid()
      reads this, buckets, entries
    {
      && size >= 1 && buckets.Length == size == |chains|
      && (forall b :: 0 <= b < size ==> Within(chains[b], entries))
      && (forall b :: 0 <= b < size ==> Linked(buckets[b], chains[b], b, size))
    }

    /** The data stored under `key`, oldest first. */
    ghost function Queue(key: CString): seq<V>
      requires size >= 1 && |chains| == size
      reads this
    {
      QueueIn(chains, key)
    }

    constructor (size: nat)
      requires size >= 1
      ensures Valid() && fresh(buckets) && entries == {} && this.size == size
      ensures forall key :: Queue(key) == []
    {
      this.size := size;
      this.buckets := new Entry?<V>[size](_ => null);
      this.chains := seq(size, _ => []);
      this.entries := {};
    }

    method Hash(key: CString) returns (pos: nat)
      requires size >= 1
      ensures pos == Slot(key, size)
    {
      var hash := 5381;
      var i := 0;
      while i < |key|
        invariant 0 <= i <= |key| && hash == HashTo(key, i)
      {
        i := i + 1;
        hash := BitXor(33 * hash % SIZE_T_RANGE, Widen(if i < |key| then key[i] else 0));
      }
      pos := BitAnd(hash, size - 1);
    }

    method Insert(key: CString, data: V)
      requires Valid()
      modifies this`chains, this`entries, buckets, entries
      ensures Valid() && fresh(entries - old(entries))
      ensures Queue(key) == old(Queue(key)) + [data]
      ensures forall k :: k != key ==> Queue(k) == old(Queue(k))
    {
      var pos := Hash(key);
      var tail := Tail(pos);
      var entry := new Entry(key, data);
      ghost var before := chains;
      Link(pos, tail, entry);
      forall k {
        QueueInAdd(before, pos, entry, k);
      }
    }

    /** Walks to the last entry of a chain. */
    method Tail(pos: nat) returns (tail: Entry?<V>)
      requires Valid() && pos < size
      ensures tail == if chains[pos] == [] then null else chains[pos][|chains[pos]| - 1]
    {
      tail := buckets[pos];
      if tail != null {
        ghost var i := 0;
        while tail.next != null
          invariant tail != null && 0 <= i < |chains[pos]| && tail == chains[pos][i]
          invariant i + 1 == |chains[pos]| || tail.next == chains[pos][i + 1]
          decreases |chains[pos]| - i
        {
          tail := tail.next;
          i := i + 1;
        }
      }
    }

    /** Lets the head of a bucket, or one entry of its chain, point to `to`. */
    method Redirect(pos: nat, from: Entry?<V>, to: Entry?<V>)
      requires Valid() && pos < size && (from == null || from in chains[pos])
      modifies buckets, from
      ensures forall b :: 0 <= b < size && b != pos ==> Linked(buckets[b], chains[b], b, size)
      ensures buckets[pos] == if from == null then to else old(buckets[pos])
      ensures from != null ==> from.next == to
      ensures forall e :: e in entries && e != from ==> e.next == old(e.next)
    {
      forall b | 0 <= b < size && b != pos
        ensures from !in chains[b]
      {
        OtherChain(buckets[b], chains[b], b, size, from);
      }
      if from == null {
        buckets[pos] := to;
      } else {
        from.next := to;
      }
    }

    /** Hangs `entry` behind the last entry of a chain, or into an empty bucket. */
    method Link(pos: nat, tail: Entry?<V>, entry: Entry<V>)
      requires Valid() && pos < size && Slot(entry.key, size) == pos && entry !in entries && entry.next == null
      requires tail == if chains[pos] == [] then null else chains[pos][|chains[pos]| - 1]
      modifies this`chains, this`entries, buckets, tail
      ensures Valid() && entries == old(entries) + {entry}
      ensures chains == old(chains)[pos := old(chains[pos]) + [entry]]
    {
      Redirect(pos, tail, entry);
      ghost var chain := chains[pos] + [entry];
      assert Linked(buckets[pos], chain, pos, size);
      chains := chains[pos := chain];
      entries := entries + {entry};
    }

    method Find(key: CString) returns (r: Option<V>)
      requires Valid()
      ensures r == if Queue(key) == [] then None else Some(Queue(key)[0])
    {
      var pos := Hash(key);
      ghost var chain := chains[pos];
      var entry := buckets[pos];
      ghost var i := 0;
      while entry != null
        invariant 0 <= i <= |chain| && entry == if i < |chain| then chain[i] else null
        invariant forall j :: 0 <= j < i ==> chain[j].key != key
        decreases |chain| - i
      {
        if entry.key == key {
          QueueToHead(chain, |chain|, key, i);
          return Some(entry.data);
        }
        entry := entry.next;
        i := i + 1;
      }
      QueueToNone(chain, |chain|, key);
      return None;
    }

    method Remove(key: CString)
      requires Valid()
      modifies this`chains, buckets, entries
      ensures Valid()
      ensures Queue(key) == if old(Queue(key)) == [] then [] else old(Queue(key))[1..]
      ensures forall k :: k != key ==> Queue(k) == old(Queue(k))
    {
      var pos := Hash(key);
      ghost var chain := chains[pos];
      var entry, prev: Entry?<V> := buckets[pos], null;
      ghost var i := 0;
      while entry != null
        invariant 0 <= i <= |chain| && entry == if i < |chain| then chain[i] else null
        invariant prev == if i > 0 then chain[i - 1] else null
        invariant forall j :: 0 <= j < i ==> chain[j].key != key
        decreases |chain| - i
      {
        if entry.key == key {
          Take(pos, prev, entry, i);
          return;
        }
        prev, entry := entry, entry.next;
        i := i + 1;
      }
      QueueToNone(chain, |chain|, key);
    }

    /** Takes the first entry of its key out of its chain. */
    method Take(pos: nat, prev: Entry?<V>, entry: Entry<V>, ghost i: nat)
      requires Valid() && pos == Slot(entry.key, size) && i < |chains[pos]| && entry == chains[pos][i]
      requires prev == if i > 0 then chains[pos][i - 1] else null
      requires forall j :: 0 <= j < i ==> chains[pos][j].key != entry.key
      modifies this`chains, buckets, prev
      ensures Valid() && old(Queue(entry.key)) != [] && Queue(entry.key) == old(Queue(entry.key))[1..]
      ensures forall k :: k != entry.key ==> Queue(k) == old(Queue(k))
    {
      ghost var before := chains;
      Unlink(pos, prev, entry, i);
      forall k {
        QueueInTake(before, pos, i, entry.key, k);
      }
    }

    /** Takes the entry at index `i` of a chain out of it. */
    method Unlink(pos: nat, prev: Entry?<V>, entry: Entry<V>, ghost i: nat)
      requires Valid() && pos < size && i < |chains[pos]| && entry == chains[pos][i]
      requires prev == if i > 0 then chains[pos][i - 1] else null
      modifies this`chains, buckets, prev
      ensures Valid()
      ensures chains == old(chains)[pos := old(chains[pos])[..i] + old(chains[pos])[i + 1..]]
    {
      Redirect(pos, prev, entry.next);
      LinkedWithout(buckets[pos], chains[pos], i, pos, size);
      ghost var rest := chains[pos][..i] + chains[pos][i + 1..];
      assert Within(rest, entries);
      chains := chains[pos := rest];
    }
  }
}
