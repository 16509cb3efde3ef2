/** Types and sequence facts shared by the whole model. */
module Common {

  /** One octet of a captured packet or of a C string. */
  type Byte = b: int | 0 <= b < 256

  /** A value that may be missing: the source's NULL pointer. */
  datatype Option<+T> = None | Some(value: T)

  /** The first index of `x` in `s`, or -1: the source's linear searches. */
  function IndexOf<T(==)>(s: seq<T>, x: T): (r: int)
    ensures -1 <= r < |s|
    ensures r >= 0 ==> s[r] == x && x !in s[..r]
    ensures r == -1 <==> x !in s
  {
    if s == [] then -1
    else if s[0] == x then 0
    else
      var t := IndexOf(s[1..], x);
      assert s == [s[0]] + s[1..];
      if t == -1 then -1 else assert s[..t + 1] == [s[0]] + s[1..][..t]; t + 1
  }

  /** The items among the first `n` of `s` that satisfy `f`, in order. */
  function FilterTo<T>(s: seq<T>, n: nat, f: T -> bool): seq<T>
    requires n <= |s|
  {
    if n == 0 then [] else FilterTo(s, n - 1, f) + Keep(s[n - 1], f)
  }

  function Filter<T>(s: seq<T>, f: T -> bool): seq<T> {
    FilterTo(s, |s|, f)
  }

  function Keep<T>(x: T, f: T -> bool): seq<T> {
    if f(x) then [x] else []
  }

  lemma {:induction false} FilterToSkips<T>(s: seq<T>, f: T -> bool, from: nat, to: nat)
    requires from <= to <= |s|
    requires forall k :: from <= k < to ==> !f(s[k])
    ensures FilterTo(s, to, f) == FilterTo(s, from, f)
  {
    if from < to {
      FilterToSkips(s, f, from, to - 1);
    }
  }

  lemma {:induction false} FilterToPrefix<T>(s: seq<T>, t: seq<T>, n: nat, f: T -> bool)
    requires n <= |s| && n <= |t| && forall k :: 0 <= k < n ==> s[k] == t[k]
    ensures FilterTo(s, n, f) == FilterTo(t, n, f)
  {
    if n > 0 {
      FilterToPrefix(s, t, n - 1, f);
    }
  }

  lemma {:induction false} FilterToMembers<T(!new)>(s: seq<T>, n: nat, f: T -> bool)
    requires n <= |s|
    ensures forall x :: x in FilterTo(s, n, f) <==> x in s[..n] && f(x)
  {
    if n > 0 {
      FilterToMembers(s, n - 1, f);
      assert s[..n] == s[..n - 1] + [s[n - 1]];
    }
  }

  lemma {:induction false} FilterToConcat<T>(a: seq<T>, b: seq<T>, n: nat, f: T -> bool)
    requires n <= |b|
    ensures FilterTo(a + b, |a| + n, f) == Filter(a, f) + FilterTo(b, n, f)
  {
    if n == 0 {
      FilterToPrefix(a + b, a, |a|, f);
    } else {
      FilterToConcat(a, b, n - 1, f);
    }
  }

  lemma FilterConcat<T>(a: seq<T>, b: seq<T>, f: T -> bool)
    ensures Filter(a + b, f) == Filter(a, f) + Filter(b, f)
  {
    FilterToConcat(a, b, |b|, f);
  }

  /** The state after the first `n` items of a run that starts in `h`. */
  function FoldTo<H, S>(h: H, items: seq<S>, n: nat, step: (H, S) -> H): H
    requires n <= |items|
  {
    if n == 0 then h else step(FoldTo(h, items, n - 1, step), items[n - 1])
  }

  lemma FoldMore<H, S>(h: H, items: seq<S>, n: nat, step: (H, S) -> H)
    requires n < |items|
    ensures FoldTo(h, items, n + 1, step) == step(FoldTo(h, items, n, step), items[n])
  {
  }

  /** Every one of the first `n` items is acceptable in the state that it meets. */
  ghost predicate AllOk<H, S>(h: H, items: seq<S>, n: nat, step: (H, S) -> H, ok: (H, S) -> bool)
    requires n <= |items|
  {
    forall i :: 0 <= i < n ==> ok(FoldTo(h, items, i, step), items[i])
  }

  /** What every acceptable step keeps holds after every acceptable run. */
  lemma {:induction false} RunKeeps<H(!new), S(!new)>(h: H, items: seq<S>, n: nat, step: (H, S) -> H,
                                                      ok: (H, S) -> bool, inv: H -> bool)
    requires n <= |items| && AllOk(h, items, n, step, ok)
    requires inv(h) && forall g, s :: inv(g) && ok(g, s) ==> inv(step(g, s))
    ensures inv(FoldTo(h, items, n, step))
  {
    if n > 0 {
      RunKeeps(h, items, n - 1, step, ok, inv);
    }
  }

  /** What every step keeps holds from a state that has it on. */
  lemma {:induction false} FoldKeeps<H(!new), S(!new)>(h: H, items: seq<S>, m: nat, n: nat, step: (H, S) -> H,
                                                       inv: H -> bool)
    requires m <= n <= |items| && inv(FoldTo(h, items, m, step))
    requires forall g, s :: inv(g) ==> inv(step(g, s))
    ensures inv(FoldTo(h, items, n, step))
  {
    if m < n {
      FoldKeeps(h, items, m, n - 1, step, inv);
    }
  }

  /** Where the second of two conditions means the first one on every state that a run
      reaches in an invariant, which the first one keeps, runs that meet the second one meet
      the first one. */
  lemma {:induction false} RunMeets<H(!new), S(!new)>(h: H, items: seq<S>, n: nat, step: (H, S) -> H,
                                                      ok: (H, S) -> bool, good: (H, S) -> bool, inv: H -> bool)
    requires n <= |items| && AllOk(h, items, n, step, good)
    requires inv(h) && forall g, s :: inv(g) && ok(g, s) ==> inv(step(g, s))
    requires forall i {:trigger ok(FoldTo(h, items, i, step), items[i])} ::
               0 <= i < n && inv(FoldTo(h, items, i, step)) && good(FoldTo(h, items, i, step), items[i]) ==>
               ok(FoldTo(h, items, i, step), items[i])
    ensures AllOk(h, items, n, step, ok) && inv(FoldTo(h, items, n, step))
  {
    if n > 0 {
      RunMeets(h, items, n - 1, step, ok, good, inv);
      OkMore(h, items, n - 1, step, ok, inv);
    }
  }

  lemma OkMore<H(!new), S(!new)>(h: H, items: seq<S>, n: nat, step: (H, S) -> H, ok: (H, S) -> bool, inv: H -> bool)
    requires n < |items| && AllOk(h, items, n, step, ok)
    requires inv(FoldTo(h, items, n, step)) && ok(FoldTo(h, items, n, step), items[n])
    requires forall g, s :: inv(g) && ok(g, s) ==> inv(step(g, s))
    ensures AllOk(h, items, n + 1, step, ok) && inv(FoldTo(h, items, n + 1, step))
  {
    FoldMore(h, items, n, step);
  }

  predicate Distinct<T(==)>(s: seq<T>) {
    forall i, j :: 0 <= i < j < |s| ==> s[i] != s[j]
  }

  lemma DistinctWithout<T>(s: seq<T>, i: nat)
    requires Distinct(s) && i < |s|
    ensures Distinct(s[..i] + s[i + 1..]) && s[i] !in s[..i] + s[i + 1..]
  {
  }

  lemma SameWithout<T>(r: seq<T>, s: seq<T>, i: nat)
    requires i < |s| && |r| == |s| - 1
    requires forall j :: 0 <= j < |r| ==> r[j] == s[if j < i then j else j + 1]
    ensures r == s[..i] + s[i + 1..]
  {
  }

  lemma Reassociate<T>(a: seq<T>, b: seq<T>, c: seq<T>)
    ensures (a + b) + c == a + (b + c)
  {
  }

  lemma MinusMinus<K, V>(m: map<K, V>, a: set<K>, b: set<K>)
    ensures m - a - b == m - (a + b) && m - a - {} == m - a
  {
  }

  /** The parts, one behind the other. */
  function Concat(parts: seq<seq<Byte>>): seq<Byte> {
    if parts == [] then [] else Concat(parts[..|parts| - 1]) + parts[|parts| - 1]
  }

  lemma PartOf(buf: seq<Byte>, pos: nat, s: seq<Byte>, i: nat, j: nat)
    requires pos + |s| <= |buf| && buf[pos..pos + |s|] == s && i <= j <= |s|
    ensures buf[pos + i..pos + j] == s[i..j]
  {
    forall k | i <= k < j
      ensures buf[pos + k] == s[k]
    {
      assert buf[pos..pos + |s|][k] == s[k];
    }
  }

  /** A C string: its octets before the terminating NUL. */
  type CString = s: seq<Byte> | 0 !in s

  /** A text as a C string. */
  function Ascii(s: string): (r: CString)
    ensures |r| == |s|
  {
    if s == "" then []
    else
      var c := s[0] as int;
      [if 0 < c < 256 then c else 63] + Ascii(s[1..])
  }

  /** The octets spell the text. */
  predicate Spells(octets: seq<Byte>, text: string) {
    |octets| == |text| && forall i :: 0 <= i < |text| ==> octets[i] == text[i] as int
  }

  lemma {:induction false} AsciiSpells(t: string)
    requires forall i :: 0 <= i < |t| ==> 0 < t[i] as int < 256
    ensures Spells(Ascii(t), t)
  {
    if t != "" {
      AsciiSpells(t[1..]);
      assert forall i :: 1 <= i < |t| ==> t[i] == t[1..][i - 1];
    }
  }

  /** Bitwise AND and XOR of unsigned integers. */
  function BitAnd(a: nat, b: nat): (r: nat)
    ensures r <= a && r <= b
  {
    if a == 0 || b == 0 then 0 else 2 * BitAnd(a / 2, b / 2) + (a % 2) * (b % 2)
  }

  function BitXor(a: nat, b: nat): nat {
    if a == 0 && b == 0 then 0 else 2 * BitXor(a / 2, b / 2) + (a + b) % 2
  }

  function Pow2(k: nat): (r: nat)
    ensures r > 0
  {
    if k == 0 then 1 else 2 * Pow2(k - 1)
  }

  /** Masking with a power of two less one takes the remainder. */
  lemma {:induction false} BitAndMask(a: nat, k: nat)
    ensures BitAnd(a, Pow2(k) - 1) == a % Pow2(k)
  {
    if k > 0 {
      var m, p := Pow2(k - 1), Pow2(k);
      BitAndMask(a / 2, k - 1);
      MaskTwice(a, m, p);
    }
  }

  lemma MaskTwice(a: nat, m: nat, p: nat)
    requires m > 0 && p == 2 * m && BitAnd(a / 2, m - 1) == a / 2 % m
    ensures BitAnd(a, p - 1) == a % p
  {
    BitAndOdd(a, m);
    HalveRemainder(a, m, a / 2 % m);
  }

  lemma BitAndOdd(a: nat, m: nat)
    requires m > 0
    ensures BitAnd(a, 2 * m - 1) == 2 * BitAnd(a / 2, m - 1) + a % 2
  {
    assert (2 * m - 1) / 2 == m - 1 && (2 * m - 1) % 2 == 1;
  }

  lemma HalveRemainder(a: nat, m: nat, r: nat)
    requires m > 0 && r == a / 2 % m
    ensures a % (2 * m) == 2 * r + a % 2
  {
    var q := a / 2 / m;
    assert a / 2 == m * q + r;
    assert a == q * (2 * m) + (2 * r + a % 2);
    RemainderIs(a, 2 * m, q, 2 * r + a % 2);
  }

  lemma RemainderIs(a: nat, m: nat, q: nat, r: nat)
    requires a == q * m + r && r < m
    ensures a / m == q && a % m == r
  {
    var d := a / m;
    assert a == m * d + a % m;
    if d < q {
      MulAtMost(d + 1, q, m);
    } else if q < d {
      MulAtMost(q + 1, d, m);
    }
  }

  lemma MulAtMost(x: nat, y: nat, m: nat)
    requires x <= y
    ensures x * m <= y * m
  {
  }

  /** One binary digit. */
  function Bit(a: nat, k: nat): nat {
    a / Pow2(k) % 2
  }

  lemma BitMore(a: nat, k: nat)
    requires k > 0
    ensures Bit(a, k) == Bit(a / 2, k - 1)
  {
    DivideTwice(a, Pow2(k - 1));
  }

  lemma DivideTwice(a: nat, m: nat)
    requires m > 0
    ensures a / (2 * m) == a / 2 / m
  {
    var q, r := a / 2 / m, a / 2 % m;
    assert a / 2 == m * q + r;
    RemainderIs(a, 2 * m, q, 2 * r + a % 2);
  }

  /** The digits of AND and XOR. */
  lemma {:induction false} BitwiseExactly(a: nat, b: nat, k: nat)
    ensures Bit(BitAnd(a, b), k) == 1 <==> Bit(a, k) == 1 && Bit(b, k) == 1
    ensures Bit(BitXor(a, b), k) == 1 <==> Bit(a, k) != Bit(b, k)
    decreases k
  {
    if k == 0 {
      FirstBits(a, b);
    } else {
      BitMore(a, k);
      BitMore(b, k);
      BitMore(BitAnd(a, b), k);
      BitMore(BitXor(a, b), k);
      Halves(a, b);
      BitwiseExactly(a / 2, b / 2, k - 1);
    }
  }

  lemma Halves(a: nat, b: nat)
    ensures BitAnd(a, b) / 2 == BitAnd(a / 2, b / 2) && BitXor(a, b) / 2 == BitXor(a / 2, b / 2)
  {
    AndIs(a, b, BitAnd(a / 2, b / 2));
    XorIs(a, b, BitXor(a / 2, b / 2));
  }

  lemma FirstBit(a: nat)
    ensures Bit(a, 0) == a % 2
  {
    assert Pow2(0) == 1;
  }

  lemma FirstBits(a: nat, b: nat)
    ensures Bit(BitAnd(a, b), 0) == 1 <==> Bit(a, 0) == 1 && Bit(b, 0) == 1
    ensures Bit(BitXor(a, b), 0) == 1 <==> Bit(a, 0) != Bit(b, 0)
  {
    FirstBit(a);
    FirstBit(b);
    FirstBit(BitAnd(a, b));
    FirstBit(BitXor(a, b));
    LastDigit(BitAnd(a, b), BitAnd(a / 2, b / 2), if a % 2 == 1 && b % 2 == 1 then 1 else 0) by {
      AndIs(a, b, BitAnd(a / 2, b / 2));
    }
    LastDigit(BitXor(a, b), BitXor(a / 2, b / 2), if a % 2 != b % 2 then 1 else 0) by {
      XorIs(a, b, BitXor(a / 2, b / 2));
    }
  }

  lemma LastDigit(a: nat, half: nat, digit: nat)
    requires a == 2 * half + digit && digit < 2
    ensures a % 2 == digit
  {
  }

  lemma AndIs(a: nat, b: nat, r: nat)
    requires r == BitAnd(a / 2, b / 2)
    ensures BitAnd(a, b) == 2 * r + if a % 2 == 1 && b % 2 == 1 then 1 else 0
  {
    if a > 0 && b > 0 {
      AndUnfolds(a, b, a % 2, b % 2);
      MulBits(a % 2, b % 2);
    } else {
      assert r == 0;
    }
  }

  lemma AndUnfolds(a: nat, b: nat, x: nat, y: nat)
    requires a > 0 && b > 0 && x == a % 2 && y == b % 2
    ensures BitAnd(a, b) == 2 * BitAnd(a / 2, b / 2) + x * y
  {
  }

  lemma MulBits(x: nat, y: nat)
    requires x < 2 && y < 2
    ensures x * y == if x == 1 && y == 1 then 1 else 0
  {
  }

  lemma XorIs(a: nat, b: nat, r: nat)
    requires r == BitXor(a / 2, b / 2)
    ensures BitXor(a, b) == 2 * r + if a % 2 != b % 2 then 1 else 0
  {
    if a > 0 || b > 0 {
      XorUnfolds(a, b);
      AddBits(a, b);
    }
  }

  lemma XorUnfolds(a: nat, b: nat)
    requires a > 0 || b > 0
    ensures BitXor(a, b) == 2 * BitXor(a / 2, b / 2) + (a + b) % 2
  {
  }

  lemma AddBits(a: nat, b: nat)
    ensures (a + b) % 2 == if a % 2 != b % 2 then 1 else 0
  {
  }
}
