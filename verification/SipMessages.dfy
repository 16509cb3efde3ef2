/** SIP messages written line by line (section 7 of RFC 3261), and what the scanners that
    stand for regular expressions match (sip_validate_packet in src/sip.c). */
module SipMessages {
  import opened Common
  import opened SipFraming

  // ---------------------------------------------------------------------------
  // Decimal numbers
  // ---------------------------------------------------------------------------

  /** The digits of a number. */
  function Decimal(n: nat): (r: seq<Byte>)
    ensures r != [] && forall i :: 0 <= i < |r| ==> 48 <= r[i] <= 57
  {
    if n < 10 then [48 + n] else Decimal(n / 10) + [48 + n % 10]
  }

  lemma {:induction false} NumberOfDecimal(p: seq<Byte>, i: nat, j: nat, n: nat)
    requires i <= j <= |p| && p[i..j] == Decimal(n)
    ensures (forall k :: i <= k < j ==> IsDigit(p[k])) && Number(p, i, j) == n
  {
    assert forall k :: i <= k < j ==> p[k] == p[i..j][k - i];
    var d := Decimal(n);
    assert p[j - 1] == d[|d| - 1];
    if n < 10 {
      assert j == i + 1 && Number(p, i, i) == 0;
    } else {
      assert p[i..j - 1] == d[..|d| - 1] == Decimal(n / 10);
      NumberOfDecimal(p, i, j - 1, n / 10);
    }
  }

  lemma {:induction false} DecimalLength(n: nat, k: nat, bound: nat)
    requires k > 0 && bound == Ten(k) && n < bound
    ensures |Decimal(n)| <= k
  {
    if n >= 10 {
      assert k > 1;
      DecimalLength(n / 10, k - 1, Ten(k - 1));
    }
  }

  function Ten(k: nat): nat {
    if k == 0 then 1 else 10 * Ten(k - 1)
  }

  // ---------------------------------------------------------------------------
  // Start lines and Content-Length lines
  // ---------------------------------------------------------------------------

  /** The octet is the letter or the other character, in either case. */
  predicate IsChar(b: Byte, c: char) {
    b == c as int || ('a' <= c <= 'z' && b == c as int - 32)
  }

  predicate TextAt(p: seq<Byte>, i: nat, t: string) {
    i + |t| <= |p| && forall k :: 0 <= k < |t| ==> IsChar(p[i + k], t[k])
  }

  predicate LettersIn(p: seq<Byte>, i: nat, j: nat) {
    i < j <= |p| && forall k :: i <= k < j ==> IsLetter(p[k])
  }

  /** Letters up to `a`, a space, letters up to `b`, and a colon. */
  predicate RequestMatch(p: seq<Byte>, a: nat, b: nat) {
    LettersIn(p, 0, a) && a + 1 < b < |p| && p[a] == 32 && LettersIn(p, a + 1, b) && p[b] == 58
  }

  /** "SIP/2.0 " with any octet for the dot, and three digits. */
  predicate StatusMatch(p: seq<Byte>) {
    TextAt(p, 0, "sip/2") && TextAt(p, 6, "0 ") && |p| >= 11 && forall k :: 8 <= k < 11 ==> 48 <= p[k] <= 57
  }

  lemma SkipIs(p: seq<Byte>, i: nat, j: nat, class_: Byte -> bool)
    requires i <= j <= |p| && (forall k :: i <= k < j ==> class_(p[k])) && (j < |p| ==> !class_(p[j]))
    ensures Skip(p, i, class_) == j
  {
  }

  /** The start line test is the regular expression. */
  lemma StartExactly(p: seq<Byte>)
    ensures StartsLikeSip(p) <==> StatusMatch(p) || exists a: nat, b: nat :: RequestMatch(p, a, b)
  {
    if RequestStart(p) {
      var a := Skip(p, 0, IsLetter);
      assert RequestMatch(p, a, Skip(p, a + 1, IsLetter));
    }
    if a: nat, b: nat :| RequestMatch(p, a, b) {
      SkipIs(p, 0, a, IsLetter);
      SkipIs(p, a + 1, b, IsLetter);
    }
    StatusIs(p);
  }

  lemma StatusIs(p: seq<Byte>)
    ensures ResponseStart(p) <==> StatusMatch(p)
  {
    var t, u := "sip/2", "0 ";
    if StatusMatch(p) {
      assert IsChar(p[0 + 0], t[0]) && IsChar(p[0 + 1], t[1]) && IsChar(p[0 + 2], t[2]) && IsChar(p[0 + 3], t[3]);
      assert IsChar(p[0 + 4], t[4]) && IsChar(p[6 + 0], u[0]) && IsChar(p[6 + 1], u[1]);
    }
  }

  /** A Content-Length line at `i`: its name up to `n`, spaces up to `a`, digits up to `b`,
      spaces up to `e`, and CR at the end of a line or of the payload. */
  predicate ClMatch(p: seq<Byte>, i: nat, n: nat, a: nat, b: nat, e: nat) {
    && ((TextAt(p, i, "content-length:") && n == i + 15) || (TextAt(p, i, "l:") && n == i + 2))
    && n <= a < b <= e < |p| && (forall k :: n <= k < a ==> p[k] == 32) && (forall k :: a <= k < b ==> 48 <= p[k] <= 57)
    && (forall k :: b <= k < e ==> p[k] == 32) && p[e] == 13 && (e + 1 == |p| || p[e + 1] == 10)
  }

  lemma NameIs(p: seq<Byte>, i: nat)
    ensures NameAt(p, i, CONTENT_LENGTH) <==> TextAt(p, i, "content-length:")
    ensures NameAt(p, i, [108, COLON]) <==> TextAt(p, i, "l:")
  {
    SameName(p, i, CONTENT_LENGTH, "content-length:");
    SameName(p, i, [108, COLON], "l:");
  }

  lemma SameName(p: seq<Byte>, i: nat, name: seq<Byte>, t: string)
    requires Spells(name, t) && forall k :: 0 <= k < |t| ==> t[k] < 'A' || t[k] > 'Z'
    ensures NameAt(p, i, name) <==> TextAt(p, i, t)
  {
    if i + |t| <= |p| {
      forall k | 0 <= k < |t|
        ensures Lower(p[i + k]) == name[k] <==> IsChar(p[i + k], t[k])
      {
        assert name[k] == t[k] as int;
      }
    }
  }

  lemma ClMatchIs(p: seq<Byte>, i: nat, n: nat, a: nat, b: nat, e: nat)
    requires ClMatch(p, i, n, a, b, e)
    ensures (forall k :: a <= k < b ==> IsDigit(p[k])) && ClAt(p, i) == Some(ClLine(Number(p, a, b), b - a, e))
  {
    NameEndIs(p, i, n);
    SkipIs(p, n, a, IsSpace);
    SkipIs(p, a, b, IsDigit);
    SkipIs(p, b, e, IsSpace);
  }

  lemma NameEndIs(p: seq<Byte>, i: nat, n: nat)
    requires (TextAt(p, i, "content-length:") && n == i + 15) || (TextAt(p, i, "l:") && n == i + 2)
    ensures NameEnd(p, i) == n
  {
    NameIs(p, i);
    NotBothNames(p, i);
  }

  lemma NotBothNames(p: seq<Byte>, i: nat)
    ensures !(TextAt(p, i, "content-length:") && TextAt(p, i, "l:"))
  {
    var t, u := "content-length:", "l:";
    assert TextAt(p, i, t) ==> IsChar(p[i + 0], t[0]);
    assert TextAt(p, i, u) ==> IsChar(p[i + 0], u[0]);
  }

  /** The Content-Length test is the regular expression. */
  lemma ClExactly(p: seq<Byte>, i: nat)
    ensures ClAt(p, i).Some? <==> exists n: nat, a: nat, b: nat, e: nat :: ClMatch(p, i, n, a, b, e)
  {
    if ClAt(p, i).Some? {
      NameIs(p, i);
      var n := NameEnd(p, i);
      var a := Skip(p, n, IsSpace);
      var b := Skip(p, a, IsDigit);
      assert ClMatch(p, i, n, a, b, Skip(p, b, IsSpace));
    }
    if n: nat, a: nat, b: nat, e: nat :| ClMatch(p, i, n, a, b, e) {
      ClMatchIs(p, i, n, a, b, e);
    }
  }

  // ---------------------------------------------------------------------------
  // Messages
  // ---------------------------------------------------------------------------

  const CRLF: seq<Byte> := [13, 10]

  /** Lines with their ends. */
  function Lines(ls: seq<seq<Byte>>): seq<Byte> {
    if ls == [] then [] else ls[0] + CRLF + Lines(ls[1..])
  }

  /** A line is not empty and has no CR, LF or NUL inside. */
  predicate IsLine(l: seq<Byte>) {
    l != [] && 13 !in l && 10 !in l && 0 !in l
  }

  predicate NamesLength(l: seq<Byte>) {
    TextAt(l, 0, "content-length:") || TextAt(l, 0, "l:")
  }

  ghost predicate AreLines(ls: seq<seq<Byte>>) {
    forall i :: 0 <= i < |ls| ==> IsLine(ls[i])
  }

  ghost predicate NoneNamesLength(ls: seq<seq<Byte>>) {
    forall i :: 0 <= i < |ls| ==> !NamesLength(ls[i])
  }

  function Spaces(n: nat): (r: seq<Byte>)
    ensures |r| == n && forall i :: 0 <= i < n ==> r[i] == 32
  {
    seq(n, _ => 32)
  }

  /** A Content-Length line. */
  function LengthLine(name: seq<Byte>, before: nat, n: nat, after: nat): seq<Byte> {
    name + Spaces(before) + Decimal(n) + Spaces(after)
  }

  predicate IsLengthName(name: seq<Byte>) {
    (|name| == 15 && TextAt(name, 0, "content-length:")) || (|name| == 2 && TextAt(name, 0, "l:"))
  }

  lemma {:induction false} LinesPlus(a: seq<seq<Byte>>, b: seq<seq<Byte>>)
    ensures Lines(a + b) == Lines(a) + Lines(b)
  {
    if a == [] {
      assert a + b == b;
    } else {
      assert (a + b)[1..] == a[1..] + b;
      LinesPlus(a[1..], b);
    }
  }

  /** A line of the payload `m` at `pos`. */
  predicate LineAt(m: seq<Byte>, pos: nat, l: seq<Byte>) {
    pos + |l| + 2 <= |m| && m[pos..pos + |l|] == l && m[pos + |l|] == 13 && m[pos + |l| + 1] == 10
  }

  lemma FirstLineAt(m: seq<Byte>, pos: nat, ls: seq<seq<Byte>>)
    requires ls != [] && pos + |Lines(ls)| <= |m| && m[pos..pos + |Lines(ls)|] == Lines(ls)
    ensures LineAt(m, pos, ls[0]) && |Lines(ls)| == |ls[0]| + 2 + |Lines(ls[1..])|
    ensures m[pos + |ls[0]| + 2..pos + |Lines(ls)|] == Lines(ls[1..])
  {
    var all, l := Lines(ls), ls[0];
    assert all[..|l|] == l && all[|l|] == 13 && all[|l| + 1] == 10 && all[|l| + 2..] == Lines(ls[1..]);
    PartOf(m, pos, all, 0, |l|);
    PartOf(m, pos, all, |l|, |l| + 2);
    PartOf(m, pos, all, |l| + 2, |all|);
    var ends := m[pos + |l|..pos + (|l| + 2)];
    assert ends == all[|l|..|l| + 2] == CRLF;
    assert ends[0] == m[pos + |l|] && ends[1] == m[pos + |l| + 1];
  }

  lemma InLine(m: seq<Byte>, pos: nat, l: seq<Byte>, k: nat)
    requires LineAt(m, pos, l) && IsLine(l) && pos <= k < pos + |l|
    ensures m[k] == l[k - pos] && m[k] != 13 && m[k] != 10
  {
    assert m[pos..pos + |l|][k - pos] == m[k];
    assert l[k - pos] in l;
  }

  /** There is no blank line before the end of the last line. */
  lemma {:induction false} NoBlankInLines(m: seq<Byte>, pos: nat, ls: seq<seq<Byte>>)
    requires ls != [] && AreLines(ls) && pos + |Lines(ls)| <= |m| && m[pos..pos + |Lines(ls)|] == Lines(ls)
    ensures forall k :: pos <= k < pos + |Lines(ls)| - 2 ==> !BlankAt(m, k)
    ensures |Lines(ls)| >= 2 && m[pos + |Lines(ls)| - 2] == 13 && m[pos + |Lines(ls)| - 1] == 10
    decreases |ls|
  {
    var l := ls[0];
    var next := pos + |l| + 2;
    FirstLineAt(m, pos, ls);
    assert IsLine(l);
    if ls[1..] != [] {
      NoBlankInLines(m, next, ls[1..]);
      FirstLineAt(m, next, ls[1..]);
      assert IsLine(ls[1]);
      InLine(m, next, ls[1], next);
    }
    forall k | pos <= k < pos + |Lines(ls)| - 2
      ensures !BlankAt(m, k)
    {
      if k < pos + |l| {
        InLine(m, pos, l, k);
      }
    }
  }

  /** No other line is taken for a Content-Length line. */
  lemma NotClAt(m: seq<Byte>, pos: nat, l: seq<Byte>)
    requires LineAt(m, pos, l) && IsLine(l) && !NamesLength(l)
    ensures ClAt(m, pos).None?
  {
    NameIs(m, pos);
    NotTextAt(m, pos, l, "content-length:");
    NotTextAt(m, pos, l, "l:");
  }

  lemma NotTextAt(m: seq<Byte>, pos: nat, l: seq<Byte>, t: string)
    requires LineAt(m, pos, l) && forall k :: 0 <= k < |t| ==> t[k] as int >= 46 || t[k] == '-'
    ensures TextAt(m, pos, t) ==> TextAt(l, 0, t)
  {
    if TextAt(m, pos, t) {
      assert |l| < |t| ==> IsChar(m[pos + |l|], t[|l|]);
      forall k | 0 <= k < |t|
        ensures IsChar(l[0 + k], t[k])
      {
        assert IsChar(m[pos + k], t[k]);
        assert m[pos..pos + |l|][k] == m[pos + k];
      }
    }
  }

  lemma {:induction false} NoClInLines(m: seq<Byte>, pos: nat, ls: seq<seq<Byte>>)
    requires AreLines(ls) && NoneNamesLength(ls) && LineStart(m, pos)
    requires pos + |Lines(ls)| <= |m| && m[pos..pos + |Lines(ls)|] == Lines(ls)
    ensures forall k :: pos <= k < pos + |Lines(ls)| ==> !ClHere(m, k)
    ensures LineStart(m, pos + |Lines(ls)|)
    decreases |ls|
  {
    if ls != [] {
      var l := ls[0];
      FirstLineAt(m, pos, ls);
      assert IsLine(l) && !NamesLength(l);
      NoClInLine(m, pos, l);
      NoClInLines(m, pos + |l| + 2, ls[1..]);
    }
  }

  lemma NoClInLine(m: seq<Byte>, pos: nat, l: seq<Byte>)
    requires LineAt(m, pos, l) && IsLine(l) && !NamesLength(l)
    ensures forall k :: pos <= k < pos + |l| + 2 ==> !ClHere(m, k)
  {
    NotClAt(m, pos, l);
    forall k | pos < k < pos + |l| + 2
      ensures !LineStart(m, k)
    {
      if k - 1 < pos + |l| {
        InLine(m, pos, l, k - 1);
      }
    }
  }

  // ---------------------------------------------------------------------------
  // What the verdict says about a message
  // ---------------------------------------------------------------------------

  /** A start line, header fields, a Content-Length line among them, a blank line and a
      body. */
  function Message(start: seq<Byte>, hs: seq<seq<Byte>>, length: seq<Byte>, ts: seq<seq<Byte>>, body: seq<Byte>)
    : seq<Byte>
  {
    Lines([start] + hs + [length] + ts) + CRLF + body
  }

  ghost predicate IsStart(l: seq<Byte>) {
    IsLine(l) && (StatusMatch(l) || exists a: nat, b: nat :: RequestMatch(l, a, b))
  }

  lemma CharAt(p: seq<Byte>, t: string, k: nat)
    ensures TextAt(p, 0, t) && k < |t| ==> IsChar(p[k], t[k])
  {
    if TextAt(p, 0, t) && k < |t| {
      assert IsChar(p[0 + k], t[k]);
    }
  }

  /** A start line is not a Content-Length line. */
  lemma StartNamesNoLength(l: seq<Byte>)
    requires IsStart(l)
    ensures !NamesLength(l)
  {
    var t, u, v := "content-length:", "l:", "sip/2";
    assert TextAt(l, 0, t) ==> IsChar(l[0 + 0], t[0]) && IsChar(l[0 + 7], t[7]);
    assert TextAt(l, 0, u) ==> IsChar(l[0 + 1], u[1]);
    assert TextAt(l, 0, v) ==> IsChar(l[0 + 0], v[0]) && IsChar(l[0 + 1], v[1]);
    forall a: nat, b: nat | RequestMatch(l, a, b)
      ensures !TextAt(l, 0, t) && !TextAt(l, 0, u)
    {
      CharAt(l, t, a);
    }
  }

  /** Where the parts of a message are. */
  lemma MessageParts(m: seq<Byte>, hs: seq<seq<Byte>>, l: seq<Byte>, ts: seq<seq<Byte>>, body: seq<Byte>,
                     at: nat, end: nat)
    requires m == Lines(hs + [l] + ts) + CRLF + body && at == |Lines(hs)| && end == |Lines(hs + [l] + ts)|
    ensures at <= end && m[..at] == Lines(hs) && m[..end] == Lines(hs + [l] + ts) && LineAt(m, at, l)
    ensures end + 2 + |body| == |m| && m[end] == 13 && m[end + 1] == 10 && m[end + 2..] == body
  {
    assert hs + [l] + ts == hs + ([l] + ts);
    LinesPlus(hs, [l] + ts);
    assert m[at..end] == Lines([l] + ts);
    FirstLineAt(m, at, [l] + ts);
  }

  /** What a Content-Length line of a payload tells. */
  lemma LengthLineTells(m: seq<Byte>, at: nat, name: seq<Byte>, before: nat, n: nat, after: nat)
    requires IsLengthName(name) && LineAt(m, at, LengthLine(name, before, n, after))
    ensures ClAt(m, at).Some? && ClAt(m, at).value.value == n && ClAt(m, at).value.digits == |Decimal(n)|
  {
    var d := Decimal(n);
    var from := at + |name| + before;
    LengthLineParts(m, at, name, before, d, after, from);
    LengthLineMatches(m, at, name, d, at + |name|, from, from + |d|, from + |d| + after);
    LineReads(m, at, at + |name|, from, from + |d|, from + |d| + after, n);
  }

  lemma LineReads(m: seq<Byte>, at: nat, name: nat, a: nat, b: nat, e: nat, n: nat)
    requires ClMatch(m, at, name, a, b, e) && m[a..b] == Decimal(n)
    ensures ClAt(m, at) == Some(ClLine(n, b - a, e))
  {
    ClMatchIs(m, at, name, a, b, e);
    NumberOfDecimal(m, a, b, n);
  }

  lemma LengthLineParts(m: seq<Byte>, at: nat, name: seq<Byte>, before: nat, d: seq<Byte>, after: nat, from: nat)
    requires LineAt(m, at, name + Spaces(before) + d + Spaces(after)) && from == at + |name| + before
    ensures from + |d| + after + 2 <= |m| && m[at..at + |name|] == name && m[at + |name|..from] == Spaces(before)
    ensures m[from..from + |d|] == d && m[from + |d|..from + |d| + after] == Spaces(after)
    ensures m[from + |d| + after] == 13 && m[from + |d| + after + 1] == 10
  {
    var l := name + Spaces(before) + d + Spaces(after);
    var a := |name| + before;
    var b := a + |d|;
    FourParts(name, Spaces(before), d, Spaces(after), l, a, b);
    PartOf(m, at, l, 0, |name|);
    PartOf(m, at, l, |name|, a);
    PartOf(m, at, l, a, b);
    PartOf(m, at, l, b, |l|);
  }

  lemma FourParts(w: seq<Byte>, x: seq<Byte>, y: seq<Byte>, z: seq<Byte>, l: seq<Byte>, a: nat, b: nat)
    requires l == w + x + y + z && a == |w| + |x| && b == a + |y|
    ensures l[..|w|] == w && l[|w|..a] == x && l[a..b] == y && l[b..] == z
  {
  }

  lemma LengthLineMatches(m: seq<Byte>, at: nat, name: seq<Byte>, digits: seq<Byte>, n: nat, a: nat, b: nat, e: nat)
    requires IsLengthName(name) && at + |name| == n <= a < b <= e && e + 2 <= |m| && m[e] == 13 && m[e + 1] == 10
    requires m[at..n] == name && m[n..a] == Spaces(a - n) && m[a..b] == digits && m[b..e] == Spaces(e - b)
    requires forall i :: 0 <= i < |digits| ==> 48 <= digits[i] <= 57
    ensures ClMatch(m, at, n, a, b, e)
  {
    forall k | n <= k < a
      ensures m[k] == 32
    {
      assert m[n..a][k - n] == m[k];
    }
    forall k | a <= k < b
      ensures 48 <= m[k] <= 57
    {
      assert m[a..b][k - a] == m[k];
    }
    forall k | b <= k < e
      ensures m[k] == 32
    {
      assert m[b..e][k - b] == m[k];
    }
    TextMoves(m, at, name, "content-length:");
    TextMoves(m, at, name, "l:");
  }

  lemma TextMoves(m: seq<Byte>, at: nat, name: seq<Byte>, t: string)
    requires at + |name| <= |m| && m[at..at + |name|] == name
    ensures TextAt(name, 0, t) ==> TextAt(m, at, t)
  {
    if TextAt(name, 0, t) {
      forall k | 0 <= k < |t|
        ensures IsChar(m[at + k], t[k])
      {
        assert IsChar(name[0 + k], t[k]);
        assert m[at..at + |name|][k] == m[at + k];
      }
    }
  }

  lemma StartMoves(m: seq<Byte>, l: seq<Byte>)
    requires IsStart(l) && l <= m
    ensures StartsLikeSip(m)
  {
    if a: nat, b: nat :| RequestMatch(l, a, b) {
      assert RequestMatch(m, a, b);
    }
    assert m[0..0 + |l|] == l;
    TextMoves(m, 0, l, "sip/2");
    if TextAt(l, 6, "0 ") {
      assert forall k :: 0 <= k < 2 ==> IsChar(l[6 + k], "0 "[k]);
      assert TextAt(m, 6, "0 ");
    }
    StartExactly(m);
  }

  /** The scanner finds the Content-Length line behind lines that are none. */
  lemma FirstClOf(m: seq<Byte>, head: seq<seq<Byte>>, at: nat)
    requires AreLines(head) && NoneNamesLength(head) && at == |Lines(head)| < |m| && m[..at] == Lines(head)
    ensures ClAt(m, at).Some? ==> FirstCl(m, 0) == at
  {
    assert m[0..0 + at] == Lines(head);
    NoClInLines(m, 0, head);
    if ClAt(m, at).Some? {
      FirstClIs(m, at);
    }
  }

  /** The scanner finds the blank line behind the lines of the header. */
  lemma FirstBlankOf(m: seq<Byte>, ls: seq<seq<Byte>>, end: nat)
    requires ls != [] && AreLines(ls) && end == |Lines(ls)| && end + 2 <= |m| && m[..end] == Lines(ls)
    requires m[end] == 13 && m[end + 1] == 10
    ensures end >= 2 && FirstBlank(m, 0) == end - 2
  {
    assert m[0..0 + end] == Lines(ls);
    NoBlankInLines(m, 0, ls);
    assert BlankAt(m, end - 2);
  }

  lemma HeadNamesNoLength(start: seq<Byte>, hs: seq<seq<Byte>>)
    requires IsStart(start) && AreLines(hs) && NoneNamesLength(hs)
    ensures AreLines([start] + hs) && NoneNamesLength([start] + hs)
  {
    StartNamesNoLength(start);
  }

  lemma FirstLine(m: seq<Byte>, ls: seq<seq<Byte>>, end: nat)
    requires ls != [] && end == |Lines(ls)| <= |m| && m[..end] == Lines(ls)
    ensures ls[0] <= m
  {
    assert m[0..0 + end] == Lines(ls);
    FirstLineAt(m, 0, ls);
  }

  /** The scanners find the start line, the Content-Length line and the blank line of a
      message. */
  lemma HeaderOfMessage(m: seq<Byte>, start: seq<Byte>, hs: seq<seq<Byte>>, l: seq<Byte>, ts: seq<seq<Byte>>,
                        body: seq<Byte>, at: nat, end: nat)
    requires m == Message(start, hs, l, ts, body) && IsStart(start) && NoneNamesLength(hs)
    requires AreLines(hs) && IsLine(l) && AreLines(ts)
    requires at == |Lines([start] + hs)| && end == |Lines([start] + hs + [l] + ts)|
    ensures StartsLikeSip(m) && LineAt(m, at, l) && at + |l| + 2 <= end && end + 2 + |body| == |m|
    ensures ClAt(m, at).Some? ==> FirstCl(m, 0) == at
    ensures FirstBlank(m, 0) == end - 2 && m[end] == 13 && m[end + 1] == 10 && m[end + 2..] == body
  {
    var head := [start] + hs;
    MessageParts(m, head, l, ts, body, at, end);
    HeadNamesNoLength(start, hs);
    FirstClOf(m, head, at);
    FirstBlankOf(m, head + [l] + ts, end);
    FirstLine(m, head, at);
    StartMoves(m, start);
    LengthLineEnds(head, l, ts);
  }

  lemma LengthLineEnds(head: seq<seq<Byte>>, l: seq<Byte>, ts: seq<seq<Byte>>)
    ensures |Lines(head)| + |l| + 2 <= |Lines(head + [l] + ts)|
  {
    LinesPlus(head + [l], ts);
    LinesPlus(head, [l]);
  }

  /** Any message that is written line by line with a Content-Length line is read as its
      lines say: the start line is recognised, the number is the one that was printed, and
      the body begins behind the blank line. */
  lemma VerdictOfMessage(m: seq<Byte>, start: seq<Byte>, hs: seq<seq<Byte>>, name: seq<Byte>, before: nat, n: nat,
                         after: nat, ts: seq<seq<Byte>>, body: seq<Byte>, head: nat)
    requires IsStart(start) && AreLines(hs) && NoneNamesLength(hs) && IsLengthName(name) && AreLines(ts) && 0 !in body
    requires m == Message(start, hs, LengthLine(name, before, n, after), ts, body) && head == |m| - |body|
    requires n < 1000000000
    ensures Validate(m) ==
            if |m| > 10240 || (n < |body| && m[head + n - 2..head + n] != CRLF) then NotSip
            else if n > |body| then Partial
            else if n == |body| then Complete
            else Multiple(head + n)
    ensures WellFormed(m) <==> n == |body| && (body == [] || (|body| > 1 && body[|body| - 2..] == CRLF))
  {
    var l := LengthLine(name, before, n, after);
    var at, end := |Lines([start] + hs)|, |Lines([start] + hs + [l] + ts)|;
    LengthLineIsLine(name, before, n, after);
    HeaderOfMessage(m, start, hs, l, ts, body, at, end);
    LengthLineTells(m, at, name, before, n, after);
    AllLines(start, hs, l, ts);
    NoNul(m, [start] + hs + [l] + ts, body);
    assert |l| >= 2;
    assert head == end + 2;
    VerdictFrom(m, at, head, n, |body|);
    WellFormedFrom(m, at, head, n, |Decimal(n)|, body);
    NineDigits(n);
  }

  lemma NineDigits(n: nat)
    requires n < 1000000000
    ensures |Decimal(n)| <= 9
  {
    assert Ten(3) == 1000 && Ten(6) == 1000000 && Ten(9) == 1000000000;
    DecimalLength(n, 9, Ten(9));
  }

  lemma VerdictFrom(m: seq<Byte>, at: nat, head: nat, n: nat, bodyLen: nat)
    requires 0 !in m && StartsLikeSip(m) && at == FirstCl(m, 0) < |m|
    requires head >= 4 && FirstBlank(m, 0) == head - 4 && head + bodyLen == |m|
    requires ClAt(m, at).Some? && n == ClAt(m, at).value.value
    ensures Validate(m) ==
            if |m| > 10240 || (n < bodyLen && m[head + n - 2..head + n] != CRLF) then NotSip
            else if n > bodyLen then Partial
            else if n == bodyLen then Complete
            else Multiple(head + n)
  {
    ReadFrom(m, at, head, n);
    BodyVerdictIs(m, head, n, bodyLen);
  }

  lemma ReadFrom(m: seq<Byte>, at: nat, head: nat, n: nat)
    requires 0 !in m && StartsLikeSip(m) && at == FirstCl(m, 0) < |m|
    requires head >= 4 && FirstBlank(m, 0) == head - 4 && head <= |m|
    requires ClAt(m, at).Some? && n == ClAt(m, at).value.value
    ensures Validate(m) == if |m| > 10240 then NotSip else BodyVerdict(m, n, head)
  {
    ValidateIs(m);
    ReadIs(m, at, head - 4, n);
  }

  lemma ValidateIs(m: seq<Byte>)
    requires m != [] && 0 !in m
    ensures Validate(m) == if |m| > 10240 then NotSip else Read(m)
  {
    TextIs(m);
  }

  lemma BodyVerdictIs(m: seq<Byte>, head: nat, n: nat, bodyLen: nat)
    requires head >= 4 && head + bodyLen == |m|
    ensures BodyVerdict(m, n, head) ==
            if n < bodyLen && m[head + n - 2..head + n] != CRLF then NotSip
            else if n > bodyLen then Partial
            else if n == bodyLen then Complete
            else Multiple(head + n)
  {
    if n < bodyLen {
      TwoAt(m, head + n - 2);
    }
  }

  lemma AllLines(start: seq<Byte>, hs: seq<seq<Byte>>, l: seq<Byte>, ts: seq<seq<Byte>>)
    requires IsLine(start) && AreLines(hs) && IsLine(l) && AreLines(ts)
    ensures AreLines([start] + hs + [l] + ts)
  {
  }

  lemma TwoAt(m: seq<Byte>, i: nat)
    requires i + 2 <= |m|
    ensures m[i..i + 2] == CRLF <==> m[i] == 13 && m[i + 1] == 10
  {
    assert m[i..i + 2] == [m[i], m[i + 1]];
  }

  lemma WellFormedFrom(m: seq<Byte>, at: nat, head: nat, n: nat, digits: nat, body: seq<Byte>)
    requires 0 !in m && StartsLikeSip(m) && at == FirstCl(m, 0) && at + 4 < head
    requires FirstBlank(m, 0) == head - 4 && head + |body| == |m| && m[head..] == body
    requires m[head - 2] == 13 && m[head - 1] == 10
    requires ClAt(m, at).Some? && n == ClAt(m, at).value.value && digits == ClAt(m, at).value.digits
    ensures WellFormed(m) <==> n == |body| && digits < 10 && (body == [] || (|body| > 1 && body[|body| - 2..] == CRLF))
  {
    EndsInCrlf(m, head, body);
    WellFormedWhenExactly(m, at, head, n, digits, m[|m| - 1] == 10 && m[|m| - 2] == 13);
  }

  lemma WellFormedWhenExactly(m: seq<Byte>, at: nat, head: nat, n: nat, digits: nat, ends: bool)
    requires 0 !in m && StartsLikeSip(m) && at == FirstCl(m, 0) && at + 4 < head <= |m|
    requires FirstBlank(m, 0) == head - 4 && (ends <==> m[|m| - 1] == 10 && m[|m| - 2] == 13)
    requires ClAt(m, at).Some? && n == ClAt(m, at).value.value && digits == ClAt(m, at).value.digits
    ensures WellFormed(m) <==> n == |m| - head && digits < 10 && ends
  {
  }

  lemma EndsInCrlf(m: seq<Byte>, head: nat, body: seq<Byte>)
    requires head >= 2 && head + |body| == |m| && m[head..] == body && m[head - 2] == 13 && m[head - 1] == 10
    ensures m[|m| - 1] == 10 && m[|m| - 2] == 13 <==> body == [] || (|body| > 1 && body[|body| - 2..] == CRLF)
  {
    if |body| > 1 {
      assert body[|body| - 1] == m[|m| - 1] && body[|body| - 2] == m[|m| - 2];
      TwoAt(body, |body| - 2);
    }
  }

  lemma LengthLineIsLine(name: seq<Byte>, before: nat, n: nat, after: nat)
    requires IsLengthName(name)
    ensures IsLine(LengthLine(name, before, n, after))
  {
    forall b | b in name
      ensures b > 13
    {
      var k :| 0 <= k < |name| && name[k] == b;
      CharAt(name, "content-length:", k);
      CharAt(name, "l:", k);
    }
  }

  lemma NoNul(m: seq<Byte>, ls: seq<seq<Byte>>, body: seq<Byte>)
    requires m == Lines(ls) + CRLF + body && AreLines(ls) && 0 !in body
    ensures 0 !in m
  {
    NoNulInLines(ls);
  }

  lemma {:induction false} NoNulInLines(ls: seq<seq<Byte>>)
    requires AreLines(ls)
    ensures 0 !in Lines(ls)
  {
    if ls != [] {
      assert IsLine(ls[0]);
      NoNulInLines(ls[1..]);
    }
  }

  predicate Plain(s: seq<Byte>) {
    13 !in s && 10 !in s && 0 !in s
  }

  predicate Letters(s: seq<Byte>) {
    s != [] && forall i :: 0 <= i < |s| ==> 65 <= s[i] <= 90 || 97 <= s[i] <= 122
  }

  /** A method, a space, a URI with its scheme, and whatever follows. */
  lemma RequestLineStarts(method_: seq<Byte>, scheme: seq<Byte>, rest: seq<Byte>)
    requires Letters(method_) && Letters(scheme) && Plain(rest)
    ensures IsStart(method_ + [32] + scheme + [58] + rest)
  {
    var l := method_ + [32] + scheme + [58] + rest;
    assert RequestMatch(l, |method_|, |method_| + 1 + |scheme|);
    forall b | b in l
      ensures b != 13 && b != 10 && b != 0
    {
      var i :| 0 <= i < |l| && l[i] == b;
      assert i > |method_| + 1 + |scheme| ==> l[i] in rest;
    }
  }

  /** "SIP/2.0 ", a status code of three digits, and whatever follows. */
  lemma StatusLineStarts(code: nat, rest: seq<Byte>)
    requires 100 <= code < 1000 && Plain(rest)
    ensures IsStart(Ascii("SIP/2.0 ") + Decimal(code) + rest)
  {
    AsciiVersion();
    DecimalDigits(code);
    StatusLineMatches(Ascii("SIP/2.0 "), Decimal(code), rest);
  }

  lemma StatusLineMatches(v: seq<Byte>, code: seq<Byte>, rest: seq<Byte>)
    requires v == [83, 73, 80, 47, 50, 46, 48, 32] && |code| == 3 && Plain(rest)
    requires forall k :: 0 <= k < 3 ==> 48 <= code[k] <= 57
    ensures IsStart(v + code + rest)
  {
    var l := v + code + rest;
    assert TextAt(l, 0, "sip/2") && TextAt(l, 6, "0 ");
    assert forall k :: 8 <= k < 11 ==> l[k] == code[k - 8];
    assert forall b :: b in l ==> b in v || b in code || b in rest;
  }

  lemma AsciiVersion()
    ensures Ascii("SIP/2.0 ") == [83, 73, 80, 47, 50, 46, 48, 32]
  {
    var t := "SIP/2.0 ";
    assert t == ['S'] + "IP/2.0 ";
  }

  lemma DecimalDigits(code: nat)
    requires 100 <= code < 1000
    ensures Decimal(code) == [48 + code / 100, 48 + code / 10 % 10, 48 + code % 10]
  {
    assert Decimal(code / 10 / 10) == [48 + code / 100];
    assert Decimal(code / 10) == [48 + code / 100, 48 + code / 10 % 10];
  }

  /** A message whose Content-Length line tells the length of its body, which is empty or
      ends in CRLF, is well-formed and complete. */
  lemma MessageIsComplete(m: seq<Byte>, start: seq<Byte>, hs: seq<seq<Byte>>, name: seq<Byte>, before: nat, after: nat,
                          ts: seq<seq<Byte>>, body: seq<Byte>)
    requires IsStart(start) && AreLines(hs) && NoneNamesLength(hs) && IsLengthName(name) && AreLines(ts) && 0 !in body
    requires m == Message(start, hs, LengthLine(name, before, |body|, after), ts, body) && |m| <= 10240
    requires body == [] || (|body| > 1 && body[|body| - 2..] == CRLF)
    ensures WellFormed(m) && Validate(m) == Complete
  {
    VerdictOfMessage(m, start, hs, name, before, |body|, after, ts, body, |m| - |body|);
  }
}
