/** Where a SIP message ends in a TCP stream (sip_validate_packet in src/sip.c,
    section 18.3 of RFC 3261).  Three regular expressions are replaced by the
    scanners that they describe. */
module SipFraming {
  import opened Common

  const MAX_SIP_PAYLOAD: nat := 10240

  const CR: Byte := 13
  const LF: Byte := 10
  const SPACE: Byte := 32
  const COLON: Byte := 58

  predicate IsLetter(c: Byte) { 65 <= c <= 90 || 97 <= c <= 122 }
  predicate IsDigit(c: Byte) { 48 <= c <= 57 }
  predicate IsSpace(c: Byte) { c == SPACE }
  predicate IsText(c: Byte) { c != 0 }

  function Lower(c: Byte): Byte {
    if 65 <= c <= 90 then c + 32 else c
  }

  /** The first position at or behind `i` whose octet is not of the class. */
  function Skip(p: seq<Byte>, i: nat, class_: Byte -> bool): (r: nat)
    requires i <= |p|
    ensures i <= r <= |p|
    ensures forall k :: i <= k < r ==> class_(p[k])
    ensures r < |p| ==> !class_(p[r])
    decreases |p| - i
  {
    if i < |p| && class_(p[i]) then Skip(p, i + 1, class_) else i
  }

  // ---------------------------------------------------------------------------
  // Start line
  // ---------------------------------------------------------------------------

  /** A method, a space, a URI scheme and a colon. */
  predicate RequestStart(p: seq<Byte>) {
    var a := Skip(p, 0, IsLetter);
    && 0 < a < |p| && p[a] == SPACE
    && var b := Skip(p, a + 1, IsLetter);
       a + 1 < b < |p| && p[b] == COLON
  }

  /** "SIP/2", any octet, "0 " and three digits. */
  predicate ResponseStart(p: seq<Byte>) {
    && |p| >= 11
    && Lower(p[0]) == 115 && Lower(p[1]) == 105 && Lower(p[2]) == 112 && p[3] == 47 && p[4] == 50
    && p[6] == 48 && p[7] == SPACE && IsDigit(p[8]) && IsDigit(p[9]) && IsDigit(p[10])
  }

  predicate StartsLikeSip(p: seq<Byte>) {
    RequestStart(p) || ResponseStart(p)
  }

  // ---------------------------------------------------------------------------
  // Content-Length
  // ---------------------------------------------------------------------------

  const CONTENT_LENGTH: seq<Byte> := [99, 111, 110, 116, 101, 110, 116, 45, 108, 101, 110, 103, 116, 104, 58]

  predicate NameAt(p: seq<Byte>, i: nat, name: seq<Byte>) {
    i + |name| <= |p| && forall k :: 0 <= k < |name| ==> Lower(p[i + k]) == name[k]
  }

  /** Behind the header name and its colon, or 0. */
  function NameEnd(p: seq<Byte>, i: nat): (r: nat)
    ensures r == 0 || i < r <= |p|
  {
    if NameAt(p, i, CONTENT_LENGTH) then i + |CONTENT_LENGTH|
    else if NameAt(p, i, [108, COLON]) then i + 2
    else 0
  }

  function Number(p: seq<Byte>, i: nat, j: nat): nat
    requires i <= j <= |p| && forall k :: i <= k < j ==> IsDigit(p[k])
  {
    if i == j then 0
    else
      var d: int := p[j - 1];
      assert IsDigit(p[j - 1]);
      10 * Number(p, i, j - 1) + (d - 48)
  }

  /** A Content-Length line: its value, the number of its digits, and the position of its
      CR. */
  datatype ClLine = ClLine(value: nat, digits: nat, cr: nat)

  /** The Content-Length line that starts at `i`, if one does: name, spaces, digits,
      spaces and a CR at the end of the line or of the payload. */
  function ClAt(p: seq<Byte>, i: nat): (r: Option<ClLine>)
    ensures r.Some? ==> i < r.value.cr < |p| && p[r.value.cr] == CR
  {
    var n := NameEnd(p, i);
    if n == 0 then None
    else
      var a := Skip(p, n, IsSpace);
      var b := Skip(p, a, IsDigit);
      var e := Skip(p, b, IsSpace);
      if a < b && e < |p| && p[e] == CR && (e + 1 == |p| || p[e + 1] == LF)
      then Some(ClLine(Number(p, a, b), b - a, e))
      else None
  }

  predicate LineStart(p: seq<Byte>, i: nat) {
    i == 0 || (i <= |p| && p[i - 1] == LF)
  }

  predicate ClHere(p: seq<Byte>, i: nat) {
    LineStart(p, i) && ClAt(p, i).Some?
  }

  /** The position of the first Content-Length line at or behind `i`, or the length. */
  function FirstCl(p: seq<Byte>, i: nat): (r: nat)
    requires i <= |p|
    ensures i <= r <= |p|
    ensures r < |p| ==> ClHere(p, r)
    ensures forall k :: i <= k < r ==> !ClHere(p, k)
    decreases |p| - i
  {
    if i == |p| || ClHere(p, i) then i else FirstCl(p, i + 1)
  }

  // ---------------------------------------------------------------------------
  // Header end
  // ---------------------------------------------------------------------------

  predicate BlankAt(p: seq<Byte>, i: nat) {
    i + 4 <= |p| && p[i] == CR && p[i + 1] == LF && p[i + 2] == CR && p[i + 3] == LF
  }

  /** The position of the first blank line at or behind `i`, or the length. */
  function FirstBlank(p: seq<Byte>, i: nat): (r: nat)
    requires i <= |p|
    ensures i <= r <= |p|
    ensures r < |p| ==> BlankAt(p, r)
    ensures forall k :: i <= k < r ==> !BlankAt(p, k)
    decreases |p| - i
  {
    if i == |p| || BlankAt(p, i) then i else FirstBlank(p, i + 1)
  }

  // ---------------------------------------------------------------------------
  // The verdict
  // ---------------------------------------------------------------------------

  datatype Verdict = NotSip | Partial | Complete | Multiple(end: nat)

  /** The payload as the C string functions see it: up to its first NUL. */
  function Text(p: seq<Byte>): seq<Byte> {
    p[..Skip(p, 0, IsText)]
  }

  /** What `sip_validate_packet` says about a payload; for more than one message, where
      the first one ends. */
  function Validate(p: seq<Byte>): (r: Verdict)
    ensures r.Multiple? ==> 0 < r.end < |p| <= MAX_SIP_PAYLOAD
  {
    if |p| == 0 || |p| > MAX_SIP_PAYLOAD then NotSip else Read(Text(p))
  }

  function Read(p: seq<Byte>): (r: Verdict)
    ensures r.Multiple? ==> 0 < r.end < |p|
  {
    if !StartsLikeSip(p) then NotSip
    else
      var at := FirstCl(p, 0);
      var h := FirstBlank(p, 0);
      if at == |p| || h == |p| then Partial
      else
        BodyVerdict(p, ClAt(p, at).value.value, h + 4)
  }

  /** The part of the verdict that compares the announced with the seen body length. */
  function BodyVerdict(p: seq<Byte>, contentLen: nat, body: nat): (r: Verdict)
    requires 4 <= body <= |p|
    ensures r.Multiple? ==> 0 < r.end < |p|
  {
    var bodyLen := |p| - body;
    if contentLen > bodyLen then Partial
    else if contentLen < bodyLen then
      if p[body + contentLen - 1] != LF || p[body + contentLen - 2] != CR then NotSip
      else Multiple(body + contentLen)
    else Complete
  }

  /** A complete message without NUL: a start line, a Content-Length line in the header
      that tells the length of the body in fewer than ten digits, and a body that is empty
      or ends in CRLF. */
  predicate WellFormed(m: seq<Byte>) {
    var at, h := FirstCl(m, 0), FirstBlank(m, 0);
    && 0 !in m && StartsLikeSip(m) && at < h < |m|
    && ClAt(m, at).value.value == |m| - (h + 4) && ClAt(m, at).value.digits < 10
    && m[|m| - 1] == LF && m[|m| - 2] == CR
  }

  // ---------------------------------------------------------------------------
  // Scanners on a payload that is cut short or goes on
  // ---------------------------------------------------------------------------

  /** `p` and `q` begin with the same `n` octets. */
  predicate Agree(p: seq<Byte>, q: seq<Byte>, n: nat) {
    n <= |p| && n <= |q| && forall k :: 0 <= k < n ==> p[k] == q[k]
  }

  lemma {:induction false} SkipAgrees(p: seq<Byte>, q: seq<Byte>, n: nat, i: nat, class_: Byte -> bool)
    requires Agree(p, q, n) && i <= |p| && i <= |q| && Skip(p, i, class_) < n
    ensures Skip(q, i, class_) == Skip(p, i, class_)
    decreases |p| - i
  {
    if i < |p| && class_(p[i]) {
      SkipAgrees(p, q, n, i + 1, class_);
    }
  }

  lemma {:induction false} NumberAgrees(p: seq<Byte>, q: seq<Byte>, n: nat, i: nat, j: nat)
    requires Agree(p, q, n) && i <= j <= n && forall k :: i <= k < j ==> IsDigit(p[k])
    ensures Number(q, i, j) == Number(p, i, j)
  {
    if i < j {
      NumberAgrees(p, q, n, i, j - 1);
    }
  }

  /** The start line only depends on itself. */
  lemma StartAgrees(m: seq<Byte>, p: seq<Byte>)
    requires m <= p && StartsLikeSip(m)
    ensures StartsLikeSip(p)
  {
    if RequestStart(m) {
      var a := Skip(m, 0, IsLetter);
      SkipAgrees(m, p, |m|, 0, IsLetter);
      SkipAgrees(m, p, |m|, a + 1, IsLetter);
    }
  }

  /** No CR comes before the one that ends a Content-Length line. */
  lemma ClHasNoCr(p: seq<Byte>, i: nat)
    requires ClAt(p, i).Some?
    ensures forall k :: i <= k < ClAt(p, i).value.cr ==> p[k] != CR
  {
    var n := NameEnd(p, i);
    forall k | i <= k < n
      ensures p[k] != CR
    {
      if NameAt(p, i, CONTENT_LENGTH) {
        assert Lower(p[i + (k - i)]) == CONTENT_LENGTH[k - i];
      } else {
        assert Lower(p[i + (k - i)]) == [108, COLON][k - i];
      }
    }
  }

  lemma NameAgrees(p: seq<Byte>, q: seq<Byte>, n: nat, i: nat)
    requires Agree(p, q, n) && NameEnd(p, i) != 0 && NameEnd(p, i) <= n
    ensures NameEnd(q, i) == NameEnd(p, i)
  {
    if NameAt(p, i, CONTENT_LENGTH) {
      assert NameAt(q, i, CONTENT_LENGTH);
    } else {
      assert NameAt(q, i, [108, COLON]);
      assert Lower(p[i + 1]) == [108, COLON][1] == COLON;
      assert CONTENT_LENGTH[1] == 111;
      assert !NameAt(q, i, CONTENT_LENGTH);
    }
  }

  /** A Content-Length line reads the same wherever its line end is visible. */
  lemma ClAgrees(p: seq<Byte>, q: seq<Byte>, n: nat, i: nat)
    requires Agree(p, q, n) && ClAt(p, i).Some? && ClAt(p, i).value.cr + 1 < n
    ensures ClAt(q, i) == ClAt(p, i)
  {
    var k := NameEnd(p, i);
    NameAgrees(p, q, n, i);
    var a := Skip(p, k, IsSpace);
    SkipAgrees(p, q, n, k, IsSpace);
    var b := Skip(p, a, IsDigit);
    SkipAgrees(p, q, n, a, IsDigit);
    SkipAgrees(p, q, n, b, IsSpace);
    NumberAgrees(p, q, n, a, b);
  }

  /** Where `m` has no Content-Length line before its next CR, there is none in `p`. */
  lemma NoClEither(m: seq<Byte>, p: seq<Byte>, n: nat, cr: nat, k: nat)
    requires Agree(m, p, n) && !ClHere(m, k) && k <= cr && cr + 1 < n && m[cr] == CR
    ensures !ClHere(p, k)
  {
    if ClHere(p, k) {
      ClHasNoCr(p, k);
      assert p[cr] == CR;
      ClAgrees(p, m, n, k);
    }
  }

  lemma FirstClIs(p: seq<Byte>, i: nat)
    requires i < |p| && ClHere(p, i) && forall k :: 0 <= k < i ==> !ClHere(p, k)
    ensures FirstCl(p, 0) == i
  {
  }

  lemma FirstClAgrees(m: seq<Byte>, p: seq<Byte>, n: nat, i: nat, cr: nat)
    requires Agree(m, p, n) && i == FirstCl(m, 0) < |m| && ClAt(m, i).value.cr == cr && cr + 1 < n
    ensures FirstCl(p, 0) == i && ClAt(p, i) == ClAt(m, i)
  {
    ClAgrees(m, p, n, i);
    assert ClHere(p, i);
    forall k | 0 <= k < i
      ensures !ClHere(p, k)
    {
      NoClEither(m, p, n, cr, k);
    }
    FirstClIs(p, i);
  }

  lemma BlankAgrees(m: seq<Byte>, p: seq<Byte>, h: nat)
    requires h == FirstBlank(m, 0) < |m| && Agree(m, p, h + 4)
    ensures FirstBlank(p, 0) == h
  {
    assert BlankAt(p, h);
    assert forall k :: 0 <= k < h ==> (BlankAt(p, k) <==> BlankAt(m, k));
  }

  /** A payload that shows the whole header of `m` has its first Content-Length line
      and its first blank line. */
  lemma HeaderAgrees(m: seq<Byte>, p: seq<Byte>)
    requires WellFormed(m) && Agree(m, p, FirstBlank(m, 0) + 4)
    ensures FirstBlank(p, 0) == FirstBlank(m, 0)
    ensures FirstCl(p, 0) == FirstCl(m, 0) && ClAt(p, FirstCl(m, 0)) == ClAt(m, FirstCl(m, 0))
  {
    var h, i := FirstBlank(m, 0), FirstCl(m, 0);
    BlankAgrees(m, p, h);
    ClHasNoCr(m, i);
    assert ClAt(m, i).value.cr <= h;
    FirstClAgrees(m, p, h + 4, i, ClAt(m, i).value.cr);
  }

  /** A payload that ends before the message does: it is partial as soon as it shows the
      start line. */
  lemma VerdictShort(m: seq<Byte>, p: seq<Byte>)
    requires WellFormed(m) && p <= m && |p| < |m|
    ensures Read(p) == if StartsLikeSip(p) then Partial else NotSip
  {
    var k := FirstBlank(p, 0);
    if k < |p| {
      assert BlankAt(m, k);
      HeaderAgrees(m, p);
    }
  }

  lemma BodyVerdictLong(m: seq<Byte>, p: seq<Byte>, contentLen: nat, body: nat)
    requires m <= p && 4 <= body <= |m| && contentLen == |m| - body
    requires m[|m| - 1] == LF && m[|m| - 2] == CR
    ensures BodyVerdict(p, contentLen, body) == if |p| == |m| then Complete else Multiple(|m|)
  {
  }

  lemma ReadIs(p: seq<Byte>, at: nat, h: nat, value: nat)
    requires StartsLikeSip(p)
    requires at == FirstCl(p, 0) < |p| && h == FirstBlank(p, 0) < |p|
    requires value == ClAt(p, at).value.value
    ensures Read(p) == BodyVerdict(p, value, h + 4)
  {
  }

  lemma WellFormedIs(m: seq<Byte>, at: nat, h: nat, value: nat)
    requires WellFormed(m) && at == FirstCl(m, 0) && h == FirstBlank(m, 0)
    requires ClAt(m, at).Some? ==> value == ClAt(m, at).value.value
    ensures StartsLikeSip(m) && at < h && h + 4 <= |m| && value == |m| - (h + 4)
    ensures m[|m| - 1] == LF && m[|m| - 2] == CR
  {
  }

  lemma HeaderVerdict(m: seq<Byte>, p: seq<Byte>, at: nat, h: nat, value: nat)
    requires StartsLikeSip(p)
    requires at == FirstCl(p, 0) < |p| && h == FirstBlank(p, 0) < |p| && value == ClAt(p, at).value.value
    requires m <= p && h + 4 <= |m| && value == |m| - (h + 4)
    requires m[|m| - 1] == LF && m[|m| - 2] == CR
    ensures Read(p) == if |p| == |m| then Complete else Multiple(|m|)
  {
    ReadIs(p, at, h, value);
    BodyVerdictLong(m, p, value, h + 4);
  }

  /** A payload that shows the message and maybe more. */
  lemma VerdictLong(m: seq<Byte>, p: seq<Byte>)
    requires WellFormed(m) && m <= p
    ensures Read(p) == if |p| == |m| then Complete else Multiple(|m|)
  {
    var at, h := FirstCl(m, 0), FirstBlank(m, 0);
    var value := ClAt(m, at).value.value;
    WellFormedIs(m, at, h, value);
    StartAgrees(m, p);
    HeaderAgrees(m, p);
    HeaderVerdict(m, p, at, h, value);
  }

  lemma TextIs(p: seq<Byte>)
    requires 0 !in p
    ensures Text(p) == p
  {
    assert forall k :: 0 <= k < |p| ==> p[k] in p;
  }

  /** Framing: whatever part of a stream that begins with the message `m` has been
      seen, the verdict tells whether the message is there and where it ends. */
  lemma VerdictExactly(m: seq<Byte>, p: seq<Byte>)
    requires WellFormed(m) && (p <= m || m <= p) && 0 < |p| <= MAX_SIP_PAYLOAD && 0 !in p
    ensures |p| < |m| ==> Validate(p) == if StartsLikeSip(p) then Partial else NotSip
    ensures |p| == |m| ==> Validate(p) == Complete
    ensures |p| > |m| ==> Validate(p) == Multiple(|m|)
  {
    TextIs(p);
    if |p| < |m| {
      VerdictShort(m, p);
    } else {
      VerdictLong(m, p);
    }
  }

  /** "A b:" CR LF "l:0" CR LF CR LF */
  const SHORTEST: seq<Byte> := [65, SPACE, 98, COLON, CR, LF, 108, COLON, 48, CR, LF, CR, LF]

  lemma ShortestLine()
    ensures ClAt(SHORTEST, 6) == Some(ClLine(0, 1, 9)) && ClHere(SHORTEST, 6)
  {
    var p := SHORTEST;
    assert NameEnd(p, 6) == 8 by {
      assert NameAt(p, 6, [108, COLON]);
      assert Lower(p[6 + 1]) != CONTENT_LENGTH[1];
    }
    assert Skip(p, 8, IsSpace) == 8 && Skip(p, 8, IsDigit) == 9 && Skip(p, 9, IsSpace) == 9;
    assert Number(p, 8, 9) == 0;
  }

  lemma ShortestStart()
    ensures !ClHere(SHORTEST, 0) && StartsLikeSip(SHORTEST)
  {
    var p := SHORTEST;
    assert Skip(p, 0, IsLetter) == 1 && Skip(p, 2, IsLetter) == 3;
    assert Lower(p[0 + 0]) != CONTENT_LENGTH[0];
    assert Lower(p[0 + 0]) != [108, COLON][0];
  }

  lemma ShortestBlank()
    ensures FirstBlank(SHORTEST, 0) == 9
  {
    assert BlankAt(SHORTEST, 9);
  }

  lemma ShortestEnd(p: seq<Byte>)
    requires p == SHORTEST
    ensures 0 !in p && |p| == 13 && p[12] == LF && p[11] == CR
  {
  }

  lemma WellFormedWhen(m: seq<Byte>, at: nat, h: nat, digits: nat)
    requires 0 !in m && StartsLikeSip(m) && at == FirstCl(m, 0) < h == FirstBlank(m, 0) && h + 4 == |m| && digits < 10
    requires ClAt(m, at).Some? && ClAt(m, at).value.value == 0 && ClAt(m, at).value.digits == digits
    requires m[|m| - 1] == LF && m[|m| - 2] == CR
    ensures WellFormed(m)
  {
  }

  /** There are well-formed messages: a request line, a Content-Length line in its short
      form, and no body. */
  lemma ShortestIsWellFormed()
    ensures WellFormed(SHORTEST)
  {
    ShortestStart();
    ShortestLine();
    ShortestBlank();
    ShortestEnd(SHORTEST);
    FirstClIs(SHORTEST, 6);
    WellFormedWhen(SHORTEST, 6, 9, 1);
  }
}
