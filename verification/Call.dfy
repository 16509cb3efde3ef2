/** SIP messages, the dialog state machine of a call, and the attributes by which
    calls are sorted (src/sip_call.c, src/sip_msg.c, src/util.c). */
module Calls {
  import opened Common

  const METHOD_INVITE := 2
  const METHOD_MESSAGE := 11
  const METHOD_CANCEL := 12
  const METHOD_BYE := 13
  const METHOD_ACK := 14

  /** A parsed message.  `id` stands for its address, `reqresp` is a method number
      or a response code, `time` counts microseconds. */
  datatype Msg = Msg(id: nat, reqresp: int, cseq: nat, time: int, hasSdp: bool)

  datatype CallState = NoState | CallSetup | InCall | Cancelled | Rejected | Diverted | Busy | Completed

  /** The dialog fields of a call; the start and end messages are positions in the
      call's message list. */
  datatype Dialog = Dialog(state: CallState, inviteCseq: nat, start: Option<nat>, end: Option<nat>)

  const NEW_DIALOG := Dialog(NoState, 0, None, None)

  /** What one message does to a dialog that an INVITE started. */
  function Next(d: Dialog, m: Msg, pos: nat): Dialog {
    match d.state
    case CallSetup =>
      if m.reqresp == METHOD_ACK && d.inviteCseq == m.cseq then d.(state := InCall, start := Some(pos))
      else if m.reqresp == METHOD_CANCEL then d.(state := Cancelled)
      else if m.reqresp in {480, 486, 600} then d.(state := Busy)
      else if m.reqresp > 400 && d.inviteCseq == m.cseq then d.(state := Rejected)
      else if m.reqresp in {181, 301, 302} then d.(state := Diverted)
      else d
    case InCall =>
      if m.reqresp == METHOD_BYE then d.(state := Completed, end := Some(pos)) else d
    case _ =>
      if m.reqresp == METHOD_INVITE then d.(state := CallSetup, inviteCseq := m.cseq) else d
  }

  /** The dialog after the first `n` messages of a call. */
  function After(ms: seq<Msg>, n: nat): Dialog
    requires n <= |ms|
  {
    if n == 0 || ms[0].reqresp != METHOD_INVITE then NEW_DIALOG
    else Next(After(ms, n - 1), ms[n - 1], n - 1)
  }

  class Call {
    const callid: CString
    const index: nat
    var msgs: seq<Msg>
    var dialog: Dialog
    var locked: bool
    var changed: bool

    constructor (callid: CString, index: nat)
      ensures this.callid == callid && this.index == index
      ensures msgs == [] && dialog == NEW_DIALOG && !locked
    {
      this.callid, this.index := callid, index;
      msgs, dialog, locked, changed := [], NEW_DIALOG, false, false;
    }

    predicate IsInvite()
      reads this
    {
      msgs != [] && msgs[0].reqresp == METHOD_INVITE
    }

    /** The dialog is where the messages have brought it. */
    ghost predicate Tracks()
      reads this
    {
      dialog == After(msgs, |msgs|)
    }

    /** Appends a message; tells its index. */
    method AddMessage(msg: Msg) returns (index: nat)
      modifies this`msgs, this`changed
      ensures msgs == old(msgs) + [msg] && changed && index < |msgs| && msgs[index] == msg && index == old(|msgs|)
    {
      msgs := msgs + [msg];
      index := |msgs| - 1;
      changed := true;
    }

    /** Moves the dialog on by the message that was added last. */
    method UpdateState(msg: Msg)
      requires msgs != [] && msgs[|msgs| - 1] == msg
      requires dialog == After(msgs, |msgs| - 1)
      modifies this`dialog
      ensures dialog == After(msgs, |msgs|)
    {
      if !IsInvite() {
        return;
      }
      var reqresp, pos := msg.reqresp, |msgs| - 1;
      if dialog.state != NoState {
        if dialog.state == CallSetup {
          if reqresp == METHOD_ACK && dialog.inviteCseq == msg.cseq {
            dialog := dialog.(state := InCall, start := Some(pos));
          } else if reqresp == METHOD_CANCEL {
            dialog := dialog.(state := Cancelled);
          } else if reqresp == 480 || reqresp == 486 || reqresp == 600 {
            dialog := dialog.(state := Busy);
          } else if reqresp > 400 && dialog.inviteCseq == msg.cseq {
            dialog := dialog.(state := Rejected);
          } else if reqresp == 181 || reqresp == 302 || reqresp == 301 {
            dialog := dialog.(state := Diverted);
          }
        } else if dialog.state == InCall {
          if reqresp == METHOD_BYE {
            dialog := dialog.(state := Completed, end := Some(pos));
          }
        } else if reqresp == METHOD_INVITE {
          dialog := dialog.(inviteCseq := msg.cseq, state := CallSetup);
        }
      } else if reqresp == METHOD_INVITE {
        dialog := dialog.(inviteCseq := msg.cseq, state := CallSetup);
      }
    }
  }

  /** The dialog only depends on the messages so far. */
  lemma {:induction false} AfterPrefix(a: seq<Msg>, b: seq<Msg>, n: nat)
    requires n <= |a| && n <= |b| && forall i :: 0 <= i < n ==> a[i] == b[i]
    ensures After(a, n) == After(b, n)
  {
    if n > 0 {
      AfterPrefix(a, b, n - 1);
    }
  }

  // ---------------------------------------------------------------------------
  // Dialog runs
  // ---------------------------------------------------------------------------

  /** The message ends a setup that the INVITE with `cseq` opened. */
  predicate Decides(m: Msg, cseq: nat) {
    || (m.reqresp == METHOD_ACK && m.cseq == cseq)
    || m.reqresp == METHOD_CANCEL
    || m.reqresp in {480, 486, 600, 181, 301, 302}
    || (m.reqresp > 400 && m.cseq == cseq)
  }

  /** An INVITE at position `i` opens a setup. */
  predicate Opens(ms: seq<Msg>, i: nat)
    requires i < |ms|
  {
    ms[0].reqresp == METHOD_INVITE && ms[i].reqresp == METHOD_INVITE
    && After(ms, i).state !in {CallSetup, InCall}
  }

  /** A setup was opened at `i` and nothing decided it before position `n`. */
  predicate Pending(ms: seq<Msg>, i: nat, n: nat) {
    i < n <= |ms| && Opens(ms, i) && forall k :: i < k < n ==> !Decides(ms[k], ms[i].cseq)
  }

  /** A setup opened at `i` was acknowledged at `j`, and no BYE came before `n`. */
  predicate Talking(ms: seq<Msg>, i: nat, j: nat, n: nat) {
    && j < n <= |ms| && Pending(ms, i, j)
    && ms[j].reqresp == METHOD_ACK && ms[j].cseq == ms[i].cseq
    && forall k :: j < k < n ==> ms[k].reqresp != METHOD_BYE
  }

  lemma {:induction false} PendingIsSetup(ms: seq<Msg>, i: nat, n: nat)
    requires Pending(ms, i, n)
    ensures After(ms, n).state == CallSetup && After(ms, n).inviteCseq == ms[i].cseq
  {
    if i < n - 1 {
      PendingIsSetup(ms, i, n - 1);
    }
  }

  lemma {:induction false} TalkingIsInCall(ms: seq<Msg>, i: nat, j: nat, n: nat)
    requires Talking(ms, i, j, n)
    ensures After(ms, n).state == InCall && After(ms, n).start == Some(j)
  {
    if n == j + 1 {
      PendingIsSetup(ms, i, j);
    } else {
      TalkingIsInCall(ms, i, j, n - 1);
    }
  }

  lemma {:induction false} SetupHistory(ms: seq<Msg>, n: nat) returns (i: nat)
    requires n <= |ms| && After(ms, n).state == CallSetup
    ensures Pending(ms, i, n)
  {
    if After(ms, n - 1).state == CallSetup {
      i := SetupHistory(ms, n - 1);
      PendingIsSetup(ms, i, n - 1);
    } else {
      i := n - 1;
    }
  }

  lemma {:induction false} InCallHistory(ms: seq<Msg>, n: nat) returns (i: nat, j: nat)
    requires n <= |ms| && After(ms, n).state == InCall
    ensures Talking(ms, i, j, n)
  {
    if After(ms, n - 1).state == InCall {
      i, j := InCallHistory(ms, n - 1);
    } else {
      i := SetupHistory(ms, n - 1);
      j := n - 1;
      PendingIsSetup(ms, i, n - 1);
    }
  }

  /** A call is in conversation exactly when an INVITE opened a setup, the first
      message to decide it was the ACK with the same CSeq, and no BYE followed. */
  lemma InCallExactly(ms: seq<Msg>, n: nat)
    requires n <= |ms|
    ensures After(ms, n).state == InCall <==> exists i, j :: Talking(ms, i, j, n)
  {
    if After(ms, n).state == InCall {
      var i, j := InCallHistory(ms, n);
    } else if exists i, j :: Talking(ms, i, j, n) {
      var i, j :| Talking(ms, i, j, n);
      TalkingIsInCall(ms, i, j, n);
    }
  }

  /** Once a call left conversation or setup, only a new INVITE, acknowledged
      later, brings it back into conversation. */
  lemma BackInCallNeedsInvite(ms: seq<Msg>, p: nat, q: nat)
    requires p <= q <= |ms|
    requires After(ms, p).state in {Cancelled, Rejected, Diverted, Busy, Completed}
    requires After(ms, q).state == InCall
    ensures exists i, j :: p <= i < j < q && ms[i].reqresp == METHOD_INVITE
                           && ms[j].reqresp == METHOD_ACK && ms[j].cseq == ms[i].cseq
  {
    var i, j := InCallHistory(ms, q);
    if i < p <= j {
      PendingIsSetup(ms, i, p);
    } else if j < p {
      TalkingIsInCall(ms, i, j, p);
    }
    assert p <= i < j < q;
  }

  /** A completed call has a start before its end: an ACK that answered an INVITE
      of the same CSeq, and then the first BYE. */
  lemma {:induction false} CompletedHistory(ms: seq<Msg>, n: nat) returns (i: nat, j: nat, k: nat)
    requires n <= |ms| && After(ms, n).state == Completed
    ensures After(ms, n).start == Some(j) && After(ms, n).end == Some(k)
    ensures k < n && Talking(ms, i, j, k) && ms[k].reqresp == METHOD_BYE
    ensures forall m :: k < m < n ==> ms[m].reqresp != METHOD_INVITE
  {
    if After(ms, n - 1).state == Completed {
      i, j, k := CompletedHistory(ms, n - 1);
    } else {
      k := n - 1;
      i, j := InCallHistory(ms, k);
      TalkingIsInCall(ms, i, j, k);
    }
  }

  /** The message that turns a pending setup into the ended state `s`. */
  predicate Causes(m: Msg, cseq: nat, s: CallState) {
    match s
    case Cancelled => m.reqresp == METHOD_CANCEL
    case Busy => m.reqresp in {480, 486, 600}
    case Rejected => m.reqresp > 400 && m.cseq == cseq && m.reqresp !in {480, 486, 600}
    case Diverted => m.reqresp in {181, 301, 302}
    case _ => false
  }

  /** A call that ended before conversation names its cause: the first message to
      decide the last setup, with no INVITE after it. */
  lemma {:induction false} EndedHistory(ms: seq<Msg>, n: nat) returns (i: nat, j: nat)
    requires n <= |ms| && After(ms, n).state in {Cancelled, Rejected, Diverted, Busy}
    ensures j < n && Pending(ms, i, j) && Causes(ms[j], ms[i].cseq, After(ms, n).state)
    ensures forall m :: j < m < n ==> ms[m].reqresp != METHOD_INVITE
  {
    if After(ms, n - 1).state == CallSetup {
      i := SetupHistory(ms, n - 1);
      j := n - 1;
      PendingIsSetup(ms, i, j);
    } else {
      i, j := EndedHistory(ms, n - 1);
    }
  }

  /** A call has no state exactly as long as it has no messages or did not begin with an
      INVITE. */
  lemma {:induction false} NoStateExactly(ms: seq<Msg>, n: nat)
    requires n <= |ms|
    ensures After(ms, n).state == NoState <==> n == 0 || ms[0].reqresp != METHOD_INVITE
  {
    if n > 1 {
      NoStateExactly(ms, n - 1);
    }
  }

  // ---------------------------------------------------------------------------
  // Start and end of a conversation
  // ---------------------------------------------------------------------------

  /** The message at `j` is the ACK that answers a pending INVITE. */
  ghost predicate Answers(ms: seq<Msg>, j: nat) {
    j < |ms| && exists i: nat :: Pending(ms, i, j) && ms[j].reqresp == METHOD_ACK && ms[j].cseq == ms[i].cseq
  }

  /** The message at `k` is the BYE that ends a conversation. */
  ghost predicate HangsUp(ms: seq<Msg>, k: nat) {
    k < |ms| && ms[k].reqresp == METHOD_BYE && exists i: nat, j: nat :: Talking(ms, i, j, k)
  }

  /** `last` is the last position before `n` with the property, or none when there is none. */
  ghost predicate IsLast(last: Option<nat>, n: nat, property: nat -> bool) {
    match last
    case None => forall k :: 0 <= k < n ==> !property(k)
    case Some(j) => j < n && property(j) && forall k :: j < k < n ==> !property(k)
  }

  lemma SetupExactly(ms: seq<Msg>, n: nat)
    requires n <= |ms|
    ensures After(ms, n).state == CallSetup <==> exists i: nat :: Pending(ms, i, n)
    ensures forall i: nat :: Pending(ms, i, n) ==> After(ms, n).inviteCseq == ms[i].cseq
  {
    forall i: nat | Pending(ms, i, n)
      ensures After(ms, n).state == CallSetup && After(ms, n).inviteCseq == ms[i].cseq
    {
      PendingIsSetup(ms, i, n);
    }
    if After(ms, n).state == CallSetup {
      var i := SetupHistory(ms, n);
    }
  }

  lemma AnswersExactly(ms: seq<Msg>, n: nat)
    requires n < |ms|
    ensures Answers(ms, n) <==> After(ms, n).state == CallSetup && ms[n].reqresp == METHOD_ACK
                                && ms[n].cseq == After(ms, n).inviteCseq
  {
    if Answers(ms, n) {
      var i: nat :| Pending(ms, i, n) && ms[n].cseq == ms[i].cseq;
      PendingIsSetup(ms, i, n);
    } else if After(ms, n).state == CallSetup {
      var i := SetupHistory(ms, n);
      PendingIsSetup(ms, i, n);
    }
  }

  lemma HangsUpExactly(ms: seq<Msg>, n: nat)
    requires n < |ms|
    ensures HangsUp(ms, n) <==> After(ms, n).state == InCall && ms[n].reqresp == METHOD_BYE
  {
    if HangsUp(ms, n) {
      var i: nat, j: nat :| Talking(ms, i, j, n);
      TalkingIsInCall(ms, i, j, n);
    } else if After(ms, n).state == InCall {
      var i, j := InCallHistory(ms, n);
    }
  }

  /** In every state, the start message is the last ACK that answered an INVITE, and there
      is none exactly when no INVITE was answered. */
  lemma {:induction false} StartExactly(ms: seq<Msg>, n: nat)
    requires n <= |ms|
    ensures IsLast(After(ms, n).start, n, (j: nat) => Answers(ms, j))
  {
    if n > 0 {
      StartExactly(ms, n - 1);
      AnswersExactly(ms, n - 1);
    }
  }

  /** In every state, the end message is the last BYE that ended a conversation, and there
      is none exactly when no conversation was ended. */
  lemma {:induction false} EndExactly(ms: seq<Msg>, n: nat)
    requires n <= |ms|
    ensures IsLast(After(ms, n).end, n, (k: nat) => HangsUp(ms, k))
  {
    if n > 0 {
      EndExactly(ms, n - 1);
      HangsUpExactly(ms, n - 1);
    }
  }

  /** The CSeq is that of the last INVITE that opened a setup. */
  lemma {:induction false} InviteCseqExactly(ms: seq<Msg>, n: nat) returns (last: Option<nat>)
    requires n <= |ms|
    ensures IsLast(last, n, (i: nat) => i < |ms| && Opens(ms, i))
    ensures After(ms, n).inviteCseq == if last.None? then 0 else ms[last.value].cseq
  {
    last := None;
    if n > 0 {
      last := InviteCseqExactly(ms, n - 1);
      if Opens(ms, n - 1) {
        last := Some(n - 1);
      }
    }
  }

  // ---------------------------------------------------------------------------
  // Sorting attributes
  // ---------------------------------------------------------------------------

  datatype SortField = ByIndex | ByMsgCount | ByCallId | ByState

  datatype Attr = Number(n: int) | Text(t: CString)

  function StateName(s: CallState): string {
    match s
    case NoState => ""
    case CallSetup => "CALL SETUP"
    case InCall => "IN CALL"
    case Cancelled => "CANCELLED"
    case Rejected => "REJECTED"
    case Diverted => "DIVERTED"
    case Busy => "BUSY"
    case Completed => "COMPLETED"
  }

  function StateText(s: CallState): CString {
    Ascii(StateName(s))
  }

  function Attribute(call: Call, field: SortField): Attr
    reads call
  {
    match field
    case ByIndex => Number(call.index)
    case ByMsgCount => Number(|call.msgs|)
    case ByCallId => Text(call.callid)
    case ByState => Text(StateText(call.dialog.state))
  }

  /** The sign of `strcmp`, over unsigned characters. */
  function StrCmp(a: CString, b: CString): (r: int)
    ensures r == 0 <==> a == b
    ensures -1 <= r <= 1
  {
    if a == [] && b == [] then 0
    else if a == [] then -1
    else if b == [] then 1
    else if a[0] < b[0] then -1
    else if a[0] > b[0] then 1
    else
      assert a == [a[0]] + a[1..] && b == [b[0]] + b[1..];
      StrCmp(a[1..], b[1..])
  }

  /** `call_attr_compare` on two values of one attribute; texts and numbers never
      meet. */
  function AttrCompare(one: Attr, two: Attr): int {
    match (one, two)
    case (Number(x), Number(y)) => if x == y then 0 else if x > y then 1 else -1
    case (Text(x), Text(y)) =>
      if y == [] && x == [] then 0
      else if y == [] then 1
      else if x == [] then -1
      else StrCmp(x, y)
    case (Number(_), Text(_)) => -1
    case (Text(_), Number(_)) => 1
  }

  lemma {:induction false} StrCmpFlips(a: CString, b: CString)
    ensures StrCmp(b, a) == -StrCmp(a, b)
  {
    if a != [] && b != [] && a[0] == b[0] {
      StrCmpFlips(a[1..], b[1..]);
    }
  }

  lemma {:induction false} StrCmpTransitive(a: CString, b: CString, c: CString)
    requires StrCmp(a, b) <= 0 && StrCmp(b, c) <= 0
    ensures StrCmp(a, c) <= 0
  {
    if a != [] && b != [] && c != [] && a[0] == b[0] && b[0] == c[0] {
      StrCmpTransitive(a[1..], b[1..], c[1..]);
    }
  }

  /** The comparison is a total preorder, whichever way it is read. */
  lemma AttrCompareOrders(a: Attr, b: Attr, c: Attr)
    ensures AttrCompare(b, a) == -AttrCompare(a, b)
    ensures AttrCompare(a, b) <= 0 && AttrCompare(b, c) <= 0 ==> AttrCompare(a, c) <= 0
  {
    if a.Text? && b.Text? {
      StrCmpFlips(a.t, b.t);
      if c.Text? && StrCmp(a.t, b.t) <= 0 && StrCmp(b.t, c.t) <= 0 {
        StrCmpTransitive(a.t, b.t, c.t);
      }
    }
  }

  /** `a` comes before `b` in a dictionary: at the first position where they differ it has
      the smaller octet, or it ends there. */
  ghost predicate Precedes(a: CString, b: CString) {
    exists k: nat :: DiffersAt(a, b, k)
  }

  predicate DiffersAt(a: CString, b: CString, k: nat) {
    && k <= |a| && k < |b| && (forall i :: 0 <= i < k ==> a[i] == b[i])
    && (k == |a| || a[k] < b[k])
  }

  lemma {:induction false} StrCmpExactly(a: CString, b: CString)
    ensures StrCmp(a, b) < 0 <==> Precedes(a, b)
  {
    if a != [] && b != [] && a[0] == b[0] {
      StrCmpExactly(a[1..], b[1..]);
      if Precedes(a[1..], b[1..]) {
        var k: nat :| DiffersAt(a[1..], b[1..], k);
        assert DiffersAt(a, b, k + 1);
      }
      if Precedes(a, b) {
        var k: nat :| DiffersAt(a, b, k);
        assert DiffersAt(a[1..], b[1..], k - 1);
      }
    } else if b != [] && (a == [] || a[0] < b[0]) {
      assert DiffersAt(a, b, 0);
    }
  }

  /** Numbers are compared by size, texts by their place in a dictionary. */
  lemma AttrCompareExactly(a: Attr, b: Attr)
    ensures a.Number? && b.Number? ==> (AttrCompare(a, b) < 0 <==> a.n < b.n) && (AttrCompare(a, b) > 0 <==> a.n > b.n)
    ensures a.Text? && b.Text? ==>
              (AttrCompare(a, b) < 0 <==> Precedes(a.t, b.t)) && (AttrCompare(a, b) > 0 <==> Precedes(b.t, a.t))
  {
    if a.Text? && b.Text? {
      StrCmpExactly(a.t, b.t);
      StrCmpExactly(b.t, a.t);
      StrCmpFlips(a.t, b.t);
    }
  }

  /** The place of a state's name among the names in the order of a dictionary. */
  function Rank(s: CallState): nat {
    match s
    case NoState => 0 case Busy => 1 case CallSetup => 2 case Cancelled => 3
    case Completed => 4 case Diverted => 5 case InCall => 6 case Rejected => 7
  }

  /** The first four letters of a state's name, with spaces where it is shorter. */
  function Letters(s: CallState): seq<Byte> {
    match s
    case NoState => [32, 32, 32, 32] case Busy => [66, 85, 83, 89] case CallSetup => [67, 65, 76, 76]
    case Cancelled => [67, 65, 78, 67] case Completed => [67, 79, 77, 80] case Diverted => [68, 73, 86, 69]
    case InCall => [73, 78, 32, 67] case Rejected => [82, 69, 74, 69]
  }

  lemma StateTextBegins(s: CallState)
    ensures s.NoState? ==> StateText(s) == []
    ensures !s.NoState? ==> Letters(s) <= StateText(s)
  {
    if !s.NoState? {
      var t := StateName(s);
      NameBegins(s, t);
      AsciiBegins(t);
    }
  }

  lemma NameBegins(s: CallState, t: string)
    requires !s.NoState? && t == StateName(s)
    ensures |t| >= 4 && forall i :: 0 <= i < |t| ==> 0 < t[i] as int < 256
    ensures Letters(s) == [t[0] as int, t[1] as int, t[2] as int, t[3] as int]
  {
  }

  lemma AsciiBegins(t: string)
    requires |t| >= 4 && forall i :: 0 <= i < |t| ==> 0 < t[i] as int < 256
    ensures [t[0] as int, t[1] as int, t[2] as int, t[3] as int] <= Ascii(t)
  {
    AsciiSpells(t);
  }

  lemma LettersDiffer(a: CString, b: CString, x: seq<Byte>, y: seq<Byte>, k: nat)
    requires |x| == |y| == 4 && x <= a && y <= b && k < 4 && x[k] < y[k] && forall i :: 0 <= i < k ==> x[i] == y[i]
    ensures StrCmp(a, b) < 0
  {
    assert DiffersAt(a, b, k);
    StrCmpExactly(a, b);
  }

  /** Sorting by state sorts by these names. */
  lemma StateOrder(a: CallState, b: CallState)
    ensures AttrCompare(Text(StateText(a)), Text(StateText(b))) < 0 <==> Rank(a) < Rank(b)
  {
    StateTextBegins(a);
    StateTextBegins(b);
    if Rank(a) < Rank(b) {
      StatesDiffer(a, b);
    } else if Rank(b) < Rank(a) {
      StatesDiffer(b, a);
      AttrCompareOrders(Text(StateText(a)), Text(StateText(b)), Number(0));
    } else {
      assert a == b by {
        RankIsUnique(a, b);
      }
    }
  }

  lemma RankIsUnique(a: CallState, b: CallState)
    ensures Rank(a) == Rank(b) ==> a == b
  {
  }

  lemma StatesDiffer(a: CallState, b: CallState)
    requires Rank(a) < Rank(b)
    ensures AttrCompare(Text(StateText(a)), Text(StateText(b))) < 0
  {
    StateTextBegins(a);
    StateTextBegins(b);
    if a != NoState {
      var k := DifferAt(a, b, Letters(a), Letters(b));
      LettersDiffer(StateText(a), StateText(b), Letters(a), Letters(b), k);
    }
  }

  lemma DifferAt(a: CallState, b: CallState, x: seq<Byte>, y: seq<Byte>) returns (k: nat)
    requires 0 < Rank(a) < Rank(b) && x == Letters(a) && y == Letters(b)
    ensures k < 4 && |x| == |y| == 4 && x[k] < y[k] && forall i :: 0 <= i < k ==> x[i] == y[i]
  {
    k := if x[0] != y[0] then 0 else if x[1] != y[1] then 1 else 2;
  }
}
