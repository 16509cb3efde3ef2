/** The memory that keeps the server from reading a line of the switch's log twice
    (try_insert_to_telnet_backlog in src/state.cpp). */
module LineFilters {
  import opened Common
  import opened LegStores

  const LINE_LIFETIME: nat := 600

  /** A line that was read, with the two clock readings of its submission. */
  datatype Submission = Submission(line: Id, cleaned: int, stored: int)

  /** The backlog after a submission. */
  function Remember(b: Backlog, s: Submission): Backlog {
    (b - Expired(b, s.cleaned, LINE_LIFETIME))[s.line := s.stored]
  }

  /** The line is not remembered. */
  predicate IsNew(b: Backlog, s: Submission) {
    s.line !in b - Expired(b, s.cleaned, LINE_LIFETIME)
  }

  class LineFilter {
    var backlog: Backlog

    constructor ()
      ensures backlog == map[]
    {
      backlog := map[];
    }

    method Cleanup(now: int)
      modifies this
      ensures backlog == old(backlog) - Expired(old(backlog), now, LINE_LIFETIME)
    {
      ghost var b, gone: set<Id> := backlog, {};
      var first := Oldest(backlog);
      while first.Some? && now - backlog[first.value] > LINE_LIFETIME
        invariant first.None? <==> backlog == map[]
        invariant first.Some? ==>
                    first.value in backlog && forall id :: id in backlog ==> backlog[first.value] <= backlog[id]
        invariant gone <= Expired(b, now, LINE_LIFETIME) && backlog == b - gone
        decreases backlog.Keys
      {
        MinusMinus(b, gone, {first.value});
        gone := gone + {first.value};
        backlog := backlog - {first.value};
        first := Oldest(backlog);
      }
      AllGone(b, backlog, gone, now, LINE_LIFETIME);
    }

    /** Remembers a line; tells whether it was not remembered yet. */
    method TryInsert(s: Submission) returns (inserted: bool)
      modifies this
      ensures inserted == IsNew(old(backlog), s) && backlog == Remember(old(backlog), s)
    {
      Cleanup(s.cleaned);
      inserted := s.line !in backlog;
      backlog := backlog[s.line := s.stored];
    }
  }

  // ---------------------------------------------------------------------------
  // Runs
  // ---------------------------------------------------------------------------

  /** When a line was last submitted. */
  function Latest(past: seq<Submission>, line: Id): Option<int> {
    if past == [] then None
    else if past[|past| - 1].line == line then Some(past[|past| - 1].stored)
    else Latest(past[..|past| - 1], line)
  }

  /** The backlog, what was submitted so far, and the last clock reading. */
  datatype Memory = Memory(backlog: Backlog, past: seq<Submission>, clock: int)

  function Step(): (Memory, Submission) -> Memory {
    (m: Memory, s: Submission) => Memory(Remember(m.backlog, s), m.past + [s], s.stored)
  }

  /** The clock does not go back. */
  function InTime(): (Memory, Submission) -> bool {
    (m: Memory, s: Submission) => m.clock <= s.cleaned <= s.stored
  }

  /** The backlog holds the last submission of every line that is young enough, and
      nothing else. */
  ghost predicate Exact(m: Memory) {
    && (forall v :: v in m.backlog ==> Latest(m.past, v) == Some(m.backlog[v]))
    && (forall v :: v !in m.backlog && Latest(m.past, v).Some? ==> m.clock - Latest(m.past, v).value > LINE_LIFETIME)
  }

  ghost function Exactly(): Memory -> bool {
    (m: Memory) => Exact(m)
  }

  function RunTo(clock: int, subs: seq<Submission>, n: nat): Memory
    requires n <= |subs|
  {
    FoldTo(Memory(map[], [], clock), subs, n, Step())
  }

  lemma LatestMore(past: seq<Submission>, s: Submission, line: Id)
    ensures Latest(past + [s], line) == if s.line == line then Some(s.stored) else Latest(past, line)
  {
    assert (past + [s])[..|past|] == past;
  }

  lemma StepExact(m: Memory, s: Submission)
    requires Exact(m) && InTime()(m, s)
    ensures Exact(Step()(m, s))
  {
    var r := Step()(m, s);
    forall v
      ensures v in r.backlog ==> Latest(r.past, v) == Some(r.backlog[v])
      ensures v !in r.backlog && Latest(r.past, v).Some? ==> r.clock - Latest(r.past, v).value > LINE_LIFETIME
    {
      LatestMore(m.past, s, v);
    }
  }

  lemma {:induction false} PastIs(clock: int, subs: seq<Submission>, n: nat)
    requires n <= |subs|
    ensures RunTo(clock, subs, n).past == subs[..n]
  {
    if n > 0 {
      PastIs(clock, subs, n - 1);
      assert subs[..n] == subs[..n - 1] + [subs[n - 1]];
    }
  }

  lemma NewExactly(m: Memory, s: Submission)
    requires Exact(m) && InTime()(m, s)
    ensures IsNew(m.backlog, s) <==>
              match Latest(m.past, s.line) case None => true case Some(t) => s.cleaned - t > LINE_LIFETIME
  {
  }

  /** De-duplication equals its history: in every run with a clock that does not go back,
      a line is taken exactly when it was never submitted before, or its latest earlier
      submission is more than ten minutes old. */
  lemma TakenExactly(clock: int, subs: seq<Submission>, n: nat)
    requires n < |subs| && AllOk(Memory(map[], [], clock), subs, n + 1, Step(), InTime())
    ensures IsNew(RunTo(clock, subs, n).backlog, subs[n]) <==>
              match Latest(subs[..n], subs[n].line)
              case None => true
              case Some(t) => subs[n].cleaned - t > 10 * 60
  {
    forall m, s | Exactly()(m) && InTime()(m, s)
      ensures Exactly()(Step()(m, s))
    {
      StepExact(m, s);
    }
    RunKeeps(Memory(map[], [], clock), subs, n, Step(), InTime(), Exactly());
    PastIs(clock, subs, n);
    assert InTime()(RunTo(clock, subs, n), subs[n]);
    NewExactly(RunTo(clock, subs, n), subs[n]);
  }
}
