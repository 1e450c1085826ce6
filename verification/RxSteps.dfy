/** The read queue of a device between its posters, its readers and the timer.

    The queue has a lock, but it is held for one call at a time: an interrupt or a task that posts
    a message looks at the overrun bit, tries to patch the newest entry, puts the message in, and
    after a refusal sets the overrun bit and marks the newest entry, all in steps of their own. A
    reader takes an entry in one step and clears the overrun bit in the next. Every interleaving
    of these steps is a run. */
module RxSteps {
  import opened RxPolicy

  // ---------------------------------------------------------------- state

  /** Where a task or an interrupt stands in pcan_chardev_rx or pcanfd_recv_msg. */
  datatype Pc =
    | Idle
    | Entered(m: Msg)   // about to look at the overrun bit
    | Patching(m: Msg)  // a status, about to be compared with the newest entry
    | Putting(m: Msg)   // about to be put
    | Refused(m: Msg)   // the queue was full; the overrun bit is not set yet
    | Marking(m: Msg)   // the overrun bit is set; the newest entry is not marked yet
    | Reading           // has taken an entry and is about to clear the overrun bit

  /** `unmarked` is a log: since the overrun bit was last cleared somebody found no entry to mark. */
  datatype State = State(q: Queue, pcs: seq<Pc>, unmarked: bool)

  function Init(tasks: nat): State {
    State(Queue([], false), seq(tasks, _ => Idle), false)
  }

  datatype Event =
    | Enter(i: nat, m: Msg)                // a message passes the tests of pcan_chardev_rx
    | TestBit(i: nat)                      // ... it is dropped while the overrun bit is set
    | TestPatch(i: nat)                    // ... it replaces the newest entry that it repeats
    | Put(i: nat)                          // ... pcan_fifo_put
    | SetBit(i: nat)                       // ... pcan_handle_error_internal
    | Mark(i: nat)                         // ... the newest entry becomes the overflow mark
    | Get(i: nat)                          // pcan_fifo_get of a reader
    | Clear(i: nat, passed: bool, m: Msg)  // ... pcan_clear_status_bit, which may post a status
    | Timer(m: Msg)                        // the bus-load timer

  predicate Enabled(s: State, e: Event) {
    match e
    case Enter(i, m) => i < |s.pcs| && s.pcs[i].Idle? && m.kind != NOP && !IsBusLoad(m)
    case TestBit(i) => i < |s.pcs| && s.pcs[i].Entered?
    case TestPatch(i) => i < |s.pcs| && s.pcs[i].Patching?
    case Put(i) => i < |s.pcs| && s.pcs[i].Putting?
    case SetBit(i) => i < |s.pcs| && s.pcs[i].Refused?
    case Mark(i) => i < |s.pcs| && s.pcs[i].Marking?
    case Get(i) => i < |s.pcs| && s.pcs[i].Idle? && s.q.fifo != []
    case Clear(i, passed, m) =>
      i < |s.pcs| && s.pcs[i].Reading? && (passed ==> m.kind == STATUS && !IsBusLoad(m))
    case Timer(m) => IsBusLoad(m)
  }

  function Apply(capacity: nat, s: State, e: Event): State
    requires Enabled(s, e)
  {
    match e
    case Enter(i, m) => s.(pcs := s.pcs[i := Entered(m)])
    case TestBit(i) =>
      var m := s.pcs[i].m;
      s.(pcs := s.pcs[i := if s.q.overrun then Idle else if m.kind == STATUS then Patching(m) else Putting(m)])
    case TestPatch(i) =>
      var m := s.pcs[i].m;
      if Repeats(s.q, m) then s.(q := WithNewest(s.q, m), pcs := s.pcs[i := Idle])
      else s.(pcs := s.pcs[i := Putting(m)])
    case Put(i) =>
      var m := s.pcs[i].m;
      if |s.q.fifo| < capacity then s.(q := Appended(s.q, m), pcs := s.pcs[i := Idle])
      else s.(pcs := s.pcs[i := Refused(m)])
    case SetBit(i) => s.(q := s.q.(overrun := true), pcs := s.pcs[i := Marking(s.pcs[i].m)])
    case Mark(i) =>
      s.(q := WithNewest(s.q, Overflow(s.pcs[i].m)), pcs := s.pcs[i := Idle],
         unmarked := s.unmarked || s.q.fifo == [])
    case Get(i) => s.(q := s.q.(fifo := s.q.fifo[1..]), pcs := s.pcs[i := Reading])
    case Clear(i, passed, m) =>
      if s.q.overrun then
        State(s.q.(overrun := false), s.pcs[i := if passed then Entered(m) else Idle], false)
      else s.(pcs := s.pcs[i := Idle])
    case Timer(m) => s.(q := TimerPut(s.q, m, capacity))
  }

  ghost predicate IsRun(capacity: nat, s: State, es: seq<Event>)
    decreases |es|
  {
    es == [] || (Enabled(s, es[0]) && IsRun(capacity, Apply(capacity, s, es[0]), es[1..]))
  }

  ghost function After(capacity: nat, s: State, es: seq<Event>): State
    requires IsRun(capacity, s, es)
    decreases |es|
  {
    if es == [] then s else After(capacity, Apply(capacity, s, es[0]), es[1..])
  }

  /** `es` is a run from `s` to `t`. */
  ghost predicate LeadsTo(capacity: nat, s: State, es: seq<Event>, t: State) {
    IsRun(capacity, s, es) && After(capacity, s, es) == t
  }

  lemma Then(capacity: nat, s: State, e: Event, es: seq<Event>, t: State)
    requires Enabled(s, e) && LeadsTo(capacity, Apply(capacity, s, e), es, t)
    ensures LeadsTo(capacity, s, [e] + es, t)
  {
    assert ([e] + es)[1..] == es;
  }

  /** The task whose step this is, if any. */
  predicate IsStepOf(e: Event, i: nat) { !e.Timer? && e.i == i }

  // ---------------------------------------------------------------- one post, one read

  /** When nobody comes in between, the steps of a post are what pcan_chardev_rx is proved to do. */
  lemma UndisturbedPost(capacity: nat, s: State, i: nat, m: Msg) returns (es: seq<Event>)
    requires capacity > 0 && i < |s.pcs| && s.pcs[i] == Entered(m)
    ensures LeadsTo(capacity, s, es, s.(q := Post(s.q, m, capacity).0, pcs := s.pcs[i := Idle]))
    ensures forall e <- es :: IsStepOf(e, i)
  {
    var t := s.(q := Post(s.q, m, capacity).0, pcs := s.pcs[i := Idle]);
    var s1 := Apply(capacity, s, TestBit(i));
    if s.q.overrun {
      es := [];
    } else if Repeats(s.q, m) {
      Then(capacity, s1, TestPatch(i), [], t);
      es := [TestPatch(i)] + [];
    } else {
      var s2 := s.(pcs := s.pcs[i := Putting(m)]);
      es := UndisturbedPut(capacity, s2, i, m, t);
      if m.kind == STATUS {
        assert Apply(capacity, s1, TestPatch(i)).pcs == s2.pcs;
        Then(capacity, s1, TestPatch(i), es, t);
        es := [TestPatch(i)] + es;
      }
    }
    Then(capacity, s, TestBit(i), es, t);
    es := [TestBit(i)] + es;
  }

  lemma UndisturbedPut(capacity: nat, s: State, i: nat, m: Msg, t: State) returns (es: seq<Event>)
    requires capacity > 0 && i < |s.pcs| && s.pcs[i] == Putting(m) && !s.q.overrun && !Repeats(s.q, m)
    requires t == s.(q := Post(s.q, m, capacity).0, pcs := s.pcs[i := Idle])
    ensures LeadsTo(capacity, s, es, t) && forall e <- es :: IsStepOf(e, i)
  {
    var s1 := Apply(capacity, s, Put(i));
    if |s.q.fifo| < capacity {
      es := [];
    } else {
      var s2 := Apply(capacity, s1, SetBit(i));
      Then(capacity, s2, Mark(i), [], t);
      Then(capacity, s1, SetBit(i), [Mark(i)] + [], t);
      es := [SetBit(i)] + ([Mark(i)] + []);
    }
    Then(capacity, s, Put(i), es, t);
    es := [Put(i)] + es;
  }

  /** The same for a read. */
  lemma UndisturbedRead(capacity: nat, s: State, i: nat, passed: bool, m: Msg) returns (es: seq<Event>, t: State)
    requires capacity > 0 && i < |s.pcs| && s.pcs[i] == Idle && s.q.fifo != []
    requires passed ==> m.kind == STATUS && !IsBusLoad(m)
    ensures LeadsTo(capacity, s, es, t) && t.pcs == s.pcs
    ensures t.q == Cleared(s.q.(fifo := s.q.fifo[1..]), passed, m, capacity)
    ensures forall e <- es :: IsStepOf(e, i)
  {
    var s1 := Apply(capacity, s, Get(i));
    var s2 := Apply(capacity, s1, Clear(i, passed, m));
    es, t := [], s2;
    if s2.pcs[i] != Idle {
      t := s2.(q := Post(s2.q, m, capacity).0, pcs := s2.pcs[i := Idle]);
      es := UndisturbedPost(capacity, s2, i, m);
    }
    Then(capacity, s1, Clear(i, passed, m), es, t);
    Then(capacity, s, Get(i), [Clear(i, passed, m)] + es, t);
    es := [Get(i)] + ([Clear(i, passed, m)] + es);
  }

  // ---------------------------------------------------------------- what every run keeps

  /** Somebody is between setting the overrun bit and the mark, or between taking an entry and
      clearing the bit. */
  ghost predicate InBetween(s: State) {
    exists i :: 0 <= i < |s.pcs| && (s.pcs[i].Marking? || s.pcs[i].Reading?)
  }

  ghost predicate HoldsMark(fifo: seq<Msg>) {
    exists k :: 0 <= k < |fifo| && IsOverflow(fifo[k])
  }

  ghost predicate Inv(capacity: nat, s: State) {
    && |s.q.fifo| <= capacity
    && (s.q.overrun ==> s.unmarked || InBetween(s) || HoldsMark(s.q.fifo))
  }

  lemma WithNewestHoldsMark(q: Queue, m: Msg)
    requires HoldsMark(q.fifo) && (IsOverflow(m) || Repeats(q, m))
    ensures HoldsMark(WithNewest(q, m).fifo)
  {
    var n := |q.fifo|;
    var k :| 0 <= k < n && IsOverflow(q.fifo[k]);
    assert IsOverflow(WithNewest(q, m).fifo[k]);
  }

  lemma StepKeepsInBetween(capacity: nat, s: State, e: Event, i: nat)
    requires Enabled(s, e) && i < |s.pcs| && !IsStepOf(e, i) && (s.pcs[i].Marking? || s.pcs[i].Reading?)
    ensures InBetween(Apply(capacity, s, e))
  {
    assert Apply(capacity, s, e).pcs[i] == s.pcs[i];
  }

  lemma MarkedHoldsMark(q: Queue, m: Msg)
    requires q.fifo != []
    ensures HoldsMark(WithNewest(q, Overflow(m)).fifo)
  {
    assert IsOverflow(WithNewest(q, Overflow(m)).fifo[|q.fifo| - 1]);
  }

  lemma AppendedHoldsMark(q: Queue, m: Msg)
    requires HoldsMark(q.fifo)
    ensures HoldsMark(Appended(q, m).fifo)
  {
    var k :| 0 <= k < |q.fifo| && IsOverflow(q.fifo[k]);
    assert IsOverflow(Appended(q, m).fifo[k]);
  }

  lemma StepKeepsInv(capacity: nat, s: State, e: Event)
    requires Inv(capacity, s) && Enabled(s, e)
    ensures Inv(capacity, Apply(capacity, s, e))
  {
    hide IsOverflow, Same, HoldsMark;
    var s' := Apply(capacity, s, e);
    if s'.q.overrun && !s'.unmarked {
      if i :| 0 <= i < |s.pcs| && !IsStepOf(e, i) && (s.pcs[i].Marking? || s.pcs[i].Reading?) {
        StepKeepsInBetween(capacity, s, e, i);
      } else {
        match e
        case SetBit(i) => assert s'.pcs[i].Marking?;
        case Mark(i) => MarkedHoldsMark(s.q, s.pcs[i].m);
        case Get(i) => assert s'.pcs[i].Reading?;
        case Clear(_, _, _) =>
        case TestPatch(i) =>
          if Repeats(s.q, s.pcs[i].m) {
            WithNewestHoldsMark(s.q, s.pcs[i].m);
          }
        case Put(i) => AppendedHoldsMark(s.q, s.pcs[i].m);
        case Timer(m) => AppendedHoldsMark(s.q, m);
        case Enter(_, _) =>
        case TestBit(_) =>
      }
    }
  }

  lemma {:induction false} RunKeepsInv(capacity: nat, s: State, es: seq<Event>)
    requires Inv(capacity, s) && IsRun(capacity, s, es)
    ensures Inv(capacity, After(capacity, s, es))
    decreases |es|
  {
    hide Inv, Apply, Enabled;
    if es != [] {
      StepKeepsInv(capacity, s, es[0]);
      RunKeepsInv(capacity, Apply(capacity, s, es[0]), es[1..]);
    }
  }

  /** In every run the queue keeps its size, and an overrun is told by an entry of the queue,
      but while somebody is in between or after somebody found no entry to mark. */
  lemma OverrunIsTold(capacity: nat, tasks: nat, es: seq<Event>)
    requires IsRun(capacity, Init(tasks), es)
    ensures
      var s := After(capacity, Init(tasks), es);
      && |s.q.fifo| <= capacity
      && (s.q.overrun ==> s.unmarked || InBetween(s) || HoldsMark(s.q.fifo))
  {
    RunKeepsInv(capacity, Init(tasks), es);
  }

  // ---------------------------------------------------------------- readers that keep away

  /** Somebody is between a refused put and its mark. */
  predicate Losing(pc: Pc) { pc.Refused? || pc.Marking? }

  /** No entry is taken between a refused put and its mark. */
  ghost predicate Calm(s: State, e: Event) {
    e.Get? ==> forall i :: 0 <= i < |s.pcs| ==> !Losing(s.pcs[i])
  }

  ghost predicate CalmRun(capacity: nat, s: State, es: seq<Event>)
    requires IsRun(capacity, s, es)
    decreases |es|
  {
    es == [] || (Calm(s, es[0]) && CalmRun(capacity, Apply(capacity, s, es[0]), es[1..]))
  }

  ghost predicate CalmInv(capacity: nat, s: State) {
    && |s.q.fifo| <= capacity
    && (forall i :: 0 <= i < |s.pcs| && Losing(s.pcs[i]) ==> |s.q.fifo| == capacity)
    && (s.q.overrun ==> InBetween(s) || Marked(s.q, capacity))
  }

  lemma StepKeepsCalmInv(capacity: nat, s: State, e: Event)
    requires capacity > 0 && CalmInv(capacity, s) && Enabled(s, e) && Calm(s, e)
    ensures CalmInv(capacity, Apply(capacity, s, e))
  {
    var s' := Apply(capacity, s, e);
    if s'.q.overrun {
      if i :| 0 <= i < |s.pcs| && !IsStepOf(e, i) && (s.pcs[i].Marking? || s.pcs[i].Reading?) {
        StepKeepsInBetween(capacity, s, e, i);
      } else if e.SetBit? {
        assert s'.pcs[e.i].Marking?;
      } else if e.Get? {
        assert s'.pcs[e.i].Reading?;
      } else {
        assert Marked(s'.q, capacity);
      }
    }
  }

  lemma {:induction false} RunKeepsCalmInv(capacity: nat, s: State, es: seq<Event>)
    requires capacity > 0 && CalmInv(capacity, s) && IsRun(capacity, s, es) && CalmRun(capacity, s, es)
    ensures CalmInv(capacity, After(capacity, s, es))
    decreases |es|
  {
    hide CalmInv, Apply, Enabled, Calm;
    if es != [] {
      StepKeepsCalmInv(capacity, s, es[0]);
      RunKeepsCalmInv(capacity, Apply(capacity, s, es[0]), es[1..]);
    }
  }

  /** In every run in which no entry is taken between a refused put and its mark, an overrun queue
      is full and its newest entry is the mark, but while somebody is in between. */
  lemma CalmRunsMark(capacity: nat, tasks: nat, es: seq<Event>)
    requires capacity > 0 && IsRun(capacity, Init(tasks), es) && CalmRun(capacity, Init(tasks), es)
    ensures
      var s := After(capacity, Init(tasks), es);
      s.q.overrun ==> InBetween(s) || Marked(s.q, capacity)
  {
    RunKeepsCalmInv(capacity, Init(tasks), es);
  }

  // ---------------------------------------------------------------- what readers in between do

  function Taken(es: seq<Event>): nat {
    if es == [] then 0 else (if es[0].Get? then 1 else 0) + Taken(es[1..])
  }

  /** How many entries a run adds. */
  ghost function Added(capacity: nat, s: State, es: seq<Event>): nat
    requires IsRun(capacity, s, es)
    decreases |es|
  {
    if es == [] then 0
    else
      var s' := Apply(capacity, s, es[0]);
      (if |s'.q.fifo| > |s.q.fifo| then 1 else 0) + Added(capacity, s', es[1..])
  }

  /** What a run leaves of the overrun bit. */
  function BitAfter(bit: bool, es: seq<Event>): bool
    decreases es
  {
    if es == [] then bit
    else BitAfter(if es[0].SetBit? then true else if es[0].Clear? then false else bit, es[1..])
  }

  lemma StepCounts(capacity: nat, s: State, e: Event)
    requires Enabled(s, e)
    ensures
      var s' := Apply(capacity, s, e);
      && |s'.pcs| == |s.pcs|
      && |s'.q.fifo| == |s.q.fifo| + (if |s'.q.fifo| > |s.q.fifo| then 1 else 0) - (if e.Get? then 1 else 0)
      && s'.q.overrun == (if e.SetBit? then true else if e.Clear? then false else s.q.overrun)
      && (|s'.q.fifo| > |s.q.fifo| ==> e.Put? || e.Timer?)
      && forall i :: 0 <= i < |s.pcs| && !IsStepOf(e, i) ==> s'.pcs[i] == s.pcs[i]
  {
  }

  lemma {:induction false} RunCounts(capacity: nat, s: State, es: seq<Event>)
    requires IsRun(capacity, s, es)
    ensures |After(capacity, s, es).q.fifo| + Taken(es) == |s.q.fifo| + Added(capacity, s, es)
    ensures After(capacity, s, es).q.overrun == BitAfter(s.q.overrun, es)
    ensures |After(capacity, s, es).pcs| == |s.pcs|
    ensures (forall e <- es :: !e.Put? && !e.Timer?) ==> Added(capacity, s, es) == 0
    decreases |es|
  {
    hide Apply, Enabled;
    if es != [] {
      StepCounts(capacity, s, es[0]);
      RunCounts(capacity, Apply(capacity, s, es[0]), es[1..]);
    }
  }

  lemma {:induction false} OthersLeavePc(capacity: nat, s: State, es: seq<Event>, i: nat)
    requires IsRun(capacity, s, es) && i < |s.pcs| && forall e <- es :: !IsStepOf(e, i)
    ensures |After(capacity, s, es).pcs| == |s.pcs| && After(capacity, s, es).pcs[i] == s.pcs[i]
    decreases |es|
  {
    hide Apply, Enabled, IsStepOf;
    if es != [] {
      StepCounts(capacity, s, es[0]);
      OthersLeavePc(capacity, Apply(capacity, s, es[0]), es[1..], i);
    }
  }

  lemma {:induction false} Split(capacity: nat, s: State, es: seq<Event>, fs: seq<Event>)
    requires IsRun(capacity, s, es + fs)
    ensures IsRun(capacity, s, es) && IsRun(capacity, After(capacity, s, es), fs)
    ensures After(capacity, s, es + fs) == After(capacity, After(capacity, s, es), fs)
    decreases |es|
  {
    hide Apply, Enabled;
    if es == [] {
      assert es + fs == fs;
    } else {
      assert (es + fs)[1..] == es[1..] + fs;
      Split(capacity, Apply(capacity, s, es[0]), es[1..], fs);
    }
  }

  /** A put of task `i` has been refused, and other tasks take `pre` and `post` around the step that
      sets the bit, before the mark. */
  function Overflowing(i: nat, pre: seq<Event>, post: seq<Event>): seq<Event> {
    (pre + ([SetBit(i)] + post)) + [Mark(i)]
  }

  ghost predicate OthersOnly(es: seq<Event>, i: nat) { forall e <- es :: !IsStepOf(e, i) }

  /** What an overflow leaves: the newest entry is the mark if there still is an entry, so that the
      queue is marked if and only if as many entries were added as were taken since the put was
      refused, and without an entry if and only if all of them were taken. */
  lemma OverflowOutcome(capacity: nat, s: State, i: nat, pre: seq<Event>, post: seq<Event>)
    requires i < |s.pcs| && s.pcs[i].Refused? && |s.q.fifo| == capacity > 0
    requires OthersOnly(pre, i) && OthersOnly(post, i) && IsRun(capacity, s, Overflowing(i, pre, post))
    ensures
      var es := Overflowing(i, pre, post);
      var t := After(capacity, s, es);
      var taken, added := Taken(es), Added(capacity, s, es);
      && (t.q.fifo != [] ==> t.q.fifo[|t.q.fifo| - 1] == Overflow(s.pcs[i].m))
      && (Marked(t.q, capacity) <==> taken == added)
      && (t.q.fifo == [] <==> taken == capacity + added)
      && (t.q.overrun <==> BitAfter(true, post))
  {
    var es := Overflowing(i, pre, post);
    RunCounts(capacity, s, es);
    Split(capacity, s, pre + ([SetBit(i)] + post), [Mark(i)]);
    Split(capacity, s, pre, [SetBit(i)] + post);
    var s1 := After(capacity, s, pre);
    OthersLeavePc(capacity, s, pre, i);
    assert ([SetBit(i)] + post)[1..] == post;
    var s2 := Apply(capacity, s1, SetBit(i));
    OthersLeavePc(capacity, s2, post, i);
    RunCounts(capacity, s2, post);
    var s3 := After(capacity, s2, post);
    assert s3.pcs[i] == Marking(s.pcs[i].m);
    assert After(capacity, s, es) == Apply(capacity, s3, Mark(i)) by {
      assert [Mark(i)][1..] == [];
    }
  }

  /** Beside readers only: marked if and only if nothing was taken, empty if and only if all was. */
  lemma OverflowBesideReaders(capacity: nat, s: State, i: nat, pre: seq<Event>, post: seq<Event>)
    requires i < |s.pcs| && s.pcs[i].Refused? && |s.q.fifo| == capacity > 0
    requires OthersOnly(pre, i) && OthersOnly(post, i) && IsRun(capacity, s, Overflowing(i, pre, post))
    requires forall e <- pre + post :: !e.Put? && !e.Timer?
    ensures
      var es := Overflowing(i, pre, post);
      var t := After(capacity, s, es);
      (Marked(t.q, capacity) <==> Taken(es) == 0) && (t.q.fifo == [] <==> Taken(es) == capacity)
  {
    var es := Overflowing(i, pre, post);
    OverflowOutcome(capacity, s, i, pre, post);
    forall e | e in es ensures !e.Put? && !e.Timer? {
      assert e in pre + post || e == SetBit(i) || e == Mark(i);
    }
    RunCounts(capacity, s, es);
  }

  /** The overrun bit is set beside an empty queue, and whoever is under way will change neither. */
  ghost predicate Stuck(s: State) {
    && s.q == Queue([], true)
    && forall i :: 0 <= i < |s.pcs| ==> s.pcs[i].Idle? || s.pcs[i].Entered? || Losing(s.pcs[i])
  }

  lemma StepKeepsStuck(capacity: nat, s: State, e: Event)
    requires capacity > 0 && Stuck(s) && Enabled(s, e)
    ensures Stuck(Apply(capacity, s, e)) <==> !e.Timer?
  {
  }

  ghost predicate NoTimer(es: seq<Event>) { forall e <- es :: !e.Timer? }

  /** Then nothing is received any more until the timer has a bus load to tell. */
  lemma {:induction false} StuckForEver(capacity: nat, s: State, es: seq<Event>)
    requires capacity > 0 && Stuck(s) && IsRun(capacity, s, es) && NoTimer(es)
    ensures Stuck(After(capacity, s, es))
    decreases |es|
  {
    hide Stuck, Apply, Enabled;
    if es != [] {
      assert es[0] in es;
      StepKeepsStuck(capacity, s, es[0]);
      StuckForEver(capacity, Apply(capacity, s, es[0]), es[1..]);
    }
  }

  ghost predicate AllIdle(s: State) { forall i :: 0 <= i < |s.pcs| ==> s.pcs[i] == Idle }

  /** When nobody is under way, an overrun can end without the timer if and only if an entry is
      left in the queue. */
  lemma OverrunEndsIffEntryLeft(capacity: nat, s: State)
    requires capacity > 0 && s.q.overrun && AllIdle(s) && s.pcs != []
    ensures
      s.q.fifo != [] <==>
        exists es, t :: LeadsTo(capacity, s, es, t) && !t.q.overrun && NoTimer(es)
  {
    if s.q.fifo == [] {
      forall es, t | LeadsTo(capacity, s, es, t) && NoTimer(es) ensures t.q.overrun {
        StuckForEver(capacity, s, es);
      }
    } else {
      var es, t := UndisturbedRead(capacity, s, 0, false, s.q.fifo[0]);
      assert LeadsTo(capacity, s, es, t) && !t.q.overrun;
    }
  }

  /** While nobody reads, an overrun queue stays as it is, whatever arrives. */
  lemma {:induction false} OverrunWaitsForARead(capacity: nat, s: State, es: seq<Event>)
    requires s.q.overrun && |s.q.fifo| >= capacity && IsRun(capacity, s, es)
    requires forall i :: 0 <= i < |s.pcs| ==> s.pcs[i].Idle? || s.pcs[i].Entered?
    requires forall e <- es :: !e.Get?
    ensures After(capacity, s, es).q == s.q
    decreases |es|
  {
    if es != [] {
      assert es[0] in es;
      OverrunWaitsForARead(capacity, Apply(capacity, s, es[0]), es[1..]);
    }
  }

  // ---------------------------------------------------------------- repeated status messages

  predicate Exempt(m: Msg) { IsOverflow(m) || IsBusLoad(m) }

  /** No two neighbours are the same status, but for overflow marks and bus loads. */
  ghost predicate NoRepeats(fifo: seq<Msg>) {
    forall k :: 0 < k < |fifo| && fifo[k].kind == STATUS && !Exempt(fifo[k]) ==> !Same(fifo[k - 1], fifo[k])
  }

  /** The step puts a status behind the same status. */
  predicate PutsRepeat(capacity: nat, s: State, e: Event)
    requires Enabled(s, e)
  {
    e.Put? && |s.q.fifo| < capacity && Repeats(s.q, s.pcs[e.i].m) && !Exempt(s.pcs[e.i].m)
  }

  lemma AppendedRepeats(q: Queue, m: Msg)
    requires NoRepeats(q.fifo)
    ensures NoRepeats(Appended(q, m).fifo) <==> !Repeats(q, m) || Exempt(m)
  {
    hide Same, Exempt;
    var n, fifo := |q.fifo|, q.fifo + [m];
    assert fifo[n] == m;
    assert n > 0 ==> fifo[n - 1] == q.fifo[n - 1];
    forall k | 0 < k < n && fifo[k].kind == STATUS && !Exempt(fifo[k])
      ensures !Same(fifo[k - 1], fifo[k])
    {
      assert fifo[k] == q.fifo[k] && fifo[k - 1] == q.fifo[k - 1];
    }
  }

  lemma RestHasNoRepeats(fifo: seq<Msg>)
    requires fifo != [] && NoRepeats(fifo)
    ensures NoRepeats(fifo[1..])
  {
    hide Same, Exempt;
    var rest := fifo[1..];
    forall k | 0 < k < |rest| && rest[k].kind == STATUS && !Exempt(rest[k])
      ensures !Same(rest[k - 1], rest[k])
    {
      assert rest[k] == fifo[k + 1] && rest[k - 1] == fifo[k + 1 - 1];
    }
  }

  lemma WithNewestHasNoRepeats(q: Queue, m: Msg)
    requires NoRepeats(q.fifo) && (Repeats(q, m) || IsOverflow(m))
    ensures NoRepeats(WithNewest(q, m).fifo)
  {
    var n := |q.fifo|;
    if n > 0 && Repeats(q, m) {
      assert IsOverflow(q.fifo[n - 1]) == IsOverflow(m);
    }
  }

  /** Exactly the puts behind the same status make a repetition. */
  lemma StepRepeats(capacity: nat, s: State, e: Event)
    requires NoRepeats(s.q.fifo) && Enabled(s, e)
    ensures NoRepeats(Apply(capacity, s, e).q.fifo) <==> !PutsRepeat(capacity, s, e)
  {
    hide Same, IsOverflow, NoRepeats, Overflow;
    match e
    case TestPatch(i) =>
      if Repeats(s.q, s.pcs[i].m) {
        WithNewestHasNoRepeats(s.q, s.pcs[i].m);
      }
    case Put(i) => AppendedRepeats(s.q, s.pcs[i].m);
    case Mark(i) =>
      OverflowIsOverflow(s.pcs[i].m);
      WithNewestHasNoRepeats(s.q, Overflow(s.pcs[i].m));
    case Get(_) => RestHasNoRepeats(s.q.fifo);
    case Timer(m) => AppendedRepeats(s.q, m);
    case _ =>
  }

  lemma OverflowIsOverflow(m: Msg)
    ensures IsOverflow(Overflow(m))
  {
  }

  /** A status is put in while another task, past its own test for a repetition, holds the same. */
  ghost predicate Overtakes(s: State, e: Event)
    requires Enabled(s, e)
  {
    e.Put? && exists j :: 0 <= j < |s.pcs| && j != e.i && HoldsSame(s.pcs[j], s.pcs[e.i].m)
  }

  predicate HoldsSame(pc: Pc, m: Msg) { pc.Putting? && pc.m.kind == STATUS && Same(m, pc.m) }

  ghost predicate NobodyOvertakes(capacity: nat, s: State, es: seq<Event>)
    requires IsRun(capacity, s, es)
    decreases |es|
  {
    es == [] || (!Overtakes(s, es[0]) && NobodyOvertakes(capacity, Apply(capacity, s, es[0]), es[1..]))
  }

  /** A status that is about to be put does not repeat the newest entry. */
  predicate Fresh(q: Queue, pc: Pc) {
    pc.Putting? && !Exempt(pc.m) ==> !Repeats(q, pc.m)
  }

  ghost predicate FreshInv(s: State) {
    NoRepeats(s.q.fifo) && forall i :: 0 <= i < |s.pcs| ==> Fresh(s.q, s.pcs[i])
  }

  lemma StepKeepsFresh(capacity: nat, s: State, e: Event, i: nat)
    requires Enabled(s, e) && !Overtakes(s, e) && i < |s.pcs| && i < |Apply(capacity, s, e).pcs|
    requires Fresh(s.q, s.pcs[i])
    ensures Fresh(Apply(capacity, s, e).q, Apply(capacity, s, e).pcs[i])
  {
    var s' := Apply(capacity, s, e);
    if e.Put? && e.i != i {
      assert !HoldsSame(s.pcs[i], s.pcs[e.i].m);
    }
    assert !IsStepOf(e, i) ==> s'.pcs[i] == s.pcs[i];
  }

  lemma StepKeepsFreshInv(capacity: nat, s: State, e: Event)
    requires FreshInv(s) && Enabled(s, e) && !Overtakes(s, e)
    ensures FreshInv(Apply(capacity, s, e))
  {
    StepCounts(capacity, s, e);
    StepRepeats(capacity, s, e);
    if e.Put? {
      assert Fresh(s.q, s.pcs[e.i]);
    }
    hide Apply, Enabled, NoRepeats, Overtakes;
    forall i | 0 <= i < |s.pcs|
      ensures Fresh(Apply(capacity, s, e).q, Apply(capacity, s, e).pcs[i])
    {
      StepKeepsFresh(capacity, s, e, i);
    }
  }

  lemma {:induction false} RunKeepsFreshInv(capacity: nat, s: State, es: seq<Event>)
    requires FreshInv(s) && IsRun(capacity, s, es) && NobodyOvertakes(capacity, s, es)
    ensures FreshInv(After(capacity, s, es))
    decreases |es|
  {
    hide FreshInv, Apply, Enabled, Overtakes;
    if es != [] {
      StepKeepsFreshInv(capacity, s, es[0]);
      RunKeepsFreshInv(capacity, Apply(capacity, s, es[0]), es[1..]);
    }
  }

  /** In every run in which no put of a status overtakes another task with the same one, no two
      neighbours in the queue are the same status. */
  lemma NothingIsRepeated(capacity: nat, tasks: nat, es: seq<Event>)
    requires IsRun(capacity, Init(tasks), es) && NobodyOvertakes(capacity, Init(tasks), es)
    ensures NoRepeats(After(capacity, Init(tasks), es).q.fifo)
  {
    RunKeepsFreshInv(capacity, Init(tasks), es);
  }

  // ---------------------------------------------------------------- inputs for the bad cases

  /** An interrupt and a task that post the same status at the same time put it in twice. */
  lemma SameStatusTwice(capacity: nat, m: Msg)
    requires capacity > 1 && m.kind == STATUS && !Exempt(m)
    ensures
      exists es, s :: LeadsTo(capacity, Init(2), es, s) && s.q.fifo == [m, m] && !NoRepeats(s.q.fifo)
  {
    var s := State(Queue([m, m], false), [Idle, Idle], false);
    var es := BothPut(capacity, m);
    assert Init(2).pcs == [Idle, Idle];
    var s1 := State(Queue([], false), [Entered(m), Idle], false);
    var s2 := s1.(pcs := [Entered(m), Entered(m)]);
    var s3 := s1.(pcs := [Patching(m), Entered(m)]);
    var s4 := s1.(pcs := [Patching(m), Patching(m)]);
    assert Apply(capacity, s3, TestBit(1)) == s4 && Apply(capacity, s2, TestBit(0)) == s3;
    assert Apply(capacity, s1, Enter(1, m)) == s2 && Apply(capacity, Init(2), Enter(0, m)) == s1;
    hide Apply;
    Then(capacity, s3, TestBit(1), es, s);
    es := [TestBit(1)] + es;
    Then(capacity, s2, TestBit(0), es, s);
    es := [TestBit(0)] + es;
    Then(capacity, s1, Enter(1, m), es, s);
    es := [Enter(1, m)] + es;
    Then(capacity, Init(2), Enter(0, m), es, s);
    assert [m, m][1] == m && [m, m][0] == m;
    assert !NoRepeats(s.q.fifo);
  }

  lemma BothPut(capacity: nat, m: Msg) returns (es: seq<Event>)
    requires capacity > 1 && m.kind == STATUS
    ensures LeadsTo(capacity, State(Queue([], false), [Patching(m), Patching(m)], false), es,
                    State(Queue([m, m], false), [Idle, Idle], false))
  {
    var s := State(Queue([m, m], false), [Idle, Idle], false);
    var s4 := State(Queue([], false), [Patching(m), Patching(m)], false);
    var s5 := s4.(pcs := [Putting(m), Patching(m)]);
    var s6 := s4.(pcs := [Putting(m), Putting(m)]);
    var s7 := State(Queue([m], false), [Idle, Putting(m)], false);
    assert Apply(capacity, s7, Put(1)) == s;
    assert Apply(capacity, s6, Put(0)) == s7;
    assert Apply(capacity, s5, TestPatch(1)) == s6;
    assert Apply(capacity, s4, TestPatch(0)) == s5;
    hide Apply;
    Then(capacity, s7, Put(1), [], s);
    Then(capacity, s6, Put(0), [Put(1)] + [], s);
    Then(capacity, s5, TestPatch(1), [Put(0)] + ([Put(1)] + []), s);
    Then(capacity, s4, TestPatch(0), [TestPatch(1)] + ([Put(0)] + ([Put(1)] + [])), s);
    es := [TestPatch(0)] + ([TestPatch(1)] + ([Put(0)] + ([Put(1)] + [])));
  }

  /** Task `j` takes `n` entries while task `i` stands behind its refused put. */
  lemma {:induction false} ReadsInBetween(capacity: nat, s: State, i: nat, j: nat, n: nat)
      returns (es: seq<Event>, t: State)
    requires i < |s.pcs| && s.pcs[i].Refused? && j < |s.pcs| && s.pcs[j].Idle?
    requires n <= |s.q.fifo| && !s.q.overrun && !s.unmarked
    ensures LeadsTo(capacity, s, es, t)
    ensures t.q.overrun && |t.q.fifo| == |s.q.fifo| - n && t.pcs == s.pcs[i := Idle]
    decreases n
  {
    if n == 0 {
      var s1 := Apply(capacity, s, SetBit(i));
      t := Apply(capacity, s1, Mark(i));
      Then(capacity, s1, Mark(i), [], t);
      Then(capacity, s, SetBit(i), [Mark(i)] + [], t);
      es := [SetBit(i)] + ([Mark(i)] + []);
    } else {
      var m := s.q.fifo[0];
      var s1 := Apply(capacity, s, Get(j));
      var s2 := Apply(capacity, s1, Clear(j, false, m));
      assert s2.pcs == s.pcs;
      es, t := ReadsInBetween(capacity, s2, i, j, n - 1);
      Then(capacity, s1, Clear(j, false, m), es, t);
      Then(capacity, s, Get(j), [Clear(j, false, m)] + es, t);
      es := [Get(j)] + ([Clear(j, false, m)] + es);
    }
  }

  /** Every full queue can lose its mark to one read, and get stuck by as many as it has entries. */
  lemma FullQueueGetsStuck(capacity: nat, s: State, i: nat, j: nat, m: Msg, n: nat)
      returns (es: seq<Event>, t: State)
    requires |s.q.fifo| == capacity > 0 && !s.q.overrun && !s.unmarked && AllIdle(s)
    requires i < |s.pcs| && j < |s.pcs| && i != j && m.kind == CAN20 && 0 < n <= capacity
    ensures LeadsTo(capacity, s, es, t) && AllIdle(t)
    ensures t.q.overrun && !Marked(t.q, capacity) && (n == capacity ==> Stuck(t))
  {
    var s1 := Apply(capacity, s, Enter(i, m));
    var s2 := Apply(capacity, s1, TestBit(i));
    var s3 := Apply(capacity, s2, Put(i));
    es, t := ReadsInBetween(capacity, s3, i, j, n);
    Then(capacity, s2, Put(i), es, t);
    Then(capacity, s1, TestBit(i), [Put(i)] + es, t);
    Then(capacity, s, Enter(i, m), [TestBit(i)] + ([Put(i)] + es), t);
    es := [Enter(i, m)] + ([TestBit(i)] + ([Put(i)] + es));
  }

  lemma {:induction false} Chain(capacity: nat, s: State, es: seq<Event>, t: State, fs: seq<Event>, u: State)
    requires LeadsTo(capacity, s, es, t) && LeadsTo(capacity, t, fs, u)
    ensures LeadsTo(capacity, s, es + fs, u)
    decreases |es|
  {
    hide Apply, Enabled;
    if es == [] {
      assert es + fs == fs;
    } else {
      assert (es + fs)[1..] == es[1..] + fs;
      Chain(capacity, Apply(capacity, s, es[0]), es[1..], t, fs, u);
    }
  }

  lemma {:induction false} QueueFills(capacity: nat, s: State, i: nat, m: Msg) returns (es: seq<Event>, t: State)
    requires |s.q.fifo| <= capacity && !s.q.overrun && i < |s.pcs| && s.pcs[i] == Idle && m.kind == CAN20
    ensures LeadsTo(capacity, s, es, t) && t == s.(q := t.q) && !t.q.overrun && |t.q.fifo| == capacity
    decreases capacity - |s.q.fifo|
  {
    if |s.q.fifo| == capacity {
      return [], s;
    }
    var s1 := Apply(capacity, s, Enter(i, m));
    var s2 := Apply(capacity, s1, TestBit(i));
    var s3 := Apply(capacity, s2, Put(i));
    assert s3.pcs == s.pcs;
    es, t := QueueFills(capacity, s3, i, m);
    hide Apply;
    Then(capacity, s2, Put(i), es, t);
    Then(capacity, s1, TestBit(i), [Put(i)] + es, t);
    Then(capacity, s, Enter(i, m), [TestBit(i)] + ([Put(i)] + es), t);
    es := [Enter(i, m)] + ([TestBit(i)] + ([Put(i)] + es));
  }

  /** An interrupt that receives frames and a task that reads them are enough, for a queue of any
      size. */
  lemma QueueGetsStuck(capacity: nat, m: Msg)
    requires capacity > 0 && m.kind == CAN20
    ensures exists es, t :: LeadsTo(capacity, Init(2), es, t) && Stuck(t) && AllIdle(t)
  {
    var es, s := QueueFills(capacity, Init(2), 0, m);
    var fs, t := FullQueueGetsStuck(capacity, s, 0, 1, m, capacity);
    Chain(capacity, Init(2), es, s, fs, t);
  }
}
