/** The write buffer of the text interface, which makes lines of whatever pieces the
    writer passes, and the read buffer, which gives a line away in pieces. */
module LineInput {
  import opened Can
  import opened Common
  import MsgText

  const SIZE := 512
  const NEWLINE: Byte := 10
  const EFAULT := -14
  const EINVAL := -22

  // ---------------------------------------------------------------- lines of a text

  /** The position of the first end of line. */
  function Find(b: seq<Byte>): (i: nat)
    ensures i <= |b| && (i < |b| ==> b[i] == NEWLINE)
    ensures forall j :: 0 <= j < i ==> b[j] != NEWLINE
  {
    if b == [] || b[0] == NEWLINE then 0 else 1 + Find(b[1..])
  }

  lemma FindIs(b: seq<Byte>, i: nat)
    requires i <= |b| && (i < |b| ==> b[i] == NEWLINE) && forall j :: 0 <= j < i ==> b[j] != NEWLINE
    ensures Find(b) == i
  {
  }

  datatype Text = Text(lines: seq<seq<Byte>>, rest: seq<Byte>)

  /** A text as lines, each with its end, and what is behind the last end. */
  function Cut(b: seq<Byte>): (t: Text)
    decreases |b|
  {
    var i := Find(b);
    if i == |b| then Text([], b)
    else
      var t := Cut(b[i + 1..]);
      Text([b[..i + 1]] + t.lines, t.rest)
  }

  lemma CutFirst(b: seq<Byte>)
    ensures Find(b) == |b| ==> Cut(b) == Text([], b)
    ensures Find(b) < |b| ==>
      var t := Cut(b[Find(b) + 1..]);
      Cut(b) == Text([b[..Find(b) + 1]] + t.lines, t.rest)
  {
    hide Find;
  }

  lemma {:induction false} CutIsWhole(b: seq<Byte>)
    ensures Concat(Cut(b).lines) + Cut(b).rest == b && NEWLINE !in Cut(b).rest
    decreases |b|
  {
    hide Find, Cut, Concat;
    CutFirst(b);
    var i := Find(b);
    if i < |b| {
      CutIsWhole(b[i + 1..]);
      var t := Cut(b[i + 1..]);
      ConcatFirst(b[..i + 1], t.lines, t.rest);
      assert b == b[..i + 1] + b[i + 1..];
    } else {
      NoParts(b);
    }
  }

  lemma NoParts(b: seq<Byte>)
    ensures Concat([]) + b == b
  {
  }

  /** A text may be cut before its end is known. */
  lemma {:induction false} CutInTwo(a: seq<Byte>, b: seq<Byte>)
    ensures
      var s, t := Cut(a), Cut(Cut(a).rest + b);
      Cut(a + b) == Text(s.lines + t.lines, t.rest)
    decreases |a|
  {
    hide Find, Cut;
    CutFirst(a);
    var i := Find(a);
    if i == |a| {
      var t := Cut(a + b);
      assert [] + t.lines == t.lines;
    } else {
      FindIs(a + b, i);
      CutFirst(a + b);
      assert (a + b)[..i + 1] == a[..i + 1] && (a + b)[i + 1..] == a[i + 1..] + b;
      CutInTwo(a[i + 1..], b);
      var s, t := Cut(a[i + 1..]), Cut(Cut(a).rest + b);
      assert [a[..i + 1]] + (s.lines + t.lines) == ([a[..i + 1]] + s.lines) + t.lines;
    }
  }

  // ---------------------------------------------------------------- handling of lines

  /** What a line does: comments, messages and settings. The number counts the calls,
      for the outcome of a line may change. 0 is success. */
  type Handler = (nat, seq<Byte>) -> int

  datatype Handled = Handled(lines: seq<seq<Byte>>, rest: seq<Byte>, calls: nat, err: int)

  /** Lines are handled one after the other, until one of them fails; it stays. */
  function Handle(h: Handler, calls: nat, b: seq<Byte>): (r: Handled)
    decreases |b|
  {
    var i := Find(b);
    if i == |b| then Handled([], b, calls, 0)
    else if h(calls, b[..i + 1]) != 0 then Handled([], b, calls + 1, h(calls, b[..i + 1]))
    else
      var r := Handle(h, calls + 1, b[i + 1..]);
      Handled([b[..i + 1]] + r.lines, r.rest, r.calls, r.err)
  }

  lemma HandleFirst(h: Handler, calls: nat, b: seq<Byte>)
    ensures
      var i := Find(b);
      Handle(h, calls, b) ==
        if i == |b| then Handled([], b, calls, 0)
        else if h(calls, b[..i + 1]) != 0 then Handled([], b, calls + 1, h(calls, b[..i + 1]))
        else
          var r := Handle(h, calls + 1, b[i + 1..]);
          Handled([b[..i + 1]] + r.lines, r.rest, r.calls, r.err)
  {
    hide Find;
  }

  ghost predicate AcceptsAll(h: Handler, lines: seq<seq<Byte>>) {
    forall k: nat, i: nat :: i < |lines| ==> h(k, lines[i]) == 0
  }

  lemma {:induction false} AcceptedLines(h: Handler, calls: nat, b: seq<Byte>)
    requires AcceptsAll(h, Cut(b).lines)
    ensures Handle(h, calls, b) == Handled(Cut(b).lines, Cut(b).rest, calls + |Cut(b).lines|, 0)
    decreases |b|
  {
    var i := Find(b);
    if i < |b| {
      var t := Cut(b[i + 1..]);
      assert Cut(b).lines[0] == b[..i + 1];
      assert forall j: nat :: j < |t.lines| ==> t.lines[j] == Cut(b).lines[j + 1];
      AcceptedLines(h, calls + 1, b[i + 1..]);
    }
  }

  /** Nothing is lost between the lines that were handled and what is left. */
  lemma {:induction false} HandleConserves(h: Handler, calls: nat, b: seq<Byte>)
    ensures
      var r := Handle(h, calls, b);
      Concat(r.lines) + r.rest == b && (r.err == 0 <==> NEWLINE !in r.rest)
    decreases |b|
  {
    hide Find, Handle, Concat;
    HandleFirst(h, calls, b);
    var i := Find(b);
    if i < |b| && h(calls, b[..i + 1]) == 0 {
      var r := Handle(h, calls + 1, b[i + 1..]);
      HandleConserves(h, calls + 1, b[i + 1..]);
      ConcatFirst(b[..i + 1], r.lines, r.rest);
      assert b == b[..i + 1] + b[i + 1..];
    } else {
      NoParts(b);
    }
  }

  // ---------------------------------------------------------------- one write

  datatype State = State(done: seq<seq<Byte>>, buf: seq<Byte>, calls: nat)

  /** The number of bytes taken, or an error. */
  datatype Outcome = Count(n: nat) | Error(err: int)

  /** The part of the data that finds room. */
  function Room(s: State, data: seq<Byte>): (chunk: seq<Byte>)
    requires |s.buf| <= SIZE
    ensures |s.buf| + |chunk| <= SIZE
  {
    if |data| > SIZE - |s.buf| then data[..SIZE - |s.buf|] else data
  }

  function Written(h: Handler, s: State, data: seq<Byte>): (State, Outcome)
    requires |s.buf| <= SIZE
  {
    var chunk := Room(s, data);
    var r := Handle(h, s.calls, s.buf + chunk);
    if r.err != 0 then (State(s.done + r.lines, r.rest, r.calls), Error(r.err))
    else if |r.rest| >= SIZE then (State(s.done + r.lines, [], r.calls), Error(EINVAL))
    else (State(s.done + r.lines, r.rest, r.calls), Count(|chunk|))
  }

  class LineWriter {
    const buffer: array<Byte>
    const handler: Handler
    var pointer: nat
    var calls: nat
    ghost var done: seq<seq<Byte>>

    constructor (handler: Handler)
      ensures this.handler == handler && Valid() && S() == State([], [], 0)
    {
      this.handler := handler;
      buffer := new Byte[SIZE];
      pointer, calls, done := 0, 0, [];
    }

    ghost predicate Valid()
      reads this
    {
      buffer.Length == SIZE && pointer <= SIZE
    }

    ghost function S(): State
      requires Valid()
      reads this, buffer
    {
      State(done, buffer[..pointer], calls)
    }

    /** pcan_write_line for the line that ends at `ptr`. */
    method WriteLine(ptr: nat) returns (err: int)
      requires Valid() && ptr < pointer
      modifies this, buffer
      ensures Valid() && calls == old(calls) + 1
      ensures
        var was, line := old(buffer[..pointer]), old(buffer[..ptr + 1]);
        && err == handler(old(calls), line)
        && (err != 0 ==> buffer[..pointer] == was && done == old(done))
        && (err == 0 ==> buffer[..pointer] == was[ptr + 1..] && done == old(done) + [line])
    {
      var amount, offset := pointer - ptr - 1, ptr + 1;
      if amount > SIZE || offset > SIZE {
        return EFAULT;
      }
      err := handler(calls, buffer[..ptr + 1]);
      calls := calls + 1;
      if err != 0 {
        return;
      }
      ghost var line := buffer[..ptr + 1];
      forall i | 0 <= i < amount {
        buffer[i] := buffer[ptr + 1 + i];
      }
      pointer, done := pointer - offset, done + [line];
    }

    /** pcan_write. */
    method Write(data: seq<Byte>) returns (r: Outcome)
      requires Valid()
      modifies this, buffer
      ensures Valid() && (S(), r) == Written(handler, old(S()), data)
    {
      hide Find, Handle;
      var rest := SIZE - pointer;
      var count := if |data| > rest then rest else |data|;
      forall i | 0 <= i < count {
        buffer[pointer + i] := data[i];
      }
      pointer := pointer + count;
      assert buffer[..pointer] == old(buffer[..pointer]) + Room(old(S()), data);
      var err := Lines();
      if err != 0 {
        return Error(err);
      }
      if pointer >= SIZE {
        pointer := 0;
        return Error(EINVAL);
      }
      r := Count(count);
    }

    /** The loop of pcan_write over the lines in the buffer. */
    method Lines() returns (err: int)
      requires Valid()
      modifies this, buffer
      ensures Valid()
      ensures
        var r := Handle(handler, old(calls), old(buffer[..pointer]));
        S() == State(old(done) + r.lines, r.rest, r.calls) && err == r.err
    {
      hide Find, Handle;
      ghost var total, was, before := Handle(handler, calls, buffer[..pointer]), done, [];
      StartOf(total);
      while true
        invariant Valid() && done == was + before
        invariant ContinuesAs(total, before, Handle(handler, calls, buffer[..pointer]))
        decreases pointer
      {
        var ptr := 0;
        while ptr < pointer && buffer[ptr] != NEWLINE
          invariant ptr <= pointer && forall j :: 0 <= j < ptr ==> buffer[j] != NEWLINE
        {
          ptr := ptr + 1;
        }
        ghost var b, c := buffer[..pointer], calls;
        FindIs(b, ptr);
        HandleFirst(handler, c, b);
        if ptr < pointer {
          assert buffer[..ptr + 1] == b[..ptr + 1];
          err := WriteLine(ptr);
          if err != 0 {
            assert before + [] == before;
            return err;
          }
          Continues(total, before, b[..ptr + 1], Handle(handler, calls, buffer[..pointer]));
          before := before + [b[..ptr + 1]];
        } else {
          assert before + [] == before;
          return 0;
        }
      }
    }
  }

  ghost predicate ContinuesAs(total: Handled, before: seq<seq<Byte>>, r: Handled) {
    total == Handled(before + r.lines, r.rest, r.calls, r.err)
  }

  lemma StartOf(total: Handled)
    ensures ContinuesAs(total, [], total)
  {
    assert [] + total.lines == total.lines;
  }

  lemma Continues(total: Handled, before: seq<seq<Byte>>, line: seq<Byte>, r: Handled)
    requires ContinuesAs(total, before, Handled([line] + r.lines, r.rest, r.calls, r.err))
    ensures ContinuesAs(total, before + [line], r)
  {
    assert before + ([line] + r.lines) == (before + [line]) + r.lines;
  }

  // ---------------------------------------------------------------- many writes

  function After(h: Handler, s: State, writes: seq<seq<Byte>>): State
    requires |s.buf| <= SIZE
    decreases |writes|
  {
    if writes == [] then s
    else
      HandleShrinks(h, s.calls, s.buf + Room(s, writes[0]));
      After(h, Written(h, s, writes[0]).0, writes[1..])
  }

  lemma {:induction false} HandleShrinks(h: Handler, calls: nat, b: seq<Byte>)
    ensures |Handle(h, calls, b).rest| <= |b|
    decreases |b|
  {
    hide Find;
    if Find(b) < |b| && h(calls, b[..Find(b) + 1]) == 0 {
      HandleShrinks(h, calls + 1, b[Find(b) + 1..]);
    }
  }

  /** The bytes that the writes take. */
  function Taken(h: Handler, s: State, writes: seq<seq<Byte>>): seq<Byte>
    requires |s.buf| <= SIZE
    decreases |writes|
  {
    if writes == [] then []
    else
      HandleShrinks(h, s.calls, s.buf + Room(s, writes[0]));
      Room(s, writes[0]) + Taken(h, Written(h, s, writes[0]).0, writes[1..])
  }

  /** No line is longer than the buffer, and the last one, still open, is shorter. */
  ghost predicate FitsIn(t: Text) {
    |t.rest| < SIZE && forall i :: 0 <= i < |t.lines| ==> |t.lines[i]| <= SIZE
  }

  /** What has been started of a line is shorter than the line. */
  lemma StartFits(a: seq<Byte>, b: seq<Byte>)
    requires FitsIn(Cut(a + b))
    ensures |Cut(a).rest| < SIZE && FitsIn(Cut(Cut(a).rest + b))
  {
    hide Cut, Find;
    CutInTwo(a, b);
    CutIsWhole(a);
    var s, r := Cut(a), Cut(a).rest;
    var t := Cut(r + b);
    assert forall i :: 0 <= i < |t.lines| ==> t.lines[i] == Cut(a + b).lines[|s.lines| + i];
    CutFirst(r + b);
    var i := Find(r + b);
    assert forall j :: 0 <= j < |r| ==> (r + b)[j] == r[j] && r[j] in r;
    assert i >= |r|;
    if i < |r + b| {
      assert t.lines[0] == (r + b)[..i + 1];
    }
  }

  lemma FirstAccepted(h: Handler, a: seq<Byte>, b: seq<Byte>)
    requires AcceptsAll(h, Cut(a + b).lines)
    ensures AcceptsAll(h, Cut(a).lines) && AcceptsAll(h, Cut(Cut(a).rest + b).lines)
  {
    hide Cut;
    CutInTwo(a, b);
    var s, t := Cut(a).lines, Cut(Cut(a).rest + b).lines;
    assert forall i: nat :: i < |s| ==> s[i] == Cut(a + b).lines[i];
    assert forall i: nat :: i < |t| ==> t[i] == Cut(a + b).lines[|s| + i];
  }

  /** Cut into writes in any way, a text whose lines fit the buffer and are accepted is
      handled line by line, and the buffer keeps the line that is not complete. */
  lemma {:induction false} WritesDoNotMatter(h: Handler, s: State, writes: seq<seq<Byte>>)
    requires |s.buf| <= SIZE && (writes == [] ==> NEWLINE !in s.buf)
    requires
      var t := Cut(s.buf + Taken(h, s, writes));
      FitsIn(t) && AcceptsAll(h, t.lines)
    ensures
      var t := Cut(s.buf + Taken(h, s, writes));
      After(h, s, writes) == State(s.done + t.lines, t.rest, s.calls + |t.lines|)
    decreases |writes|
  {
    hide Cut, AcceptsAll, FitsIn;
    if writes == [] {
      assert s.buf + Taken(h, s, writes) == s.buf;
      NoLines(s.buf);
      assert s.done + [] == s.done;
    } else {
      OneWrite(h, s, writes);
      var n := Written(h, s, writes[0]).0;
      WritesDoNotMatter(h, n, writes[1..]);
      var first, t := Cut(s.buf + Room(s, writes[0])), Cut(n.buf + Taken(h, n, writes[1..]));
      assert s.done + (first.lines + t.lines) == (s.done + first.lines) + t.lines;
    }
  }

  lemma NoLines(b: seq<Byte>)
    requires NEWLINE !in b
    ensures Cut(b) == Text([], b)
  {
    FindIs(b, |b|);
  }

  lemma OneWrite(h: Handler, s: State, writes: seq<seq<Byte>>)
    requires |s.buf| <= SIZE && writes != []
    requires
      var t := Cut(s.buf + Taken(h, s, writes));
      FitsIn(t) && AcceptsAll(h, t.lines)
    ensures
      var first, n := Cut(s.buf + Room(s, writes[0])), Written(h, s, writes[0]).0;
      && n == State(s.done + first.lines, first.rest, s.calls + |first.lines|)
      && |n.buf| <= SIZE && NEWLINE !in n.buf
      && var all, t := Cut(s.buf + Taken(h, s, writes)), Cut(n.buf + Taken(h, n, writes[1..]));
         all == Text(first.lines + t.lines, t.rest) && FitsIn(t) && AcceptsAll(h, t.lines)
  {
    hide Cut, AcceptsAll, FitsIn, Handle, Written, Taken, Room;
    var a, n := s.buf + Room(s, writes[0]), Written(h, s, writes[0]).0;
    TakenFirst(h, s, writes);
    var b := Taken(h, n, writes[1..]);
    assert s.buf + Taken(h, s, writes) == a + b;
    CutInTwo(a, b);
    CutIsWhole(a);
    StartFits(a, b);
    FirstAccepted(h, a, b);
    WriteOfAccepted(h, s, writes[0]);
  }

  lemma TakenFirst(h: Handler, s: State, writes: seq<seq<Byte>>)
    requires |s.buf| <= SIZE && writes != []
    ensures
      var n := Written(h, s, writes[0]).0;
      |n.buf| <= SIZE && Taken(h, s, writes) == Room(s, writes[0]) + Taken(h, n, writes[1..])
  {
    hide Handle;
    HandleShrinks(h, s.calls, s.buf + Room(s, writes[0]));
  }

  lemma WriteOfAccepted(h: Handler, s: State, data: seq<Byte>)
    requires |s.buf| <= SIZE
    requires AcceptsAll(h, Cut(s.buf + Room(s, data)).lines) && |Cut(s.buf + Room(s, data)).rest| < SIZE
    ensures
      var t := Cut(s.buf + Room(s, data));
      Written(h, s, data) == (State(s.done + t.lines, t.rest, s.calls + |t.lines|), Count(|Room(s, data)|))
  {
    hide Cut, Handle;
    AcceptedLines(h, s.calls, s.buf + Room(s, data));
  }

  /** After a write that succeeds, the buffer has room and holds no end of line. */
  lemma RoomAfterWrite(h: Handler, s: State, data: seq<Byte>)
    requires |s.buf| <= SIZE
    ensures
      var (n, r) := Written(h, s, data);
      && (r.Count? ==> |n.buf| < SIZE && NEWLINE !in n.buf && Concat(n.done[|s.done|..]) + n.buf == s.buf + data[..r.n])
      && (r.Count? && |s.buf| < SIZE && data != [] ==> r.n > 0)
  {
    hide Handle, Concat;
    var b := s.buf + Room(s, data);
    HandleConserves(h, s.calls, b);
    var lines := Handle(h, s.calls, b).lines;
    assert (s.done + lines)[|s.done|..] == lines;
  }

  /** A line that is always rejected stays in the buffer, and no write succeeds any more. */
  lemma {:induction false} RejectedLineStays(h: Handler, s: State, line: seq<Byte>, writes: seq<seq<Byte>>)
    requires |s.buf| <= SIZE && line <= s.buf && line != [] && Find(line) == |line| - 1
    requires forall k: nat :: h(k, line) != 0
    ensures
      var n := After(h, s, writes);
      n.done == s.done && line <= n.buf
    ensures forall data :: Written(h, s, data).1.Error?
    decreases |writes|
  {
    forall data
      ensures Written(h, s, data).1.Error?
    {
      RejectedWrite(h, s, line, data);
    }
    if writes != [] {
      RejectedWrite(h, s, line, writes[0]);
      var n := Written(h, s, writes[0]).0;
      RejectedLineStays(h, n, line, writes[1..]);
    }
  }

  lemma RejectedWrite(h: Handler, s: State, line: seq<Byte>, data: seq<Byte>)
    requires |s.buf| <= SIZE && line <= s.buf && line != [] && Find(line) == |line| - 1
    requires forall k: nat :: h(k, line) != 0
    ensures
      var (n, r) := Written(h, s, data);
      r == Error(h(s.calls, line)) && n == State(s.done, s.buf + Room(s, data), s.calls + 1)
  {
    hide Find;
    var b := s.buf + Room(s, data);
    assert b[..|line|] == line;
    assert forall j :: 0 <= j < |line| ==> b[j] == line[j];
    FindIs(b, |line| - 1);
    HandleFirst(h, s.calls, b);
    assert s.done + [] == s.done;
  }

  /** The verdict on a line does not depend on the number of the call. */
  ghost predicate Steady(h: Handler) {
    forall k: nat, line :: h(k, line) == h(0, line)
  }

  /** How many lines are accepted before the first one that is not. */
  function AcceptedLead(h: Handler, lines: seq<seq<Byte>>): (n: nat)
    ensures n <= |lines|
  {
    if lines == [] || h(0, lines[0]) != 0 then 0 else 1 + AcceptedLead(h, lines[1..])
  }

  lemma {:induction false} LeadOfSum(h: Handler, a: seq<seq<Byte>>, b: seq<seq<Byte>>)
    ensures AcceptedLead(h, a + b) ==
      if AcceptedLead(h, a) < |a| then AcceptedLead(h, a) else |a| + AcceptedLead(h, b)
    decreases |a|
  {
    if a == [] {
      assert a + b == b;
    } else {
      assert (a + b)[1..] == a[1..] + b;
      LeadOfSum(h, a[1..], b);
    }
  }

  lemma {:induction false} FullLead(h: Handler, lines: seq<seq<Byte>>)
    requires Steady(h)
    ensures AcceptedLead(h, lines) == |lines| <==> AcceptsAll(h, lines)
  {
    if lines != [] {
      FullLead(h, lines[1..]);
      if AcceptsAll(h, lines) {
        assert forall k: nat, i: nat :: i < |lines[1..]| ==> h(k, lines[1..][i]) == h(k, lines[i + 1]);
        assert h(0, lines[0]) == 0;
      } else if h(0, lines[0]) == 0 {
        var k: nat, i: nat :| i < |lines| && h(k, lines[i]) != 0;
        assert h(k, lines[i]) == h(0, lines[i]);
        assert lines[1..][i - 1] == lines[i];
      }
    }
  }

  /** Handling stops in front of the first line that is rejected. */
  lemma {:induction false} HandlesTheLead(h: Handler, calls: nat, b: seq<Byte>)
    requires Steady(h)
    ensures
      var t, r := Cut(b), Handle(h, calls, b);
      var n := AcceptedLead(h, t.lines);
      && r.lines == t.lines[..n] && (r.err == 0 <==> n == |t.lines|)
      && (n < |t.lines| ==>
            && t.lines[n] <= r.rest && t.lines[n] != [] && Find(t.lines[n]) == |t.lines[n]| - 1
            && h(0, t.lines[n]) != 0)
      && (n == |t.lines| ==> r.rest == t.rest)
    decreases |b|
  {
    hide Find, Cut, Handle;
    CutFirst(b);
    HandleFirst(h, calls, b);
    var i := Find(b);
    if i < |b| {
      var line := b[..i + 1];
      FindIs(line, i);
      assert h(calls, line) == h(0, line);
      var t := Cut(b[i + 1..]);
      assert ([line] + t.lines)[1..] == t.lines;
      if h(0, line) == 0 {
        HandlesTheLead(h, calls + 1, b[i + 1..]);
        var n := AcceptedLead(h, t.lines);
        assert ([line] + t.lines)[..n + 1] == [line] + t.lines[..n];
      }
    }
  }

  /** Exactly the lines in front of the first rejected one are ever handled, however the text
      is split into writes. */
  lemma {:induction false} OnlyTheLeadIsHandled(h: Handler, s: State, writes: seq<seq<Byte>>)
    requires Steady(h) && |s.buf| <= SIZE && NEWLINE !in s.buf
    requires FitsIn(Cut(s.buf + Taken(h, s, writes)))
    ensures
      var t := Cut(s.buf + Taken(h, s, writes));
      After(h, s, writes).done == s.done + t.lines[..AcceptedLead(h, t.lines)]
    decreases |writes|
  {
    hide Find, Cut, Handle, FitsIn, AcceptedLead, Room, Taken, Written;
    if writes == [] {
      assert s.buf + Taken(h, s, writes) == s.buf by {
        NothingTaken(h, s);
      }
      NoLines(s.buf);
      NoLead(h);
      assert s.done + [] == s.done;
    } else {
      TakenFirst(h, s, writes);
      var a, n := s.buf + Room(s, writes[0]), Written(h, s, writes[0]).0;
      var b := Taken(h, n, writes[1..]);
      assert s.buf + Taken(h, s, writes) == a + b;
      CutInTwo(a, b);
      StartFits(a, b);
      var first, rest := Cut(a).lines, Cut(Cut(a).rest + b).lines;
      LeadOfSum(h, first, rest);
      OneLead(h, s, writes[0]);
      var lead := AcceptedLead(h, first);
      if lead < |first| {
        RejectedLineStays(h, n, first[lead], writes[1..]);
        assert (first + rest)[..lead] == first[..lead];
      } else {
        OnlyTheLeadIsHandled(h, n, writes[1..]);
        LeadsJoin(s.done, first, rest, AcceptedLead(h, rest));
      }
    }
  }

  lemma NothingTaken(h: Handler, s: State)
    requires |s.buf| <= SIZE
    ensures Taken(h, s, []) == []
  {
  }

  lemma NoLead(h: Handler)
    ensures AcceptedLead(h, []) == 0
  {
  }

  lemma LeadsJoin(done: seq<seq<Byte>>, first: seq<seq<Byte>>, rest: seq<seq<Byte>>, more: nat)
    requires more <= |rest|
    ensures done + (first + rest)[..|first| + more] == (done + first) + rest[..more]
  {
    assert (first + rest)[..|first| + more] == first + rest[..more];
  }

  /** One write handles the accepted lines in front of the first rejected one. */
  lemma OneLead(h: Handler, s: State, data: seq<Byte>)
    requires Steady(h) && |s.buf| <= SIZE && |Cut(s.buf + Room(s, data)).rest| < SIZE
    ensures
      var t, n := Cut(s.buf + Room(s, data)), Written(h, s, data).0;
      var lead := AcceptedLead(h, t.lines);
      && n.done == s.done + t.lines[..lead] && |n.buf| <= SIZE
      && (lead < |t.lines| ==>
            && t.lines[lead] <= n.buf && t.lines[lead] != [] && Find(t.lines[lead]) == |t.lines[lead]| - 1
            && h(0, t.lines[lead]) != 0)
      && (lead == |t.lines| ==> n.done == s.done + t.lines && n.buf == t.rest && NEWLINE !in n.buf)
  {
    hide Find, Cut, Handle, AcceptedLead;
    var b := s.buf + Room(s, data);
    HandlesTheLead(h, s.calls, b);
    HandleShrinks(h, s.calls, b);
    CutIsWhole(b);
    var t := Cut(b);
    assert t.lines[..|t.lines|] == t.lines;
  }

  /** So a text whose lines fit the buffer is handled completely if and only if every line of
      it is accepted. */
  lemma HandledIffAccepted(h: Handler, s: State, writes: seq<seq<Byte>>)
    requires Steady(h) && |s.buf| <= SIZE && NEWLINE !in s.buf
    requires FitsIn(Cut(s.buf + Taken(h, s, writes)))
    ensures
      var t := Cut(s.buf + Taken(h, s, writes));
      After(h, s, writes).done == s.done + t.lines <==> AcceptsAll(h, t.lines)
  {
    hide Cut, After, Taken, FitsIn, AcceptsAll;
    OnlyTheLeadIsHandled(h, s, writes);
    var t := Cut(s.buf + Taken(h, s, writes));
    var n := AcceptedLead(h, t.lines);
    FullLead(h, t.lines);
    assert n == |t.lines| ==> t.lines[..n] == t.lines;
  }

  // ---------------------------------------------------------------- reading

  /** The size of the read buffer, which the printer does not know. */
  const READ_SIZE := 80

  /** What a read of `count` characters gives, and what it leaves for the next one; a new
      line is printed when nothing is left of the last one. */
  function Given(left: string, line: string, count: nat): (string, string)
    requires left == "" ==> |line| <= READ_SIZE
  {
    var all := if left == "" then line else left;
    var n := if count > |all| then |all| else count;
    (all[..n], all[n..])
  }

  lemma Slices(b: array<char>, p: nat, n: nat, c: nat)
    requires p + n <= b.Length && c <= n
    ensures b[p..p + n][..c] == b[p..p + c] && b[p..p + n][c..] == b[p + c..p + n]
  {
  }

  class LineReader {
    const buffer: array<char>
    var pointer: nat
    var rest: nat

    constructor ()
      ensures Valid() && Left() == ""
    {
      buffer := new char[READ_SIZE];
      pointer, rest := 0, 0;
    }

    predicate Valid()
      reads this
    {
      buffer.Length == READ_SIZE && pointer + rest <= READ_SIZE
    }

    function Left(): string
      requires Valid()
      reads this, buffer
    {
      buffer[pointer..pointer + rest]
    }

    /** pcan_make_output into the read buffer. Its line must fit there, which nothing in the
        driver makes sure of. */
    method Print(m: MsgText.Msg)
      requires Valid() && m.len <= |m.data| && |MsgText.Line(m)| <= READ_SIZE
      modifies this, buffer
      ensures Valid() && Left() == MsgText.Line(m)
    {
      hide MsgText.Line;
      var line := MsgText.MakeOutput(m);
      forall i | 0 <= i < |line| {
        buffer[i] := line[i];
      }
      rest, pointer := |line|, 0;
    }

    /** pcan_read; `m` is the message that is received when one is needed. */
    method Read(count: nat, m: MsgText.Msg) returns (text: string)
      requires Valid() && m.len <= |m.data|
      requires rest == 0 ==> |MsgText.Line(m)| <= READ_SIZE
      modifies this, buffer
      ensures Valid() && (text, Left()) == Given(old(Left()), MsgText.Line(m), count)
    {
      hide MsgText.Line;
      ghost var left := Left();
      if rest == 0 {
        Print(m);
      }
      ghost var all := Left();
      assert all == if left == "" then MsgText.Line(m) else left;
      hide Given;
      if count > rest {
        text := buffer[pointer..pointer + rest];
        rest, pointer := 0, 0;
        GivenIs(left, MsgText.Line(m), count, all, |all|);
        assert text == all[..|all|];
        assert Left() == all[|all|..];
      } else {
        Slices(buffer, pointer, rest, count);
        GivenIs(left, MsgText.Line(m), count, all, count);
        text := buffer[pointer..pointer + count];
        rest, pointer := rest - count, pointer + count;
        assert text == all[..count];
        assert Left() == all[count..];
      }
    }
  }

  lemma GivenIs(left: string, line: string, count: nat, all: string, n: nat)
    requires (left == "" ==> |line| <= READ_SIZE) && all == if left == "" then line else left
    requires n == if count > |all| then |all| else count
    ensures Given(left, line, count) == (all[..n], all[n..])
  {
  }

  ghost predicate AllFit(lines: seq<string>) {
    forall i :: 0 <= i < |lines| ==> |lines[i]| <= READ_SIZE
  }

  /** The text of many reads, what they leave, and the lines that are still unread; reading
      ends when no line is there. */
  ghost function ReadAll(left: string, lines: seq<string>, counts: seq<nat>): (string, string, seq<string>)
    requires AllFit(lines)
    decreases |counts|
  {
    if counts == [] || (left == "" && lines == []) then ("", left, lines)
    else
      var (text, l) := Given(left, if left == "" then lines[0] else "", counts[0]);
      var (more, r, n) := ReadAll(l, if left == "" then lines[1..] else lines, counts[1..]);
      (text + more, r, n)
  }

  /** Whatever the sizes of the reads, the reader gets the lines as they were printed, if
      these fit the buffer. */
  lemma {:induction false} ReadsDoNotMatter(left: string, lines: seq<string>, counts: seq<nat>)
    requires AllFit(lines)
    ensures
      var (text, l, unread) := ReadAll(left, lines, counts);
      text + (l + Concat(unread)) == left + Concat(lines)
    decreases |counts|
  {
    if counts != [] && (left != "" || lines != []) {
      var all, next := if left == "" then lines[0] else left, if left == "" then lines[1..] else lines;
      var (text, l) := Given(left, if left == "" then lines[0] else "", counts[0]);
      ReadsDoNotMatter(l, next, counts[1..]);
      var (more, r, n) := ReadAll(l, next, counts[1..]);
      hide ReadAll, Concat;
      assert text + l == all;
      Regroup(text, l, Concat(next), more, r, Concat(n));
    }
  }

  lemma Regroup(text: string, l: string, next: string, more: string, r: string, n: string)
    requires more + (r + n) == l + next
    ensures (text + more) + (r + n) == (text + l) + next
  {
    assert (text + more) + (r + n) == text + (more + (r + n));
    assert text + (l + next) == (text + l) + next;
  }

  /** Every message that is read has a time: its line fits the buffer if and only if it shows
      at most 8 data bytes, that is, unless it is a CAN FD frame with more. */
  lemma LineFitsTheBuffer(m: MsgText.Msg)
    requires m.len <= 64 && m.len <= |m.data| && m.time.Time?
    ensures |MsgText.Line(m)| <= READ_SIZE <==> m.rtr || m.len <= 8
  {
    hide MsgText.Line;
    MsgText.LineLength(m);
  }

  /** A CAN FD frame of 9 bytes is printed one character beyond the buffer. */
  lemma NineBytesDoNotFit()
    ensures
      var nine := [0, 0, 0, 0, 0, 0, 0, 0, 0];
      var m := MsgText.Msg(MsgText.CANFD, false, false, true, false, MsgText.NONE, 1, 9, nine, MsgText.Time(0, 0));
      |MsgText.Line(m)| == READ_SIZE + 1
  {
    var nine := [0, 0, 0, 0, 0, 0, 0, 0, 0];
    hide MsgText.Line;
    MsgText.LineLength(
      MsgText.Msg(MsgText.CANFD, false, false, true, false, MsgText.NONE, 1, 9, nine, MsgText.Time(0, 0)));
  }
}
