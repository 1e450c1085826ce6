/** The ring buffer behind the read and write queues: pointers stepping through memory. */
module RingFifo {
  import opened Can
  import opened Common

  type Elem = seq<Byte>

  /** Layout of the entries: `count` of them, `step` bytes apart, `copy` bytes used of each. */
  datatype Layout = Layout(begin: nat, step: nat, copy: nat, count: nat)

  predicate Fits(g: Layout, size: nat) {
    g.count > 1 && 0 < g.copy <= g.step && Addr(g, g.count - 1) + g.copy <= size
  }

  function Addr(g: Layout, k: nat): nat { g.begin + k * g.step }

  lemma MulGrows(a: nat, b: nat)
    ensures a * b >= 0
  {
  }

  lemma AddrGrows(g: Layout, i: nat, j: nat)
    requires i < j
    ensures Addr(g, i) + g.step <= Addr(g, j)
  {
    MulGrows(j - i - 1, g.step);
    assert j * g.step == i * g.step + g.step + (j - i - 1) * g.step;
  }

  lemma AddrNext(g: Layout, i: nat)
    ensures Addr(g, i + 1) == Addr(g, i) + g.step && Addr(g, 0) == g.begin
  {
  }

  lemma AddrInside(g: Layout, size: nat, i: nat)
    requires Fits(g, size) && i < g.count
    ensures Addr(g, i) + g.copy <= size
    ensures Addr(g, i) == Addr(g, g.count - 1) <==> i == g.count - 1
    ensures Addr(g, i) == g.begin <==> i == 0
    ensures g.begin <= Addr(g, i) <= Addr(g, g.count - 1)
  {
    AddrNext(g, 0);
    if i < g.count - 1 {
      AddrGrows(g, i, g.count - 1);
    }
    if 0 < i {
      AddrGrows(g, 0, i);
    }
  }

  /** `n` entries behind entry `k`, around the ring. */
  function Pos(g: Layout, k: nat, n: nat): (p: nat)
    requires k < g.count && n <= g.count
    ensures p < g.count
  {
    if k + n < g.count then k + n else k + n - g.count
  }

  lemma PosBack(g: Layout, k: nat, n: nat)
    requires k < g.count && 0 < n <= g.count
    ensures Pos(g, k, n) == Pos(g, Pos(g, k, n - 1), 1)
  {
  }

  function Slot(m: seq<Byte>, g: Layout, k: nat): Elem
    requires Fits(g, |m|) && k < g.count
  {
    AddrInside(g, |m|, k);
    m[Addr(g, k)..Addr(g, k) + g.copy]
  }

  lemma PosAround(g: Layout, k: nat)
    requires k < g.count
    ensures Pos(g, Pos(g, k, 1), g.count - 1) == Pos(g, k, g.count)
  {
  }

  lemma SlotBytes(m: seq<Byte>, g: Layout, k: nat)
    requires Fits(g, |m|) && k < g.count
    ensures Addr(g, k) + g.copy <= |m| && Slot(m, g, k) == m[Addr(g, k)..Addr(g, k) + g.copy]
  {
    hide Addr;
    AddrInside(g, |m|, k);
  }

  /** The `n` elements from entry `k` on. */
  ghost function Elements(m: seq<Byte>, g: Layout, k: nat, n: nat): (s: seq<Elem>)
    requires Fits(g, |m|) && k < g.count && n <= g.count
    ensures |s| == n && forall i :: 0 <= i < n ==> s[i] == Slot(m, g, Pos(g, k, i))
  {
    seq(n, i requires 0 <= i < n => Slot(m, g, Pos(g, k, i)))
  }

  /** Memory in which entry `k` has become `x` and nothing else has changed. */
  ghost predicate Stored(m: seq<Byte>, after: seq<Byte>, g: Layout, k: nat, x: Elem) {
    && |after| == |m| && Fits(g, |m|) && k < g.count && |x| == g.copy
    && forall i :: 0 <= i < |m| ==>
         after[i] == if Addr(g, k) <= i < Addr(g, k) + g.copy then x[i - Addr(g, k)] else m[i]
  }

  lemma StoredSlot(m: seq<Byte>, after: seq<Byte>, g: Layout, k: nat, x: Elem, j: nat)
    requires Stored(m, after, g, k, x) && j < g.count
    ensures Slot(after, g, j) == if j == k then x else Slot(m, g, j)
  {
    hide Addr;
    AddrInside(g, |m|, k);
    AddrInside(g, |m|, j);
    if j < k {
      AddrGrows(g, j, k);
    } else if k < j {
      AddrGrows(g, k, j);
    }
  }

  lemma StoredAt(m: seq<Byte>, after: seq<Byte>, g: Layout, k: nat, n: nat, i: nat, x: Elem)
    requires k < g.count && i < n <= g.count
    requires Stored(m, after, g, Pos(g, k, i), x)
    ensures Elements(after, g, k, n) == Elements(m, g, k, n)[i := x]
  {
    hide Addr, Slot;
    forall j | 0 <= j < n
      ensures Slot(after, g, Pos(g, k, j)) == if j == i then x else Slot(m, g, Pos(g, k, j))
    {
      StoredSlot(m, after, g, Pos(g, k, i), x, Pos(g, k, j));
    }
  }

  lemma StoredBehind(m: seq<Byte>, after: seq<Byte>, g: Layout, k: nat, n: nat, x: Elem)
    requires k < g.count && n < g.count
    requires Stored(m, after, g, Pos(g, k, n), x)
    ensures Elements(after, g, k, n + 1) == Elements(m, g, k, n) + [x]
  {
    hide Slot;
    StoredAt(m, after, g, k, n + 1, n, x);
    assert Elements(m, g, k, n + 1)[n := x] == Elements(m, g, k, n) + [x];
  }

  lemma WithoutFirst(m: seq<Byte>, g: Layout, k: nat, n: nat)
    requires Fits(g, |m|) && k < g.count && 0 < n <= g.count
    ensures Elements(m, g, Pos(g, k, 1), n - 1) == Elements(m, g, k, n)[1..]
  {
    hide Slot;
  }

  /** pcan_fifo_foreach_back on the elements: from the newest to the oldest, each replaced
      by what the callback makes of it, until the callback returns an error. */
  function VisitBack<E, A>(s: seq<E>, n: nat, pf: (E, A) -> (E, A, int), arg: A): (r: (seq<E>, A, int))
    requires n <= |s|
    ensures |r.0| == |s|
    decreases n
  {
    if n == 0 then (s, arg, 0)
    else
      var (x, a, err) := pf(s[n - 1], arg);
      if err != 0 then (s[n - 1 := x], a, err) else VisitBack(s[n - 1 := x], n - 1, pf, a)
  }

  lemma VisitOne<E, A>(s: seq<E>, n: nat, pf: (E, A) -> (E, A, int), arg: A, x: E, a: A, err: int)
    requires n <= |s|
    ensures n == 0 ==> VisitBack(s, n, pf, arg) == (s, arg, 0)
    ensures n > 0 && pf(s[n - 1], arg) == (x, a, err) ==>
      VisitBack(s, n, pf, arg) ==
        if err != 0 then (s[n - 1 := x], a, err) else VisitBack(s[n - 1 := x], n - 1, pf, a)
  {
  }

  /** The callback writes into the entry it gets. */
  ghost predicate KeepsSize<A(!new)>(pf: (Elem, A) -> (Elem, A, int), size: nat) {
    forall x, a :: |x| == size ==> |pf(x, a).0| == size
  }

  lemma KeepsOne<A(!new)>(pf: (Elem, A) -> (Elem, A, int), size: nat, x: Elem, a: A)
    requires KeepsSize(pf, size) && |x| == size
    ensures |pf(x, a).0| == size
  {
  }

  function StepSize(begin: nat, end: nat, count: nat): nat
    requires begin <= end && count > 1
  {
    if begin == end then 0 else (end - begin) / (count - 1) % 0x1_0000
  }

  /** The step is the whole part of what an entry may take, as far as 16 bits hold it; two entries
      that are a multiple of it apart leave no gap. */
  lemma StepIsWhole(begin: nat, end: nat, count: nat)
    requires begin <= end < begin + 0x1_0000 * (count - 1) && count > 1
    ensures
      var step := StepSize(begin, end, count);
      step * (count - 1) <= end - begin < (step + 1) * (count - 1)
  {
    DivBounds(end - begin, count - 1);
    var step := (end - begin) / (count - 1);
    if step >= 0x1_0000 {
      MulMonotone(0x1_0000, step, count - 1);
    }
  }

  datatype Errno = OK(value: nat) | EINVAL | ENOSPC | ENODATA

  class Fifo {
    const mem: array<Byte>
    var layout: Layout
    var bufferEnd: nat
    var circular: bool
    var nStored: nat
    var dwTotal: nat
    var r: nat
    var w: nat
    /** The entry `r` points to. */
    ghost var head: nat

    constructor (mem: array<Byte>)
      ensures this.mem == mem
    {
      this.mem := mem;
      layout, bufferEnd, circular := Layout(0, 0, 0, 0), 0, false;
      nStored, dwTotal, r, w, head := 0, 0, 0, 0, 0;
    }

    ghost predicate Valid()
      reads this
    {
      && Fits(layout, mem.Length) && bufferEnd == Addr(layout, layout.count - 1)
      && head < layout.count && nStored <= layout.count
      && r == Addr(layout, head) && w == Addr(layout, Pos(layout, head, nStored))
    }

    ghost function Contents(): (s: seq<Elem>)
      requires Valid()
      reads this, mem
      ensures |s| == nStored
    {
      Elements(mem[..], layout, head, nStored)
    }

    /** The entries divide the buffer. */
    ghost predicate Even()
      reads this
    {
      Fits(layout, mem.Length) && bufferEnd == Addr(layout, layout.count - 1)
    }

    /** pcan_fifo_reset. */
    method Reset()
      modifies this`dwTotal, this`nStored, this`r, this`w, this`head
      ensures dwTotal == 0 && nStored == 0 && r == w == layout.begin
      ensures Even() ==> Valid() && Contents() == []
    {
      dwTotal, nStored, r, w, head := 0, 0, layout.begin, layout.begin, 0;
    }

    /** pcan_fifo_init: `end` is where the last entry begins. The step is kept in 16 bits. */
    method Init(begin: nat, end: nat, count: nat, copy: nat) returns (err: Errno)
      requires copy < 0x1_0000 && end + copy <= mem.Length
      modifies this
      ensures err == EINVAL <==>
        begin > end || count <= 1 || copy == 0 || StepSize(begin, end, count) < copy
      ensures err == EINVAL || err == OK(0)
      ensures err == OK(0) ==>
        && layout == Layout(begin, StepSize(begin, end, count), copy, count)
        && bufferEnd == end && !circular && dwTotal == 0
        && (end - begin == (count - 1) * layout.step ==> Valid() && Contents() == [])
    {
      if begin > end || count <= 1 || copy == 0 {
        return EINVAL;
      }
      layout := layout.(step := StepSize(begin, end, count));
      if layout.step < copy {
        return EINVAL;
      }
      layout, bufferEnd, circular := Layout(begin, layout.step, copy, count), end, false;
      Reset();
      err := OK(0);
    }

    /** memcpy of an element into the entry at `p`. */
    method Write(p: nat, x: Elem, ghost k: nat)
      requires Fits(layout, mem.Length) && k < layout.count && p == Addr(layout, k) && |x| == layout.copy
      modifies mem
      ensures Stored(old(mem[..]), mem[..], layout, k, x)
    {
      AddrInside(layout, mem.Length, k);
      forall i | 0 <= i < |x| {
        mem[p + i] := x[i];
      }
    }

    /** A pointer moved to the next entry. */
    function Stepped(p: nat): nat
      reads this
    {
      if p < bufferEnd then p + layout.step else layout.begin
    }

    lemma SteppedIsNext(k: nat)
      requires Fits(layout, mem.Length) && bufferEnd == Addr(layout, layout.count - 1) && k < layout.count
      ensures Stepped(Addr(layout, k)) == Addr(layout, Pos(layout, k, 1))
    {
      AddrInside(layout, mem.Length, k);
      AddrNext(layout, k);
      AddrNext(layout, 0);
    }

    /** pcan_fifo_put: a full ring drops its oldest element when it is circular, and takes
        nothing when it is not. */
    method Put(x: Elem) returns (err: Errno)
      requires Valid() && |x| == layout.copy
      modifies this`nStored, this`dwTotal, this`r, this`w, this`head, mem
      ensures Valid()
      ensures
        var was := old(Contents());
        if |was| < layout.count then
          Contents() == was + [x] && err == OK(|was|)
        else if circular then
          Contents() == was[1..] + [x] && err == OK(|was| - 1)
        else
          Contents() == was && err == ENOSPC
      ensures dwTotal == if err == ENOSPC then old(dwTotal) else (old(dwTotal) + 1) % 0x1_0000_0000
    {
      hide Addr, Fits, Elements, Stored, Slot, Pos;
      if nStored >= layout.count {
        if !circular {
          return ENOSPC;
        }
        WithoutFirst(mem[..], layout, head, nStored);
        SteppedIsNext(head);
        PosAround(layout, head);
        r, head, nStored := Stepped(r), Pos(layout, head, 1), nStored - 1;
      }
      ghost var before := mem[..];
      Write(w, x, Pos(layout, head, nStored));
      StoredBehind(before, mem[..], layout, head, nStored, x);
      SteppedIsNext(Pos(layout, head, nStored));
      PosBack(layout, head, nStored + 1);
      err := OK(nStored);
      nStored, dwTotal, w := nStored + 1, (dwTotal + 1) % 0x1_0000_0000, Stepped(w);
    }

    /** pcan_fifo_get. */
    method Get() returns (err: Errno, x: Elem)
      requires Valid()
      modifies this`nStored, this`r, this`head
      ensures Valid()
      ensures
        var was := old(Contents());
        if was == [] then err == ENODATA && Contents() == was
        else err == OK(0) && x == was[0] && Contents() == was[1..]
    {
      hide Addr, Fits, Elements;
      if nStored == 0 {
        return ENODATA, [];
      }
      AddrInside(layout, mem.Length, head);
      WithoutFirst(mem[..], layout, head, nStored);
      SteppedIsNext(head);
      assert mem[..][r..r + layout.copy] == mem[r..r + layout.copy];
      err, x := OK(0), mem[r..r + layout.copy];
      nStored, r, head := nStored - 1, Stepped(r), Pos(layout, head, 1);
    }

    /** pcan_fifo_peek. */
    method Peek() returns (err: Errno, x: Elem)
      requires Valid()
      ensures if Contents() == [] then err == ENODATA else err == OK(0) && x == Contents()[0]
    {
      if nStored == 0 {
        return ENODATA, [];
      }
      AddrInside(layout, mem.Length, head);
      assert mem[..][r..r + layout.copy] == mem[r..r + layout.copy];
      err, x := OK(0), mem[r..r + layout.copy];
    }

    /** pcan_fifo_foreach_back. */
    method ForeachBack<A(!new)>(pf: (Elem, A) -> (Elem, A, int), arg: A) returns (err: int, out: A)
      requires Valid() && KeepsSize(pf, layout.copy)
      modifies mem
      ensures Valid() && (Contents(), out, err) == VisitBack(old(Contents()), nStored, pf, arg)
    {
      hide Addr, Fits, Elements, Stored, VisitBack, Slot, Pos, KeepsSize;
      var p, i := w, 0;
      out, err := arg, 0;
      while i < nStored
        invariant 0 <= i <= nStored && err == 0 && Valid()
        invariant p == Addr(layout, Pos(layout, head, nStored - i))
        invariant VisitBack(Contents(), nStored - i, pf, out) == VisitBack(old(Contents()), nStored, pf, arg)
      {
        ghost var k, was := Pos(layout, head, nStored - i - 1), Contents();
        PosBack(layout, head, nStored - i);
        StepsBack(Pos(layout, head, nStored - i), k);
        p := if p == layout.begin then bufferEnd else p - layout.step;
        ghost var before := mem[..];
        var item := mem[p..p + layout.copy];
        assert |item| == layout.copy;
        assert item == was[nStored - i - 1] by {
          SlotBytes(before, layout, k);
        }
        var (x, a, e) := pf(item, out);
        KeepsOne(pf, layout.copy, item, out);
        Write(p, x, k);
        StoredAt(before, mem[..], layout, head, nStored, nStored - i - 1, x);
        VisitOne(was, nStored - i, pf, out, x, a, e);
        out, err, i := a, e, i + 1;
        if err != 0 {
          return;
        }
      }
      VisitOne(Contents(), 0, pf, out, [], out, 0);
    }

    lemma StepsBack(k: nat, j: nat)
      requires Fits(layout, mem.Length) && bufferEnd == Addr(layout, layout.count - 1)
      requires k < layout.count && j < layout.count && k == Pos(layout, j, 1)
      ensures Addr(layout, j) == if Addr(layout, k) == layout.begin then bufferEnd else Addr(layout, k) - layout.step
      ensures Addr(layout, k) != layout.begin ==> Addr(layout, k) >= layout.step
      ensures Addr(layout, j) + layout.copy <= mem.Length
    {
      AddrInside(layout, mem.Length, j);
      AddrInside(layout, mem.Length, k);
      AddrNext(layout, j);
    }

    /** pcan_fifo_ratio, in hundredths of a percent. */
    function Ratio(): (ratio: nat)
      reads this
    {
      if layout.count != 0 then Quotient(nStored * 10000 % 0x1_0000_0000, layout.count) else 0
    }
  }

  /** The fill level in hundredths of a percent is right for up to 429496 entries, and then
      10000 means full and nothing else. */
  lemma RatioIsTheFillLevel(f: Fifo)
    requires f.Valid() && f.layout.count < 429497
    ensures
      var n, count := f.nStored, f.layout.count;
      f.Ratio() * count <= n * 10000 < (f.Ratio() + 1) * count && (f.Ratio() == 10000 <==> n == count)
  {
    var n, count := f.nStored, f.layout.count;
    assert count > 1 && n <= count && n * 10000 < 0x1_0000_0000;
    hide Fifo.Valid, Addr, Fits, Quotient, Pos;
    QuotientBounds(n * 10000, count);
    RatioFull(Quotient(n * 10000, count), n, count);
  }

  lemma RatioFull(ratio: nat, n: nat, count: nat)
    requires 0 < n <= count < 429497 || n == 0 < count
    requires ratio * count <= n * 10000 < (ratio + 1) * count
    ensures ratio == 10000 <==> n == count
  {
    if n == count && ratio < 10000 {
      MulMonotone(ratio + 1, 10000, count);
    } else if n == count && ratio > 10000 {
      MulMonotone(10001, ratio, count);
    }
  }

  // ---------------------------------------------------------------- whole runs

  datatype Op = DoPut(x: Elem) | DoGet

  /** The elements in the ring, with the ones that were taken in and that have left. */
  datatype Queue = Queue(contents: seq<Elem>, taken: seq<Elem>, left: seq<Elem>)

  /** What the contracts of Put and Get say. */
  function Apply(q: Queue, op: Op, count: nat, circular: bool): Queue
    requires count > 0 && |q.contents| <= count
  {
    match op
    case DoPut(x) =>
      if |q.contents| < count then Queue(q.contents + [x], q.taken + [x], q.left)
      else if circular then Queue(q.contents[1..] + [x], q.taken + [x], q.left + [q.contents[0]])
      else q
    case DoGet =>
      if q.contents == [] then q else Queue(q.contents[1..], q.taken, q.left + [q.contents[0]])
  }

  function Run(q: Queue, ops: seq<Op>, count: nat, circular: bool): Queue
    requires count > 0 && |q.contents| <= count
    decreases |ops|
  {
    if ops == [] then q else Run(Apply(q, ops[0], count, circular), ops[1..], count, circular)
  }

  /** First in, first out, in every run: what has left, followed by what is stored, is what
      was taken in; and the ring never holds more than `count` elements. */
  lemma {:induction false} FirstInFirstOut(q: Queue, ops: seq<Op>, count: nat, circular: bool)
    requires count > 0 && |q.contents| <= count && q.left + q.contents == q.taken
    ensures
      var r := Run(q, ops, count, circular);
      r.left + r.contents == r.taken && |r.contents| <= count
    decreases |ops|
  {
    if ops != [] {
      var r := Apply(q, ops[0], count, circular);
      if r != q {
        assert r.left + r.contents == r.taken by {
          if q.contents != [] {
            assert q.contents == [q.contents[0]] + q.contents[1..];
          }
        }
      }
      FirstInFirstOut(r, ops[1..], count, circular);
    }
  }
}
