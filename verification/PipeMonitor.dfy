/**
 A pipe as a monitor (pipe.c with sleep, wakeup and kill of proc.c): what one region under the
 pipe's lock does, and what holds between the regions in every interleaving of any number of
 readers and writers.

 A region runs from the acquisition of the lock to its release, by return or by sleep(); a process
 that wakes up waits for the lock again and goes on where it slept.
 */
module PipeMonitor {
  import opened Blocks

  const PIPESIZE: nat := 512

  datatype Chan = NRead | NWrite

  /** A system call in progress: pipewrite of `bytes`, of which `i` are in the pipe, or piperead of `n`. */
  datatype Call = Write(bytes: seq<Byte>, i: nat) | Read(n: int)

  datatype RunState = Outside | Ready(call: Call) | Asleep(chan: Chan, call: Call)

  datatype Proc = Proc(state: RunState, killed: bool)

  /** `accepted` and `delivered` are all bytes ever written to and read from the pipe. */
  datatype Monitor = Monitor(buf: seq<Byte>, readopen: bool, writeopen: bool, procs: seq<Proc>,
                             accepted: seq<Byte>, delivered: seq<Byte>)

  datatype Event = StartWrite(p: nat, bytes: seq<Byte>) | StartRead(p: nat, n: int) | Run(p: nat)
    | Close(writable: bool) | Kill(p: nat)

  // ---- the regions ----

  function Woken(q: Proc, c: Chan): Proc {
    if q.state.Asleep? && q.state.chan == c then q.(state := Ready(q.state.call)) else q
  }

  /** wakeup: every process that sleeps on `c` becomes ready. */
  function WakeAll(procs: seq<Proc>, c: Chan): (procs': seq<Proc>)
    ensures |procs'| == |procs|
    ensures forall i :: 0 <= i < |procs| ==> procs'[i] == Woken(procs[i], c)
  {
    seq(|procs|, i requires 0 <= i < |procs| => Woken(procs[i], c))
  }

  function WithState(procs: seq<Proc>, p: nat, s: RunState): (procs': seq<Proc>)
    requires p < |procs|
    ensures |procs'| == |procs|
  {
    procs[p := procs[p].(state := s)]
  }

  /** One byte put into the pipe. */
  function Accept(m: Monitor, x: Byte): Monitor {
    m.(buf := m.buf + [x], accepted := m.accepted + [x])
  }

  /** pipewrite's loop from byte `i` to its return or its sleep. */
  function WriteRegion(m: Monitor, p: nat, bytes: seq<Byte>, i: nat): (m': Monitor)
    requires p < |m.procs|
    decreases |bytes| - i
  {
    if i >= |bytes| then m.(procs := WithState(WakeAll(m.procs, NRead), p, Outside))
    else if |m.buf| == PIPESIZE then
      if !m.readopen || m.procs[p].killed then m.(procs := WithState(m.procs, p, Outside))
      else m.(procs := WithState(WakeAll(m.procs, NRead), p, Asleep(NWrite, Write(bytes, i))))
    else WriteRegion(Accept(m, bytes[i]), p, bytes, i + 1)
  }

  /** How many bytes piperead takes. */
  function Taken(m: Monitor, n: int): (k: nat)
    ensures k <= |m.buf|
  {
    if n < 0 then 0 else if n < |m.buf| then n else |m.buf|
  }

  /** piperead, from the lock to its return or its sleep. */
  function ReadRegion(m: Monitor, p: nat, n: int): Monitor
    requires p < |m.procs|
  {
    if m.buf == [] && m.writeopen then
      m.(procs := WithState(m.procs, p, if m.procs[p].killed then Outside else Asleep(NRead, Read(n))))
    else
      var k := Taken(m, n);
      m.(buf := m.buf[k..], delivered := m.delivered + m.buf[..k],
         procs := WithState(WakeAll(m.procs, NWrite), p, Outside))
  }

  function CloseRegion(m: Monitor, writable: bool): Monitor {
    if writable then m.(writeopen := false, procs := WakeAll(m.procs, NRead))
    else m.(readopen := false, procs := WakeAll(m.procs, NWrite))
  }

  function KillRegion(m: Monitor, p: nat): Monitor
    requires p < |m.procs|
  {
    var s := m.procs[p].state;
    m.(procs := m.procs[p := Proc(if s.Asleep? then Ready(s.call) else s, true)])
  }

  // ---- runs ----

  ghost predicate Inside(q: Proc, writing: bool) {
    !q.state.Outside? && q.state.call.Write? == writing
  }

  /**
   A process calls read or write through a descriptor of its own, so an end is closed only when no
   process is inside a call on it.
   */
  ghost predicate Allowed(m: Monitor, e: Event) {
    match e
    case StartWrite(p, _) => p < |m.procs| && m.procs[p].state.Outside? && m.writeopen
    case StartRead(p, _) => p < |m.procs| && m.procs[p].state.Outside? && m.readopen
    case Run(p) => p < |m.procs| && m.procs[p].state.Ready?
    case Close(w) => (if w then m.writeopen else m.readopen) && forall q :: 0 <= q < |m.procs| ==>
           !Inside(m.procs[q], w)
    case Kill(p) => p < |m.procs|
  }

  function Step(m: Monitor, e: Event): Monitor
    requires Allowed(m, e)
  {
    match e
    case StartWrite(p, bytes) => m.(procs := WithState(m.procs, p, Ready(Write(bytes, 0))))
    case StartRead(p, n) => m.(procs := WithState(m.procs, p, Ready(Read(n))))
    case Run(p) =>
      (match m.procs[p].state.call
       case Write(bytes, i) => WriteRegion(m, p, bytes, i)
       case Read(n) => ReadRegion(m, p, n))
    case Close(w) => CloseRegion(m, w)
    case Kill(p) => KillRegion(m, p)
  }

  /** The pipe pipealloc makes, with every process outside. */
  function Start(n: nat): Monitor {
    Monitor([], true, true, seq(n, _ => Proc(Outside, false)), [], [])
  }

  /** `ms` are the states of a run of the events `es`. */
  ghost predicate IsRun(n: nat, es: seq<Event>, ms: seq<Monitor>) {
    && |ms| == |es| + 1 && ms[0] == Start(n)
    && forall i :: 0 <= i < |es| ==> Takes(ms, es, i)
  }

  ghost predicate Takes(ms: seq<Monitor>, es: seq<Event>, i: nat)
    requires i < |es| && |ms| == |es| + 1
  {
    Allowed(ms[i], es[i]) && ms[i + 1] == Step(ms[i], es[i])
  }

  // ---- the invariants ----

  /** First in, first out: what is in the pipe is what was accepted and not yet delivered. */
  ghost predicate Fifo(m: Monitor) {
    m.accepted == m.delivered + m.buf && |m.buf| <= PIPESIZE
  }

  /** Nobody is inside a call on an end that is closed, and sleepers sleep on the right channel. */
  ghost predicate Ends(m: Monitor) {
    forall q :: 0 <= q < |m.procs| ==> EndOk(m, m.procs[q])
  }

  ghost predicate EndOk(m: Monitor, q: Proc) {
    && (Inside(q, true) ==> m.writeopen) && (Inside(q, false) ==> m.readopen)
    && (q.state.Asleep? ==> (q.state.chan == NWrite <==> q.state.call.Write?))
  }

  ghost predicate Sleeps(m: Monitor, c: Chan) {
    exists q :: 0 <= q < |m.procs| && m.procs[q].state.Asleep? && m.procs[q].state.chan == c
  }

  /** No wakeup is missing: who sleeps has a reason to. */
  ghost predicate NoneLost(m: Monitor) {
    && (Sleeps(m, NRead) ==> m.buf == [] && m.writeopen)
    && (Sleeps(m, NWrite) ==> |m.buf| == PIPESIZE && m.readopen)
  }

  // ---- what a write region does ----

  /** The bytes a write region puts in: as many as there are and as fit. */
  function Put(m: Monitor, bytes: seq<Byte>, i: nat): (k: nat)
    requires |m.buf| <= PIPESIZE
  {
    if i >= |bytes| then 0 else if |bytes| - i < PIPESIZE - |m.buf| then |bytes| - i else PIPESIZE - |m.buf|
  }

  /** What a write region does to the bytes ... */
  lemma {:induction false} WriteFills(m: Monitor, p: nat, bytes: seq<Byte>, i: nat)
    requires p < |m.procs| && |m.buf| <= PIPESIZE && i <= |bytes|
    ensures var k, m' := Put(m, bytes, i), WriteRegion(m, p, bytes, i);
            && i + k <= |bytes| && m'.buf == m.buf + bytes[i..i + k] && m'.accepted == m.accepted + bytes[i..i + k]
            && m'.delivered == m.delivered && m'.readopen == m.readopen && m'.writeopen == m.writeopen
            && (i + k < |bytes| ==> |m'.buf| == PIPESIZE)
    decreases |bytes| - i
  {
    hide WakeAll, WithState;
    var k := Put(m, bytes, i);
    if i < |bytes| && |m.buf| < PIPESIZE {
      var m1 := Accept(m, bytes[i]);
      assert WriteRegion(m, p, bytes, i) == WriteRegion(m1, p, bytes, i + 1);
      hide WriteRegion;
      WriteFills(m1, p, bytes, i + 1);
      assert Put(m1, bytes, i + 1) == k - 1;
      OneMore(m.buf, bytes, i, k);
      OneMore(m.accepted, bytes, i, k);
    } else {
      assert k == 0 && bytes[i..i] == [];
    }
  }

  lemma {:induction false} OneMore(s: seq<Byte>, bytes: seq<Byte>, i: nat, k: nat)
    requires 0 < k && i + k <= |bytes|
    ensures s + bytes[i..i + k] == s + [bytes[i]] + bytes[i + 1..i + k]
  {
    assert bytes[i..i + k] == [bytes[i]] + bytes[i + 1..i + k];
  }

  /** ... and to the processes. */
  lemma {:induction false} WriteStops(m: Monitor, p: nat, bytes: seq<Byte>, i: nat)
    requires p < |m.procs| && |m.buf| <= PIPESIZE && i <= |bytes|
    ensures var k := Put(m, bytes, i);
            WriteRegion(m, p, bytes, i).procs == if i + k == |bytes| then WithState(WakeAll(m.procs, NRead), p, Outside)
                                                 else if !m.readopen || m.procs[p].killed
                                                           then WithState(m.procs, p, Outside)
                                                 else WithState(WakeAll(m.procs, NRead), p,
                                                                Asleep(NWrite, Write(bytes, i + k)))
    decreases |bytes| - i
  {
    hide WakeAll, WithState;
    if i < |bytes| && |m.buf| < PIPESIZE {
      WriteStops(Accept(m, bytes[i]), p, bytes, i + 1);
      assert Put(Accept(m, bytes[i]), bytes, i + 1) == Put(m, bytes, i) - 1;
    }
  }

  /** The whole effect of a write region. */
  lemma {:induction false} WriteEffect(m: Monitor, p: nat, bytes: seq<Byte>, i: nat)
    requires p < |m.procs| && |m.buf| <= PIPESIZE && i <= |bytes|
    ensures var k, m' := Put(m, bytes, i), WriteRegion(m, p, bytes, i);
            && i + k <= |bytes| && m'.buf == m.buf + bytes[i..i + k] && m'.accepted == m.accepted + bytes[i..i + k]
            && m'.delivered == m.delivered && m'.readopen == m.readopen && m'.writeopen == m.writeopen
            && (i + k < |bytes| ==> |m'.buf| == PIPESIZE)
            && m'.procs == if i + k == |bytes| then WithState(WakeAll(m.procs, NRead), p, Outside)
                           else if !m.readopen || m.procs[p].killed then WithState(m.procs, p, Outside)
                           else WithState(WakeAll(m.procs, NRead), p, Asleep(NWrite, Write(bytes, i + k)))
  {
    hide WriteRegion, WakeAll, WithState;
    WriteFills(m, p, bytes, i);
    WriteStops(m, p, bytes, i);
  }

  // ---- what the other regions do ----

  /**
   The whole effect of a read region.  On an empty pipe with a writer left it takes nothing, and sleeps
   unless it is killed; otherwise it takes the oldest bytes, as many as there are of the `n` asked for,
   wakes every writer that sleeps, and returns.
   */
  lemma {:induction false} ReadEffect(m: Monitor, p: nat, n: int)
    requires p < |m.procs|
    ensures var m' := ReadRegion(m, p, n);
            && m'.accepted == m.accepted && m'.readopen == m.readopen && m'.writeopen == m.writeopen
            && m.buf == m'.delivered[|m.delivered|..] + m'.buf && m.delivered <= m'.delivered
            && |m'.procs| == |m.procs| && m'.procs[p].killed == m.procs[p].killed
    ensures var m' := ReadRegion(m, p, n);
            m.buf == [] && m.writeopen ==>
              && m'.delivered == m.delivered
              && m'.procs[p].state == (if m.procs[p].killed then Outside else Asleep(NRead, Read(n)))
              && forall q :: 0 <= q < |m.procs| && q != p ==> m'.procs[q] == m.procs[q]
    ensures var m' := ReadRegion(m, p, n);
            m.buf != [] || !m.writeopen ==>
              var k := |m'.delivered| - |m.delivered|;
              && (n <= 0 ==> k == 0) && (n >= 0 ==> k <= n) && (k < n ==> m'.buf == [])
              && m'.procs[p].state == Outside && !Sleeps(m', NWrite)
              && forall q :: 0 <= q < |m.procs| && q != p ==>
                   && m'.procs[q].killed == m.procs[q].killed
                   && (if m.procs[q].state.Asleep? && m.procs[q].state.chan == NWrite
                       then m'.procs[q].state == Ready(m.procs[q].state.call) else m'.procs[q] == m.procs[q])
  {
  }

  /** Closing an end leaves it closed, and nobody asleep on the other; nothing else changes. */
  lemma {:induction false} CloseEffect(m: Monitor, writable: bool)
    ensures var m' := CloseRegion(m, writable);
            && m'.writeopen == (m.writeopen && !writable) && m'.readopen == (m.readopen && writable)
            && m'.buf == m.buf && m'.accepted == m.accepted && m'.delivered == m.delivered
            && !Sleeps(m', if writable then NRead else NWrite) && |m'.procs| == |m.procs|
            && forall q :: 0 <= q < |m.procs| ==>
                 && m'.procs[q].killed == m.procs[q].killed
                 && (m'.procs[q].state == m.procs[q].state ||
                     (m.procs[q].state.Asleep? && m'.procs[q].state == Ready(m.procs[q].state.call)))
  {
  }

  /** The end of the file: with the write end closed a reader of the empty pipe returns without a byte. */
  lemma {:induction false} EndOfFile(m: Monitor, p: nat, n: int)
    requires p < |m.procs| && m.buf == []
    ensures var m' := ReadRegion(CloseRegion(m, true), p, n);
            m'.delivered == m.delivered && m'.procs[p].state == Outside
  {
    CloseEffect(m, true);
    ReadEffect(CloseRegion(m, true), p, n);
  }

  /** And a writer with the read end closed returns with the bytes that still fit. */
  lemma {:induction false} BrokenPipe(m: Monitor, p: nat, bytes: seq<Byte>, i: nat)
    requires p < |m.procs| && |m.buf| <= PIPESIZE && i <= |bytes|
    ensures var m' := WriteRegion(CloseRegion(m, false), p, bytes, i);
            |m'.procs| == |m.procs| && m'.procs[p].state == Outside
  {
    CloseEffect(m, false);
    WriteEffect(CloseRegion(m, false), p, bytes, i);
  }

  /** A killed process is marked and runs again if it slept. */
  lemma {:induction false} KillEffect(m: Monitor, p: nat)
    requires p < |m.procs|
    ensures var m' := KillRegion(m, p);
            && m'.procs[p].killed && !m'.procs[p].state.Asleep? && m' == m.(procs := m.procs[p := m'.procs[p]])
            && (m.procs[p].state.Outside? ==> m'.procs[p].state.Outside?)
            && (!m.procs[p].state.Outside? ==> m'.procs[p].state == Ready(m.procs[p].state.call))
  {
  }

  // ---- FIFO ----

  lemma {:induction false} StepKeepsFifo(m: Monitor, e: Event)
    requires Fifo(m) && Allowed(m, e) && CallsOk(m)
    ensures Fifo(Step(m, e)) && CallsOk(Step(m, e))
  {
    if e.Run? && m.procs[e.p].state.call.Write? {
      WriteKeepsFifo(m, e.p, m.procs[e.p].state.call.bytes, m.procs[e.p].state.call.i);
    } else if e.Run? {
      ReadKeepsFifo(m, e.p, m.procs[e.p].state.call.n);
    } else {
      hide WriteRegion, ReadRegion;
      var m' := Step(m, e);
      assert m'.buf == m.buf && m'.accepted == m.accepted && m'.delivered == m.delivered;
      forall q | 0 <= q < |m'.procs|
        ensures CallOk(m'.procs[q].state)
      {
        assert CallOk(m.procs[q].state);
      }
    }
  }

  lemma {:induction false} WriteKeepsFifo(m: Monitor, p: nat, bytes: seq<Byte>, i: nat)
    requires Fifo(m) && CallsOk(m) && p < |m.procs| && m.procs[p].state == Ready(Write(bytes, i))
    ensures Fifo(WriteRegion(m, p, bytes, i)) && CallsOk(WriteRegion(m, p, bytes, i))
  {
    hide WriteRegion;
    assert CallOk(m.procs[p].state);
    WriteEffect(m, p, bytes, i);
    var m' := WriteRegion(m, p, bytes, i);
    forall q | 0 <= q < |m'.procs|
      ensures CallOk(m'.procs[q].state)
    {
      assert CallOk(m.procs[q].state);
    }
    assert m'.accepted == m'.delivered + m'.buf;
  }

  lemma {:induction false} ReadKeepsFifo(m: Monitor, p: nat, n: int)
    requires Fifo(m) && CallsOk(m) && p < |m.procs|
    ensures Fifo(ReadRegion(m, p, n)) && CallsOk(ReadRegion(m, p, n))
  {
    var m' := ReadRegion(m, p, n);
    forall q | 0 <= q < |m'.procs|
      ensures CallOk(m'.procs[q].state)
    {
      assert CallOk(m.procs[q].state);
    }
    assert m'.accepted == m'.delivered + m'.buf;
  }

  /** A write in progress has not put in more bytes than it has. */
  ghost predicate CallsOk(m: Monitor) {
    forall q :: 0 <= q < |m.procs| ==> CallOk(m.procs[q].state)
  }

  ghost predicate CallOk(s: RunState) {
    !s.Outside? && s.call.Write? ==> s.call.i <= |s.call.bytes|
  }

  /** In every run the bytes read are a prefix of the bytes accepted, and the pipe holds the rest. */
  lemma {:induction false} RunsAreFifo(n: nat, es: seq<Event>, ms: seq<Monitor>, i: nat)
    requires IsRun(n, es, ms) && i < |ms|
    ensures Fifo(ms[i]) && CallsOk(ms[i]) && ms[i].delivered <= ms[i].accepted
    ensures i > 0 ==> ms[i - 1].accepted <= ms[i].accepted && ms[i - 1].delivered <= ms[i].delivered
  {
    if i > 0 {
      RunsAreFifo(n, es, ms, i - 1);
      assert Takes(ms, es, i - 1);
      StepKeepsFifo(ms[i - 1], es[i - 1]);
      StepGrows(ms[i - 1], es[i - 1]);
    }
  }

  /** Nothing accepted or delivered is ever taken back. */
  lemma {:induction false} StepGrows(m: Monitor, e: Event)
    requires Fifo(m) && Allowed(m, e) && CallsOk(m)
    ensures m.accepted <= Step(m, e).accepted && m.delivered <= Step(m, e).delivered
  {
    hide WakeAll;
    match e
    case Run(p) =>
      match m.procs[p].state.call {
        case Write(bytes, i) => WriteEffect(m, p, bytes, i);
        case Read(n) =>
      }
    case _ =>
  }

  // ---- no lost wakeup ----

  /**
   The one step that loses a wakeup: a killed writer fills the empty pipe that a reader sleeps on,
   has bytes left, and returns without waking anybody.
   */
  ghost predicate LosesWakeup(m: Monitor, e: Event) {
    && e.Run? && e.p < |m.procs| && m.procs[e.p].state.Ready? && m.procs[e.p].state.call.Write?
    && m.procs[e.p].killed && Sleeps(m, NRead)
    && |m.procs[e.p].state.call.bytes| - m.procs[e.p].state.call.i > PIPESIZE
  }

  ghost predicate Inv(m: Monitor) {
    Fifo(m) && CallsOk(m) && Ends(m) && NoneLost(m)
  }

  lemma {:induction false} WokenNone(procs: seq<Proc>, p: nat, c: Chan, s: RunState, m: Monitor)
    requires p < |procs| && m.procs == WithState(WakeAll(procs, c), p, s) && !(s.Asleep? && s.chan == c)
    ensures !Sleeps(m, c)
  {
  }

  /** Who sleeps on `c` after process `p` has changed its state and others may have woken up. */
  lemma {:induction false} SleepsKept(m: Monitor, m': Monitor, p: nat, c: Chan)
    requires |m'.procs| == |m.procs| && p < |m.procs|
    requires forall q :: 0 <= q < |m.procs| && q != p ==> m'.procs[q] == m.procs[q] || !m'.procs[q].state.Asleep?
    ensures Sleeps(m', c) ==> Sleeps(m, c) || (m'.procs[p].state.Asleep? && m'.procs[p].state.chan == c)
  {
    if Sleeps(m', c) {
      var q :| 0 <= q < |m'.procs| && m'.procs[q].state.Asleep? && m'.procs[q].state.chan == c;
      assert q == p || m.procs[q] == m'.procs[q];
    }
  }

  /** Exactly when a write region keeps the invariant. */
  lemma {:induction false} WriteKeepsIff(m: Monitor, p: nat)
    requires Inv(m) && Allowed(m, Run(p)) && m.procs[p].state.call.Write?
    ensures NoneLost(Step(m, Run(p))) <==> !LosesWakeup(m, Run(p))
  {
    var bytes, i := m.procs[p].state.call.bytes, m.procs[p].state.call.i;
    var m' := Step(m, Run(p));
    assert CallOk(m.procs[p].state) && EndOk(m, m.procs[p]);
    WriteEffect(m, p, bytes, i);
    hide WriteRegion;
    var k := Put(m, bytes, i);
    SleepsKept(m, m', p, NRead);
    SleepsKept(m, m', p, NWrite);
    if i + k == |bytes| || (m.readopen && !m.procs[p].killed) {
      WokenNone(m.procs, p, NRead, m'.procs[p].state, m');
    } else {
      NoReaders(m);
      assert forall q :: 0 <= q < |m.procs| && q != p ==> m'.procs[q] == m.procs[q];
      SleepsKept(m', m, p, NRead);
    }
  }

  /** With the read end closed nobody sleeps on it. */
  lemma {:induction false} NoReaders(m: Monitor)
    requires Ends(m)
    ensures !m.readopen ==> !Sleeps(m, NRead)
    ensures !m.writeopen ==> !Sleeps(m, NWrite)
  {
    forall q | 0 <= q < |m.procs|
      ensures EndOk(m, m.procs[q])
    {
    }
  }

  lemma {:induction false} ReadKeeps(m: Monitor, p: nat)
    requires Inv(m) && Allowed(m, Run(p)) && m.procs[p].state.call.Read?
    ensures NoneLost(Step(m, Run(p)))
  {
    var n, m' := m.procs[p].state.call.n, Step(m, Run(p));
    SleepsKept(m, m', p, NRead);
    SleepsKept(m, m', p, NWrite);
    if !(m.buf == [] && m.writeopen) {
      WokenNone(m.procs, p, NWrite, Outside, m');
    }
  }

  lemma {:induction false} OtherKeeps(m: Monitor, e: Event)
    requires Inv(m) && Allowed(m, e) && !e.Run?
    ensures NoneLost(Step(m, e))
  {
    var m' := Step(m, e);
    match e
    case Close(w) =>
      assert !Sleeps(m', if w then NRead else NWrite);
      NoReaders(m);
      forall c, q | 0 <= q < |m'.procs| && m'.procs[q].state.Asleep? && m'.procs[q].state.chan == c
        ensures Sleeps(m, c)
      {
        assert m.procs[q] == m'.procs[q];
      }
      forall q | 0 <= q < |m.procs| && m.procs[q].state.Asleep?
        ensures EndOk(m, m.procs[q])
      {
      }
    case StartWrite(p, _) => BothKept(m, m', p);
    case StartRead(p, _) => BothKept(m, m', p);
    case Kill(p) => BothKept(m, m', p);
  }

  lemma {:induction false} BothKept(m: Monitor, m': Monitor, p: nat)
    requires |m'.procs| == |m.procs| && p < |m.procs| && !m'.procs[p].state.Asleep?
    requires forall q :: 0 <= q < |m.procs| && q != p ==> m'.procs[q] == m.procs[q]
    ensures Sleeps(m', NRead) ==> Sleeps(m, NRead)
    ensures Sleeps(m', NWrite) ==> Sleeps(m, NWrite)
  {
    SleepsKept(m, m', p, NRead);
    SleepsKept(m, m', p, NWrite);
  }

  lemma {:induction false} StepKeepsEnds(m: Monitor, e: Event)
    requires Fifo(m) && CallsOk(m) && Ends(m) && Allowed(m, e)
    ensures Ends(Step(m, e))
  {
    var m' := Step(m, e);
    if e.Run? && m.procs[e.p].state.call.Write? {
      WriteEffect(m, e.p, m.procs[e.p].state.call.bytes, m.procs[e.p].state.call.i);
    }
    forall q | 0 <= q < |m'.procs|
      ensures EndOk(m', m'.procs[q])
    {
      assert EndOk(m, m.procs[q]);
    }
  }

  /** A step keeps the invariant exactly if it is not the one that loses a wakeup. */
  lemma {:induction false} StepKeepsInvIff(m: Monitor, e: Event)
    requires Inv(m) && Allowed(m, e)
    ensures Inv(Step(m, e)) <==> !LosesWakeup(m, e)
  {
    hide WriteRegion, ReadRegion, WakeAll;
    StepKeepsFifo(m, e);
    StepKeepsEnds(m, e);
    if !e.Run? {
      OtherKeeps(m, e);
    } else if m.procs[e.p].state.call.Read? {
      ReadKeeps(m, e.p);
    } else {
      WriteKeepsIff(m, e.p);
    }
  }

  /** In a run without kill no wakeup is ever lost. */
  lemma {:induction false} NoKillNoLostWakeup(n: nat, es: seq<Event>, ms: seq<Monitor>, i: nat)
    requires IsRun(n, es, ms) && i < |ms| && forall j :: 0 <= j < |es| ==> !es[j].Kill?
    ensures Inv(ms[i]) && forall q :: 0 <= q < |ms[i].procs| ==> !ms[i].procs[q].killed
  {
    if i > 0 {
      NoKillNoLostWakeup(n, es, ms, i - 1);
      assert Takes(ms, es, i - 1);
      StepKeepsInvIff(ms[i - 1], es[i - 1]);
      NobodyKilled(ms[i - 1], es[i - 1]);
    }
  }

  lemma {:induction false} NobodyKilled(m: Monitor, e: Event)
    requires Fifo(m) && CallsOk(m) && Allowed(m, e) && !e.Kill? && forall q :: 0 <= q < |m.procs| ==> !m.procs[q].killed
    ensures var m' := Step(m, e); |m'.procs| == |m.procs| && forall q :: 0 <= q < |m'.procs| ==> !m'.procs[q].killed
  {
    if e.Run? && m.procs[e.p].state.call.Write? {
      assert CallOk(m.procs[e.p].state);
      WriteEffect(m, e.p, m.procs[e.p].state.call.bytes, m.procs[e.p].state.call.i);
    }
  }

  /** With any kills: nothing is lost up to a state exactly if no step before it was the one that loses a wakeup. */
  lemma {:induction false} NoLostWakeupIff(n: nat, es: seq<Event>, ms: seq<Monitor>, i: nat)
    requires IsRun(n, es, ms) && i < |ms|
    ensures (forall j :: 0 <= j <= i ==> Inv(ms[j])) <==> (forall j :: 0 <= j < i ==> !LosesWakeup(ms[j], es[j]))
  {
    hide Inv, LosesWakeup, Step;
    if i == 0 {
      StartInv(n);
    } else {
      NoLostWakeupIff(n, es, ms, i - 1);
      assert Takes(ms, es, i - 1);
      if Inv(ms[i - 1]) {
        StepKeepsInvIff(ms[i - 1], es[i - 1]);
      }
    }
  }

  lemma {:induction false} StartInv(n: nat)
    ensures Inv(Start(n))
  {
  }

  ghost predicate ShortCall(q: Proc) {
    !q.state.Outside? && q.state.call.Write? ==> |q.state.call.bytes| <= PIPESIZE
  }

  /** No write of more than PIPESIZE bytes is in progress. */
  ghost predicate ShortWrites(m: Monitor) {
    forall q :: 0 <= q < |m.procs| ==> ShortCall(m.procs[q])
  }

  lemma {:induction false} StepKeepsShort(m: Monitor, e: Event)
    requires Fifo(m) && CallsOk(m) && Allowed(m, e) && ShortWrites(m) && (e.StartWrite? ==> |e.bytes| <= PIPESIZE)
    ensures ShortWrites(Step(m, e))
  {
    var m' := Step(m, e);
    if e.Run? && m.procs[e.p].state.call.Write? {
      assert CallOk(m.procs[e.p].state);
      WriteEffect(m, e.p, m.procs[e.p].state.call.bytes, m.procs[e.p].state.call.i);
    }
    forall q | 0 <= q < |m'.procs|
      ensures ShortCall(m'.procs[q])
    {
      assert ShortCall(m.procs[q]);
    }
  }

  /** Writes of at most PIPESIZE bytes lose no wakeup, whoever is killed. */
  lemma {:induction false} ShortWritesLoseNothing(n: nat, es: seq<Event>, ms: seq<Monitor>, i: nat)
    requires IsRun(n, es, ms) && i < |ms|
    requires forall j :: 0 <= j < |es| && es[j].StartWrite? ==> |es[j].bytes| <= PIPESIZE
    ensures Inv(ms[i]) && ShortWrites(ms[i])
  {
    hide Step, Fifo, CallsOk, Ends, NoneLost;
    if i == 0 {
      StartInv(n);
    } else {
      ShortWritesLoseNothing(n, es, ms, i - 1);
      var m, e := ms[i - 1], es[i - 1];
      assert Takes(ms, es, i - 1);
      StepKeepsInvIff(m, e);
      StepKeepsShort(m, e);
      if e.Run? { assert ShortCall(m.procs[e.p]); }
    }
  }

  /** The run in which a kill loses a wakeup: at its end a reader sleeps although the pipe is full. */
  lemma {:induction false} KillLosesWakeup() returns (es: seq<Event>, ms: seq<Monitor>)
    ensures IsRun(2, es, ms)
    ensures var m := ms[|ms| - 1];
            |m.procs| == 2 && m.procs[0].state == Asleep(NRead, Read(1)) &&
            |m.buf| == PIPESIZE && m.writeopen
  {
    var bytes := seq<Byte>(513, _ => 0);
    es := [StartRead(0, 1), Run(0), StartWrite(1, bytes), Kill(1), Run(1)];
    var sleeper := Proc(Asleep(NRead, Read(1)), false);
    var m0 := Start(2);
    var m1 := m0.(procs := [Proc(Ready(Read(1)), false), Proc(Outside, false)]);
    var m2 := m0.(procs := [sleeper, Proc(Outside, false)]);
    var m3 := m0.(procs := [sleeper, Proc(Ready(Write(bytes, 0)), false)]);
    var m4 := m0.(procs := [sleeper, Proc(Ready(Write(bytes, 0)), true)]);
    assert m1 == Step(m0, es[0]) && m2 == Step(m1, es[1]) && m3 == Step(m2, es[2]) && m4 == Step(m3, es[3]);
    WriteEffect(m4, 1, bytes, 0);
    hide WriteRegion;
    var m5 := WriteRegion(m4, 1, bytes, 0);
    assert m5.procs == [sleeper, Proc(Outside, true)];
    ms := [m0, m1, m2, m3, m4, m5];
    forall i | 0 <= i < |es|
      ensures Takes(ms, es, i)
    {
    }
  }
}
