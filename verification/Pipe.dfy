/**
 The ring buffer of pipe.c with its 32-bit counters, and the process table it sleeps in, refining
 the regions of PipeMonitor.  A process's saved place in its system call is part of its entry.
 */
module Pipe {
  import opened Blocks
  import opened PipeMonitor

  /** x + n in 32-bit arithmetic. */
  function Plus(x: Word, n: nat): Word {
    (x + n) % UINT
  }

  /** The number of bytes between the counters, also when the writer's has wrapped around. */
  function Count(nread: Word, nwrite: Word): nat {
    if nwrite >= nread then nwrite - nread else nwrite + UINT - nread
  }

  function Slot(nread: Word, k: nat): nat {
    (nread + k) % PIPESIZE
  }

  /** The bytes in the ring, oldest first. */
  function Buffer(data: seq<Byte>, nread: Word, nwrite: Word): (b: seq<Byte>)
    requires |data| == PIPESIZE
    ensures |b| == Count(nread, nwrite)
  {
    seq<Byte>(Count(nread, nwrite), k requires 0 <= k < Count(nread, nwrite) => data[Slot(nread, k)])
  }

  /** The test for a full pipe, in 32-bit arithmetic. */
  lemma {:induction false} FullTest(nread: Word, nwrite: Word)
    requires Count(nread, nwrite) <= PIPESIZE
    ensures nwrite == Plus(nread, PIPESIZE) <==> Count(nread, nwrite) == PIPESIZE
    ensures nread == nwrite <==> Count(nread, nwrite) == 0
  {
  }

  /** A byte stored at nwrite % PIPESIZE overwrites none that is still to be read. */
  lemma {:induction false} StoreAppends(data: seq<Byte>, nread: Word, nwrite: Word, x: Byte)
    requires |data| == PIPESIZE && Count(nread, nwrite) < PIPESIZE
    ensures Count(nread, Plus(nwrite, 1)) == Count(nread, nwrite) + 1
    ensures Buffer(data[nwrite % PIPESIZE := x], nread, Plus(nwrite, 1)) == Buffer(data, nread, nwrite) + [x]
  {
    var n := Count(nread, nwrite);
    forall k | 0 <= k < n
      ensures Slot(nread, k) != nwrite % PIPESIZE
    {
      assert Slot(nread, k) != Slot(nread, n);
    }
  }

  /** Reading a byte takes the oldest. */
  lemma {:induction false} LoadTakes(data: seq<Byte>, nread: Word, nwrite: Word)
    requires |data| == PIPESIZE && 0 < Count(nread, nwrite) <= PIPESIZE
    ensures Count(Plus(nread, 1), nwrite) == Count(nread, nwrite) - 1
    ensures Buffer(data, nread, nwrite) == [data[nread % PIPESIZE]] + Buffer(data, Plus(nread, 1), nwrite)
  {
    hide Plus, Slot;
    SlotAfter(nread, 0);
    forall k | 0 <= k < Count(nread, nwrite) - 1
      ensures Slot(Plus(nread, 1), k) == Slot(nread, k + 1)
    {
      SlotAfter(nread, k);
    }
  }

  /** The slots of the ring go on where the counter wraps around. */
  lemma {:induction false} SlotAfter(nread: Word, k: nat)
    ensures Slot(Plus(nread, 1), k) == Slot(nread, k + 1) && Slot(nread, 0) == nread % PIPESIZE
    ensures Plus(nread, 1) == if nread + 1 == UINT then 0 else nread + 1
  {
    if nread + 1 == UINT {
      assert (UINT + k) % PIPESIZE == k % PIPESIZE by {
        assert UINT == 0x80_0000 * PIPESIZE;
      }
    }
  }

  class Kernel {
    const data: array<Byte>
    var nread: Word
    var nwrite: Word
    var readopen: bool
    var writeopen: bool
    const procs: array<Proc>
    const pids: seq<int>
    ghost var accepted: seq<Byte>
    ghost var delivered: seq<Byte>

    ghost predicate Valid()
      reads this
    {
      data.Length == PIPESIZE && Count(nread, nwrite) <= PIPESIZE && procs.Length == |pids|
    }

    ghost function Abs(): Monitor
      requires Valid()
      reads this, data, procs
    {
      Monitor(Buffer(data[..], nread, nwrite), readopen, writeopen, procs[..], accepted, delivered)
    }

    /** pipealloc, for a process table with these process ids. */
    constructor (pids: seq<int>)
      ensures Valid() && Abs() == Start(|pids|) && this.pids == pids && fresh(data) && fresh(procs)
    {
      this.pids := pids;
      data := new Byte[PIPESIZE](_ => 0);
      procs := new Proc[|pids|](_ => Proc(Outside, false));
      nread, nwrite := 0, 0;
      readopen, writeopen := true, true;
      accepted, delivered := [], [];
      new;
      assert procs[..] == Start(|pids|).procs;
    }

    /** wakeup1: a pass over the process table. */
    method Wakeup(c: Chan)
      modifies procs
      ensures procs[..] == WakeAll(old(procs[..]), c)
    {
      var p := 0;
      while p < procs.Length
        invariant p <= procs.Length
        invariant forall q :: 0 <= q < procs.Length ==>
                    procs[q] == if q < p then Woken(old(procs[q]), c) else old(procs[q])
      {
        if procs[p].state.Asleep? && procs[p].state.chan == c {
          procs[p] := procs[p].(state := Ready(procs[p].state.call));
        }
        p := p + 1;
      }
    }

    method SetState(p: nat, s: RunState)
      requires p < procs.Length
      modifies procs
      ensures procs[..] == WithState(old(procs[..]), p, s)
    {
      procs[p] := procs[p].(state := s);
    }

    /** pipewrite from byte `start`, with the lock just acquired; `sleeps` tells sleep from return. */
    method Pipewrite(p: nat, addr: seq<Byte>, start: nat) returns (sleeps: bool, r: int, ghost w: nat)
      requires Valid() && p < procs.Length && start <= |addr|
      modifies this`nwrite, this`accepted, data, procs
      ensures Valid() && Abs() == WriteRegion(old(Abs()), p, addr, start)
      ensures sleeps <==> procs[p].state.Asleep?
      ensures start <= w <= |addr| && accepted == old(accepted) + addr[start..w]
      ensures sleeps ==>
                w < |addr| && nwrite == Plus(nread, PIPESIZE) && readopen && !procs[p].killed &&
                procs[p].state.call == Write(addr, w)
      ensures !sleeps ==> r == if w == |addr| then |addr| else -1
      ensures r < 0 && !sleeps ==> nwrite == Plus(nread, PIPESIZE) && (!readopen || procs[p].killed)
    {
      ghost var m0 := Abs();
      var i := start;
      while i < |addr|
        invariant start <= i <= |addr| && Valid() && procs[..] == old(procs[..])
        invariant WriteRegion(Abs(), p, addr, i) == WriteRegion(m0, p, addr, start)
        invariant accepted == old(accepted) + addr[start..i]
      {
        FullTest(nread, nwrite);
        if nwrite == Plus(nread, PIPESIZE) {
          if !readopen || procs[p].killed {
            SetState(p, Outside);
            return false, -1, i;
          }
          Wakeup(NRead);
          SetState(p, Asleep(NWrite, Write(addr, i)));
          return true, 0, i;
        }
        StoreAppends(data[..], nread, nwrite, addr[i]);
        StoreByte(addr[i]);
        i := i + 1;
      }
      Wakeup(NRead);
      SetState(p, Outside);
      return false, |addr|, |addr|;
    }

    /** data[nwrite++ % PIPESIZE] = x */
    method StoreByte(x: Byte)
      requires Valid() && Count(nread, nwrite) < PIPESIZE
      modifies this`nwrite, this`accepted, data
      ensures Valid() && Abs() == Accept(old(Abs()), x)
    {
      StoreAppends(data[..], nread, nwrite, x);
      data[nwrite % PIPESIZE] := x;
      assert data[..] == old(data[..])[nwrite % PIPESIZE := x];
      nwrite := Plus(nwrite, 1);
      accepted := accepted + [x];
    }

    /** piperead, with the lock just acquired: the bytes returned are the oldest in the pipe. */
    method Piperead(p: nat, n: int) returns (sleeps: bool, r: int, addr: seq<Byte>)
      requires Valid() && p < procs.Length
      modifies this`nread, this`delivered, procs
      ensures Valid() && Abs() == ReadRegion(old(Abs()), p, n)
      ensures sleeps <==> procs[p].state.Asleep?
      ensures sleeps <==> old(nread) == nwrite && writeopen && !procs[p].killed
      ensures !sleeps && r >= 0 ==> r == |addr| && delivered == old(delivered) + addr
      ensures !sleeps && r < 0 ==> r == -1 && delivered == old(delivered)
      ensures r < 0 && !sleeps <==> old(nread) == nwrite && writeopen && procs[p].killed
      ensures n >= 0 ==> r <= n
      ensures !sleeps && 0 <= r < n ==> nread == nwrite
      ensures !sleeps && r == 0 && n > 0 ==> old(nread) == nwrite && !writeopen
    {
      ghost var m0 := Abs();
      addr := [];
      FullTest(nread, nwrite);
      if nread == nwrite && writeopen {
        if procs[p].killed {
          SetState(p, Outside);
          return false, -1, addr;
        }
        SetState(p, Asleep(NRead, Read(n)));
        return true, 0, addr;
      }
      var i := 0;
      while i < n
        invariant i == |addr| <= |m0.buf| && (0 <= n ==> i <= n) && (n < 0 ==> i == 0) && Valid()
        invariant addr == m0.buf[..i] && Buffer(data[..], nread, nwrite) == m0.buf[i..]
        invariant procs[..] == old(procs[..]) && delivered == old(delivered)
      {
        FullTest(nread, nwrite);
        if nread == nwrite {
          break;
        }
        LoadTakes(data[..], nread, nwrite);
        addr := addr + [data[nread % PIPESIZE]];
        nread := Plus(nread, 1);
        i := i + 1;
      }
      assert i == Taken(m0, n);
      delivered := delivered + addr;
      Wakeup(NWrite);
      SetState(p, Outside);
      return false, i, addr;
    }

    /** pipeclose; `gone` tells whether the pipe is freed. */
    method Pipeclose(writable: bool) returns (gone: bool)
      requires Valid()
      modifies this`readopen, this`writeopen, procs
      ensures Valid() && Abs() == CloseRegion(old(Abs()), writable)
      ensures writeopen == (old(writeopen) && !writable) && readopen == (old(readopen) && writable)
      ensures gone <==> !readopen && !writeopen
    {
      if writable {
        writeopen := false;
        Wakeup(NRead);
      } else {
        readopen := false;
        Wakeup(NWrite);
      }
      gone := !readopen && !writeopen;
    }

    /** kill: the first process with this id, or -1 if there is none. */
    method Kill(pid: int) returns (r: int)
      requires Valid()
      modifies procs
      ensures Valid() && (r == 0 || r == -1) && (r == 0 <==> pid in pids)
      ensures r == -1 ==> Abs() == old(Abs())
      ensures r == 0 ==>
                exists p: nat :: p < |pids| && pids[p] == pid && pid !in pids[..p] && Abs() == KillRegion(old(Abs()), p)
    {
      var p := 0;
      while p < procs.Length
        invariant p <= procs.Length && pid !in pids[..p] && procs[..] == old(procs[..])
      {
        if pids[p] == pid {
          procs[p] := procs[p].(killed := true);
          if procs[p].state.Asleep? {
            procs[p] := procs[p].(state := Ready(procs[p].state.call));
          }
          assert procs[..] == KillRegion(old(Abs()), p).procs;
          return 0;
        }
        p := p + 1;
      }
      r := -1;
    }
  }
}
