/** The code of `kernel/src/task/sched.c`, `kernel/src/syscall/fork.c` and the page-fault path of
    `kernel/src/interrupts/interrupts.c`, on tasks that are linked in a circle, proved against
    the steps of `System.dfy`. */
module KernelCode {
  import opened Bits
  import opened Options
  import opened Addresses
  import opened PageTables
  import opened CopyOnWrite
  import opened Forking
  import opened PagingCode
  import opened Systems
  import R = Refinement
  import S = Scheduling
  import Frames

  class Task {
    var regs: S.Registers
    var rsp: Word
    var rflags: Word
    var rip: Word
    var next: Task
    var vmap: Word
    var deadline: Word
    var id: nat

    // A task that forms a circle by itself.
    constructor (regs: S.Registers, rsp: Word, rflags: Word, rip: Word, vmap: Word, deadline: Word, id: nat)
      ensures Snapshot() == S.Task(regs, rsp, rflags, rip, FrameOf(vmap), deadline, id)
      ensures next == this && this.vmap == vmap
    {
      this.regs, this.rsp, this.rflags, this.rip := regs, rsp, rflags, rip;
      this.vmap, this.deadline, this.id := vmap, deadline, id;
      next := this;
    }

    ghost function Snapshot(): S.Task<nat>
      reads this
    {
      S.Task(regs, rsp, rflags, rip, FrameOf(vmap), deadline, id)
    }
  }

  // The next_task pointers form one circle through the tasks of the sequence, in this order.
  ghost predicate Circle(ring: seq<Task>)
    reads ring
  {
    && ring != []
    && (forall i, j :: 0 <= i < j < |ring| ==> ring[i] != ring[j])
    && (forall i :: 0 <= i < |ring| ==> ring[i].next == ring[After(ring, i)])
  }

  // The index of the task after the i-th.
  ghost function After(ring: seq<Task>, i: nat): (j: nat)
    requires i < |ring|
    ensures j < |ring|
  {
    if i + 1 < |ring| then i + 1 else 0
  }

  ghost function Snapshots(ring: seq<Task>): (tasks: seq<S.Task<nat>>)
    reads ring
    ensures |tasks| == |ring|
  {
    seq(|ring|, i requires 0 <= i < |ring| reads ring => ring[i].Snapshot())
  }

  class Kernel {
    const paging: Paging
    var current: Task
    var tidNext: nat
    var halted: bool
    ghost var ring: seq<Task>

    ghost predicate Valid()
      reads this, ring, paging, paging.words, paging.frames, paging.frames.bitmap.buf
    {
      && paging.Valid()
      && Circle(ring) && ring[0] == current
      && forall i :: 0 <= i < |ring| ==> IsFramePtr(ring[i].vmap)
    }

    ghost function View(): System
      reads this, ring, paging, paging.words, paging.frames, paging.frames.bitmap.buf
    {
      System(paging.View(), Snapshots(ring), tidNext, halted)
    }

    // sched_run
    constructor (paging: Paging, initial: Task, now: Word)
      requires paging.Valid() && initial.next == initial && IsFramePtr(initial.vmap)
      modifies initial, paging`cr3, paging`tlb
      ensures Valid() && this.paging == paging && current == initial && ring == [initial]
      ensures initial.Snapshot() ==
        old(initial.Snapshot()).(deadline := (now + 1_000_000) % 0x1_0000_0000_0000_0000)
      ensures tidNext == 1
      ensures paging.View() == old(paging.View()).(cr3 := FrameOf(initial.vmap), tlb := map[])
      ensures !halted
    {
      this.paging, current, tidNext, halted, ring := paging, initial, 1, false, [initial];
      new;
      initial.deadline := S.Deadline(now);
      paging.WriteCr3(initial.vmap);
    }

    // switch_to_task: the frame that iretq pops
    method SwitchTo(task: Task) returns (frame: S.Frame)
      requires IsFramePtr(task.vmap)
      modifies paging`cr3, paging`tlb
      ensures paging.View() == old(paging.View()).(cr3 := FrameOf(task.vmap), tlb := map[])
      ensures frame == S.Resume(task.Snapshot())
    {
      paging.WriteCr3(task.vmap);
      frame := S.Frame(task.regs, task.rip, 0x1b, Or(task.rflags, 0x200) % 0x1_0000_0000_0000_0000, task.rsp, 0x23);
    }

    // The running task is saved, and the next one becomes current with a new deadline.
    method Rotate(now: Word, frame: S.Frame)
      requires Circle(ring) && ring[0] == current
      modifies this`current, this`ring, ring
      ensures Circle(ring) && ring[0] == current && ring == old(ring)[1..] + [old(ring)[0]]
      ensures Snapshots(ring) == S.Rotate(old(Snapshots(ring)), now, frame)
      ensures forall t :: t in ring ==> t.vmap == old(t.vmap)
    {
      CircleTurns(ring);
      assert ring[0].next == ring[After(ring, 0)];
      SaveContext(frame);
      current := current.next;
      current.deadline := S.Deadline(now);
      ring := ring[1..] + [ring[0]];
      assert Snapshots(ring) == S.Rotate(old(Snapshots(ring)), now, frame);
    }

    method SaveContext(frame: S.Frame)
      modifies current`regs, current`rflags, current`rip, current`rsp
      ensures current.Snapshot() == S.SaveContext(old(current.Snapshot()), frame)
    {
      current.regs, current.rflags := frame.gprs, frame.rflags;
      current.rip, current.rsp := frame.rip, frame.rsp;
    }

    // sched_tick
    method Tick(now: Word, frame: S.Frame) returns (out: Out)
      requires Valid() && !halted
      modifies this`current, this`ring, ring, paging`cr3, paging`tlb
      ensures Valid() && Step(old(View()), Event.Tick(now, frame)) == Some((View(), out))
      ensures forall t :: t in ring ==> t in old(ring)
    {
      hide S.Rotate, Frames.Valid, Circle, Step, S.Resume;
      out := Silent;
      CircleNonempty(ring);
      TickIs(View(), now, frame);
      if now > current.deadline {
        Rotate(now, frame);
        CircleNonempty(ring);
        assert forall i :: 0 <= i < |ring| ==> ring[i] in old(ring);
        var resumed := SwitchTo(current);
        out := Resumed(resumed);
      }
    }

    // ----- syscall_fork

    // task_new_tid; the counter has eight bits.
    method NewTid() returns (id: nat)
      modifies this`tidNext
      ensures id == old(tidNext) && tidNext == (id + 1) % 256
    {
      id := tidNext;
      tidNext := (tidNext + 1) % 256;
    }

    method InsertAfterCurrent(child: Task)
      requires Circle(ring) && ring[0] == current && child !in ring
      modifies this`ring, current`next, child`next
      ensures Circle(ring) && ring == [current, child] + old(ring)[1..] && child.Snapshot() == old(child.Snapshot())
      ensures Snapshots(ring) == S.Insert(old(Snapshots(ring)), child.Snapshot())
    {
      assert ring[0].next == ring[After(ring, 0)];
      child.next := current.next;
      current.next := child;
      ring := [current, child] + ring[1..];
      forall i | 0 <= i < |ring|
        ensures ring[i].next == ring[After(ring, i)]
      {
        if i >= 2 {
          assert old(ring[i - 1].next) == old(ring)[After(old(ring), i - 1)];
        }
      }
    }

    // syscall_fork.  The task structure comes from the kernel heap uncleared, so the deadline of
    // the child is arbitrary until it first runs.
    method SyscallFork(frame: S.Frame, junk: Word) returns (rax: Word)
      requires Valid() && !halted && Step(View(), ForkCall(frame, junk)).Some?
      modifies this`ring, this`tidNext, current`next, paging`tlb, paging.words,
        paging.frames`freeMemory, paging.frames`lastFree, paging.frames.bitmap.buf
      ensures Valid() && rax == 2
      ensures Step(old(View()), ForkCall(frame, junk)) == Some((View(), Silent))
      ensures forall t :: t in ring ==> t in old(ring) || fresh(t)
    {
      hide ForkSpace, Circle, Frames.Valid, Step, S.Insert, S.Child, FrameOf, IsFramePtr;
      CircleNonempty(ring);
      ForkIs(View(), frame, junk);
      var vmap := paging.ForkTables(current.vmap);
      var id := NewTid();
      AddChild(frame, vmap, junk, id);
      return 2;
    }

    method AddChild(frame: S.Frame, vmap: Word, junk: Word, id: nat)
      requires Circle(ring) && ring[0] == current
      modifies this`ring, current`next
      ensures Circle(ring) && ring[0] == current
      ensures Snapshots(ring) == S.Insert(old(Snapshots(ring)), S.Child(frame, FrameOf(vmap), junk, id))
      ensures forall t :: t in ring ==> (t in old(ring) && t.vmap == old(t.vmap)) || (fresh(t) && t.vmap == vmap)
    {
      var child := new Task(frame.gprs, frame.rsp, frame.rflags, frame.rip, vmap, junk, id);
      child.regs := child.regs.(rax := 0);
      InsertAfterCurrent(child);
    }

    // ----- page faults

    // exception_handle for a page fault at the address in CR2.  When copy-on-write does not
    // help, the handler prints and halts for good.
    method PageFault(cr2: Word) returns (handled: bool)
      requires Valid() && !halted
      requires cr2 <= 0x7fff_ffff_fff0 ==> Cow(paging.View(), FrameOf(current.vmap), PageOf(cr2)).Some?
      modifies this`halted, paging`tlb, paging.words,
        paging.frames`freeMemory, paging.frames`lastFree, paging.frames.bitmap.buf
      ensures Valid() && halted == !handled && Snapshots(ring) == old(Snapshots(ring))
      ensures if cr2 <= 0x7fff_ffff_fff0
        then Cow(old(paging.View()), FrameOf(current.vmap), PageOf(cr2)) == Some((handled, paging.View()))
        else !handled && paging.View() == old(paging.View())
    {
      hide Cow, Circle, Frames.Valid;
      CircleNonempty(ring);
      handled := false;
      if cr2 <= 0x7fff_ffff_fff0 {
        handled := paging.HandleCow(current.vmap, cr2);
      }
      if !handled {
        halted := true;
      }
    }

    // A user access to a word: the processor faults if it may not be made, and makes it again
    // when the handler returns.
    method UserAccess(v: Page, off: Offset, write: bool) returns (ok: bool)
      requires Valid() && !halted && Access(paging.View(), FrameOf(current.vmap), v, off, write).Some?
      modifies this`halted, paging`tlb, paging.words,
        paging.frames`freeMemory, paging.frames`lastFree, paging.frames.bitmap.buf
      ensures Valid() && halted == !ok && Snapshots(ring) == old(Snapshots(ring))
      ensures Access(old(paging.View()), FrameOf(current.vmap), v, off, write) == Some((ok, paging.View()))
    {
      hide Cow, Circle, Frames.Valid, Allowed, PageOf;
      ok := paging.UserAllowed(v, write);
      if !ok {
        AddressIs(v, off);
        ok := PageFault(AddressOf(v, off));
      }
    }

    method UserLoad(v: Page, off: Offset) returns (out: Out)
      requires Valid() && !halted && Step(View(), Load(v, off)).Some?
      modifies this`halted, paging`tlb, paging.words,
        paging.frames`freeMemory, paging.frames`lastFree, paging.frames.bitmap.buf
      ensures Valid() && Step(old(View()), Load(v, off)) == Some((View(), out))
    {
      hide Access, Circle, Frames.Valid, Translate, Fr;
      CircleNonempty(ring);
      var ok := UserAccess(v, off, false);
      out := Fault;
      if ok {
        var entry := paging.TranslatePage(v);
        out := Value(paging.Physical(Fr(entry), off));
      }
    }

    method UserStore(v: Page, off: Offset, x: Word) returns (out: Out)
      requires Valid() && !halted && Step(View(), Store(v, off, x)).Some?
      modifies this`halted, paging`tlb, paging.words,
        paging.frames`freeMemory, paging.frames`lastFree, paging.frames.bitmap.buf
      ensures Valid() && Step(old(View()), Store(v, off, x)) == Some((View(), out))
    {
      hide Access, Circle, Frames.Valid, Translate, Fr, Put;
      CircleNonempty(ring);
      var ok := UserAccess(v, off, true);
      out := Fault;
      if ok {
        var entry := paging.TranslatePage(v);
        paging.StoreWord(Fr(entry), off, x);
        out := Stored;
      }
    }

    method Cache(v: Page)
      requires Valid() && !halted
      modifies paging`tlb
      ensures Valid() && Step(old(View()), Event.Fill(v)) == Some((View(), Silent))
    {
      hide Circle, Frames.Valid, Get, Present;
      CircleNonempty(ring);
      paging.Fill(v);
    }

    method Uncache(v: Page)
      requires Valid() && !halted
      modifies paging`tlb
      ensures Valid() && Step(old(View()), Event.Evict(v)) == Some((View(), Silent))
    {
      hide Circle, Frames.Valid;
      CircleNonempty(ring);
      paging.Evict(v);
    }

    // ----- the machine at work

    method Serve(ev: Event) returns (out: Out)
      requires Valid() && (View().ring != [] ==> Step(View(), ev).Some?)
      modifies this`current, this`ring, this`tidNext, this`halted, ring, paging`cr3, paging`tlb, paging.words,
        paging.frames`freeMemory, paging.frames`lastFree, paging.frames.bitmap.buf
      ensures Valid() && old(View()).ring != [] && forall t :: t in ring ==> t in old(ring) || fresh(t)
      ensures Step(old(View()), ev) == Some((View(), out))
    {
      hide Step, Circle, Frames.Valid;
      CircleNonempty(ring);
      if halted {
        HaltedStays(View(), ev);
        return Silent;
      }
      match ev
      case Tick(now, frame) => out := Tick(now, frame);
      case ForkCall(frame, junk) => var _ := SyscallFork(frame, junk); out := Silent;
      case Load(v, off) => out := UserLoad(v, off);
      case Store(v, off, x) => out := UserStore(v, off, x);
      case Fill(v) => Cache(v); out := Silent;
      case Evict(v) => Uncache(v); out := Silent;
    }

    // Any sequence of interrupts, system calls and user accesses that the model carries out.
    method Perform(evs: seq<Event>) returns (outs: seq<Out>)
      requires Valid() && View().ring != [] && Run(View(), evs).Some?
      modifies this`current, this`ring, this`tidNext, this`halted, ring, paging`cr3, paging`tlb, paging.words,
        paging.frames`freeMemory, paging.frames`lastFree, paging.frames.bitmap.buf
      ensures Valid() && old(View()).ring != [] && Run(old(View()), evs) == Some((View(), outs))
      decreases |evs|
    {
      hide Step, Circle, Frames.Valid;
      outs := [];
      if evs != [] {
        var out := Serve(evs[0]);
        assert forall i :: 0 <= i < |ring| ==> ring[i] in old(ring) || fresh(ring[i]);
        assert forall i :: 0 <= i < |old(ring)| ==> old(ring)[i] in old(ring);
        outs := Perform(evs[1..]);
        outs := [out] + outs;
      }
    }

    /** Any sequence of events with enough memory.  What the processes see is what they would see on
        the ideal machine, where fork copies memory at once, exactly if every store is seen. */
    method Execute(evs: seq<Event>, ghost roles: seq<Role>) returns (outs: seq<Out>, ghost roles': seq<Role>)
      requires Valid() && Inv(View(), roles) && View().ring != [] && R.Enough(View(), evs)
      modifies this`current, this`ring, this`tidNext, this`halted, ring, paging`cr3, paging`tlb, paging.words,
        paging.frames`freeMemory, paging.frames`lastFree, paging.frames.bitmap.buf
      ensures Valid() && Inv(View(), roles') && old(View()).ring != []
      ensures old(R.AllSeen(View(), evs)) <==> IdealRun(old(Abstract(View())), evs).1 == outs
      ensures old(R.AllSeen(View(), evs)) ==> IdealRun(old(Abstract(View())), evs).0 == Abstract(View())
    {
      hide Run, IdealRun, R.AllSeen, R.Enough, Inv, Abstract;
      ghost var sys', outs';
      sys', outs', roles' := R.RunsAgreeIffStoresAreSeen(View(), roles, evs);
      if R.AllSeen(View(), evs) {
        var _, _, _ := R.CopyOnWriteRefinesCopying(View(), roles, evs);
      }
      outs := Perform(evs);
    }
  }

  // The canonical address of a word.
  function AddressOf(v: Page, off: Offset): Word {
    0x1000 * v + 8 * off + (if v < LOWER then 0 else 0xffff_0000_0000_0000)
  }

  lemma AddressIs(v: Page, off: Offset)
    ensures PageOf(AddressOf(v, off)) == v
    ensures AddressOf(v, off) <= 0x7fff_ffff_fff0 <==> UserPtr(v, off)
  {
  }

  // The same pointers, seen from the next task.
  lemma CircleTurns(ring: seq<Task>)
    requires Circle(ring)
    ensures Circle(ring[1..] + [ring[0]])
  {
    var turned := ring[1..] + [ring[0]];
    forall i | 0 <= i < |turned|
      ensures turned[i].next == turned[After(turned, i)]
    {
      var j := After(ring, i);
      assert turned[i] == ring[j];
      assert ring[j].next == ring[After(ring, j)];
    }
  }

  // A tick of the model, by the clock.
  lemma TickIs(sys: System, now: Word, frame: S.Frame)
    requires sys.ring != [] && !sys.halted
    ensures now <= sys.ring[0].deadline ==> Step(sys, Tick(now, frame)) == Some((sys, Silent))
    ensures now > sys.ring[0].deadline ==>
      var ring := S.Rotate(sys.ring, now, frame);
      Step(sys, Tick(now, frame)) ==
        Some((sys.(ring := ring, mach := sys.mach.(cr3 := ring[0].vmap, tlb := map[])), Resumed(S.Resume(ring[0]))))
  {
  }

  // A fork of the model.
  lemma ForkIs(sys: System, frame: S.Frame, junk: Word)
    requires sys.ring != [] && !sys.halted && Step(sys, ForkCall(frame, junk)).Some?
    ensures ForkSpace(sys.mach, sys.ring[0].vmap).Some?
    ensures var (n, s1) := ForkSpace(sys.mach, sys.ring[0].vmap).value;
      var ring := S.Insert(sys.ring, S.Child(frame, n, junk, sys.tid));
      Step(sys, ForkCall(frame, junk)) ==
        Some((System(s1, ring, (sys.tid + 1) % 256, sys.halted), Silent))
  {
    hide ForkSpace, S.Insert, S.Child;
  }

  lemma HaltedStays(sys: System, ev: Event)
    requires sys.ring != [] && sys.halted
    ensures Step(sys, ev) == Some((sys, Silent))
  {
  }

  lemma CircleNonempty(ring: seq<Task>)
    requires Circle(ring)
    ensures ring != []
  {
  }
}
