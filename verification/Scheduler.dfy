/** The round-robin scheduler: `kernel/src/task/sched.c`, the task bookkeeping of
    `kernel/src/syscall/fork.c`, and the context load of `kernel/src/task/task.S`.

    The circular list of tasks is given as a sequence that starts with the running task.  What
    a task's address space is does not matter here. */
module Scheduling {
  import opened Bits

  datatype Registers = Registers(
    r15: Word, r14: Word, r13: Word, r12: Word, r11: Word, r10: Word, r9: Word, r8: Word,
    rbp: Word, rdi: Word, rsi: Word, rdx: Word, rcx: Word, rbx: Word, rax: Word)

  // What an interrupt pushes, and what iretq pops.
  datatype Frame = Frame(gprs: Registers, rip: Word, cs: Word, rflags: Word, rsp: Word, ss: Word)

  datatype Task<V> = Task(regs: Registers, rsp: Word, rflags: Word, rip: Word, vmap: V, deadline: Word, id: nat)

  const QUANTUM: nat := 1_000_000   // microseconds

  function SaveContext<V>(t: Task<V>, frame: Frame): Task<V> {
    t.(regs := frame.gprs, rflags := frame.rflags, rip := frame.rip, rsp := frame.rsp)
  }

  function Deadline(now: Word): Word {
    (now + QUANTUM) % 0x1_0000_0000_0000_0000
  }

  // switch_to_task: the user-mode frame that iretq resumes, with the interrupt flag set.
  function Resume<V>(t: Task<V>): Frame {
    Frame(t.regs, t.rip, 0x1b, Or(t.rflags, 0x200) % 0x1_0000_0000_0000_0000, t.rsp, 0x23)
  }

  predicate Expired<V>(ring: seq<Task<V>>, now: Word)
    requires ring != []
  {
    now > ring[0].deadline
  }

  // The ring once the running task is saved and the next one runs.
  function Rotate<V>(ring: seq<Task<V>>, now: Word, frame: Frame): (ring': seq<Task<V>>)
    requires ring != []
    ensures |ring'| == |ring|
  {
    var turned := ring[1..] + [SaveContext(ring[0], frame)];
    turned[0 := turned[0].(deadline := Deadline(now))]
  }

  // sched_tick
  function Tick<V>(ring: seq<Task<V>>, now: Word, frame: Frame): (ring': seq<Task<V>>)
    requires ring != []
    ensures |ring'| == |ring|
  {
    if Expired(ring, now) then Rotate(ring, now, frame) else ring
  }

  // The child of syscall_fork.  Its deadline is whatever the heap block held.
  function Child<V>(frame: Frame, vmap: V, deadline: Word, id: nat): Task<V> {
    Task(frame.gprs.(rax := 0), frame.rsp, frame.rflags, frame.rip, vmap, deadline, id)
  }

  // The child is inserted after the running task.
  function Insert<V>(ring: seq<Task<V>>, child: Task<V>): (ring': seq<Task<V>>)
    requires ring != []
    ensures |ring'| == |ring| + 1
  {
    [ring[0], child] + ring[1..]
  }

  // ----- runs

  datatype Event<V> =
    | TimerTick(now: Word, frame: Frame)
    | ForkCall(frame: Frame, vmap: V, deadline: Word, id: nat)

  function Apply<V>(ring: seq<Task<V>>, ev: Event<V>): (ring': seq<Task<V>>)
    requires ring != []
    ensures ring' != []
  {
    match ev
    case TimerTick(now, frame) => Tick(ring, now, frame)
    case ForkCall(frame, vmap, deadline, id) => Insert(ring, Child(frame, vmap, deadline, id))
  }

  function Run<V>(ring: seq<Task<V>>, evs: seq<Event<V>>): (ring': seq<Task<V>>)
    requires ring != []
    ensures ring' != []
    decreases |evs|
  {
    if evs == [] then ring else Run(Apply(ring, evs[0]), evs[1..])
  }

  predicate Switches<V>(ring: seq<Task<V>>, ev: Event<V>)
    requires ring != []
  {
    ev.TimerTick? && Expired(ring, ev.now)
  }

  function SwitchCount<V>(ring: seq<Task<V>>, evs: seq<Event<V>>): nat
    requires ring != []
    decreases |evs|
  {
    if evs == [] then 0
    else (if Switches(ring, evs[0]) then 1 else 0) + SwitchCount(Apply(ring, evs[0]), evs[1..])
  }

  function ForkCount<V>(evs: seq<Event<V>>): nat {
    if evs == [] then 0 else (if evs[0].ForkCall? then 1 else 0) + ForkCount(evs[1..])
  }

  // Where the task at position d is after one event: a switch brings it one hop nearer, a fork
  // of the running task moves it one hop away.
  function Position<V>(ring: seq<Task<V>>, ev: Event<V>, d: nat): int
    requires ring != []
  {
    if Switches(ring, ev) then d - 1 else if ev.ForkCall? then d + 1 else d
  }

  lemma StepWaiting<V>(ring: seq<Task<V>>, ev: Event<V>, d: nat)
    requires 0 < d < |ring|
    ensures var p := Position(ring, ev, d);
      && 0 <= p < |Apply(ring, ev)|
      && Apply(ring, ev)[p] ==
          if p == 0 then ring[d].(deadline := Deadline(ev.now)) else ring[d]
  {
  }

  // The events do not yet let the task d hops ahead run, except possibly the last one.
  ghost predicate NotRunYet<V>(ring: seq<Task<V>>, evs: seq<Event<V>>, d: nat)
    requires ring != []
  {
    forall k :: 0 <= k < |evs| ==> SwitchCount(ring, evs[..k]) < d + ForkCount(evs[..k])
  }

  // A task d hops ahead stays untouched until it runs, and it runs after exactly d switches and
  // one more for each fork in between.
  lemma {:induction false} ExactWaiting<V>(ring: seq<Task<V>>, evs: seq<Event<V>>, d: nat)
    requires 0 < d < |ring| && NotRunYet(ring, evs, d)
    ensures SwitchCount(ring, evs) <= d + ForkCount(evs)
    ensures var p := d + ForkCount(evs) - SwitchCount(ring, evs);
      && p < |Run(ring, evs)|
      && (p > 0 ==> Run(ring, evs)[p] == ring[d])
      && (p == 0 ==> Run(ring, evs)[0] == ring[d].(deadline := Run(ring, evs)[0].deadline))
    decreases |evs|
  {
    hide Apply, Switches, NotRunYet;
    if evs != [] {
      var ev, rest := evs[0], evs[1..];
      StepWaiting(ring, ev, d);
      SwitchIsNoFork(ring, ev);
      var ring', p := Apply(ring, ev), Position(ring, ev, d);
      if p == 0 {
        RunsAtOnce(ring, evs, d);
      } else {
        NotRunYetAfter(ring, evs, d);
        ExactWaiting(ring', rest, p);
      }
    }
  }

  lemma SwitchIsNoFork<V>(ring: seq<Task<V>>, ev: Event<V>)
    requires ring != []
    ensures Switches(ring, ev) ==> !ev.ForkCall?
  {
  }

  // If the first event lets the task run, there is no other.
  lemma RunsAtOnce<V>(ring: seq<Task<V>>, evs: seq<Event<V>>, d: nat)
    requires ring != [] && evs != [] && NotRunYet(ring, evs, d) && Position(ring, evs[0], d) == 0 && d > 0
    ensures evs == [evs[0]] && evs[1..] == []
  {
    if |evs| > 1 {
      FirstEvent(ring, evs);
    }
  }

  lemma FirstEvent<V>(ring: seq<Task<V>>, evs: seq<Event<V>>)
    requires ring != [] && |evs| > 1
    ensures SwitchCount(ring, evs[..1]) == if Switches(ring, evs[0]) then 1 else 0
    ensures ForkCount(evs[..1]) == if evs[0].ForkCall? then 1 else 0
  {
    hide Apply, Switches;
    assert evs[..1][1..] == [];
  }

  lemma NotRunYetAfter<V>(ring: seq<Task<V>>, evs: seq<Event<V>>, d: nat)
    requires ring != [] && evs != [] && NotRunYet(ring, evs, d) && Position(ring, evs[0], d) > 0
    ensures NotRunYet(Apply(ring, evs[0]), evs[1..], Position(ring, evs[0], d))
  {
    hide Apply, Switches;
    var ring', rest, p := Apply(ring, evs[0]), evs[1..], Position(ring, evs[0], d);
    SwitchIsNoFork(ring, evs[0]);
    forall k | 0 <= k < |rest|
      ensures SwitchCount(ring', rest[..k]) < p + ForkCount(rest[..k])
    {
      assert evs[..k + 1][1..] == rest[..k];
    }
  }

  // ----- context fidelity

  // The user context of an interrupt frame, as iretq restores it.
  function UserFrame(frame: Frame): Frame {
    Frame(frame.gprs, frame.rip, 0x1b, Or(frame.rflags, 0x200) % 0x1_0000_0000_0000_0000, frame.rsp, 0x23)
  }

  // An interrupted task resumes, whenever its turn comes again, with the context it was
  // interrupted in: after |ring| - 1 switches and one more for each fork meanwhile.
  lemma ResumesWhereInterrupted<V>(ring: seq<Task<V>>, now: Word, frame: Frame, evs: seq<Event<V>>)
    requires ring != [] && Expired(ring, now)
    requires NotRunYet(Tick(ring, now, frame), evs, |ring| - 1)
    requires SwitchCount(Tick(ring, now, frame), evs) == |ring| - 1 + ForkCount(evs)
    ensures var resumed := Run(Tick(ring, now, frame), evs)[0];
      Resume(resumed) == UserFrame(frame) && resumed.vmap == ring[0].vmap && resumed.id == ring[0].id
  {
    var ring1 := Tick(ring, now, frame);
    if |ring| == 1 {
      assert evs != [] ==> SwitchCount(ring1, evs[..0]) < 0;
      assert evs == [];
    } else {
      ExactWaiting(ring1, evs, |ring| - 1);
    }
  }

  // A child first runs with the context of its parent's fork call, except that rax is zero.
  lemma ChildStartsAsParent<V>(ring: seq<Task<V>>, frame: Frame, vmap: V, deadline: Word, id: nat, evs: seq<Event<V>>)
    requires ring != []
    requires NotRunYet(Insert(ring, Child(frame, vmap, deadline, id)), evs, 1)
    requires SwitchCount(Insert(ring, Child(frame, vmap, deadline, id)), evs) == 1 + ForkCount(evs)
    ensures var first := Run(Insert(ring, Child(frame, vmap, deadline, id)), evs)[0];
      Resume(first) == UserFrame(frame.(gprs := frame.gprs.(rax := 0))) && first.vmap == vmap && first.id == id
  {
    ExactWaiting(Insert(ring, Child(frame, vmap, deadline, id)), evs, 1);
  }

  // ----- the quantum

  lemma {:induction false} SameTaskUntilSwitch<V>(ring: seq<Task<V>>, evs: seq<Event<V>>)
    requires ring != [] && SwitchCount(ring, evs) == 0
    ensures Run(ring, evs)[0] == ring[0]
    decreases |evs|
  {
    if evs != [] {
      SameTaskUntilSwitch(Apply(ring, evs[0]), evs[1..]);
    }
  }

  // Between two consecutive switches lie more than 1000000 microseconds, exactly unless the clock is so
  // late that the 64-bit deadline wraps around.
  lemma NoEarlySwitch<V>(ring: seq<Task<V>>, t: Word, frame: Frame, evs: seq<Event<V>>, t': Word, frame': Frame)
    requires ring != [] && t > ring[0].deadline && SwitchCount(Tick(ring, t, frame), evs) == 0
    ensures var before := Run(Tick(ring, t, frame), evs);
      Switches(before, TimerTick(t', frame')) <==>
        if t + 1_000_000 < 0x1_0000_0000_0000_0000 then t' > t + 1_000_000
        else t' > t + 1_000_000 - 0x1_0000_0000_0000_0000
  {
    SameTaskUntilSwitch(Tick(ring, t, frame), evs);
  }

  // What iretq restores, field by field: the saved context in user mode, with interrupts enabled.
  lemma ResumeIs<V>(t: Task<V>)
    ensures var f := Resume(t);
      && f.gprs == t.regs && f.rip == t.rip && f.rsp == t.rsp && f.cs == 0x1b && f.ss == 0x23
      && f.rflags == t.rflags + (if t.rflags / 0x200 % 2 == 1 then 0 else 0x200)
  {
    hide Or;
    SetInterruptFlag(t.rflags);
  }
}
