/** Waiting times and saved contexts in runs of the whole kernel, in which loads, stores and faults
    come between the ticks and the forks. */
module Waiting {
  import opened Bits
  import opened Forking
  import opened Systems
  import S = Scheduling

  // The switches that the processes see.
  function Resumptions(outs: seq<Out>): nat {
    if outs == [] then 0 else (if outs[0].Resumed? then 1 else 0) + Resumptions(outs[1..])
  }

  // The forks before the kernel halts on a fault.
  function ForksDone(evs: seq<Event>, outs: seq<Out>): nat
    requires |outs| == |evs|
  {
    if evs == [] then 0
    else (if evs[0].ForkCall? then 1 else 0) + (if outs[0] == Fault then 0 else ForksDone(evs[1..], outs[1..]))
  }

  // How many hops ahead of the running task the task is that was d hops ahead.
  function Hops(evs: seq<Event>, outs: seq<Out>, d: nat): int
    requires |outs| == |evs|
  {
    d + ForksDone(evs, outs) - Resumptions(outs)
  }

  // Before the last event the task has not run.
  ghost predicate StillWaits(evs: seq<Event>, outs: seq<Out>, d: nat)
    requires |outs| == |evs|
  {
    forall k :: 0 <= k < |evs| ==> Hops(evs[..k], outs[..k], d) > 0
  }

  // Only ticks and forks change the ring, and as the scheduler does.
  lemma StepRing(sys: System, ev: Event)
    requires sys.ring != [] && !sys.halted && Step(sys, ev).Some?
    ensures var (sys1, out) := Step(sys, ev).value;
      && (ev.Tick? ==>
            && sys1.ring == S.Tick(sys.ring, ev.now, ev.frame)
            && (out.Resumed? <==> S.Expired(sys.ring, ev.now))
            && (out.Resumed? ==> out == Resumed(S.Resume(sys1.ring[0]))))
      && (ev.ForkCall? ==> exists vmap: nat ::
            sys1.ring == S.Insert(sys.ring, S.Child(ev.frame, vmap, ev.junk, sys.tid)))
      && (!ev.Tick? && !ev.ForkCall? ==> sys1.ring == sys.ring)
      && (!ev.Tick? ==> !out.Resumed?) && (ev.Tick? || ev.ForkCall? ==> out != Fault)
      && (sys1.halted <==> out == Fault)
  {
    hide Access, ForkSpace, S.Rotate, S.Resume, S.Insert, S.Child;
    if ev.ForkCall? {
      assert Step(sys, ev).value.0.ring ==
        S.Insert(sys.ring, S.Child(ev.frame, ForkSpace(sys.mach, sys.ring[0].vmap).value.0, ev.junk, sys.tid));
    }
  }

  // One event brings the task one hop nearer, one hop away, or leaves it where it is.
  lemma StepHops(sys: System, ev: Event, d: nat)
    requires 0 < d < |sys.ring| && !sys.halted && Step(sys, ev).Some?
    ensures var (sys1, out) := Step(sys, ev).value;
      var p := Hops([ev], [out], d);
      && 0 <= p < |sys1.ring|
      && (p > 0 ==> sys1.ring[p] == sys.ring[d])
      && (p == 0 ==> sys1.ring[0] == sys.ring[d].(deadline := sys1.ring[0].deadline) &&
                     out == Resumed(S.Resume(sys1.ring[0])))
  {
    hide Step, S.Resume;
    StepRing(sys, ev);
    var (sys1, out) := Step(sys, ev).value;
    OneHop(ev, out, d);
    if ev.Tick? {
      S.StepWaiting(sys.ring, S.TimerTick(ev.now, ev.frame), d);
    } else if ev.ForkCall? {
      var vmap: nat :| sys1.ring == S.Insert(sys.ring, S.Child(ev.frame, vmap, ev.junk, sys.tid));
      S.StepWaiting(sys.ring, S.ForkCall(ev.frame, vmap, ev.junk, sys.tid), d);
    }
  }

  lemma OneHop(ev: Event, out: Out, d: nat)
    ensures Hops([ev], [out], d) == d + (if ev.ForkCall? then 1 else 0) - (if out.Resumed? then 1 else 0)
  {
    var evs, outs := [ev], [out];
    assert evs[1..] == [] && outs[1..] == [];
    assert ForksDone(evs, outs) ==
      (if ev.ForkCall? then 1 else 0) + (if out == Fault then 0 else ForksDone(evs[1..], outs[1..]));
    assert Resumptions(outs) == (if out.Resumed? then 1 else 0) + Resumptions(outs[1..]);
  }

  // A halted kernel does nothing more.
  lemma {:induction false} HaltedRun(sys: System, evs: seq<Event>)
    requires sys.ring != [] && sys.halted && Run(sys, evs).Some?
    ensures var (sys', outs) := Run(sys, evs).value;
      sys' == sys && |outs| == |evs| && Resumptions(outs) == 0
    decreases |evs|
  {
    if evs != [] {
      HaltedRun(sys, evs[1..]);
      var rest := Run(sys, evs[1..]).value.1;
      assert ([Silent] + rest)[1..] == rest;
    }
  }

  lemma {:induction false} RunLength(sys: System, evs: seq<Event>)
    requires sys.ring != [] && Run(sys, evs).Some?
    ensures |Run(sys, evs).value.1| == |evs| && Run(sys, evs).value.0.ring != []
    decreases |evs|
  {
    hide Step;
    if evs != [] {
      RunLength(Step(sys, evs[0]).value.0, evs[1..]);
    }
  }

  lemma UnfoldRun(sys: System, evs: seq<Event>)
    requires sys.ring != [] && evs != [] && Run(sys, evs).Some?
    ensures Step(sys, evs[0]).Some? && Step(sys, evs[0]).value.0.ring != []
    ensures var (sys1, out) := Step(sys, evs[0]).value;
      && Run(sys1, evs[1..]).Some?
      && Run(sys, evs).value == (Run(sys1, evs[1..]).value.0, [out] + Run(sys1, evs[1..]).value.1)
  {
    hide Step;
  }

  // The hops of a run add up event by event.
  lemma HopsAdd(ev: Event, out: Out, evs: seq<Event>, outs: seq<Out>, d: nat)
    requires |evs| == |outs| && out != Fault && Hops([ev], [out], d) >= 0
    ensures Hops([ev] + evs, [out] + outs, d) == Hops(evs, outs, Hops([ev], [out], d))
  {
    OneHop(ev, out, d);
    assert ([ev] + evs)[1..] == evs && ([out] + outs)[1..] == outs;
  }

  /** In every run of the kernel, a task d hops ahead keeps its context and its address space until it
      runs, and it runs after exactly d switches and one more for each fork before the kernel halts. */
  lemma {:induction false} WaitingInRuns(sys: System, evs: seq<Event>, d: nat)
    requires 0 < d < |sys.ring| && !sys.halted && Run(sys, evs).Some?
    requires |Run(sys, evs).value.1| == |evs| && StillWaits(evs, Run(sys, evs).value.1, d)
    ensures var (sys', outs) := Run(sys, evs).value;
      var p := Hops(evs, outs, d);
      && 0 <= p < |sys'.ring|
      && (p > 0 ==> sys'.ring[p] == sys.ring[d])
      && (p == 0 ==> sys'.ring[0] == sys.ring[d].(deadline := sys'.ring[0].deadline) &&
                     evs != [] && outs[|outs| - 1] == Resumed(S.Resume(sys'.ring[0])))
    decreases |evs|
  {
    hide Step, S.Resume, Hops;
    if evs == [] {
      NoHops(d);
    } else {
      UnfoldRun(sys, evs);
      StepHops(sys, evs[0], d);
      StepRing(sys, evs[0]);
      var (sys1, out) := Step(sys, evs[0]).value;
      var rest, outs := evs[1..], Run(sys1, evs[1..]).value.1;
      var p := Hops([evs[0]], [out], d);
      RunLength(sys1, rest);
      assert evs == [evs[0]] + rest && [out] + outs == Run(sys, evs).value.1;
      if out == Fault {
        HaltedRun(sys1, rest);
        FaultHops(evs[0], rest, outs, d);
      } else {
        HopsAdd(evs[0], out, rest, outs, d);
        if p == 0 {
          StopsHere(evs, [out] + outs, d);
        } else {
          StillWaitsAfter(evs[0], out, rest, outs, d);
          WaitingInRuns(sys1, rest, p);
        }
      }
    }
  }

  lemma NoHops(d: nat)
    ensures Hops([], [], d) == d
  {
  }

  lemma FaultHops(ev: Event, evs: seq<Event>, outs: seq<Out>, d: nat)
    requires |evs| == |outs| && Resumptions(outs) == 0
    ensures Hops([ev] + evs, [Fault] + outs, d) == Hops([ev], [Fault], d)
  {
    OneHop(ev, Fault, d);
    assert ([ev] + evs)[1..] == evs && ([Fault] + outs)[1..] == outs;
  }

  lemma StopsHere(evs: seq<Event>, outs: seq<Out>, d: nat)
    requires |outs| == |evs| > 0 && StillWaits(evs, outs, d) && Hops([evs[0]], [outs[0]], d) == 0
    ensures |evs| == 1 && evs == [evs[0]] && outs == [outs[0]]
  {
    hide Hops;
    if |evs| > 1 {
      FirstHop(evs, outs, d);
    }
  }

  lemma FirstHop(evs: seq<Event>, outs: seq<Out>, d: nat)
    requires |outs| == |evs| > 1 && StillWaits(evs, outs, d)
    ensures Hops([evs[0]], [outs[0]], d) > 0
  {
    hide Hops;
    assert evs[..1] == [evs[0]] && outs[..1] == [outs[0]];
    assert Hops(evs[..1], outs[..1], d) > 0;
  }

  lemma StillWaitsAfter(ev: Event, out: Out, evs: seq<Event>, outs: seq<Out>, d: nat)
    requires |evs| == |outs| && out != Fault && Hops([ev], [out], d) > 0
    requires StillWaits([ev] + evs, [out] + outs, d)
    ensures StillWaits(evs, outs, Hops([ev], [out], d))
  {
    hide Hops;
    var p := Hops([ev], [out], d);
    forall k | 0 <= k < |evs|
      ensures Hops(evs[..k], outs[..k], p) > 0
    {
      HopsAdd(ev, out, evs[..k], outs[..k], d);
      assert ([ev] + evs)[..k + 1] == [ev] + evs[..k] && ([out] + outs)[..k + 1] == [out] + outs[..k];
      assert Hops(([ev] + evs)[..k + 1], ([out] + outs)[..k + 1], d) > 0;
    }
  }

  /** A task interrupted by a switch resumes, when its turn comes again, with the registers, rip, rsp
      and address space that it was interrupted with, whatever the others did meanwhile. */
  lemma ContextsInRuns(sys: System, now: Word, frame: S.Frame, evs: seq<Event>)
    requires |sys.ring| > 1 && !sys.halted && S.Expired(sys.ring, now)
    requires Step(sys, Tick(now, frame)).Some?
    requires var sys1 := Step(sys, Tick(now, frame)).value.0;
      && sys1.ring != [] && Run(sys1, evs).Some? && |Run(sys1, evs).value.1| == |evs|
      && StillWaits(evs, Run(sys1, evs).value.1, |sys.ring| - 1)
      && Hops(evs, Run(sys1, evs).value.1, |sys.ring| - 1) == 0
    ensures var (sys', outs) := Run(Step(sys, Tick(now, frame)).value.0, evs).value;
      && outs != [] && outs[|outs| - 1] == Resumed(S.UserFrame(frame))
      && sys'.ring != [] && sys'.ring[0].vmap == sys.ring[0].vmap && sys'.ring[0].id == sys.ring[0].id
  {
    hide Step, Hops, StillWaits, Run;
    StepRing(sys, Tick(now, frame));
    WaitingInRuns(Step(sys, Tick(now, frame)).value.0, evs, |sys.ring| - 1);
  }

  /** A child first runs with the context of its parent's fork call, except that rax is zero. */
  lemma ChildrenInRuns(sys: System, frame: S.Frame, junk: Word, evs: seq<Event>)
    requires sys.ring != [] && !sys.halted && Step(sys, ForkCall(frame, junk)).Some?
    requires var sys1 := Step(sys, ForkCall(frame, junk)).value.0;
      && sys1.ring != [] && Run(sys1, evs).Some? && |Run(sys1, evs).value.1| == |evs|
      && StillWaits(evs, Run(sys1, evs).value.1, 1)
      && Hops(evs, Run(sys1, evs).value.1, 1) == 0
    ensures var (sys', outs) := Run(Step(sys, ForkCall(frame, junk)).value.0, evs).value;
      && outs != [] && outs[|outs| - 1] == Resumed(S.UserFrame(frame.(gprs := frame.gprs.(rax := 0))))
      && sys'.ring != [] && sys'.ring[0].id == sys.tid
  {
    hide Step, Hops, StillWaits, Run;
    StepRing(sys, ForkCall(frame, junk));
    WaitingInRuns(Step(sys, ForkCall(frame, junk)).value.0, evs, 1);
  }

  // ----- the quantum

  // Without a switch the running task keeps its deadline.
  lemma {:induction false} FrontStays(sys: System, evs: seq<Event>)
    requires sys.ring != [] && Run(sys, evs).Some? && Resumptions(Run(sys, evs).value.1) == 0
    ensures Run(sys, evs).value.0.ring != [] && Run(sys, evs).value.0.ring[0] == sys.ring[0]
    decreases |evs|
  {
    hide Step, S.Tick, S.Insert, S.Resume;
    if evs != [] {
      UnfoldRun(sys, evs);
      var (sys1, out) := Step(sys, evs[0]).value;
      var rest := Run(sys1, evs[1..]).value.1;
      assert ([out] + rest)[1..] == rest;
      FrontStaysOnce(sys, evs[0]);
      FrontStays(sys1, evs[1..]);
    }
  }

  lemma FrontStaysOnce(sys: System, ev: Event)
    requires sys.ring != [] && Step(sys, ev).Some? && !Step(sys, ev).value.1.Resumed?
    ensures Step(sys, ev).value.0.ring != [] && Step(sys, ev).value.0.ring[0] == sys.ring[0]
  {
    if !sys.halted {
      StepRing(sys, ev);
    }
  }

  /** Between two switches of a run of the kernel the clock advances by more than 1000000 microseconds,
      exactly unless it is so late that the 64-bit deadline wraps around; and after that a tick switches. */
  lemma QuantumInRuns(sys: System, now: Word, frame: S.Frame, evs: seq<Event>, now': Word, frame': S.Frame)
    requires sys.ring != [] && !sys.halted && Step(sys, Tick(now, frame)).Some?
    requires var (sys1, out) := Step(sys, Tick(now, frame)).value;
      out.Resumed? && sys1.ring != [] && Run(sys1, evs).Some? && Resumptions(Run(sys1, evs).value.1) == 0
    requires var sys2 := Run(Step(sys, Tick(now, frame)).value.0, evs).value.0;
      sys2.ring != [] && !sys2.halted && Step(sys2, Tick(now', frame')).Some?
    ensures var sys2 := Run(Step(sys, Tick(now, frame)).value.0, evs).value.0;
      Step(sys2, Tick(now', frame')).value.1.Resumed? <==>
        if now + 1_000_000 < 0x1_0000_0000_0000_0000 then now' > now + 1_000_000
        else now' > now + 1_000_000 - 0x1_0000_0000_0000_0000
  {
    hide Step, Run, S.Resume;
    var sys1 := Step(sys, Tick(now, frame)).value.0;
    StepRing(sys, Tick(now, frame));
    FrontStays(sys1, evs);
    StepRing(Run(sys1, evs).value.0, Tick(now', frame'));
  }

  // ----- task ids

  ghost predicate Distinct(ring: seq<S.Task<nat>>) {
    forall i, j :: 0 <= i < j < |ring| ==> ring[i].id != ring[j].id
  }

  ghost predicate IdsBelow(ring: seq<S.Task<nat>>, n: nat) {
    forall i :: 0 <= i < |ring| ==> ring[i].id < n
  }

  // A tick moves the ids around the ring, a fork adds the next one, which counts in eight bits.
  lemma StepIds(sys: System, ev: Event, n: nat)
    requires sys.ring != [] && !sys.halted && Step(sys, ev).Some?
    ensures var (sys1, out) := Step(sys, ev).value;
      && (sys1.halted <==> out == Fault)
      && if ev.ForkCall? then
        && |sys1.ring| == |sys.ring| + 1 && sys1.tid == (sys.tid + 1) % 256
        && (IdsBelow(sys.ring, n) && sys.tid < n ==> IdsBelow(sys1.ring, n))
        && (Distinct(sys.ring) && IdsBelow(sys.ring, sys.tid) ==>
            Distinct(sys1.ring) && IdsBelow(sys1.ring, sys.tid + 1))
      else
        && |sys1.ring| == |sys.ring| && sys1.tid == sys.tid
        && (IdsBelow(sys.ring, n) ==> IdsBelow(sys1.ring, n))
        && (Distinct(sys.ring) ==> Distinct(sys1.ring))
  {
    hide Step, S.Resume;
    StepRing(sys, ev);
    StepTid(sys, ev);
  }

  lemma StepTid(sys: System, ev: Event)
    requires sys.ring != [] && !sys.halted && Step(sys, ev).Some?
    ensures Step(sys, ev).value.0.tid == if ev.ForkCall? then (sys.tid + 1) % 256 else sys.tid
  {
    hide Access, ForkSpace, S.Tick, S.Resume, S.Insert, S.Child;
  }

  // The forks of a run by its first event.
  lemma ForksAdd(ev: Event, out: Out, evs: seq<Event>, outs: seq<Out>)
    requires |evs| == |outs|
    ensures ForksDone([ev] + evs, [out] + outs) ==
            (if ev.ForkCall? then 1 else 0) + (if out == Fault then 0 else ForksDone(evs, outs))
  {
    assert ([ev] + evs)[1..] == evs && ([out] + outs)[1..] == outs;
  }

  // Every fork before a halt adds one task; the ids count them modulo 256.
  lemma {:induction false} CountsInRuns(sys: System, evs: seq<Event>)
    requires sys.ring != [] && !sys.halted && sys.tid < 256 && IdsBelow(sys.ring, 256) && Run(sys, evs).Some?
    requires |Run(sys, evs).value.1| == |evs|
    ensures var (sys', outs) := Run(sys, evs).value;
      && |sys'.ring| == |sys.ring| + ForksDone(evs, outs) && IdsBelow(sys'.ring, 256)
      && sys'.tid == (sys.tid + ForksDone(evs, outs)) % 256
    decreases |evs|
  {
    hide Step, Run, ForksDone, IdsBelow, Distinct;
    if evs == [] {
      NothingRun(sys);
    } else {
      UnfoldRun(sys, evs);
      StepIds(sys, evs[0], 256);
      var (sys1, out) := Step(sys, evs[0]).value;
      var rest, outs := evs[1..], Run(sys1, evs[1..]).value.1;
      RunLength(sys1, rest);
      ForksAdd(evs[0], out, rest, outs);
      assert evs == [evs[0]] + rest;
      if out == Fault { HaltedRun(sys1, rest); } else { CountsInRuns(sys1, rest); }
    }
  }

  lemma NothingRun(sys: System)
    requires sys.ring != []
    ensures Run(sys, []).Some? && Run(sys, []).value == (sys, []) && ForksDone([], []) == 0
  {
  }

  lemma {:induction false} DistinctInRuns(sys: System, evs: seq<Event>)
    requires sys.ring != [] && !sys.halted && Distinct(sys.ring) && Run(sys, evs).Some?
    requires |Run(sys, evs).value.1| == |evs|
    requires ForksDone(evs, Run(sys, evs).value.1) > 0 ==>
      IdsBelow(sys.ring, sys.tid) && sys.tid + ForksDone(evs, Run(sys, evs).value.1) <= 256
    ensures Distinct(Run(sys, evs).value.0.ring)
    decreases |evs|
  {
    hide Step, Run, ForksDone, IdsBelow, Distinct;
    if evs == [] {
      NothingRun(sys);
    } else {
      UnfoldRun(sys, evs);
      StepIds(sys, evs[0], sys.tid);
      var (sys1, out) := Step(sys, evs[0]).value;
      var rest, outs := evs[1..], Run(sys1, evs[1..]).value.1;
      RunLength(sys1, rest);
      ForksAdd(evs[0], out, rest, outs);
      assert evs == [evs[0]] + rest;
      if out == Fault { HaltedRun(sys1, rest); } else { DistinctInRuns(sys1, rest); }
    }
  }

  // More than n tasks can not have distinct ids below n.
  lemma {:induction false} TooMany(ring: seq<S.Task<nat>>, n: nat)
    requires Distinct(ring) && IdsBelow(ring, n)
    ensures |ring| <= n
    decreases n
  {
    if ring != [] {
      assert ring[0].id < n;
      if k :| 0 <= k < |ring| && ring[k].id == n - 1 {
        var rest := ring[..k] + ring[k + 1..];
        forall i | 0 <= i < |rest| ensures rest[i] == if i < k then ring[i] else ring[i + 1] {
        }
        TooMany(rest, n - 1);
      } else {
        TooMany(ring, n - 1);
      }
    }
  }

  /** As no task ever leaves the ring, the ids of the tasks, which count the forks in eight bits, are
      distinct if and only if there were no more than 256 tasks since the first. */
  lemma IdsAreDistinctIff(sys: System, evs: seq<Event>)
    requires |sys.ring| == 1 && sys.ring[0].id == 0 && sys.tid == 1 && !sys.halted
    requires Run(sys, evs).Some? && |Run(sys, evs).value.1| == |evs|
    ensures var (sys', outs) := Run(sys, evs).value;
      && |sys'.ring| == 1 + ForksDone(evs, outs) && sys'.tid == (1 + ForksDone(evs, outs)) % 256
      && (Distinct(sys'.ring) <==> ForksDone(evs, outs) <= 255)
  {
    hide Step, Run, ForksDone;
    CountsInRuns(sys, evs);
    var (sys', outs) := Run(sys, evs).value;
    if ForksDone(evs, outs) <= 255 { DistinctInRuns(sys, evs); }
    if Distinct(sys'.ring) { TooMany(sys'.ring, 256); }
  }
}
