/** VM threads: coroutines on one hardware thread, which one thread-local variable keeps track of. The
    stack switch is an atomic transfer of control. */
module Threads {
  import opened Wrappers

  datatype Status = Stopped | Suspended | Running

  /** `at` is how far the thread's function has come since its entry point. */
  datatype Thread = Thread(status: Status, at: nat)

  datatype System = System(threads: seq<Thread>, current: Option<nat>)

  datatype Step = Step(sys: System, threw: bool)

  predicate Exists(s: System, t: nat) {
    t < |s.threads|
  }

  function SetStatus(s: System, t: nat, status: Status): System
    requires Exists(s, t)
  {
    s.(threads := s.threads[t := s.threads[t].(status := status)])
  }

  /** Start or continue a thread; refused inside any VM thread. A stopped thread gets a fresh stack. */
  function Resume(s: System, t: nat): Step
    requires Exists(s, t)
  {
    if s.current.Some? then Step(s, true)
    else
      var at := if s.threads[t].status == Stopped then 0 else s.threads[t].at;
      Step(System(s.threads[t := Thread(Running, at)], Some(t)), false)
  }

  function Stop(s: System, t: nat): Step
    requires Exists(s, t)
  {
    if s.threads[t].status == Running then Step(s, true) else Step(SetStatus(s, t, Stopped), false)
  }

  /** The running thread gives control back to the host, to be continued. */
  function Yield(s: System): Step
    requires s.current.Some? ==> Exists(s, s.current.value)
  {
    if s.current.None? then Step(s, true)
    else Step(SetStatus(s, s.current.value, Suspended).(current := None), false)
  }

  /** The running thread's function returns. */
  function Finish(s: System): System
    requires s.current.Some? && Exists(s, s.current.value)
  {
    SetStatus(s, s.current.value, Stopped).(current := None)
  }

  /** The running thread's function goes on by itself. */
  function Work(s: System): System
    requires s.current.Some? && Exists(s, s.current.value)
  {
    var t := s.current.value;
    s.(threads := s.threads[t := s.threads[t].(at := s.threads[t].at + 1)])
  }

  /** What anybody may do next, from the host or from inside a running thread. */
  datatype Action = DoResume(t: nat) | DoStop(t: nat) | DoYield | DoFinish | DoWork

  predicate Possible(s: System, a: Action) {
    match a
    case DoResume(t) => Exists(s, t)
    case DoStop(t) => Exists(s, t)
    case DoYield => s.current.Some? ==> Exists(s, s.current.value)
    case DoFinish => s.current.Some? && Exists(s, s.current.value)
    case DoWork => s.current.Some? && Exists(s, s.current.value)
  }

  function Next(s: System, a: Action): System
    requires Possible(s, a)
  {
    match a
    case DoResume(t) => Resume(s, t).sys
    case DoStop(t) => Stop(s, t).sys
    case DoYield => Yield(s).sys
    case DoFinish => Finish(s)
    case DoWork => Work(s)
  }

  /** Runs: actions that are not possible are not taken. */
  function Run(s: System, actions: seq<Action>): System
    decreases |actions|
  {
    if actions == [] then s
    else Run(if Possible(s, actions[0]) then Next(s, actions[0]) else s, actions[1..])
  }

  function Idle(n: nat): System {
    System(seq(n, _ => Thread(Stopped, 0)), None)
  }

  /** The current thread is the running one, and nothing else runs. */
  predicate Consistent(s: System) {
    && (s.current.Some? ==> Exists(s, s.current.value))
    && forall t :: 0 <= t < |s.threads| ==> (s.threads[t].status == Running <==> s.current == Some(t))
  }

  lemma NextConsistent(s: System, a: Action)
    requires Consistent(s) && Possible(s, a)
    ensures Consistent(Next(s, a)) && |Next(s, a).threads| == |s.threads|
  {
  }

  /** In every reachable state thread `t` is current exactly when it runs, so at most one does. */
  lemma {:induction false} AlwaysConsistent(s: System, actions: seq<Action>)
    requires Consistent(s)
    ensures Consistent(Run(s, actions)) && |Run(s, actions).threads| == |s.threads|
    decreases |actions|
  {
    if actions != [] {
      if Possible(s, actions[0]) {
        NextConsistent(s, actions[0]);
      }
      AlwaysConsistent(if Possible(s, actions[0]) then Next(s, actions[0]) else s, actions[1..]);
    }
  }

  /** While a resumed thread has control nobody else gets it; when control comes back to the host, the
      thread is suspended or stopped and none is current. */
  lemma {:induction false} ResumeHandsControlBack(s: System, t: nat, actions: seq<Action>)
    requires Consistent(s) && s.current == Some(t)
    ensures exists k :: 0 <= k <= |actions| && HandedBack(s, t, actions, k)
    decreases |actions|
  {
    if actions == [] {
      assert HandedBack(s, t, actions, 0);
    } else {
      var s' := if Possible(s, actions[0]) then Next(s, actions[0]) else s;
      if Possible(s, actions[0]) {
        NextConsistent(s, actions[0]);
      }
      if s'.current == Some(t) {
        ResumeHandsControlBack(s', t, actions[1..]);
        var k :| 0 <= k <= |actions| - 1 && HandedBack(s', t, actions[1..], k);
        forall j | 1 <= j <= |actions|
          ensures Run(s, actions[..j]) == Run(s', actions[1..][..j - 1])
        {
          assert actions[..j][0] == actions[0] && actions[..j][1..] == actions[1..][..j - 1];
        }
        assert Run(s, actions[..0]) == s;
        assert HandedBack(s, t, actions, k + 1);
      } else {
        assert actions[..1] == [actions[0]] && [actions[0]][1..] == [];
        assert Run(s, actions[..1]) == s' && Run(s, actions[..0]) == s;
        assert HandedBack(s, t, actions, 1);
      }
    }
  }

  /** Thread `t` keeps control for `k` actions, and either the run ends there or it was the last of them
      that gave control back. */
  ghost predicate HandedBack(s: System, t: nat, actions: seq<Action>, k: nat)
    requires k <= |actions|
  {
    && (forall j :: 0 <= j < k ==> Run(s, actions[..j]).current == Some(t))
    && var s' := Run(s, actions[..k]);
       (k == |actions| && s'.current == Some(t)) ||
       (k > 0 && s'.current == None && Exists(s', t) && s'.threads[t].status in {Suspended, Stopped})
  }

  /** Where a thread would go on if it were resumed now. */
  function ResumePoint(s: System, t: nat): nat
    requires Exists(s, t)
  {
    if s.threads[t].status == Stopped then 0 else s.threads[t].at
  }

  lemma ResumeGoesOn(s: System, t: nat)
    requires Exists(s, t) && s.current == None
    ensures var r := Resume(s, t);
      !r.threw && r.sys.current == Some(t) && r.sys.threads[t] == Thread(Running, ResumePoint(s, t))
  {
  }

  /** Thread `t` never gets control during the run. */
  predicate Waits(s: System, t: nat, actions: seq<Action>)
    decreases |actions|
  {
    && s.current != Some(t)
    && (actions == [] || Waits(if Possible(s, actions[0]) then Next(s, actions[0]) else s, t, actions[1..]))
  }

  /** Whatever the others do meanwhile, a waiting thread goes on where it left off, unless it has been
      stopped: then it starts again at its entry point. */
  lemma {:induction false} WaitingKeepsPlace(s: System, t: nat, actions: seq<Action>)
    requires Consistent(s) && Exists(s, t) && Waits(s, t, actions)
    ensures Exists(Run(s, actions), t)
    ensures ResumePoint(Run(s, actions), t) == if DoStop(t) in actions then 0 else ResumePoint(s, t)
    decreases |actions|
  {
    if actions != [] {
      var a := actions[0];
      var s' := if Possible(s, a) then Next(s, a) else s;
      assert s'.current != Some(t);
      if Possible(s, a) {
        NextConsistent(s, a);
      }
      WaitingKeepsPlace(s', t, actions[1..]);
      assert actions == [a] + actions[1..];
    }
  }

  // ---------- the life of one thread ----------

  /** A thread as its owner knows it: at its entry point, waiting to go on, or going on. */
  datatype Life = Fresh | Waiting(at: nat) | Active(at: nat)

  function LifeOf(s: System, t: nat): Life
    requires Exists(s, t)
  {
    match s.threads[t].status
    case Stopped => Fresh
    case Suspended => Waiting(s.threads[t].at)
    case Running => Active(s.threads[t].at)
  }

  /** No thread is going on, so the host is. */
  ghost predicate HostGoesOn(s: System) {
    forall t :: 0 <= t < |s.threads| ==> !LifeOf(s, t).Active?
  }

  /** What an action makes of a thread that it names, or not. */
  function Lived(l: Life, named: bool, hostGoesOn: bool, a: Action): Life {
    match a
    case DoResume(_) =>
      if !named || !hostGoesOn then l else (match l case Fresh => Active(0) case Waiting(p) => Active(p) case _ => l)
    case DoStop(_) => if named && l.Waiting? then Fresh else l
    case DoYield => if l.Active? then Waiting(l.at) else l
    case DoFinish => if l.Active? then Fresh else l
    case DoWork => if l.Active? then Active(l.at + 1) else l
  }

  predicate Named(a: Action, t: nat) {
    (a.DoResume? || a.DoStop?) && a.t == t
  }

  /** Every operation does to every thread what its life allows, and nothing else. */
  lemma NextLived(s: System, a: Action, t: nat)
    requires Consistent(s) && Possible(s, a) && Exists(s, t)
    ensures Exists(Next(s, a), t)
    ensures LifeOf(Next(s, a), t) == Lived(LifeOf(s, t), Named(a, t), HostGoesOn(s), a)
  {
    HostOrThread(s);
    hide HostGoesOn;
  }

  lemma HostOrThread(s: System)
    requires Consistent(s)
    ensures HostGoesOn(s) <==> s.current == None
  {
    if s.current.Some? {
      assert LifeOf(s, s.current.value).Active?;
    }
  }

  /** When the operations throw; they have changed nothing then. */
  lemma ThrowsExactly(s: System, t: nat)
    requires Consistent(s) && Exists(s, t)
    ensures Resume(s, t).threw <==> !HostGoesOn(s)
    ensures Stop(s, t).threw <==> LifeOf(s, t).Active?
    ensures Yield(s).threw <==> HostGoesOn(s)
    ensures Resume(s, t).threw ==> Resume(s, t).sys == s
    ensures Stop(s, t).threw ==> Stop(s, t).sys == s
    ensures Yield(s).threw ==> Yield(s).sys == s
  {
    HostOrThread(s);
    hide HostGoesOn;
  }

  /** A thread that yields and is resumed goes on where it left off, whatever the others have done in between,
      and moves on from there. */
  lemma YieldThenResume(s: System, t: nat, actions: seq<Action>)
    requires Consistent(s) && s.current == Some(t)
    requires Waits(Next(s, DoYield), t, actions) && DoStop(t) !in actions
    requires Run(s, [DoYield] + actions).current == None
    ensures var s' := Run(s, [DoYield] + actions);
      && Exists(s', t) && !Resume(s', t).threw
      && var r := Resume(s', t).sys;
         && r.current == Some(t) && r.threads[t] == Thread(Running, s.threads[t].at)
         && Next(r, DoWork).threads[t] == Thread(Running, s.threads[t].at + 1)
  {
    assert ([DoYield] + actions)[1..] == actions;
    NextConsistent(s, DoYield);
    NextLived(s, DoYield, t);
    WaitingKeepsPlace(Next(s, DoYield), t, actions);
    ResumeGoesOn(Run(s, [DoYield] + actions), t);
  }

  /** The same operations as the source performs them, on fields. */
  class Process {
    var threads: seq<Thread>
    var current: Option<nat>

    function Abs(): System
      reads this
    {
      System(threads, current)
    }

    constructor (n: nat)
      ensures Abs() == Idle(n)
    {
      threads := seq(n, _ => Thread(Stopped, 0));
      current := None;
    }

    method ResumeThread(t: nat) returns (threw: bool)
      requires t < |threads|
      modifies this
      ensures Step(Abs(), threw) == Resume(old(Abs()), t)
    {
      if current != None {
        return true;
      }
      if threads[t].status == Stopped {
        threads := threads[t := threads[t].(at := 0)];
      }
      threads := threads[t := threads[t].(status := Running)];
      current := Some(t);
      return false;
    }

    method StopThread(t: nat) returns (threw: bool)
      requires t < |threads|
      modifies this
      ensures Step(Abs(), threw) == Stop(old(Abs()), t)
    {
      if threads[t].status == Running {
        return true;
      }
      threads := threads[t := threads[t].(status := Stopped)];
      return false;
    }

    method YieldThread() returns (threw: bool)
      requires current.Some? ==> current.value < |threads|
      modifies this
      ensures Step(Abs(), threw) == Yield(old(Abs()))
    {
      if current == None {
        return true;
      }
      threads := threads[current.value := threads[current.value].(status := Suspended)];
      current := None;
      return false;
    }

    /** The end of the start routine, after the thread's function has returned. */
    method FinishThread()
      requires current.Some? && current.value < |threads|
      modifies this
      ensures Abs() == Finish(old(Abs()))
    {
      threads := threads[current.value := threads[current.value].(status := Stopped)];
      current := None;
    }
  }
}
