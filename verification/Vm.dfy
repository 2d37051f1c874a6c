/** VM instances sharing one hardware thread: each runs the functions it is invoked with, one at a time,
    on its own VM thread. */
module Vm {
  import opened Wrappers
  import T = Threads

  /** Where the VM's thread stands in its start routine. */
  datatype Place =
    | Entry                 // about to take the pending function
    | Holding(fn: nat)      // has taken it, about to yield for the first time
    | Ready(fn: nat)        // first yield done, the call is next
    | Inside(fn: nat)       // in the function

  datatype VM = VM(pending: Option<nat>, place: Place)

  datatype Event = Accepted(fn: nat) | Executed | Started(fn: nat) | Finished(fn: nat) | Cancelled

  datatype LogEntry = LogEntry(vm: nat, event: Event)

  /** Functions are numbered in the order they are handed to an `InvokeDynamic`. */
  datatype World = World(
    sys: T.System,
    vms: seq<VM>,
    next: nat,
    log: seq<LogEntry>,
    aborted: bool)          // the assertion in the start routine has failed

  predicate Exists(w: World, i: nat) {
    i < |w.vms| && i < |w.sys.threads|
  }

  function Status(w: World, i: nat): T.Status
    requires Exists(w, i)
  {
    w.sys.threads[i].status
  }

  function Log(w: World, i: nat, e: Event): World {
    w.(log := w.log + [LogEntry(i, e)])
  }

  datatype Step = Step(w: World, threw: bool)

  /** The function is stored before the thread is resumed, so it stays stored if the resume throws. */
  function Invoke(w: World, i: nat): Step
    requires Exists(w, i)
  {
    if w.vms[i].pending.Some? || Status(w, i) != T.Stopped then Step(w, true)
    else
      var stored := w.(vms := w.vms[i := w.vms[i].(pending := Some(w.next))], next := w.next + 1);
      var r := T.Resume(stored.sys, i);
      if r.threw then Step(stored, true)
      else Step(Log(stored.(sys := r.sys, vms := stored.vms[i := stored.vms[i].(place := Place.Entry)]),
                    i, Accepted(w.next)), false)
  }

  function Execute(w: World, i: nat): Step
    requires Exists(w, i)
  {
    if Status(w, i) != T.Suspended then Step(w, false)
    else
      var r := T.Resume(w.sys, i);
      if r.threw then Step(w, true) else Step(Log(w.(sys := r.sys), i, Executed), false)
  }

  function Cancel(w: World, i: nat): World
    requires Exists(w, i)
  {
    if Status(w, i) != T.Suspended then w
    else Log(w.(sys := T.Stop(w.sys, i).sys), i, Cancelled)
  }

  /** The running start routine takes its next step by itself. */
  function Advance(w: World, i: nat): World
    requires Exists(w, i) && w.sys.current == Some(i)
  {
    var vm := w.vms[i];
    match vm.place
    case Entry =>
      if vm.pending.None? then w.(aborted := true)
      else w.(vms := w.vms[i := VM(None, Holding(vm.pending.value))])
    case Holding(f) => w.(sys := T.Yield(w.sys).sys, vms := w.vms[i := vm.(place := Ready(f))])
    case Ready(f) => Log(w.(vms := w.vms[i := vm.(place := Inside(f))]), i, Started(f))
    case Inside(f) => Log(w.(sys := T.Finish(w.sys)), i, Finished(f))
  }

  /** The API can be used from the host and from inside a function of any VM; `FnYield` is a yield by the
      running function, `Go` a step of the running start routine. */
  datatype Action = DoInvoke(vm: nat) | DoExecute(vm: nat) | DoCancel(vm: nat) | FnYield | Go

  /** Somebody's code is at a point where it may call the API. */
  predicate Free(w: World) {
    w.sys.current.None? ||
    (Exists(w, w.sys.current.value) && w.vms[w.sys.current.value].place.Inside?)
  }

  predicate Possible(w: World, a: Action) {
    match a
    case DoInvoke(i) => Free(w) && Exists(w, i)
    case DoExecute(i) => Free(w) && Exists(w, i)
    case DoCancel(i) => Free(w) && Exists(w, i)
    case FnYield => w.sys.current.Some? && Free(w)
    case Go => w.sys.current.Some? && Exists(w, w.sys.current.value)
  }

  function Next(w: World, a: Action): World
    requires Possible(w, a)
  {
    match a
    case DoInvoke(i) => Invoke(w, i).w
    case DoExecute(i) => Execute(w, i).w
    case DoCancel(i) => Cancel(w, i)
    case FnYield => w.(sys := T.Yield(w.sys).sys)
    case Go => Advance(w, w.sys.current.value)
  }

  function Run(w: World, actions: seq<Action>): World
    decreases |actions|
  {
    if actions == [] then w
    else Run(if Possible(w, actions[0]) then Next(w, actions[0]) else w, actions[1..])
  }

  function Start(n: nat): World {
    World(T.Idle(n), seq(n, _ => VM(None, Place.Entry)), 0, [], false)
  }

  // ---------- the protocol, as a monitor of one VM's events ----------

  datatype Phase =
    | Nothing
    | Pending(fn: nat, executed: bool)
    | Begun(fn: nat)
    | Violation

  /** A function is accepted when nothing else is under way, starts at most once and only after an
      execute, and is over when it finishes or is cancelled. */
  function After(p: Phase, e: Event): Phase {
    match e
    case Accepted(f) => if p.Nothing? then Pending(f, false) else Violation
    case Executed =>
      (match p
       case Pending(f, _) => Pending(f, true)
       case Begun(f) => p
       case _ => Violation)
    case Started(f) => if p == Pending(f, true) then Begun(f) else Violation
    case Finished(f) => if p == Begun(f) then Nothing else Violation
    case Cancelled => if p.Pending? || p.Begun? then Nothing else Violation
  }

  function Monitor(log: seq<LogEntry>, i: nat): Phase {
    if log == [] then Nothing
    else
      var n := |log| - 1;
      var p := Monitor(log[..n], i);
      if log[n].vm == i then After(p, log[n].event) else p
  }

  /** What the VM's state says about the function under way. */
  ghost predicate PhaseOf(vm: VM, status: T.Status, p: Phase) {
    match status
    case Stopped => p == Nothing
    case Suspended =>
      vm.pending.None? &&
      (match vm.place
       case Ready(f) => p == Pending(f, false)
       case Inside(f) => p == Begun(f)
       case _ => false)
    case Running =>
      (match vm.place
       case Entry => vm.pending.Some? && p == Pending(vm.pending.value, false)
       case Holding(f) => vm.pending.None? && p == Pending(f, false)
       case Ready(f) => vm.pending.None? && p == Pending(f, true)
       case Inside(f) => vm.pending.None? && p == Begun(f))
  }

  /** Function numbers are used once. */
  ghost predicate FreshNumbers(w: World) {
    && (forall k :: 0 <= k < |w.log| && w.log[k].event.Accepted? ==> w.log[k].event.fn < w.next)
    && (forall k, l :: 0 <= k < l < |w.log| && w.log[k].event.Accepted? ==> w.log[k].event != w.log[l].event)
  }

  ghost predicate WorldInv(w: World) {
    && T.Consistent(w.sys) && |w.sys.threads| == |w.vms| && !w.aborted
    && FreshNumbers(w)
    && forall i :: 0 <= i < |w.vms| ==> PhaseOf(w.vms[i], Status(w, i), Monitor(w.log, i))
  }

  lemma LogOne(w: World, i: nat, e: Event, j: nat)
    ensures Monitor(Log(w, i, e).log, j) == if i == j then After(Monitor(w.log, i), e) else Monitor(w.log, j)
  {
    assert (w.log + [LogEntry(i, e)])[..|w.log|] == w.log;
  }

  lemma NextKeepsSystem(w: World, a: Action)
    requires WorldInv(w) && Possible(w, a)
    ensures var w' := Next(w, a);
      T.Consistent(w'.sys) && |w'.sys.threads| == |w'.vms| == |w.vms| && !w'.aborted
  {
    if w.sys.current.Some? {
      var i := w.sys.current.value;
      assert PhaseOf(w.vms[i], Status(w, i), Monitor(w.log, i));
    }
    hide FreshNumbers, Monitor;
  }

  lemma NextKeepsNumbers(w: World, a: Action)
    requires WorldInv(w) && Possible(w, a)
    ensures FreshNumbers(Next(w, a))
  {
    hide Monitor, PhaseOf, T.Consistent;
  }

  /** The monitor after a step that may add an event of VM `i` to the log. */
  lemma LogPhase(w: World, w': World, i: nat, e: Event, j: nat)
    requires w'.log == w.log || w'.log == w.log + [LogEntry(i, e)]
    ensures Monitor(w'.log, j) == if w'.log == w.log || i != j then Monitor(w.log, j) else After(Monitor(w.log, i), e)
  {
    LogOne(w, i, e, j);
  }

  lemma CallKeepsPhase(w: World, a: Action, j: nat)
    requires WorldInv(w) && Possible(w, a) && Exists(w, j) && (a.DoInvoke? || a.DoExecute? || a.DoCancel?)
    ensures Exists(Next(w, a), j)
    ensures PhaseOf(Next(w, a).vms[j], Status(Next(w, a), j), Monitor(Next(w, a).log, j))
  {
    var e := match a case DoInvoke(_) => Accepted(w.next) case DoExecute(_) => Executed case _ => Cancelled;
    LogPhase(w, Next(w, a), a.vm, e, j);
    assert PhaseOf(w.vms[j], Status(w, j), Monitor(w.log, j));
    hide FreshNumbers, Monitor;
  }

  lemma RunningKeepsPhase(w: World, a: Action, j: nat)
    requires WorldInv(w) && Possible(w, a) && Exists(w, j) && (a.FnYield? || a.Go?)
    ensures Exists(Next(w, a), j)
    ensures PhaseOf(Next(w, a).vms[j], Status(Next(w, a), j), Monitor(Next(w, a).log, j))
  {
    var i := w.sys.current.value;
    assert PhaseOf(w.vms[i], Status(w, i), Monitor(w.log, i));
    var place := w.vms[i].place;
    var e := if place.Ready? then Started(place.fn) else if place.Inside? then Finished(place.fn) else Executed;
    LogPhase(w, Next(w, a), i, e, j);
    assert PhaseOf(w.vms[j], Status(w, j), Monitor(w.log, j));
    hide FreshNumbers, Monitor;
  }

  /** Every step of the protocol keeps the state and the monitor in step; the assertion never fails. */
  lemma NextKeepsInv(w: World, a: Action)
    requires WorldInv(w) && Possible(w, a)
    ensures WorldInv(Next(w, a)) && |Next(w, a).vms| == |w.vms|
  {
    NextKeepsSystem(w, a);
    NextKeepsNumbers(w, a);
    hide Next, Possible, PhaseOf, Monitor, FreshNumbers, T.Consistent;
    forall j | 0 <= j < |w.vms|
      ensures PhaseOf(Next(w, a).vms[j], Status(Next(w, a), j), Monitor(Next(w, a).log, j))
    {
      if a.FnYield? || a.Go? {
        RunningKeepsPhase(w, a, j);
      } else {
        CallKeepsPhase(w, a, j);
      }
    }
  }

  lemma {:induction false} RunKeepsInv(w: World, actions: seq<Action>)
    requires WorldInv(w)
    ensures WorldInv(Run(w, actions)) && |Run(w, actions).vms| == |w.vms|
    decreases |actions|
  {
    if actions != [] {
      hide WorldInv, Next, Possible;
      if Possible(w, actions[0]) {
        NextKeepsInv(w, actions[0]);
      }
      RunKeepsInv(if Possible(w, actions[0]) then Next(w, actions[0]) else w, actions[1..]);
    }
  }

  // ---------- the protocol, event by event ----------

  /** VM `i` does `e` at position `k`. */
  predicate At(log: seq<LogEntry>, i: nat, k: int, e: Event) {
    0 <= k < |log| && log[k] == LogEntry(i, e)
  }

  /** VM `i` accepts, starts, finishes or cancels nothing strictly between `j` and `k`. */
  ghost predicate Quiet(log: seq<LogEntry>, i: nat, j: int, k: int) {
    forall l :: 0 <= l < |log| && j < l < k && log[l].vm == i ==> log[l].event == Executed
  }

  /** VM `i` accepts `f` at `j`, is told to execute it at `h`, and does nothing else before `k`. */
  ghost predicate Asked(log: seq<LogEntry>, i: nat, f: nat, j: int, h: int, k: int) {
    At(log, i, j, Accepted(f)) && j < h < k && At(log, i, h, Executed) && Quiet(log, i, j, k)
  }

  predicate Ends(e: Event) {
    e.Finished? || e.Cancelled?
  }

  /** What the monitor remembers of the past. */
  lemma {:induction false} MonitorRemembers(log: seq<LogEntry>, i: nat) returns (j: int, h: int)
    ensures var p := Monitor(log, i);
      && (p.Pending? ==> At(log, i, j, Accepted(p.fn)) && Quiet(log, i, j, |log|))
      && (p.Pending? && p.executed ==> Asked(log, i, p.fn, j, h, |log|))
    decreases |log|
  {
    j, h := 0, 0;
    if log != [] {
      var n := |log| - 1;
      j, h := MonitorRemembers(log[..n], i);
      if log[n].vm == i {
        if log[n].event.Accepted? {
          j := n;
        } else if log[n].event.Executed? {
          h := n;
        }
      }
    }
  }

  /** The monitor never forgives, so it has objected to nothing before. */
  lemma {:induction false} NeverObjected(log: seq<LogEntry>, i: nat, k: nat)
    requires Monitor(log, i) != Violation && k <= |log|
    ensures Monitor(log[..k], i) != Violation
    decreases |log| - k
  {
    if k == |log| {
      assert log[..k] == log;
    } else {
      NeverObjected(log, i, k + 1);
      assert log[..k + 1][..k] == log[..k];
    }
  }

  /** A monitor at rest has seen the end of everything accepted before. */
  lemma {:induction false} RestAfterEnd(log: seq<LogEntry>, i: nat, j: int) returns (l: int)
    requires Monitor(log, i) == Nothing && 0 <= j < |log| && log[j].vm == i && log[j].event.Accepted?
    ensures j < l < |log| && log[l].vm == i && Ends(log[l].event)
    decreases |log|
  {
    var n := |log| - 1;
    if log[n].vm == i {
      l := n;
    } else {
      l := RestAfterEnd(log[..n], i, j);
    }
  }

  lemma {:induction false} SomethingEnded(log: seq<LogEntry>, i: nat, j: int, k: int) returns (l: int)
    requires Monitor(log, i) != Violation
    requires 0 <= j < k < |log| && log[j].vm == log[k].vm == i && log[j].event.Accepted? && log[k].event.Accepted?
    ensures j < l < k && log[l].vm == i && Ends(log[l].event)
  {
    NeverObjected(log, i, k + 1);
    assert log[..k + 1][..k] == log[..k];
    l := RestAfterEnd(log[..k], i, j);
  }

  lemma StartedWasAsked(log: seq<LogEntry>, i: nat, f: nat, k: int) returns (j: int, h: int)
    requires Monitor(log, i) != Violation && At(log, i, k, Started(f))
    ensures Asked(log, i, f, j, h, k)
  {
    NeverObjected(log, i, k + 1);
    assert log[..k + 1][..k] == log[..k];
    j, h := MonitorRemembers(log[..k], i);
  }

  /** Over every interleaving of invocations, executions, cancellations and yields on any number of VMs,
      from the host or from inside functions: the assertion never fails; a function starts only after its
      invocation and an execute, with no cancel in between; it starts once; and a VM accepts a second
      function only after the end of the first. */
  lemma ProtocolHolds(n: nat, actions: seq<Action>)
    ensures var w := Run(Start(n), actions);
      && !w.aborted
      && (forall i: nat, f: nat, k :: i < n && At(w.log, i, k, Started(f)) ==> exists j, h :: Asked(w.log, i, f, j, h, k))
      && (forall i: nat, i': nat, f: nat, k, l ::
            i < n && i' < n && At(w.log, i, k, Started(f)) && At(w.log, i', l, Started(f)) ==>
            i == i' && k == l)
      && (forall i: nat, f: nat, g: nat, j, k ::
            i < n && j < k && At(w.log, i, j, Accepted(f)) && At(w.log, i, k, Accepted(g)) ==>
            exists l :: j < l < k && w.log[l].vm == i && Ends(w.log[l].event))
  {
    var w := Run(Start(n), actions);
    RunKeepsInv(Start(n), actions);
    assert FreshNumbers(w);
    forall i | 0 <= i < n
      ensures Monitor(w.log, i) != Violation
    {
      assert PhaseOf(w.vms[i], Status(w, i), Monitor(w.log, i));
    }
    hide WorldInv, Run, PhaseOf, Monitor, Asked;
    forall i: nat, f: nat, k | i < n && At(w.log, i, k, Started(f))
      ensures exists j, h :: Asked(w.log, i, f, j, h, k)
    {
      var j, h := StartedWasAsked(w.log, i, f, k);
    }
    forall i: nat, i': nat, f: nat, k, l | i < n && i' < n && At(w.log, i, k, Started(f)) && At(w.log, i', l, Started(f))
      ensures i == i' && k == l
    {
      StartsOnce(w, i, i', f, k, l);
    }
    forall i: nat, f: nat, g: nat, j, k | i < n && j < k && At(w.log, i, j, Accepted(f)) && At(w.log, i, k, Accepted(g))
      ensures exists l :: j < l < k && w.log[l].vm == i && Ends(w.log[l].event)
    {
      var l := SomethingEnded(w.log, i, j, k);
    }
  }

  /** Two starts would need the same acceptance, and the first start would lie between it and the second. */
  lemma StartsOnce(w: World, i: nat, i': nat, f: nat, k: int, l: int)
    requires FreshNumbers(w) && Monitor(w.log, i) != Violation && Monitor(w.log, i') != Violation
    requires At(w.log, i, k, Started(f)) && At(w.log, i', l, Started(f))
    ensures i == i' && k == l
  {
    var j, h := StartedWasAsked(w.log, i, f, k);
    var j', h' := StartedWasAsked(w.log, i', f, l);
    hide Monitor;
    assert w.log[j].event == w.log[j'].event;
  }

  // ---------- what callers see ----------

  /** `IsDone` is true exactly when nothing the VM has accepted is still under way. */
  lemma DoneExactly(w: World, i: nat)
    requires WorldInv(w) && Exists(w, i)
    ensures Status(w, i) == T.Stopped <==> Monitor(w.log, i) == Nothing
  {
    assert PhaseOf(w.vms[i], Status(w, i), Monitor(w.log, i));
  }

  /** From the host, an idle VM takes the function up and hands control straight back with the function
      ready but not begun; the next execute begins it. */
  lemma InvokeThenExecute(w: World, i: nat)
    requires WorldInv(w) && Exists(w, i)
    requires w.sys.current == None && Status(w, i) == T.Stopped && w.vms[i].pending == None
    ensures var w1 := Run(w, [DoInvoke(i), Go, Go]);
      && w1.sys.current == None && Exists(w1, i) && Status(w1, i) == T.Suspended
      && w1.log == w.log + [LogEntry(i, Accepted(w.next))]
    ensures var w2 := Run(w, [DoInvoke(i), Go, Go, DoExecute(i), Go]);
      && w2.sys.current == Some(i) && Exists(w2, i) && w2.vms[i] == VM(None, Inside(w.next))
      && w2.log == w.log + [LogEntry(i, Accepted(w.next)), LogEntry(i, Executed), LogEntry(i, Started(w.next))]
  {
    var a := Next(w, DoInvoke(i));
    var b := Next(a, Go);
    var c := Next(b, Go);
    var d := Next(c, DoExecute(i));
    var e := Next(d, Go);
    RunCons(w, DoInvoke(i), [Go, Go]);
    RunCons(a, Go, [Go]);
    RunCons(b, Go, []);
    RunCons(w, DoInvoke(i), [Go, Go, DoExecute(i), Go]);
    RunCons(a, Go, [Go, DoExecute(i), Go]);
    RunCons(b, Go, [DoExecute(i), Go]);
    RunCons(c, DoExecute(i), [Go]);
    RunCons(d, Go, []);
  }

  lemma RunCons(w: World, a: Action, actions: seq<Action>)
    requires Possible(w, a)
    ensures Run(w, [a] + actions) == Run(Next(w, a), actions)
  {
    assert ([a] + actions)[1..] == actions;
  }

  /** When an invocation throws: inside any function, while something is under way, and when the VM is wedged.
      A VM that is not idle is left as it was; an idle one is left wedged. */
  lemma InvokeExactly(w: World, i: nat)
    requires WorldInv(w) && Exists(w, i)
    ensures var r, idle := Invoke(w, i), Monitor(w.log, i) == Nothing && !Wedged(w, i);
      && (r.threw <==> w.sys.current.Some? || !idle)
      && (!idle ==> r.w == w)
      && (idle && r.threw ==> r.w.sys == w.sys && r.w.log == w.log && Wedged(r.w, i))
      && (!r.threw ==> r.w.sys.current == Some(i) && r.w.log == w.log + [LogEntry(i, Accepted(w.next))]
                       && Monitor(r.w.log, i) == Pending(w.next, false))
      && (forall j :: 0 <= j < |w.vms| && j != i ==> r.w.vms[j] == w.vms[j] && Status(r.w, j) == Status(w, j))
  {
    assert PhaseOf(w.vms[i], Status(w, i), Monitor(w.log, i));
    LogOne(w, i, Accepted(w.next), i);
    hide Monitor, FreshNumbers;
  }

  /** From the host an execute continues whatever is under way, at the place it has come to, however often it
      has yielded; it does nothing when nothing is, or from the function itself, and throws inside another's. */
  lemma ExecuteExactly(w: World, i: nat)
    requires WorldInv(w) && Exists(w, i)
    ensures var r, busy := Execute(w, i), Monitor(w.log, i) != Nothing;
      && (r.threw <==> busy && w.sys.current.Some? && w.sys.current != Some(i))
      && (w.sys.current.Some? || !busy ==> r.w == w)
      && (w.sys.current.None? && busy ==>
            && r.w == w.(sys := r.w.sys, log := w.log + [LogEntry(i, Executed)])
            && r.w.sys == T.System(w.sys.threads[i := T.Thread(T.Running, w.sys.threads[i].at)], Some(i)))
  {
    assert PhaseOf(w.vms[i], Status(w, i), Monitor(w.log, i));
    hide Monitor, FreshNumbers;
  }

  /** A cancel ends whatever is under way unless it is running, and touches nothing else. */
  lemma CancelExactly(w: World, i: nat)
    requires WorldInv(w) && Exists(w, i)
    ensures var w' := Cancel(w, i);
      && (Monitor(w.log, i) == Nothing || w.sys.current == Some(i) ==> w' == w)
      && (Monitor(w.log, i) != Nothing && w.sys.current != Some(i) ==>
            && w'.log == w.log + [LogEntry(i, Cancelled)] && Monitor(w'.log, i) == Nothing
            && w' == w.(sys := w'.sys, log := w'.log) && w'.sys.current == w.sys.current
            && forall j :: 0 <= j < |w.vms| && j != i ==> Status(w', j) == Status(w, j))
  {
    assert PhaseOf(w.vms[i], Status(w, i), Monitor(w.log, i));
    LogOne(w, i, Cancelled, i);
    hide Monitor, FreshNumbers;
  }

  /** A running function that yields gives control back to the host and is still under way; when it returns
      instead, its VM is done. */
  lemma YieldOrReturn(w: World, i: nat, f: nat)
    requires WorldInv(w) && w.sys.current == Some(i) && Exists(w, i) && Monitor(w.log, i) == Begun(f)
    ensures Possible(w, FnYield) && Possible(w, Go)
    ensures var y := Next(w, FnYield);
      && y.sys.current == None && y.log == w.log && y.vms == w.vms && Exists(y, i)
      && y.sys.threads[i] == T.Thread(T.Suspended, w.sys.threads[i].at)
    ensures var d := Next(w, Go);
      && d.sys.current == None && d.log == w.log + [LogEntry(i, Finished(f))] && Monitor(d.log, i) == Nothing
  {
    assert PhaseOf(w.vms[i], Status(w, i), Monitor(w.log, i));
    LogOne(w, i, Finished(f), i);
    hide Monitor, FreshNumbers;
  }

  /** `n` times an execute that ends with a yield. */
  function Turns(i: nat, n: nat): seq<Action> {
    if n == 0 then [] else [DoExecute(i)] + ([FnYield] + Turns(i, n - 1))
  }

  lemma OneTurn(w: World, i: nat, f: nat)
    requires WorldInv(w) && Exists(w, i) && w.sys.current == None && Monitor(w.log, i) == Begun(f)
    ensures Possible(w, DoExecute(i)) && Possible(Next(w, DoExecute(i)), FnYield)
    ensures Possible(Next(w, DoExecute(i)), Go)
    ensures var y := Next(Next(w, DoExecute(i)), FnYield);
      && WorldInv(y) && Exists(y, i) && y.sys.current == None && Monitor(y.log, i) == Begun(f)
      && y.sys.threads[i] == w.sys.threads[i]
    ensures var d := Next(Next(w, DoExecute(i)), Go);
      d.sys.current == None && Monitor(d.log, i) == Nothing && d.log[|d.log| - 1] == LogEntry(i, Finished(f))
  {
    ExecuteExactly(w, i);
    LogOne(w, i, Executed, i);
    NextKeepsInv(w, DoExecute(i));
    var e := Next(w, DoExecute(i));
    assert PhaseOf(w.vms[i], Status(w, i), Monitor(w.log, i));
    YieldOrReturn(e, i, f);
    NextKeepsInv(e, FnYield);
    hide Monitor, FreshNumbers, Execute, Advance;
  }

  /** A function that has begun reaches its end by executes, after any number of yields, and its thread keeps its
      place over each of them. */
  lemma {:induction false} BegunReachesEnd(w: World, i: nat, f: nat, n: nat)
    requires WorldInv(w) && Exists(w, i) && w.sys.current == None && Monitor(w.log, i) == Begun(f)
    ensures var w' := Run(w, Turns(i, n));
      && w'.sys.current == None && Exists(w', i) && Monitor(w'.log, i) == Begun(f)
      && w'.sys.threads[i] == w.sys.threads[i]
    ensures var d := Run(w, Turns(i, n) + [DoExecute(i), Go]);
      && d.sys.current == None && Monitor(d.log, i) == Nothing
      && d.log != [] && d.log[|d.log| - 1] == LogEntry(i, Finished(f))
    decreases n
  {
    OneTurn(w, i, f);
    var e := Next(w, DoExecute(i));
    hide WorldInv, Next, Possible, Monitor;
    if n == 0 {
      assert [DoExecute(i), Go] == [DoExecute(i)] + [Go] && [Go] == [Go] + [];
      RunCons(w, DoExecute(i), [Go]);
      RunCons(e, Go, []);
      assert [] + [DoExecute(i), Go] == [DoExecute(i), Go];
    } else {
      var y, last := Next(e, FnYield), [DoExecute(i), Go];
      BegunReachesEnd(y, i, f, n - 1);
      RunCons(w, DoExecute(i), [FnYield] + Turns(i, n - 1));
      RunCons(e, FnYield, Turns(i, n - 1));
      assert Turns(i, n) + last == [DoExecute(i)] + ([FnYield] + (Turns(i, n - 1) + last));
      RunCons(w, DoExecute(i), [FnYield] + (Turns(i, n - 1) + last));
      RunCons(e, FnYield, Turns(i, n - 1) + last);
    }
  }

  /** A cancelled VM can be invoked again from the host, however far its function had come, unless it is
      wedged. */
  lemma CancelFrees(w: World, i: nat)
    requires WorldInv(w) && Exists(w, i) && w.sys.current == None
    ensures Invoke(Cancel(w, i), i).threw <==> Wedged(w, i)
  {
    assert PhaseOf(w.vms[i], Status(w, i), Monitor(w.log, i));
  }

  /** Idle, but with a stored function that nothing will ever take up. */
  predicate Wedged(w: World, i: nat) {
    Exists(w, i) && Status(w, i) == T.Stopped && w.vms[i].pending.Some?
  }

  /** The stored function is not taken back when the resume throws. So an idle VM is wedged exactly by an
      invocation from inside another VM's function, and a wedged VM stays so. */
  lemma WedgedExactly(w: World, a: Action, i: nat)
    requires WorldInv(w) && Possible(w, a) && Exists(w, i)
    ensures Exists(Next(w, a), i)
    ensures Wedged(Next(w, a), i) <==>
      Wedged(w, i) || (a == DoInvoke(i) && w.sys.current.Some? && Monitor(w.log, i) == Nothing)
  {
    assert PhaseOf(w.vms[i], Status(w, i), Monitor(w.log, i));
  }

  /** With two VMs it takes one call: the function of the first invokes the second, which nobody has used,
      and from then on nobody can. */
  lemma WedgeReached()
    ensures Wedged(Run(Start(2), [DoInvoke(0), Go, Go, DoExecute(0), Go, DoInvoke(1)]), 1)
  {
    hide *;
    var w, before := Start(2), [DoInvoke(0), Go, Go, DoExecute(0), Go];
    StartReady(2);
    InvokeThenExecute(w, 0);
    RunKeepsInv(w, before);
    RunSnoc(w, before, DoInvoke(1));
    assert before + [DoInvoke(1)] == [DoInvoke(0), Go, Go, DoExecute(0), Go, DoInvoke(1)];
    var w' := Run(w, before);
    assert [] + [LogEntry(0, Accepted(w.next)), LogEntry(0, Executed), LogEntry(0, Started(w.next))]
        == [LogEntry(0, Accepted(w.next)), LogEntry(0, Executed), LogEntry(0, Started(w.next))];
    OthersQuiet(w'.log, 1);
    CanInvoke(w', 0, 1);
    WedgedExactly(w', DoInvoke(1), 1);
  }

  lemma StartReady(n: nat)
    ensures WorldInv(Start(n)) && |Start(n).vms| == n && Start(n).log == [] && Start(n).sys.current == None
    ensures forall i :: 0 <= i < n ==>
      Exists(Start(n), i) && Status(Start(n), i) == T.Stopped && Start(n).vms[i].pending == None
  {
  }

  /** A function that has begun may invoke any VM. */
  lemma CanInvoke(w: World, i: nat, j: nat)
    requires WorldInv(w) && w.sys.current == Some(i) && Exists(w, i) && w.vms[i].place.Inside? && j < |w.vms|
    ensures Possible(w, DoInvoke(j)) && Exists(w, j)
  {
  }

  lemma {:induction false} OthersQuiet(log: seq<LogEntry>, i: nat)
    requires forall k :: 0 <= k < |log| ==> log[k].vm != i
    ensures Monitor(log, i) == Nothing
    decreases |log|
  {
    if log != [] {
      OthersQuiet(log[..|log| - 1], i);
    }
  }

  lemma {:induction false} RunSnoc(w: World, actions: seq<Action>, a: Action)
    ensures var w' := Run(w, actions);
      Run(w, actions + [a]) == if Possible(w', a) then Next(w', a) else w'
    decreases |actions|
  {
    hide Possible, Next;
    if actions == [] {
      assert actions + [a] == [a] && [a][1..] == [];
    } else {
      assert (actions + [a])[1..] == actions[1..] + [a];
      RunSnoc(if Possible(w, actions[0]) then Next(w, actions[0]) else w, actions[1..], a);
    }
  }

  lemma {:induction false} WedgedForever(w: World, i: nat, actions: seq<Action>)
    requires WorldInv(w) && Wedged(w, i)
    ensures Wedged(Run(w, actions), i) && Monitor(Run(w, actions).log, i) == Nothing
    ensures Invoke(Run(w, actions), i).threw
    decreases |actions|
  {
    if actions == [] {
      DoneExactly(w, i);
    } else {
      if Possible(w, actions[0]) {
        NextKeepsInv(w, actions[0]);
        WedgedExactly(w, actions[0], i);
      }
      hide WorldInv, Next, Possible;
      WedgedForever(if Possible(w, actions[0]) then Next(w, actions[0]) else w, i, actions[1..]);
    }
  }

  /** The VMs of a process as the source keeps them: their stored functions and the shared threads are
      fields that calls update. The log is there for the specification only. */
  class Host {
    const process: T.Process
    var vms: seq<VM>
    var next: nat
    var aborted: bool
    ghost var log: seq<LogEntry>

    ghost function Abs(): World
      reads this, process
    {
      World(process.Abs(), vms, next, log, aborted)
    }

    constructor (n: nat)
      ensures Abs() == Start(n) && fresh(process)
    {
      process := new T.Process(n);
      vms := seq(n, _ => VM(None, Place.Entry));
      next, aborted, log := 0, false, [];
    }

    method InvokeDynamic(i: nat) returns (threw: bool)
      requires Exists(Abs(), i)
      modifies this, process
      ensures Step(Abs(), threw) == Invoke(old(Abs()), i)
    {
      if vms[i].pending != None || process.threads[i].status != T.Stopped {
        return true;
      }
      var fn := next;
      next := next + 1;
      vms := vms[i := vms[i].(pending := Some(fn))];
      threw := process.ResumeThread(i);
      if !threw {
        vms := vms[i := vms[i].(place := Place.Entry)];
        log := log + [LogEntry(i, Accepted(fn))];
      }
    }

    method ExecuteComputation(i: nat) returns (threw: bool)
      requires Exists(Abs(), i)
      modifies this, process
      ensures Step(Abs(), threw) == Execute(old(Abs()), i)
    {
      threw := false;
      if process.threads[i].status == T.Suspended {
        threw := process.ResumeThread(i);
        if !threw {
          log := log + [LogEntry(i, Executed)];
        }
      }
    }

    method CancelComputation(i: nat)
      requires Exists(Abs(), i)
      modifies this, process
      ensures Abs() == Cancel(old(Abs()), i)
    {
      if process.threads[i].status == T.Suspended {
        var threw := process.StopThread(i);
        log := log + [LogEntry(i, Cancelled)];
      }
    }

    method IsDone(i: nat) returns (done: bool)
      requires WorldInv(Abs()) && Exists(Abs(), i)
      ensures done <==> Monitor(log, i) == Nothing
    {
      DoneExactly(Abs(), i);
      done := process.threads[i].status == T.Stopped;
    }

    /** One step of the start routine of the running thread. */
    method RunInternal(i: nat)
      requires Exists(Abs(), i) && process.current == Some(i)
      modifies this, process
      ensures Abs() == Advance(old(Abs()), i)
    {
      match vms[i].place {
        case Entry =>
          var fn := vms[i].pending;
          if fn == None {
            aborted := true;
          } else {
            vms := vms[i := VM(None, Holding(fn.value))];
          }
        case Holding(fn) =>
          vms := vms[i := vms[i].(place := Ready(fn))];
          var threw := process.YieldThread();
        case Ready(fn) =>
          vms := vms[i := vms[i].(place := Inside(fn))];
          log := log + [LogEntry(i, Started(fn))];
        case Inside(fn) =>
          process.FinishThread();
          log := log + [LogEntry(i, Finished(fn))];
      }
    }
  }
}
