/** scheduler.c: round-robin over a process table. */
module Scheduler {
  import opened Words
  import opened Wrappers

  const MAX_PROCS := 1024

  datatype ProcState = New | Ready | Running | Waiting | Sleeping | Terminated | Suspended | Idle

  // ----- The table as a state machine ------------------------------------------------

  /** The states of the registered processes, in table order, and the index of the current one. */
  datatype Table = Table(states: seq<ProcState>, cur: Option<nat>)

  /** The current process is the only one running and all others are ready; there is a
      current process exactly when any is registered. */
  predicate Inv(t: Table) {
    && |t.states| <= MAX_PROCS
    && (t.cur.None? <==> t.states == [])
    && (t.cur.Some? ==> t.cur.value < |t.states|)
    && forall i :: 0 <= i < |t.states| ==> t.states[i] == if t.cur == Some(i) then Running else Ready
  }

  predicate Runnable(s: ProcState) { s == Ready || s == Idle }

  /** find_next_proc: the first runnable process, in cyclic order from start on. */
  function FirstRunnable(states: seq<ProcState>, start: nat, k: nat): (r: Option<nat>)
    requires start < |states| && k <= |states|
    decreases |states| - k
  {
    if k == |states| then None
    else if Runnable(states[Around(start + k, |states|)]) then Some(Around(start + k, |states|))
    else FirstRunnable(states, start, k + 1)
  }

  function FindNext(t: Table): (r: Option<nat>) {
    if t.states == [] then None
    else
      var start := if t.cur.Some? && t.cur.value < |t.states| then Around(t.cur.value + 1, |t.states|) else 0;
      FirstRunnable(t.states, start, 0)
  }

  /** context_switch, as far as the table goes. */
  function Switch(t: Table): (r: Table) {
    match FindNext(t)
    case None => t
    case Some(n) =>
      if t.cur == Some(n) || n >= |t.states| then t
      else
        var states := if t.cur.Some? && t.cur.value < |t.states| then t.states[t.cur.value := Ready] else t.states;
        Table(states[n := Running], Some(n))
  }

  /** register_proc for a process that is not in the table yet. */
  function Register(t: Table): (r: Table) {
    if |t.states| >= MAX_PROCS then t
    else if t.cur.None? then Table(t.states + [Running], Some(|t.states|))
    else t.(states := t.states + [Ready])
  }

  const EMPTY := Table([], None)

  // ----- Every run -------------------------------------------------------------------

  datatype Action = DoRegister | DoSwitch

  function Next(t: Table, s: Action): (r: Table) {
    match s case DoRegister => Register(t) case DoSwitch => Switch(t)
  }

  /** The table after the first k steps. */
  function After(t: Table, steps: seq<Action>, k: nat): (r: Table)
    requires k <= |steps|
  {
    if k == 0 then t else Next(After(t, steps, k - 1), steps[k - 1])
  }

  function Switches(steps: seq<Action>, k: nat): (r: nat)
    requires k <= |steps|
  {
    if k == 0 then 0 else Switches(steps, k - 1) + if steps[k - 1] == DoSwitch then 1 else 0
  }

  /** Where the search starts: behind the current process, or at 0 when there is none. */
  function SearchStart(t: Table): (r: nat)
    requires t.states != []
    ensures r < |t.states|
  {
    if t.cur.Some? && t.cur.value + 1 < |t.states| then t.cur.value + 1 else 0
  }

  /** Whatever states the processes are in, the search finds the first in cyclic order that is
      ready or idle, and nothing exactly when there is none. */
  lemma FindNextIs(t: Table)
    ensures FindNext(t).None? <==> forall i :: 0 <= i < |t.states| ==> t.states[i] != Ready && t.states[i] != Idle
    ensures (FindNext(t).Some? ==>
             FindNext(t).value < |t.states| && FirstFrom(t.states, SearchStart(t), FindNext(t).value))
  {
    if t.states != [] {
      var start, n := SearchStart(t), |t.states|;
      FirstRunnableIs(t.states, start, 0);
      if FindNext(t).None? {
        forall i | 0 <= i < n ensures !Runnable(t.states[i]) {
          var k := if i >= start then i - start else i + n - start;
          assert Around(start + k, n) == i && !CanRun(t.states, start, k);
        }
      }
    }
  }

  /** Process m is the first, from start on and around the end, that is ready or idle. */
  predicate FirstFrom(states: seq<ProcState>, start: nat, m: nat)
    requires start < |states| && m < |states|
  {
    && (states[m] == Ready || states[m] == Idle)
    && forall i :: 0 <= i < |states| && (if start <= m then start <= i < m else i >= start || i < m)
                   ==> states[i] != Ready && states[i] != Idle
  }

  /** The k-th process the search looks at can run. */
  predicate CanRun(states: seq<ProcState>, start: nat, k: nat)
    requires start < |states| && k < |states|
  {
    Runnable(states[Around(start + k, |states|)])
  }

  lemma {:induction false} FirstRunnableIs(states: seq<ProcState>, start: nat, k: nat)
    requires start < |states| && k <= |states|
    requires forall j :: 0 <= j < k ==> !CanRun(states, start, j)
    ensures match FirstRunnable(states, start, k)
      case None => forall j :: 0 <= j < |states| ==> !CanRun(states, start, j)
      case Some(m) => m < |states| && FirstFrom(states, start, m)
    decreases |states| - k
  {
    if k < |states| {
      if CanRun(states, start, k) { FirstReached(states, start, k); } else { FirstRunnableIs(states, start, k + 1); }
    }
  }

  lemma FirstReached(states: seq<ProcState>, start: nat, k: nat)
    requires start < |states| && k < |states| && CanRun(states, start, k)
    requires forall j :: 0 <= j < k ==> !CanRun(states, start, j)
    ensures FirstFrom(states, start, Around(start + k, |states|))
  {
    var n, m := |states|, Around(start + k, |states|);
    forall i | 0 <= i < n && (if start <= m then start <= i < m else i >= start || i < m) ensures !Runnable(states[i]) {
      var j := if i >= start then i - start else i + n - start;
      assert j < k && Around(start + j, n) == i && !CanRun(states, start, j);
    }
  }

  /** A switch makes the process found the running one and the one before it ready, and leaves
      all others alone; it does nothing when none is found or the search comes back around. */
  lemma SwitchEffect(t: Table)
    ensures var u := Switch(t);
      match FindNext(t)
      case None => u == t
      case Some(n) =>
        && n < |t.states| == |u.states| && u.cur == Some(n)
        && (t.cur == Some(n) ==> u == t)
        && forall i :: 0 <= i < |t.states| && t.cur != Some(n) ==>
             u.states[i] == if i == n then Running else if t.cur == Some(i) then Ready else t.states[i]
  {
    FindNextIs(t);
  }

  /** Registering adds one process at the end, the running one when it is the first, and does
      nothing to a full table. */
  lemma RegisterEffect(t: Table)
    requires Inv(t)
    ensures var u := Register(t);
      if |t.states| == MAX_PROCS then u == t
      else
        && |u.states| == |t.states| + 1 && u.states[..|t.states|] == t.states
        && u.cur == (if t.states == [] then Some(0) else t.cur)
        && u.states[|t.states|] == if t.states == [] then Running else Ready
  {
  }

  /** Under the invariant a switch moves to the next index, around the end of the table. */
  lemma SwitchMovesOn(t: Table)
    requires Inv(t) && t.states != []
    ensures Inv(Switch(t)) && |Switch(t).states| == |t.states|
    ensures Switch(t).cur == Some(Around(t.cur.value + 1, |t.states|))
  {
  }

  lemma RegisterKeeps(t: Table)
    requires Inv(t)
    ensures Inv(Register(t))
    ensures t.states != [] ==> Register(t).cur == t.cur && |Register(t).states| >= |t.states|
  {
  }

  /** Every run keeps the invariant, and no process ever leaves the table. */
  lemma {:induction false} RunKeepsInv(t: Table, steps: seq<Action>, k: nat)
    requires Inv(t) && k <= |steps|
    ensures Inv(After(t, steps, k)) && |After(t, steps, k).states| >= |t.states|
  {
    if k > 0 {
      RunKeepsInv(t, steps, k - 1);
      var u := After(t, steps, k - 1);
      if steps[k - 1] == DoRegister { RegisterKeeps(u); }
      else if u.states != [] { SwitchMovesOn(u); }
    }
  }

  /** How far process j is from its turn: switches still to come, were the table full. */
  function Rank(j: nat, c: nat): (r: nat)
    requires c < MAX_PROCS
  {
    if j >= c then j - c else MAX_PROCS - c + j
  }

  /** A switch brings every waiting process strictly closer to its turn. */
  lemma SwitchLowersRank(t: Table, j: nat)
    requires Inv(t) && j < |t.states| && t.cur != Some(j)
    ensures Switch(t).cur.Some? && Switch(t).cur.value < MAX_PROCS
    ensures Rank(j, Switch(t).cur.value) < Rank(j, t.cur.value)
    ensures Inv(Switch(t)) && |Switch(t).states| == |t.states|
  {
  }

  /** Bounded waiting: whatever registrations arrive in between, a registered process has had
      its turn by the time as many switches have happened as its rank says. */
  lemma {:induction false} TurnComes(t: Table, steps: seq<Action>, j: nat, k: nat) returns (m: nat)
    requires Inv(t) && j < |t.states| && k <= |steps| && Switches(steps, k) >= Rank(j, t.cur.value)
    ensures m <= k && After(t, steps, m).cur == Some(j)
  {
    hide Switch, Register;
    m := 0;
    while After(t, steps, m).cur != Some(j)
      invariant m <= k
      invariant Inv(After(t, steps, m)) && j < |After(t, steps, m).states|
      invariant Switches(steps, k) - Switches(steps, m) >= Rank(j, After(t, steps, m).cur.value)
      decreases k - m
    {
      var u := After(t, steps, m);
      assert m < k;
      if steps[m] == DoRegister { RegisterKeeps(u); } else { SwitchLowersRank(u, j); }
      m := m + 1;
    }
  }

  /** So MAX_PROCS - 1 switches always suffice. */
  lemma BoundedWaiting(t: Table, steps: seq<Action>, j: nat)
    requires Inv(t) && j < |t.states| && Switches(steps, |steps|) >= MAX_PROCS - 1
    ensures exists m :: 0 <= m <= |steps| && After(t, steps, m).cur == Some(j)
  {
    var m := TurnComes(t, steps, j, |steps|);
  }

  // ----- Ticks -----------------------------------------------------------------------

  /** scheduler_tick: the 64-bit counter goes on, and every freq-th tick switches. */
  function Tick(t: Table, ticks: nat, freq: nat): (r: Table)
    requires freq > 0
  {
    if (ticks + 1) % TWO64 % freq == 0 then Switch(t) else t
  }

  function AfterTicks(t: Table, ticks: nat, freq: nat, n: nat): (r: Table)
    requires freq > 0
  {
    if n == 0 then t else Tick(AfterTicks(t, ticks, freq, n - 1), ticks + (n - 1), freq)
  }

  lemma TickBeforeWrap(t: Table, ticks: nat, freq: nat)
    requires freq > 0 && ticks + 1 < TWO64
    ensures Tick(t, ticks, freq) == if (ticks + 1) % freq == 0 then Switch(t) else t
  {
  }

  lemma DivStep(x: nat, d: nat)
    requires d > 0
    ensures (x + 1) / d == x / d + if (x + 1) % d == 0 then 1 else 0
  {
    var q, r := x / d, x % d;
    assert x == q * d + r;
    if r + 1 == d {
      assert x + 1 == (q + 1) * d + 0;
      DivModUnique(x + 1, d, q + 1, 0);
    } else {
      DivModUnique(x + 1, d, q, r + 1);
    }
  }

  lemma ModStep(x: nat, n: nat)
    requires n > 0
    ensures 0 <= x % n < n && (x + 1) % n == Around(x % n + 1, n)
  {
    var q, r := x / n, x % n;
    assert x == q * n + r;
    if r + 1 == n {
      assert x + 1 == (q + 1) * n + 0;
      DivModUnique(x + 1, n, q + 1, 0);
    } else {
      DivModUnique(x + 1, n, q, r + 1);
    }
  }

  /** Slice boundaries among the n ticks after the first ticks. */
  function Turns(ticks: nat, n: nat, freq: nat): (r: int)
    requires freq > 0
  {
    (ticks + n) / freq - ticks / freq
  }

  lemma TurnsStep(ticks: nat, n: nat, freq: nat)
    requires freq > 0 && n > 0
    ensures Turns(ticks, n, freq) == Turns(ticks, n - 1, freq) + if (ticks + n) % freq == 0 then 1 else 0
  {
    DivStep(ticks + (n - 1), freq);
  }

  /** With no registrations, and short of the 2^64th tick, n ticks move the turn on by the
      number of slice boundaries among them, around the table. */
  lemma {:induction false} TicksMoveOn(t: Table, ticks: nat, freq: nat, n: nat)
    requires Inv(t) && t.states != [] && freq > 0 && ticks + n < TWO64
    ensures var u := AfterTicks(t, ticks, freq, n);
      && Inv(u) && |u.states| == |t.states| && Turns(ticks, n, freq) >= 0
      && u.cur == Some((t.cur.value + Turns(ticks, n, freq)) % |t.states|)
  {
    if n == 0 {
      assert t.cur.value < |t.states|;
      DivModUnique(t.cur.value, |t.states|, 0, t.cur.value);
    } else {
      hide Inv, Switch, Tick, Turns;
      TicksMoveOn(t, ticks, freq, n - 1);
      var u := AfterTicks(t, ticks, freq, n - 1);
      TickBeforeWrap(u, ticks + (n - 1), freq);
      TurnsStep(ticks, n, freq);
      SwitchMovesOn(u);
      ModStep(t.cur.value + Turns(ticks, n - 1, freq), |t.states|);
    }
  }

  /** From a slice boundary, n ticks amount to n / freq turns. */
  lemma TicksFromBoundary(t: Table, ticks: nat, freq: nat, n: nat)
    requires Inv(t) && t.states != [] && freq > 0 && ticks % freq == 0 && ticks + n < TWO64
    ensures AfterTicks(t, ticks, freq, n).cur == Some((t.cur.value + n / freq) % |t.states|)
  {
    TicksMoveOn(t, ticks, freq, n);
    DivAdd(ticks, n, freq);
  }

  lemma DivAdd(a: nat, b: nat, d: nat)
    requires d > 0 && a % d == 0
    ensures (a + b) / d == a / d + b / d
  {
    var q, p, r := a / d, b / d, b % d;
    assert a == q * d && b == p * d + r;
    assert (q + p) * d == q * d + p * d;
    DivModUnique(a + b, d, q + p, r);
  }

  // ----- The code --------------------------------------------------------------------

  class Procedure {
    const pid: u32
    var proc_state: ProcState

    constructor (pid: u32)
      ensures this.pid == pid && proc_state == New
    {
      this.pid := pid;
      proc_state := New;
    }
  }

  class Scheduler {
    const proc_list: array<Procedure?>
    var proc_count: nat
    var current_proc: Procedure?
    var next_pid: u32
    var sched_ticks: u64
    const SchedTickFreq: u32 := 10
    ghost var procs: seq<Procedure> // the registered processes, in table order
    ghost var cur: Option<nat>      // where the current one is

    ghost predicate Valid()
      reads this, proc_list
    {
      && proc_list.Length == MAX_PROCS && proc_count == |procs| <= MAX_PROCS
      && (forall i :: 0 <= i < |procs| ==> proc_list[i] == procs[i])
      && (forall i, j :: 0 <= i < j < |procs| ==> procs[i] != procs[j])
      && (match cur case None => current_proc == null case Some(c) => c < |procs| && current_proc == procs[c])
    }

    ghost function View(): (r: Table)
      reads this, procs
    {
      Table(StatesOf(procs), cur)
    }

    static ghost function StatesOf(ps: seq<Procedure>): (s: seq<ProcState>)
      reads ps
      ensures |s| == |ps| && forall i :: 0 <= i < |ps| ==> s[i] == ps[i].proc_state
    {
      seq(|ps|, i requires 0 <= i < |ps| reads ps => ps[i].proc_state)
    }

    constructor ()
      ensures Valid() && fresh(proc_list) && View() == EMPTY && sched_ticks == 0 && next_pid == 1
    {
      proc_list := new Procedure?[MAX_PROCS](_ => null);
      proc_count := 0;
      current_proc := null;
      next_pid := 1;
      sched_ticks := 0;
      procs, cur := [], None;
    }

    /** The table is forgotten; the tick counter is not. */
    method scheduler_init()
      requires Valid()
      modifies this
      ensures Valid() && View() == EMPTY && Inv(View()) && next_pid == 1 && sched_ticks == old(sched_ticks)
    {
      proc_count := 0;
      current_proc := null;
      next_pid := 1;
      procs, cur := [], None;
    }

    /** create_proc, as far as pid and state go; memory says whether kalloc finds a page. */
    method create_proc(memory: bool) returns (p: Procedure?)
      modifies this`next_pid
      ensures !memory ==> p == null && next_pid == old(next_pid)
      ensures memory ==> p != null && fresh(p) && p.pid == old(next_pid) && p.proc_state == New
      ensures memory ==> next_pid == (old(next_pid) + 1) % TWO32
    {
      if !memory { return null; }
      p := new Procedure(next_pid);
      next_pid := (next_pid + 1) % TWO32;
    }

    method register_proc(proc: Procedure)
      requires Valid() && proc !in procs
      modifies this, proc_list, proc`proc_state
      ensures Valid() && View() == Register(old(View()))
      ensures procs == if old(|procs|) < MAX_PROCS then old(procs) + [proc] else old(procs)
      ensures sched_ticks == old(sched_ticks)
    {
      if proc_count >= MAX_PROCS { return; }
      proc_list[proc_count] := proc;
      proc_count := proc_count + 1;
      proc.proc_state := Ready;
      procs := procs + [proc];
      if current_proc == null {
        current_proc := proc;
        proc.proc_state := Running;
        cur := Some(proc_count - 1);
      }
    }

    /** The first loop of find_next_proc: the index behind the current process. */
    method AfterCurrent() returns (start: nat)
      requires Valid() && proc_count > 0
      ensures start == if cur.Some? then Around(cur.value + 1, proc_count) else 0
    {
      start := 0;
      if current_proc != null {
        var i := 0;
        while i < proc_count
          invariant i <= cur.value && start == 0
          decreases proc_count - i
        {
          if proc_list[i] == current_proc {
            start := Around(i + 1, proc_count);
            break;
          }
          i := i + 1;
        }
      }
    }

    method find_next_proc() returns (p: Procedure?)
      requires Valid()
      ensures match FindNext(View())
        case None => p == null
        case Some(n) => n < |procs| && p == procs[n]
    {
      if proc_count == 0 { return null; }
      var start := AfterCurrent();
      ghost var states := View().states;
      var i := 0;
      while i < proc_count
        invariant i <= proc_count
        invariant FirstRunnable(states, start, 0) == FirstRunnable(states, start, i)
      {
        var idx := Around(start + i, proc_count);
        assert states[idx] == procs[idx].proc_state;
        if proc_list[idx].proc_state == Ready || proc_list[idx].proc_state == Idle {
          return proc_list[idx];
        }
        i := i + 1;
      }
      return null;
    }

    /** The scheduling-state part of context_switch. */
    method context_switch()
      requires Valid()
      modifies this`current_proc, this`cur, procs
      ensures Valid() && View() == Switch(old(View()))
    {
      hide FirstRunnable;
      ghost var t := View();
      var next := find_next_proc();
      if next == null { return; }
      var prev := current_proc;
      if prev == next { return; }
      if prev != null {
        prev.proc_state := Ready;
      }
      next.proc_state := Running;
      current_proc := next;
      cur := FindNext(t);
    }

    method scheduler_tick()
      requires Valid()
      modifies this`sched_ticks, this`current_proc, this`cur, procs
      ensures Valid() && sched_ticks == (old(sched_ticks) + 1) % TWO64
      ensures View() == Tick(old(View()), old(sched_ticks), SchedTickFreq)
    {
      sched_ticks := (sched_ticks + 1) % TWO64;
      if sched_ticks % SchedTickFreq == 0 {
        context_switch();
      }
    }
  }
}
