/** What create, ready and kill do to the process table, call by call, and over runs from boot told from the calls and
    what they returned: the ready list, every process state and the count of processes. */
module ProcessRuns {
  import opened QueueTable
  import opened Processes
  import opened Status

  /** All slots but pid's are as they were. */
  predicate OthersStay(p: Procs, p': Procs, pid: int) {
    |p'.states| == |p.states| && forall q | 0 <= q < |p.states| && q != pid :: p'.states[q] == p.states[q]
  }

  /** ready makes a suspended process ready and last in the list; a pid of no process changes nothing. */
  lemma ReadyDoes(p: Procs, pid: int)
    requires Good(p) && Allowed(p, OpReady(pid))
    ensures var (r, p') := Ready(p, pid);
            if 0 <= pid < NPROC && p.states[pid] != PRFREE then
              && r == OK && p.states[pid] == PRSUSP && p'.states[pid] == PRREADY && OthersStay(p, p', pid)
              && pid !in p.ready && p'.ready == p.ready + [pid]
              && p'.numproc == p.numproc && p'.nextpid == p.nextpid
            else r == SYSERR && p' == p
  {
  }

  /** kill frees the slot and takes the pid out of the ready list, where the others keep their order. */
  lemma KillDoes(p: Procs, pid: int) returns (u: seq<int>, v: seq<int>)
    requires Good(p) && Allowed(p, OpKill(pid))
    ensures var (r, p') := Kill(p, pid);
            if 0 <= pid < NPROC && p.states[pid] != PRFREE then
              && r == OK && p'.states[pid] == PRFREE && OthersStay(p, p', pid)
              && p.ready == u + (if p.states[pid] == PRREADY then [pid] else []) + v
              && p'.ready == u + v && pid !in p'.ready
              && p'.numproc == p.numproc - 1 && p'.nextpid == p.nextpid
            else r == SYSERR && p' == p
  {
    u, v := p.ready, [];
    assert u + [] + v == u;
    if !BadPid(p.states, pid) {
      WithoutIs(p.ready, pid);
      if p.states[pid] == PRREADY {
        u, v := SplitAt(p.ready, pid);
      }
    }
  }

  /** create suspends a process in a slot that was free, and fails exactly for want of a stack or a slot. */
  lemma CreateDoes(p: Procs, gotStack: bool)
    requires Good(p)
    ensures var (r, p') := Create(p, gotStack);
            && p'.ready == p.ready && (r == SYSERR <==> !gotStack || NoneFree(p.states))
            && if r == SYSERR then p'.states == p.states && p'.numproc == p.numproc
               else
                 && 0 <= r < NPROC && p.states[r] == PRFREE && p'.states[r] == PRSUSP && OthersStay(p, p', r)
                 && r !in p.ready && p'.numproc == p.numproc + 1
  {
    hide NewPid;
    NewPidFailsIff(p.states, p.nextpid);
    var _ := NewPid(p.states, p.nextpid, NPROC);
  }

  predicate NoneFree(states: seq<int>) {
    forall pid | 0 <= pid < NPROC && pid < |states| :: states[pid] != PRFREE
  }

  /** A process that is created, made ready and killed leaves the table as it was, and create can give its slot
      again: it must if all others are in use. */
  lemma CreateReadyKill(p: Procs)
    requires Good(p) && !NoneFree(p.states)
    ensures var (pid, created) := Create(p, true);
            var (r, readied) := Ready(created, pid);
            var (k, p') := Kill(readied, pid);
            && 0 <= pid < NPROC && r == k == OK
            && p'.states == p.states && p'.ready == p.ready && p'.numproc == p.numproc && Good(p')
            && Create(p', true).0 != SYSERR
            && ((forall q | 0 <= q < NPROC && q != pid :: p.states[q] != PRFREE) ==> Create(p', true).0 == pid)
  {
    hide NewPid, Good, Create, Ready, Kill;
    GoodIs(p);
    CreateDoes(p, true);
    StepKeepsGood(p, OpCreate(true));
    var (pid, created) := Create(p, true);
    ReadyDoes(created, pid);
    StepKeepsGood(created, OpReady(pid));
    var readied := Ready(created, pid).1;
    var u, v := KillDoes(readied, pid);
    StepKeepsGood(readied, OpKill(pid));
    var p' := Kill(readied, pid).1;
    SplitOnce(p.ready, u, pid, v);
    assert p'.states == p.states;
    CreateDoes(p', true);
  }

  lemma GoodIs(p: Procs)
    requires Good(p)
    ensures |p.states| == NPROC
  {
  }

  /** Taking a new last entry out again. */
  lemma SplitOnce(s: seq<int>, u: seq<int>, x: int, v: seq<int>)
    requires s + [x] == u + [x] + v && x !in s
    ensures u + v == s
  {
    var t := s + [x];
    assert t[|u|] == x && forall i | 0 <= i < |s| :: t[i] == s[i];
    assert |u| == |s|;
    assert u == t[..|u|] && v == [];
  }

  /** What a call returns. */
  function Result(p: Procs, op: Op): int
    requires |p.states| == NPROC
  {
    match op
    case OpCreate(gotStack) => Create(p, gotStack).0
    case OpReady(pid) => Ready(p, pid).0
    case OpKill(pid) => Kill(p, pid).0
  }

  function Results(p: Procs, ops: seq<Op>): (r: seq<int>)
    requires |p.states| == NPROC
    ensures |r| == |ops|
    decreases |ops|
  {
    if ops == [] then [] else [Result(p, ops[0])] + Results(Apply(p, ops[0]), ops[1..])
  }

  /** A kill of pid that succeeded. */
  ghost predicate Killed(ops: seq<Op>, results: seq<int>, pid: int)
    requires |results| == |ops|
  {
    exists i :: 0 <= i < |ops| && ops[i] == OpKill(pid) && results[i] == OK
  }

  /** The pids that were made ready and not killed later, in the order of the ready calls. */
  ghost function Waiting(ops: seq<Op>, results: seq<int>): seq<int>
    requires |results| == |ops|
  {
    if ops == [] then []
    else
      (if ops[0].OpReady? && results[0] == OK && !Killed(ops[1..], results[1..], ops[0].pid) then [ops[0].pid] else [])
      + Waiting(ops[1..], results[1..])
  }

  /** Does this call change the state of pid, and to what? */
  predicate Changes(op: Op, result: int, pid: int) {
    match op
    case OpCreate(_) => result == pid
    case OpReady(q) => q == pid && result == OK
    case OpKill(q) => q == pid && result == OK
  }

  function NewState(op: Op): int {
    match op
    case OpCreate(_) => PRSUSP
    case OpReady(_) => PRREADY
    case OpKill(_) => PRFREE
  }

  /** What the last call that changed pid left; `state` if none did. */
  function LastState(ops: seq<Op>, results: seq<int>, pid: int, state: int): int
    requires |results| == |ops|
  {
    if ops == [] then state
    else if Changes(ops[|ops| - 1], results[|ops| - 1], pid) then NewState(ops[|ops| - 1])
    else LastState(ops[..|ops| - 1], results[..|ops| - 1], pid, state)
  }

  /** Processes created less processes killed. */
  function Gained(ops: seq<Op>, results: seq<int>): int
    requires |results| == |ops|
  {
    if ops == [] then 0
    else
      (if ops[0].OpCreate? && results[0] != SYSERR then 1 else if ops[0].OpKill? && results[0] == OK then -1 else 0)
      + Gained(ops[1..], results[1..])
  }

  /** Those of s that no call kills. */
  ghost function Survivors(s: seq<int>, ops: seq<Op>, results: seq<int>): seq<int>
    requires |results| == |ops|
  {
    if s == [] then []
    else (if Killed(ops, results, s[0]) then [] else [s[0]]) + Survivors(s[1..], ops, results)
  }

  lemma KilledFirst(ops: seq<Op>, results: seq<int>, pid: int)
    requires |results| == |ops| > 0
    ensures Killed(ops, results, pid)
            <==> (ops[0] == OpKill(pid) && results[0] == OK) || Killed(ops[1..], results[1..], pid)
  {
    var rest, more := ops[1..], results[1..];
    if Killed(rest, more, pid) {
      var i :| 0 <= i < |rest| && rest[i] == OpKill(pid) && more[i] == OK;
      assert ops[i + 1] == OpKill(pid) && results[i + 1] == OK;
    }
    if Killed(ops, results, pid) {
      var i :| 0 <= i < |ops| && ops[i] == OpKill(pid) && results[i] == OK;
      if i > 0 {
        assert rest[i - 1] == OpKill(pid) && more[i - 1] == OK;
      }
    }
  }

  lemma {:induction false} SurvivorsAppend(s: seq<int>, t: seq<int>, ops: seq<Op>, results: seq<int>)
    requires |results| == |ops|
    ensures Survivors(s + t, ops, results) == Survivors(s, ops, results) + Survivors(t, ops, results)
  {
    if s == [] {
      assert s + t == t;
    } else {
      assert (s + t)[1..] == s[1..] + t;
      SurvivorsAppend(s[1..], t, ops, results);
    }
  }

  lemma SurvivorsOne(pid: int, ops: seq<Op>, results: seq<int>)
    requires |results| == |ops|
    ensures Survivors([pid], ops, results) == if Killed(ops, results, pid) then [] else [pid]
  {
    assert [pid][1..] == [];
  }

  /** The survivors of a run whose first call kills none of s ... */
  lemma {:induction false} SurvivorsRest(s: seq<int>, ops: seq<Op>, results: seq<int>)
    requires |results| == |ops| > 0
    requires forall pid | pid in s :: !(ops[0] == OpKill(pid) && results[0] == OK)
    ensures Survivors(s, ops, results) == Survivors(s, ops[1..], results[1..])
  {
    hide Killed;
    if s == [] {
    } else {
      KilledFirst(ops, results, s[0]);
      SurvivorsRest(s[1..], ops, results);
    }
  }

  /** ... and of one whose first call kills one process of the list. */
  lemma SurvivorsKill(u: seq<int>, pid: int, v: seq<int>, ops: seq<Op>, results: seq<int>)
    requires |results| == |ops| > 0 && ops[0] == OpKill(pid) && results[0] == OK && pid !in u + v
    ensures Survivors(u + [pid] + v, ops, results) == Survivors(u + v, ops[1..], results[1..])
  {
    hide Killed, Survivors;
    KilledFirst(ops, results, pid);
    SurvivorsOne(pid, ops, results);
    SurvivorsAppend(u + [pid], v, ops, results);
    SurvivorsAppend(u, [pid], ops, results);
    SurvivorsAppend(u, v, ops, results);
    SurvivorsRest(u + v, ops, results);
    assert Survivors(u, ops, results) + [] == Survivors(u, ops, results);
  }

  lemma {:induction false} SurvivorsAll(s: seq<int>, ops: seq<Op>, results: seq<int>)
    requires ops == [] && results == []
    ensures Survivors(s, ops, results) == s
  {
    if s == [] {
    } else {
      SurvivorsAll(s[1..], ops, results);
    }
  }

  lemma WaitingFirst(ops: seq<Op>, results: seq<int>)
    requires |results| == |ops| > 0
    ensures Waiting(ops, results)
            == (if ops[0].OpReady? && results[0] == OK then Survivors([ops[0].pid], ops[1..], results[1..]) else [])
               + Waiting(ops[1..], results[1..])
  {
    hide Killed, Survivors;
    if ops[0].OpReady? {
      SurvivorsOne(ops[0].pid, ops[1..], results[1..]);
    }
  }

  /** One call on the ready list. */
  lemma ReadyStep(p: Procs, ops: seq<Op>, results: seq<int>)
    requires |results| == |ops| > 0 && Good(p) && Allowed(p, ops[0]) && results[0] == Result(p, ops[0])
    ensures Survivors(p.ready, ops, results) + Waiting(ops, results)
         == Survivors(Apply(p, ops[0]).ready, ops[1..], results[1..]) + Waiting(ops[1..], results[1..])
  {
    hide Survivors, Killed, Waiting, Good, Create, Ready, Kill;
    WaitingFirst(ops, results);
    GoodIs(p);
    match ops[0] {
      case OpCreate(gotStack) =>
        CreateDoes(p, gotStack);
        SurvivorsRest(p.ready, ops, results);
      case OpReady(pid) => ReadySurvivors(p, pid, ops, results);
      case OpKill(pid) => KillSurvivors(p, pid, ops, results);
    }
  }

  lemma ReadySurvivors(p: Procs, pid: int, ops: seq<Op>, results: seq<int>)
    requires Good(p) && Allowed(p, OpReady(pid)) && |results| == |ops| > 0 && ops[0] == OpReady(pid)
    requires results[0] == Ready(p, pid).0
    ensures Survivors(p.ready, ops, results)
            + (if results[0] == OK then Survivors([pid], ops[1..], results[1..]) else [])
         == Survivors(Ready(p, pid).1.ready, ops[1..], results[1..])
  {
    hide Survivors, Good, Ready, Allowed;
    GoodIs(p);
    ReadyDoes(p, pid);
    SurvivorsRest(p.ready, ops, results);
    SurvivorsAppend(p.ready, [pid], ops[1..], results[1..]);
  }

  lemma KillSurvivors(p: Procs, pid: int, ops: seq<Op>, results: seq<int>)
    requires Good(p) && Allowed(p, OpKill(pid)) && |results| == |ops| > 0 && ops[0] == OpKill(pid)
    requires results[0] == Kill(p, pid).0
    ensures Survivors(p.ready, ops, results) == Survivors(Kill(p, pid).1.ready, ops[1..], results[1..])
  {
    hide Survivors, Good, Kill, Allowed;
    GoodIs(p);
    var u, v := KillDoes(p, pid);
    if results[0] == OK && p.states[pid] == PRREADY {
      SurvivorsKill(u, pid, v, ops, results);
    } else {
      NotReady(p, pid);
      SurvivorsRest(p.ready, ops, results);
      assert u + [] + v == u + v;
    }
  }

  lemma NotReady(p: Procs, pid: int)
    requires Good(p)
    ensures 0 <= pid < NPROC && p.states[pid] != PRREADY ==> pid !in p.ready
  {
  }

  lemma {:induction false} RunReady(p: Procs, ops: seq<Op>)
    requires Good(p) && RunAllowed(p, ops)
    ensures var results := Results(p, ops);
            Run(p, ops).ready == Survivors(p.ready, ops, results) + Waiting(ops, results)
    decreases |ops|
  {
    hide Good, Survivors, Killed, Waiting, Apply, Result, Allowed;
    GoodIs(p);
    var results := Results(p, ops);
    if ops == [] {
      SurvivorsAll(p.ready, ops, results);
      NobodyWaits(ops, results);
    } else {
      StepKeepsGood(p, ops[0]);
      RunReady(Apply(p, ops[0]), ops[1..]);
      assert results[1..] == Results(Apply(p, ops[0]), ops[1..]);
      ReadyStep(p, ops, results);
    }
  }

  lemma NobodyWaits(ops: seq<Op>, results: seq<int>)
    requires ops == [] && results == []
    ensures Waiting(ops, results) == []
  {
  }

  /** One call on the state of one slot and on the count. */
  lemma StateStep(p: Procs, op: Op, pid: int)
    requires Good(p) && Allowed(p, op) && 0 <= pid < NPROC
    ensures var r, p' := Result(p, op), Apply(p, op);
            && p'.states[pid] == (if Changes(op, r, pid) then NewState(op) else p.states[pid])
            && p'.numproc == p.numproc + (if op.OpCreate? && r != SYSERR then 1 else if op.OpKill? && r == OK then -1
                                          else 0)
  {
    hide Good, Create, Ready, Kill;
    GoodIs(p);
    match op {
      case OpCreate(gotStack) => CreateDoes(p, gotStack);
      case OpReady(q) => ReadyDoes(p, q);
      case OpKill(q) => var _, _ := KillDoes(p, q);
    }
  }

  /** The first i calls of a run, and the one after them. */
  lemma {:induction false} RunTo(p: Procs, ops: seq<Op>, i: nat)
    requires Good(p) && RunAllowed(p, ops) && i < |ops|
    ensures Good(Run(p, ops[..i])) && RunAllowed(p, ops[..i]) && Allowed(Run(p, ops[..i]), ops[i])
    ensures Results(p, ops)[i] == Result(Run(p, ops[..i]), ops[i])
    ensures Results(p, ops)[..i] == Results(p, ops[..i])
    ensures i + 1 == |ops| ==> Run(p, ops) == Apply(Run(p, ops[..i]), ops[i])
    decreases i
  {
    hide Good, Apply, Result, Allowed;
    GoodIs(p);
    if i == 0 {
      OneCall(p, ops);
    } else {
      StepKeepsGood(p, ops[0]);
      RunTo(Apply(p, ops[0]), ops[1..], i - 1);
      assert ops[..i][1..] == ops[1..][..i - 1];
    }
  }

  lemma OneCall(p: Procs, ops: seq<Op>)
    requires |p.states| == NPROC && |ops| > 0
    ensures Run(p, ops[..0]) == p && Results(p, ops[..0]) == []
    ensures |ops| == 1 ==> Run(p, ops) == Apply(p, ops[0])
  {
    if |ops| == 1 {
      assert Run(Apply(p, ops[0]), ops[1..]) == Apply(p, ops[0]);
    }
  }

  lemma {:induction false} RunStates(p: Procs, ops: seq<Op>, pid: int)
    requires Good(p) && RunAllowed(p, ops) && 0 <= pid < NPROC
    ensures |p.states| == NPROC && Run(p, ops).states[pid] == LastState(ops, Results(p, ops), pid, p.states[pid])
    decreases |ops|
  {
    hide Good, Apply, Result, Results, Run, Allowed, Changes, NewState;
    GoodIs(p);
    if ops == [] {
      NoCalls(p);
    } else {
      var n := |ops| - 1;
      RunTo(p, ops, n);
      RunStates(p, ops[..n], pid);
      StateStep(Run(p, ops[..n]), ops[n], pid);
    }
  }

  lemma NoCalls(p: Procs)
    requires |p.states| == NPROC
    ensures Run(p, []) == p && Results(p, []) == []
  {
  }

  lemma {:induction false} RunCount(p: Procs, ops: seq<Op>)
    requires Good(p) && RunAllowed(p, ops)
    ensures Run(p, ops).numproc == p.numproc + Gained(ops, Results(p, ops))
    decreases |ops|
  {
    hide Good, Apply, Result, Allowed;
    GoodIs(p);
    if ops == [] {
    } else {
      StateStep(p, ops[0], 0);
      StepKeepsGood(p, ops[0]);
      RunCount(Apply(p, ops[0]), ops[1..]);
      assert Results(p, ops)[1..] == Results(Apply(p, ops[0]), ops[1..]);
    }
  }

  /** A slot's state after a run from boot, from the calls and their results. */
  function BootState(ops: seq<Op>, results: seq<int>, pid: int): int
    requires |results| == |ops|
  {
    LastState(ops, results, pid, if pid == NULLPROC then PRCURR else PRFREE)
  }

  /** Over every run from boot: the ready list is exactly the pids made ready and not killed since, in the order of the
      calls; every process is in the state the last call that changed it left; and numproc is one more than the
      processes created less those killed.  All of this is told from the calls and what they returned. */
  lemma TableFromCalls(ops: seq<Op>)
    requires RunAllowed(Booted(), ops)
    ensures var p, results := Run(Booted(), ops), Results(Booted(), ops);
            && p.ready == Waiting(ops, results)
            && (forall pid | 0 <= pid < NPROC :: p.states[pid] == BootState(ops, results, pid))
            && p.numproc == 1 + Gained(ops, results)
  {
    hide Good, Run, Results, Survivors, Waiting, LastState, Gained;
    BootedIsGood();
    var results := Results(Booted(), ops);
    RunReady(Booted(), ops);
    NoSurvivors(ops, results);
    forall pid | 0 <= pid < NPROC ensures Run(Booted(), ops).states[pid] == BootState(ops, results, pid) {
      RunStates(Booted(), ops, pid);
    }
    RunCount(Booted(), ops);
  }

  lemma NoSurvivors(ops: seq<Op>, results: seq<int>)
    requires |results| == |ops|
    ensures Survivors([], ops, results) == []
  {
  }

  /** No slot is free after a run from boot. */
  ghost predicate TableFull(ops: seq<Op>, results: seq<int>)
    requires |results| == |ops|
  {
    forall pid | 0 <= pid < NPROC :: BootState(ops, results, pid) != PRFREE
  }

  /** ... and so are the results: ready and kill succeed exactly on processes that are there by then, and create gives
      the pid of none of them, exactly when it has a stack and a slot. */
  lemma ResultsFromCalls(ops: seq<Op>, i: nat)
    requires RunAllowed(Booted(), ops) && i < |ops|
    ensures var results := Results(Booted(), ops);
            var before, told, r := ops[..i], results[..i], results[i];
            match ops[i]
            case OpCreate(gotStack) =>
              if !gotStack || TableFull(before, told) then r == SYSERR
              else 0 <= r < NPROC && BootState(before, told, r) == PRFREE
            case OpReady(pid) => r == if 0 <= pid < NPROC && BootState(before, told, pid) != PRFREE then OK else SYSERR
            case OpKill(pid) => r == if 0 <= pid < NPROC && BootState(before, told, pid) != PRFREE then OK else SYSERR
  {
    hide Good, Run, Results, RunAllowed, LastState, Gained, Waiting, Apply, Booted, BootState, Create, Ready, Kill;
    BootedIsGood();
    RunTo(Booted(), ops, i);
    var p := Run(Booted(), ops[..i]);
    TableFromCalls(ops[..i]);
    GoodIs(p);
    match ops[i] {
      case OpCreate(gotStack) => CreateDoes(p, gotStack);
      case OpReady(pid) => ReadyDoes(p, pid);
      case OpKill(pid) => var _, _ := KillDoes(p, pid);
    }
  }
}
