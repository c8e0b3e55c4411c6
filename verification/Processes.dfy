/** The process table as a value: what create, ready and kill do to process states, to the ready list and to the
    count of processes, and what every run of them keeps. */
module Processes {
  import opened QueueTable
  import opened Status

  const PRFREE: int := 0
  const PRCURR: int := 1
  const PRSUSP: int := 2
  const PRREADY: int := 3

  const NULLPROC: int := 0

  datatype Procs = Procs(states: seq<int>, ready: seq<int>, numproc: int, nextpid: int)

  predicate BadPid(states: seq<int>, pid: int) {
    pid < 0 || pid >= NPROC || pid >= |states| || states[pid] == PRFREE
  }

  function NonFree(states: seq<int>): nat {
    if states == [] then 0 else (if states[0] != PRFREE then 1 else 0) + NonFree(states[1..])
  }

  /** The slot j places after nextpid, going round. */
  function After(nextpid: int, j: int): int {
    (nextpid + j) % NPROC
  }

  /** newpid with `tries` slots still to look at: the pid and the new value of the static nextpid. */
  function NewPid(states: seq<int>, nextpid: int, tries: nat): (r: (int, int))
    requires |states| == NPROC
    ensures r.0 == SYSERR || (0 <= r.0 < NPROC && states[r.0] == PRFREE && r.1 == r.0)
    decreases tries
  {
    if tries == 0 then (SYSERR, nextpid)
    else
      var n := After(nextpid, 1);
      if states[n] == PRFREE then (n, n) else NewPid(states, n, tries - 1)
  }

  /** s without its first p. */
  function Without(s: seq<int>, p: int): seq<int> {
    if s == [] then [] else if s[0] == p then s[1..] else [s[0]] + Without(s[1..], p)
  }

  /** create; `gotStack` says whether pgalloc found a page. */
  function Create(p: Procs, gotStack: bool): (int, Procs)
    requires |p.states| == NPROC
  {
    var (pid, n) := NewPid(p.states, p.nextpid, NPROC);
    if !gotStack || pid == SYSERR then (SYSERR, p.(nextpid := n))
    else (pid, p.(states := p.states[pid := PRSUSP], numproc := p.numproc + 1, nextpid := n))
  }

  /** ready with RESCHED_NO. */
  function Ready(p: Procs, pid: int): (int, Procs) {
    if BadPid(p.states, pid) then (SYSERR, p)
    else (OK, p.(states := p.states[pid := PRREADY], ready := p.ready + [pid]))
  }

  /** kill of a process that is not the current one. */
  function Kill(p: Procs, pid: int): (int, Procs) {
    if BadPid(p.states, pid) then (SYSERR, p)
    else
      (OK, p.(states := p.states[pid := PRFREE], numproc := p.numproc - 1,
              ready := if p.states[pid] == PRREADY then Without(p.ready, pid) else p.ready))
  }

  datatype Op = OpCreate(gotStack: bool) | OpReady(pid: int) | OpKill(pid: int)

  function Apply(p: Procs, op: Op): (p': Procs)
    requires |p.states| == NPROC
    ensures |p'.states| == NPROC
  {
    match op
    case OpCreate(gotStack) => Create(p, gotStack).1
    case OpReady(pid) => Ready(p, pid).1
    case OpKill(pid) => Kill(p, pid).1
  }

  /** ready is for suspended processes, kill here for any but the current one. */
  predicate Allowed(p: Procs, op: Op) {
    match op
    case OpCreate(_) => true
    case OpReady(pid) => BadPid(p.states, pid) || p.states[pid] == PRSUSP
    case OpKill(pid) => BadPid(p.states, pid) || p.states[pid] != PRCURR
  }

  /** The ready list holds exactly the ready processes, each once, and numproc counts the slots in use. */
  ghost predicate Good(p: Procs) {
    && |p.states| == NPROC && 0 <= p.nextpid < NPROC
    && p.numproc == NonFree(p.states)
    && NoRepeat(p.ready)
    && (forall pid | pid in p.ready :: 0 <= pid < NPROC)
    && forall pid | 0 <= pid < NPROC :: pid in p.ready <==> p.states[pid] == PRREADY
  }

  /** After sysinit: only the null process, running. */
  function Booted(): (p: Procs)
    ensures |p.states| == NPROC
  {
    Procs(seq(NPROC, i => if i == NULLPROC then PRCURR else PRFREE), [], 1, 0)
  }

  lemma {:induction false} NonFreeUpdate(states: seq<int>, pid: nat, state: int)
    requires pid < |states|
    ensures NonFree(states[pid := state])
         == NonFree(states) - (if states[pid] != PRFREE then 1 else 0) + (if state != PRFREE then 1 else 0)
  {
    if pid == 0 {
      assert states[0 := state][1..] == states[1..];
    } else {
      assert states[pid := state][1..] == states[1..][pid - 1 := state];
      NonFreeUpdate(states[1..], pid - 1, state);
    }
  }

  lemma {:induction false} NonFreeNone(states: seq<int>)
    requires forall i | 0 <= i < |states| :: states[i] == PRFREE
    ensures NonFree(states) == 0
  {
    if states == [] {
    } else {
      NonFreeNone(states[1..]);
    }
  }

  lemma BootedIsGood()
    ensures Good(Booted())
  {
    var s := Booted().states;
    NonFreeNone(s[1..]);
  }

  /** newpid looks at the slots after nextpid in turn, once around: it returns the first free one, and SYSERR
      exactly when there is none. */
  lemma {:induction false} NewPidIsFirstFree(states: seq<int>, nextpid: int, tries: nat)
    requires |states| == NPROC && 0 <= nextpid < NPROC && tries <= NPROC
    ensures var (pid, n) := NewPid(states, nextpid, tries);
            && (pid == SYSERR <==> NoneWithin(states, nextpid, tries))
            && (pid == SYSERR ==> n == After(nextpid, tries))
            && (pid != SYSERR ==> exists j :: FirstAfter(states, nextpid, j, tries) && pid == After(nextpid, j))
    decreases tries
  {
    hide NewPid, After;
    AfterZero(nextpid);
    NewPidCases(states, nextpid, tries);
    if tries == 0 {
    } else {
      var n := After(nextpid, 1);
      if states[n] == PRFREE {
        assert FirstAfter(states, nextpid, 1, tries);
      } else {
        NewPidIsFirstFree(states, n, tries - 1);
        forall j ensures After(n, j) == After(nextpid, j + 1) {
          Around(nextpid, j);
        }
        forall j ensures After(nextpid, j) == After(n, j - 1) {
          Around(nextpid, j - 1);
        }
        var (pid, _) := NewPid(states, n, tries - 1);
        if pid != SYSERR {
          var j :| FirstAfter(states, n, j, tries - 1) && pid == After(n, j);
          assert FirstAfter(states, nextpid, j + 1, tries);
        }
      }
    }
  }

  lemma NewPidCases(states: seq<int>, nextpid: int, tries: nat)
    requires |states| == NPROC
    ensures 0 <= After(nextpid, 1) < NPROC
    ensures NewPid(states, nextpid, tries)
            == if tries == 0 then (SYSERR, nextpid)
               else if states[After(nextpid, 1)] == PRFREE then (After(nextpid, 1), After(nextpid, 1))
               else NewPid(states, After(nextpid, 1), tries - 1)
  {
  }

  lemma AfterZero(nextpid: int)
    requires 0 <= nextpid < NPROC
    ensures After(nextpid, 0) == nextpid
  {
  }

  ghost predicate NoneWithin(states: seq<int>, nextpid: int, tries: nat)
    requires |states| == NPROC
  {
    forall j | 1 <= j <= tries :: states[After(nextpid, j)] != PRFREE
  }

  ghost predicate FirstAfter(states: seq<int>, nextpid: int, j: int, tries: nat)
    requires |states| == NPROC
  {
    1 <= j <= tries && states[After(nextpid, j)] == PRFREE
    && forall i | 1 <= i < j :: states[After(nextpid, i)] != PRFREE
  }

  lemma Around(nextpid: int, j: int)
    ensures After(After(nextpid, 1), j) == After(nextpid, j + 1)
  {
  }

  /** Once around reaches every slot, so create fails for want of a slot exactly when none is free. */
  lemma NewPidFailsIff(states: seq<int>, nextpid: int)
    requires |states| == NPROC && 0 <= nextpid < NPROC
    ensures NewPid(states, nextpid, NPROC).0 == SYSERR <==> forall pid | 0 <= pid < NPROC :: states[pid] != PRFREE
  {
    hide NewPid;
    NewPidIsFirstFree(states, nextpid, NPROC);
    if NoneWithin(states, nextpid, NPROC) {
      forall pid | 0 <= pid < NPROC ensures states[pid] != PRFREE {
        var j := if pid > nextpid then pid - nextpid else pid - nextpid + NPROC;
        assert After(nextpid, j) == pid;
      }
    }
  }

  lemma {:induction false} WithoutIs(s: seq<int>, p: int)
    requires NoRepeat(s)
    ensures NoRepeat(Without(s, p)) && forall x :: x in Without(s, p) <==> x in s && x != p
  {
    if s == [] {
    } else {
      assert [s[0]] + s[1..] == s;
      TailNoRepeat(s[0], s[1..]);
      WithoutIs(s[1..], p);
      if s[0] != p {
        HeadNotIn(s[0], Without(s[1..], p));
      }
    }
  }

  /** A list around one of its entries; Without takes exactly that entry out. */
  lemma {:induction false} SplitAt(s: seq<int>, p: int) returns (u: seq<int>, v: seq<int>)
    requires p in s
    ensures s == u + [p] + v && Without(s, p) == u + v
  {
    if s[0] == p {
      u, v := [], s[1..];
    } else {
      u, v := SplitAt(s[1..], p);
      u := [s[0]] + u;
    }
  }

  lemma StepKeepsGood(p: Procs, op: Op)
    requires Good(p) && Allowed(p, op)
    ensures Good(Apply(p, op))
  {
    match op {
      case OpCreate(gotStack) =>
        NewPidIsFirstFree(p.states, p.nextpid, NPROC);
        var (pid, n) := NewPid(p.states, p.nextpid, NPROC);
        if gotStack && pid != SYSERR {
          NonFreeUpdate(p.states, pid, PRSUSP);
        }
      case OpReady(pid) =>
        if !BadPid(p.states, pid) {
          NonFreeUpdate(p.states, pid, PRREADY);
          Appended(p.ready, pid);
        }
      case OpKill(pid) =>
        if !BadPid(p.states, pid) {
          NonFreeUpdate(p.states, pid, PRFREE);
          WithoutIs(p.ready, pid);
        }
    }
  }

  lemma Appended(s: seq<int>, p: int)
    requires NoRepeat(s) && p !in s
    ensures NoRepeat(s + [p]) && forall x :: x in s + [p] <==> x in s || x == p
  {
  }

  function Run(p: Procs, ops: seq<Op>): (p': Procs)
    requires |p.states| == NPROC
    ensures |p'.states| == NPROC
    decreases |ops|
  {
    if ops == [] then p else Run(Apply(p, ops[0]), ops[1..])
  }

  predicate RunAllowed(p: Procs, ops: seq<Op>)
    requires |p.states| == NPROC
    decreases |ops|
  {
    ops != [] ==> Allowed(p, ops[0]) && RunAllowed(Apply(p, ops[0]), ops[1..])
  }

  /** Over every run from boot, the ready list and the count of processes match the process table, and the null
      process goes on running. */
  lemma BootRunsAreGood(ops: seq<Op>)
    requires RunAllowed(Booted(), ops)
    ensures Good(Run(Booted(), ops)) && Run(Booted(), ops).states[NULLPROC] == PRCURR
  {
    BootedIsGood();
    RunsKeepGood(Booted(), ops);
  }

  lemma {:induction false} RunsKeepGood(p: Procs, ops: seq<Op>)
    requires Good(p) && RunAllowed(p, ops)
    ensures Good(Run(p, ops))
    ensures forall pid | 0 <= pid < NPROC && p.states[pid] == PRCURR :: Run(p, ops).states[pid] == PRCURR
    decreases |ops|
  {
    if ops == [] {
    } else {
      StepKeepsGood(p, ops[0]);
      CurrentStays(p, ops[0]);
      RunsKeepGood(Apply(p, ops[0]), ops[1..]);
    }
  }

  lemma CurrentStays(p: Procs, op: Op)
    requires Good(p) && Allowed(p, op)
    ensures forall pid | 0 <= pid < NPROC && p.states[pid] == PRCURR :: Apply(p, op).states[pid] == PRCURR
  {
    NewPidIsFirstFree(p.states, p.nextpid, NPROC);
  }
}
