/** queue.c, ready.c, kill.c and create.c on their tables. */
module Kernel {
  import opened Bits
  import opened QueueTable
  import opened Processes
  import opened Status

  /** Queue k of the family now holds s. */
  lemma FamilyUpdate(t: Table, t': Table, queues: seq<seq<int>>, nextqueue: int, k: nat, s: seq<int>)
    requires Family(t, queues, nextqueue) && k < |queues| && |t'| == NQENT
    requires Queue(t', HeadOf(k), s)
    requires forall l | 0 <= l < |queues| && l != k :: Queue(t', HeadOf(l), queues[l])
    requires forall l, p | 0 <= l < |queues| && l != k && p in s :: p !in queues[l]
    ensures Family(t', queues[k := s], nextqueue)
  {
    hide Queue;
    var queues' := queues[k := s];
    forall i, j, p | 0 <= i < j < |queues'| && p in queues'[i] ensures p !in queues'[j] {
      if i == k {
        assert p in s;
      } else if j == k {
        assert p in queues[i];
      } else {
        assert p in queues[i];
      }
    }
  }

  /** enqueue on a family of queues. */
  lemma FamilyEnqueue(t: Table, queues: seq<seq<int>>, nextqueue: int, k: nat, pid: int)
    requires Family(t, queues, nextqueue) && k < |queues| && 0 <= pid < NPROC && NotIn(pid, queues)
    ensures 0 <= t[HeadOf(k) + 1].prev < |t|
    ensures Family(Enqueued(t, pid, HeadOf(k) + 1), queues[k := queues[k] + [pid]], nextqueue)
  {
    hide Queue, Enqueued;
    var s := queues[k];
    EnqueueAppends(t, HeadOf(k), s, pid);
    var t' := Enqueued(t, pid, HeadOf(k) + 1);
    assert |t'| == |t| by { EnqueuedSize(t, pid, HeadOf(k) + 1); }
    forall l | 0 <= l < |queues| && l != k ensures Queue(t', HeadOf(l), queues[l]) {
      assert forall p | p in s :: p !in queues[l];
      EnqueueElsewhere(t, HeadOf(k), s, pid, HeadOf(l), queues[l]);
    }
    forall l, p | 0 <= l < |queues| && l != k && p in s + [pid] ensures p !in queues[l] {
      assert p in s || p == pid;
    }
    FamilyUpdate(t, t', queues, nextqueue, k, s + [pid]);
  }

  lemma EnqueuedSize(t: Table, pid: int, tail: int)
    requires 0 <= pid < |t| && 0 <= tail < |t| && 0 <= t[tail].prev < |t| && pid != tail
    ensures |Enqueued(t, pid, tail)| == |t|
  {
  }

  /** remove on a family of queues. */
  lemma FamilyRemove(t: Table, queues: seq<seq<int>>, nextqueue: int, k: nat, u: seq<int>, pid: int, v: seq<int>)
    requires Family(t, queues, nextqueue) && k < |queues| && queues[k] == u + [pid] + v
    ensures 0 <= pid < NPROC && 0 <= t[pid].prev < |t| && 0 <= t[pid].next < |t|
    ensures t[pid].prev == Last(HeadOf(k), u) && t[pid].next == Head(v, HeadOf(k) + 1)
    ensures |Removed(t, pid)| == |t| && Family(Removed(t, pid), queues[k := u + v], nextqueue)
    ensures pid !in u + v && NotIn(pid, queues[k := u + v])
  {
    hide Queue, Removed;
    var s := queues[k];
    assert pid in s && forall p | p in u || p in v :: p in s;
    QueueParts(t, HeadOf(k), s);
    Parts(u, pid, v);
    RemoveDeletes(t, HeadOf(k), u, pid, v);
    var t' := Removed(t, pid);
    assert |t'| == |t| by { RemovedSize(t, pid); }
    assert t[pid].prev in [HeadOf(k)] + s && t[pid].next in s + [HeadOf(k) + 1];
    forall l | 0 <= l < |queues| && l != k ensures Queue(t', HeadOf(l), queues[l]) {
      assert forall p | p in s :: p !in queues[l];
      RemoveElsewhere(t, HeadOf(k), s, pid, HeadOf(l), queues[l]);
    }
    forall l, p | 0 <= l < |queues| && l != k && p in u + v ensures p !in queues[l] {
      assert p in s;
    }
    FamilyUpdate(t, t', queues, nextqueue, k, u + v);
    GoneFrom(queues, k, u, pid, v);
  }

  lemma QueueParts(t: Table, head: int, s: seq<int>)
    requires Queue(t, head, s)
    ensures NPROC <= head && head + 1 < |t| && NoRepeat(s) && (forall p | p in s :: 0 <= p < NPROC)
    ensures t[head].next == Head(s, head + 1) && t[head + 1].prev == Last(head, s)
  {
    ChainEnds(t, head, s, head + 1);
  }

  lemma RemovedSize(t: Table, pid: int)
    requires 0 <= pid < |t| && 0 <= t[pid].prev < |t| && 0 <= t[pid].next < |t|
    ensures |Removed(t, pid)| == |t|
  {
  }

  /** Entries of no queue can be overwritten, as dequeue does with the process it returns. */
  lemma FamilyOutside(t: Table, queues: seq<seq<int>>, nextqueue: int, pid: int, e: QEntry)
    requires Family(t, queues, nextqueue) && 0 <= pid < NPROC && NotIn(pid, queues)
    ensures Family(t[pid := e], queues, nextqueue)
  {
    forall k | 0 <= k < |queues| ensures Queue(t[pid := e], HeadOf(k), queues[k]) {
      ChainFrame(t, t[pid := e], HeadOf(k), queues[k], HeadOf(k) + 1);
    }
  }

  /** newqueue adds an empty queue. */
  lemma FamilyNew(t: Table, queues: seq<seq<int>>, nextqueue: int)
    requires Family(t, queues, nextqueue) && nextqueue + 1 < NQENT
    ensures var t' := t[nextqueue := QEntry(nextqueue + 1, EMPTY)][nextqueue + 1 := QEntry(EMPTY, nextqueue)];
            Family(t', queues + [[]], nextqueue + 2)
  {
    var t' := t[nextqueue := QEntry(nextqueue + 1, EMPTY)][nextqueue + 1 := QEntry(EMPTY, nextqueue)];
    var queues' := queues + [[]];
    forall k | 0 <= k < |queues| ensures Queue(t', HeadOf(k), queues[k]) {
      ChainFrame(t, t', HeadOf(k), queues[k], HeadOf(k) + 1);
    }
    forall k, l, p | 0 <= k < l < |queues'| && p in queues'[k] ensures p !in queues'[l] {
      assert l < |queues| ==> p in queues[k];
    }
  }

  class ProcessTable {
    const queuetab: array<QEntry>
    const proctab: array<int>
    var nextqueue: int
    var readylist: Word
    var numproc: int
    var nextpid: int
    ghost var queues: seq<seq<int>>

    /** queuetab holds the family `queues`, and no queued process is free. */
    ghost predicate Valid()
      reads this, queuetab, proctab
    {
      && proctab.Length == NPROC && Family(queuetab[..], queues, nextqueue)
      && forall k, p | 0 <= k < |queues| && p in queues[k] :: proctab[p] != PRFREE
    }

    /** q is the id that newqueue returned for queue k. */
    ghost predicate IsId(q: Word, k: nat)
      reads this
    {
      k < |queues| && HeadOf(k) + 1 < NQENT && q == Qid(HeadOf(k), HeadOf(k) + 1)
    }

    /** enqueue: append a process that is in no queue. */
    method Enqueue(pid: int, q: Word, ghost k: nat) returns (result: int)
      requires Valid()
      requires BadQueue(q) || BadPid(proctab[..], pid) || (IsId(q, k) && NotIn(pid, queues))
      modifies this`queues, queuetab
      ensures Valid()
      ensures old(BadQueue(q) || BadPid(proctab[..], pid)) ==>
                result == SYSERR && queues == old(queues) && queuetab[..] == old(queuetab[..])
      ensures !old(BadQueue(q) || BadPid(proctab[..], pid)) ==>
                result == pid && queues == old(queues)[k := old(queues)[k] + [pid]]
    {
      hide Family, Qid, QueueHead, QueueTail;
      if BadQueue(q) || BadPid(proctab[..], pid) {
        return SYSERR;
      }
      QidFields(HeadOf(k), HeadOf(k) + 1);
      FamilySize(queuetab[..], queues, nextqueue);
      FamilyEnqueue(queuetab[..], queues, nextqueue, k, pid);
      ghost var t := queuetab[..];
      var tail := QueueTail(q);
      queuetab[pid] := QEntry(tail, queuetab[tail].prev);
      queuetab[queuetab[tail].prev] := queuetab[queuetab[tail].prev].(next := pid);
      queuetab[tail] := queuetab[tail].(prev := pid);
      assert queuetab[..] == Enqueued(t, pid, tail);
      queues := queues[k := queues[k] + [pid]];
      return pid;
    }

    /** remove: take a process from wherever it is in its queue. */
    method Remove(pid: int, ghost k: nat, ghost u: seq<int>, ghost v: seq<int>) returns (result: int)
      requires Valid()
      requires BadPid(proctab[..], pid) || (k < |queues| && queues[k] == u + [pid] + v)
      modifies this`queues, queuetab
      ensures Valid()
      ensures BadPid(proctab[..], pid) ==>
                result == SYSERR && queues == old(queues) && queuetab[..] == old(queuetab[..])
      ensures !BadPid(proctab[..], pid) ==> result == pid && queues == old(queues)[k := u + v] && NotIn(pid, queues)
    {
      hide Family;
      if BadPid(proctab[..], pid) {
        return SYSERR;
      }
      FamilySize(queuetab[..], queues, nextqueue);
      FamilyRemove(queuetab[..], queues, nextqueue, k, u, pid, v);
      ghost var t := queuetab[..];
      queuetab[queuetab[pid].prev] := queuetab[queuetab[pid].prev].(next := queuetab[pid].next);
      RemovedKeepsNext(t, queues, nextqueue, k, u, pid, v);
      queuetab[queuetab[pid].next] := queuetab[queuetab[pid].next].(prev := queuetab[pid].prev);
      assert queuetab[..] == Removed(t, pid);
      queues := queues[k := u + v];
      return pid;
    }

    /** dequeue: remove the first process of a queue and link its entry to itself. */
    method Dequeue(q: Word, ghost k: nat) returns (result: int)
      requires Valid() && (BadQueue(q) || IsId(q, k))
      modifies this`queues, queuetab
      ensures Valid()
      ensures BadQueue(q) ==> result == SYSERR && queues == old(queues) && queuetab[..] == old(queuetab[..])
      ensures !BadQueue(q) && old(queues)[k] == [] ==>
                result == EMPTY && queues == old(queues) && queuetab[..] == old(queuetab[..])
      ensures !BadQueue(q) && old(queues)[k] != [] ==>
                && result == old(queues)[k][0] && queues == old(queues)[k := old(queues)[k][1..]]
                && NotIn(result, queues) && queuetab[result] == QEntry(result, result)
    {
      hide Family, Qid, QueueHead, QueueTail;
      if BadQueue(q) {
        return SYSERR;
      }
      var head := QueueHead(q);
      QidFields(HeadOf(k), HeadOf(k) + 1);
      FamilySize(queuetab[..], queues, nextqueue);
      FamilyFirst(queuetab[..], queues, nextqueue, k);
      var pid := queuetab[head].next;
      if pid < NPROC {
        ghost var s := queues[k];
        assert s == [] + [pid] + s[1..] && [] + s[1..] == s[1..];
        FamilyRange(queuetab[..], queues, nextqueue, k, pid);
        var _ := Remove(pid, k, [], s[1..]);
        FamilySize(queuetab[..], queues, nextqueue);
        FamilyOutside(queuetab[..], queues, nextqueue, pid, QEntry(pid, pid));
        ghost var t := queuetab[..];
        queuetab[pid] := queuetab[pid].(prev := pid);
        queuetab[pid] := queuetab[pid].(next := pid);
        assert queuetab[..] == t[pid := QEntry(pid, pid)];
        return pid;
      } else {
        return EMPTY;
      }
    }

    /** newqueue: the next two entries become an empty queue. */
    method NewQueue() returns (q: Word)
      requires Valid() && nextqueue + 1 < NQENT
      modifies this`nextqueue, this`queues, queuetab
      ensures Valid() && queues == old(queues) + [[]] && nextqueue == old(nextqueue) + 2
      ensures IsId(q, |old(queues)|) && !BadQueue(q)
    {
      hide Qid, QueueHead, QueueTail, Queue;
      FamilyNew(queuetab[..], queues, nextqueue);
      ghost var t := queuetab[..];
      var head := nextqueue;
      nextqueue := nextqueue + 1;
      var tail := nextqueue;
      nextqueue := nextqueue + 1;
      queuetab[head] := QEntry(tail, EMPTY);
      queuetab[tail] := QEntry(EMPTY, head);
      assert queuetab[..] == t[head := QEntry(head + 1, EMPTY)][head + 1 := QEntry(EMPTY, head)];
      queues := queues + [[]];
      QidFields(head, tail);
      q := Qid(head, tail);
    }

    /** There is one queue, the ready list, and the tables agree. */
    ghost predicate Consistent()
      reads this, queuetab, proctab
    {
      Valid() && |queues| == 1 && IsId(readylist, 0) && Good(Now())
    }

    ghost function Now(): Procs
      requires |queues| == 1
      reads this, proctab
    {
      Procs(proctab[..], queues[0], numproc, nextpid)
    }

    /** sysinit, lines 128 to 151: only the null process exists, and the ready list is empty. */
    constructor ()
      ensures fresh(queuetab) && fresh(proctab) && Consistent() && Now() == Booted()
    {
      hide Family, Good, Booted, Qid, BadQueue, BadPid;
      numproc := 1;
      nextpid := 0;
      nextqueue := NPROC;
      queues := [];
      queuetab := new QEntry[NQENT](_ => QEntry(0, 0));
      proctab := new int[NPROC];
      new;
      for i := 0 to NPROC
        invariant forall k | 0 <= k < i :: proctab[k] == PRFREE
        invariant queues == [] && nextqueue == NPROC && numproc == 1 && nextpid == 0
        invariant fresh(queuetab) && fresh(proctab)
      {
        proctab[i] := PRFREE;
      }
      proctab[NULLPROC] := PRCURR;
      FamilyNone(queuetab[..]);
      readylist := NewQueue();
      BootedIsGood();
      BootedIs(proctab[..]);
    }

    /** ready with RESCHED_NO, for a suspended process. */
    method Ready(pid: int) returns (result: int)
      requires Consistent() && Allowed(Now(), OpReady(pid))
      modifies this`queues, queuetab, proctab
      ensures Consistent() && (result, Now()) == Processes.Ready(old(Now()), pid)
    {
      hide Family, Good, Qid, BadQueue;
      if BadPid(proctab[..], pid) {
        return SYSERR;
      }
      ghost var p := Now();
      StepKeepsGood(p, OpReady(pid));
      GoodParts(p);
      proctab[pid] := PRREADY;
      assert proctab[..] == p.states[pid := PRREADY];
      GoodId(0);
      var _ := Enqueue(pid, readylist, 0);
      return OK;
    }

    /** kill of a process that is not the current one: a ready process is removed from its queue before its slot
        is freed. */
    method Kill(pid: int) returns (result: int)
      requires Consistent() && Allowed(Now(), OpKill(pid))
      modifies this`queues, this`numproc, queuetab, proctab
      ensures Consistent() && (result, Now()) == Processes.Kill(old(Now()), pid)
    {
      hide Family, Good, Qid, BadQueue;
      if BadPid(proctab[..], pid) || proctab[pid] == PRFREE {
        return SYSERR;
      }
      ghost var p := Now();
      StepKeepsGood(p, OpKill(pid));
      GoodParts(p);
      numproc := numproc - 1;
      if proctab[pid] == PRREADY {
        ghost var u, v := SplitAt(queues[0], pid);
        var _ := Remove(pid, 0, u, v);
      }
      proctab[pid] := PRFREE;
      assert proctab[..] == p.states[pid := PRFREE];
      assert NotIn(pid, queues);
      return OK;
    }

    /** newpid: look at each slot once, from the one after the last found. */
    method FreshPid() returns (result: int)
      requires proctab.Length == NPROC && 0 <= nextpid < NPROC
      modifies this`nextpid
      ensures (result, nextpid) == NewPid(proctab[..], old(nextpid), NPROC)
    {
      for pid := 0 to NPROC
        invariant 0 <= nextpid < NPROC
        invariant NewPid(proctab[..], old(nextpid), NPROC) == NewPid(proctab[..], nextpid, NPROC - pid)
      {
        nextpid := (nextpid + 1) % NPROC;
        if proctab[nextpid] == PRFREE {
          return nextpid;
        }
      }
      return SYSERR;
    }

    /** create, up to the stack it prepares: `gotStack` says whether pgalloc found a page. */
    method Create(gotStack: bool) returns (result: int)
      requires Consistent()
      modifies this`numproc, this`nextpid, proctab
      ensures Consistent() && (result, Now()) == Processes.Create(old(Now()), gotStack)
    {
      hide Family, Good, Qid;
      ghost var p := Now();
      StepKeepsGood(p, OpCreate(gotStack));
      GoodParts(p);
      var pid := FreshPid();
      if !gotStack || pid == SYSERR {
        return SYSERR;
      }
      numproc := numproc + 1;
      proctab[pid] := PRSUSP;
      assert proctab[..] == p.states[pid := PRSUSP];
      return pid;
    }

    lemma GoodId(k: nat)
      requires k < |queues| && IsId(readylist, k)
      ensures !BadQueue(readylist)
    {
      QidFields(HeadOf(k), HeadOf(k) + 1);
    }
  }

  lemma FamilySize(t: Table, queues: seq<seq<int>>, nextqueue: int)
    requires Family(t, queues, nextqueue)
    ensures |t| == NQENT && nextqueue == HeadOf(|queues|) <= NQENT
  {
  }

  lemma FamilyFirst(t: Table, queues: seq<seq<int>>, nextqueue: int, k: nat)
    requires Family(t, queues, nextqueue) && k < |queues|
    ensures |t| == NQENT && HeadOf(k) + 1 < |t| && t[HeadOf(k)].next == Head(queues[k], HeadOf(k) + 1)
    ensures t[HeadOf(k)].next < NPROC <==> queues[k] != []
    ensures queues[k] != [] ==> t[HeadOf(k)].next >= 0
  {
    QueueParts(t, HeadOf(k), queues[k]);
    assert queues[k] != [] ==> queues[k][0] in queues[k];
  }

  lemma FamilyRange(t: Table, queues: seq<seq<int>>, nextqueue: int, k: nat, pid: int)
    requires Family(t, queues, nextqueue) && k < |queues| && pid in queues[k]
    ensures 0 <= pid < NPROC
  {
  }

  lemma RemovedKeepsNext(t: Table, queues: seq<seq<int>>, nextqueue: int, k: nat, u: seq<int>, pid: int, v: seq<int>)
    requires Family(t, queues, nextqueue) && k < |queues| && queues[k] == u + [pid] + v
    ensures 0 <= pid < |t| && t[pid].prev != pid
  {
    QueueParts(t, HeadOf(k), queues[k]);
    Parts(u, pid, v);
    RemoveDeletes(t, HeadOf(k), u, pid, v);
    assert pid in queues[k];
  }

  lemma GoneFrom(queues: seq<seq<int>>, k: nat, u: seq<int>, pid: int, v: seq<int>)
    requires Apart(queues) && k < |queues| && queues[k] == u + [pid] + v && pid !in u + v
    ensures NotIn(pid, queues[k := u + v])
  {
    assert pid in queues[k];
  }

  lemma GoodParts(p: Procs)
    requires Good(p)
    ensures |p.states| == NPROC && 0 <= p.nextpid < NPROC && NoRepeat(p.ready)
    ensures forall pid | pid in p.ready :: 0 <= pid < NPROC
    ensures forall pid | 0 <= pid < NPROC :: pid in p.ready <==> p.states[pid] == PRREADY
  {
  }

  lemma FamilyNone(t: Table)
    requires |t| == NQENT
    ensures Family(t, [], NPROC)
  {
  }

  lemma BootedIs(states: seq<int>)
    requires |states| == NPROC && states[NULLPROC] == PRCURR
    requires forall i | 0 < i < NPROC :: states[i] == PRFREE
    ensures Procs(states, [], 1, 0) == Booted()
  {
  }
}
