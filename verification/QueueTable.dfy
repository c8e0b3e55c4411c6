/** The process queues as a value: one table of next and previous indices in which every queue is a doubly
    linked run from its head entry, through process ids, to its tail entry. */
module QueueTable {
  import opened Bits

  const NPROC := 50
  const NQENT := NPROC + 24
  const EMPTY: int := -2

  datatype QEntry = QEntry(next: int, prev: int)

  type Table = seq<QEntry>

  /** `x & 0xFFFF` */
  function And16(x: Word): (r: Word)
    ensures r == x % 0x1_0000
  {
    Masked16(x);
    And(x, 0xFFFF)
  }

  lemma Masked16(x: nat)
    ensures And(x, 0xFFFF) == Low(x, 16) == x % 0x1_0000 <= x
  {
    Pow16();
    AndOnes(x, 16);
    ShiftBy(x, 16, 0x1_0000);
  }

  lemma Pow16()
    ensures Pow2(16) == 0x1_0000
  {
    assert Pow2(8) == 0x100;
  }

  /** `x >> 16` */
  function Shr16(x: Word): (r: Word)
    ensures r == x / 0x1_0000
  {
    Pow16();
    ShiftBy(x, 16, 0x1_0000);
    Shr(x, 16)
  }

  /** A queue id packs the head and tail entries' indices. */
  function Qid(head: Word, tail: Word): Word {
    BitOr(Shl(head, 16), And16(tail))
  }

  function QueueHead(q: Word): Word {
    And16(Shr16(q))
  }

  function QueueTail(q: Word): Word {
    And16(q)
  }

  predicate BadQueue(q: Word) {
    QueueHead(q) != QueueTail(q) - 1 || QueueTail(q) >= NQENT
  }

  /** A queue id as a number. */
  lemma QidValue(head: Word, tail: Word)
    requires head < 0x1_0000 && tail < 0x1_0000
    ensures Qid(head, tail) == 0x1_0000 * head + tail
  {
    hide And, Or, Shr, Low, Pow2;
    Pow16();
    var h: Word := head * 0x1_0000;
    DivUnique(h, TWO64, 0, h);
    var q := Qid(head, tail);
    assert q == Or(h, tail) by { DivUnique(tail, 0x1_0000, 0, tail); }
    FieldsAct(h, tail, 16);
    ShiftBy(h, 16, 0x1_0000);
    ShiftBy(tail, 16, 0x1_0000);
    ShiftBy(q, 16, 0x1_0000);
    DivUnique(h, 0x1_0000, head, 0);
    DivUnique(tail, 0x1_0000, 0, tail);
    OrZero(head);
    OrZero(tail);
  }

  /** queuehead and queuetail undo the packing. */
  lemma QidFields(head: Word, tail: Word)
    requires head < 0x1_0000 && tail < 0x1_0000
    ensures QueueHead(Qid(head, tail)) == head && QueueTail(Qid(head, tail)) == tail
  {
    hide Qid;
    QidValue(head, tail);
    DivUnique(Qid(head, tail), 0x1_0000, head, tail);
    DivUnique(head, 0x1_0000, 0, head);
  }

  /** newqueue could have packed q from entry head and the one after it. */
  predicate PackedFrom(q: Word, head: int) {
    0 <= head && head + 1 < NQENT && q % 0x1_0000_0000 == Qid(head, head + 1)
  }

  /** isbadqueue accepts exactly the ids of two neighbouring entries of the table, whatever the upper 32 bits. */
  lemma GoodIds(q: Word)
    ensures !BadQueue(q) <==> exists head :: PackedFrom(q, head)
  {
    hide Qid, QueueHead, QueueTail;
    var head, tail := QueueHead(q), QueueTail(q);
    FieldsOf(q);
    if !BadQueue(q) {
      QidValue(head, tail);
      assert PackedFrom(q, head);
    }
    if h :| PackedFrom(q, h) {
      QidValue(h, h + 1);
      DivUnique(0x1_0000 * h + (h + 1), 0x1_0000, h, h + 1);
      DivUnique(0x1_0000 * head + tail, 0x1_0000, head, tail);
    }
  }

  lemma FieldsOf(q: Word)
    ensures QueueHead(q) < 0x1_0000 && QueueTail(q) < 0x1_0000
    ensures q % 0x1_0000_0000 == 0x1_0000 * QueueHead(q) + QueueTail(q)
  {
    DivUnique(q, 0x1_0000_0000, q / 0x1_0000 / 0x1_0000, 0x1_0000 * (q / 0x1_0000 % 0x1_0000) + q % 0x1_0000);
  }

  predicate Joined(t: Table, a: int, b: int) {
    0 <= a < |t| && 0 <= b < |t| && t[a].next == b && t[b].prev == a
  }

  /** From entry a through the entries s to entry z, linked both ways. */
  predicate Chain(t: Table, a: int, s: seq<int>, z: int)
    decreases |s|
  {
    if s == [] then Joined(t, a, z) else Joined(t, a, s[0]) && Chain(t, s[0], s[1..], z)
  }

  function Last(a: int, s: seq<int>): int {
    if s == [] then a else s[|s| - 1]
  }

  function Head(s: seq<int>, z: int): int {
    if s == [] then z else s[0]
  }

  ghost predicate NoRepeat(s: seq<int>) {
    forall i, j | 0 <= i < j < |s| :: s[i] != s[j]
  }

  /** The entries head and head + 1 delimit a queue that holds the pids s. */
  ghost predicate Queue(t: Table, head: int, s: seq<int>) {
    && NPROC <= head && head + 1 < |t|
    && (forall p | p in s :: 0 <= p < NPROC) && NoRepeat(s)
    && t[head].prev == EMPTY && t[head + 1].next == EMPTY
    && Chain(t, head, s, head + 1)
  }

  function HeadOf(k: int): int {
    NPROC + 2 * k
  }

  ghost predicate NotIn(p: int, queues: seq<seq<int>>) {
    forall k | 0 <= k < |queues| :: p !in queues[k]
  }

  /** Queue k has the k-th pair of entries after the processes' own, and no process is in two queues. */
  ghost predicate Family(t: Table, queues: seq<seq<int>>, nextqueue: int) {
    && |t| == NQENT && nextqueue == HeadOf(|queues|) <= NQENT
    && (forall k | 0 <= k < |queues| :: Queue(t, HeadOf(k), queues[k]))
    && Apart(queues)
  }

  ghost predicate Apart(queues: seq<seq<int>>) {
    forall k, l, p | 0 <= k < l < |queues| && p in queues[k] :: p !in queues[l]
  }

  lemma {:induction false} ChainEnds(t: Table, a: int, s: seq<int>, z: int)
    requires Chain(t, a, s, z)
    ensures 0 <= a < |t| && 0 <= z < |t| && t[a].next == Head(s, z) && t[z].prev == Last(a, s)
    ensures forall p | p in s :: 0 <= p < |t|
    decreases |s|
  {
    if s == [] {
    } else {
      assert s == [s[0]] + s[1..];
      ChainEnds(t, s[0], s[1..], z);
    }
  }

  /** Tables with the same links on a run have the same run. */
  lemma {:induction false} ChainFrame(t: Table, t': Table, a: int, s: seq<int>, z: int)
    requires Chain(t, a, s, z) && |t'| == |t|
    requires forall x | 0 <= x < |t| && (x == a || x in s) :: t'[x].next == t[x].next
    requires forall x | 0 <= x < |t| && (x == z || x in s) :: t'[x].prev == t[x].prev
    ensures Chain(t', a, s, z)
    decreases |s|
  {
    if s == [] {
    } else {
      assert s[0] in s;
      ChainFrame(t, t', s[0], s[1..], z);
    }
  }

  /** Ending a run at another entry: only the link at its end changes. */
  lemma {:induction false} ChainRetarget(t: Table, t': Table, a: int, s: seq<int>, z: int, z': int)
    requires Chain(t, a, s, z) && |t'| == |t| && Joined(t', Last(a, s), z')
    requires NoRepeat([a] + s)
    requires forall x | 0 <= x < |t| && (x == a || x in s) && x != Last(a, s) :: t'[x].next == t[x].next
    requires forall x | 0 <= x < |t| && x in s :: t'[x].prev == t[x].prev
    ensures Chain(t', a, s, z')
    decreases |s|
  {
    if s == [] {
    } else {
      assert s[0] in s && ([a] + s)[0] == a && ([a] + s)[|s|] == Last(a, s);
      assert [s[0]] + s[1..] == s;
      TailNoRepeat(a, s);
      assert Last(s[0], s[1..]) == Last(a, s);
      ChainRetarget(t, t', s[0], s[1..], z, z');
    }
  }

  lemma TailNoRepeat(a: int, s: seq<int>)
    requires NoRepeat([a] + s)
    ensures NoRepeat(s) && a !in s
  {
    var u := [a] + s;
    forall i, j | 0 <= i < j < |s| ensures s[i] != s[j] {
      assert u[i + 1] != u[j + 1];
    }
    forall i | 0 <= i < |s| ensures s[i] != a {
      assert u[0] != u[i + 1];
    }
  }

  /** A run is its part up to an inner entry and its part after it. */
  lemma {:induction false} ChainSplit(t: Table, a: int, u: seq<int>, p: int, v: seq<int>, z: int)
    ensures Chain(t, a, u + [p] + v, z) <==> Chain(t, a, u, p) && Chain(t, p, v, z)
    decreases |u|
  {
    var s := u + [p] + v;
    if u == [] {
      assert s == [p] + v && s[1..] == v;
    } else {
      assert s[0] == u[0] && s[1..] == u[1..] + [p] + v;
      ChainSplit(t, u[0], u[1..], p, v, z);
    }
  }

  /** The table after enqueue's four assignments. */
  function Enqueued(t: Table, pid: int, tail: int): (r: Table)
    requires 0 <= pid < |t| && 0 <= tail < |t| && 0 <= t[tail].prev < |t| && pid != tail
  {
    var last := t[tail].prev;
    var t1 := t[pid := QEntry(tail, last)];
    var t2 := t1[last := t1[last].(next := pid)];
    t2[tail := t2[tail].(prev := pid)]
  }

  /** enqueue appends to its queue. */
  lemma EnqueueAppends(t: Table, head: int, s: seq<int>, pid: int)
    requires Queue(t, head, s) && 0 <= pid < NPROC && pid !in s
    ensures 0 <= t[head + 1].prev < |t| && Queue(Enqueued(t, pid, head + 1), head, s + [pid])
  {
    var tail := head + 1;
    ChainEnds(t, head, s, tail);
    assert Last(head, s) == head || Last(head, s) in s;
    var t' := Enqueued(t, pid, tail);
    HeadNotIn(head, s);
    ChainRetarget(t, t', head, s, tail, pid);
    assert s + [pid] + [] == s + [pid];
    ChainSplit(t', head, s, pid, [], tail);
  }

  lemma HeadNotIn(head: int, s: seq<int>)
    requires NoRepeat(s) && head !in s
    ensures NoRepeat([head] + s)
  {
  }

  /** ... and leaves a queue it shares no entry with alone. */
  lemma EnqueueElsewhere(t: Table, head: int, s: seq<int>, pid: int, head': int, s': seq<int>)
    requires Queue(t, head, s) && Queue(t, head', s') && 0 <= pid < NPROC && pid !in s'
    requires head' != head && head' != head + 1 && head' + 1 != head && forall p | p in s :: p !in s'
    ensures 0 <= t[head + 1].prev < |t| && Queue(Enqueued(t, pid, head + 1), head', s')
  {
    ChainEnds(t, head, s, head + 1);
    assert Last(head, s) == head || Last(head, s) in s;
    ChainFrame(t, Enqueued(t, pid, head + 1), head', s', head' + 1);
  }

  /** The table after remove's two assignments. */
  function Removed(t: Table, pid: int): (r: Table)
    requires 0 <= pid < |t| && 0 <= t[pid].prev < |t| && 0 <= t[pid].next < |t|
  {
    var t1 := t[t[pid].prev := t[t[pid].prev].(next := t[pid].next)];
    if 0 <= t1[pid].next < |t1| then t1[t1[pid].next := t1[t1[pid].next].(prev := t1[pid].prev)] else t1
  }

  /** remove takes a process out of the middle of its queue. */
  lemma RemoveDeletes(t: Table, head: int, u: seq<int>, pid: int, v: seq<int>)
    requires Queue(t, head, u + [pid] + v)
    ensures 0 <= pid < |t| && t[pid].prev == Last(head, u) && t[pid].next == Head(v, head + 1)
    ensures 0 <= t[pid].prev < |t| && 0 <= t[pid].next < |t| && Queue(Removed(t, pid), head, u + v)
  {
    hide Chain, NoRepeat;
    var s, tail := u + [pid] + v, head + 1;
    Parts(u, pid, v);
    ChainSplit(t, head, u, pid, v, tail);
    ChainEnds(t, head, u, pid);
    ChainEnds(t, pid, v, tail);
    assert forall p | p in u || p == pid || p in v :: p in s;
    assert Last(head, u) == head || Last(head, u) in u;
    assert Head(v, tail) == tail || Head(v, tail) in v;
    HeadNotIn(head, u);
    var t' := Removed(t, pid);
    var z := Head(v, tail);
    assert Joined(t', Last(head, u), z);
    ChainRetarget(t, t', head, u, pid, z);
    ChainTail(t, pid, v, tail);
    CutJoins(t, t', head, u, v, tail);
  }

  lemma ChainTail(t: Table, a: int, s: seq<int>, z: int)
    requires Chain(t, a, s, z)
    ensures s != [] ==> Chain(t, s[0], s[1..], z)
  {
  }

  /** The two sides of a removed entry make one run. */
  lemma CutJoins(t: Table, t': Table, a: int, u: seq<int>, v: seq<int>, z: int)
    requires |t'| == |t| && Chain(t', a, u, Head(v, z)) && NoRepeat(v) && z !in v
    requires v != [] ==> Chain(t, v[0], v[1..], z)
    requires forall x | 0 <= x < |t| && x in v :: t'[x].next == t[x].next
    requires forall x | 0 <= x < |t| && (x == z || x in v) && x != Head(v, z) :: t'[x].prev == t[x].prev
    ensures Chain(t', a, u + v, z)
  {
    if v == [] {
      assert u + v == u;
    } else {
      assert [v[0]] + v[1..] == v;
      TailNoRepeat(v[0], v[1..]);
      ChainFrame(t, t', v[0], v[1..], z);
      assert u + v == u + [v[0]] + v[1..];
      ChainSplit(t', a, u, v[0], v[1..], z);
    }
  }

  lemma Parts(u: seq<int>, pid: int, v: seq<int>)
    requires NoRepeat(u + [pid] + v)
    ensures NoRepeat(u) && NoRepeat(v) && NoRepeat(u + v) && pid !in u && pid !in v
    ensures forall p | p in u :: p !in v
  {
    var s := u + [pid] + v;
    forall i, j | 0 <= i < j < |u| ensures u[i] != u[j] { assert s[i] != s[j]; }
    forall i, j | 0 <= i < j < |v| ensures v[i] != v[j] { assert s[|u| + 1 + i] != s[|u| + 1 + j]; }
    forall i, j | 0 <= i < |u| && 0 <= j < |v| ensures u[i] != v[j] { assert s[i] != s[|u| + 1 + j]; }
    forall i | 0 <= i < |u| ensures u[i] != pid { assert s[i] != s[|u|]; }
    forall j | 0 <= j < |v| ensures v[j] != pid { assert s[|u|] != s[|u| + 1 + j]; }
  }

  lemma RemoveElsewhere(t: Table, head: int, s: seq<int>, pid: int, head': int, s': seq<int>)
    requires Queue(t, head', s') && 0 <= pid < NPROC <= head && pid !in s'
    requires 0 <= t[pid].prev < |t| && 0 <= t[pid].next < |t|
    requires t[pid].prev in [head] + s && t[pid].next in s + [head + 1]
    requires head' != head && head' != head + 1 && head' + 1 != head && forall p | p in s :: p !in s' && 0 <= p < NPROC
    ensures Queue(Removed(t, pid), head', s')
  {
    ChainFrame(t, Removed(t, pid), head', s', head' + 1);
  }
}
