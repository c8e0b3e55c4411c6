/** The list of free disk blocks as a value: a chain of collector nodes, each with a block of its own
    and up to `max` block numbers, and the order in which sbGetBlock hands the blocks out. */
module FreeChain {

  datatype FNode = FNode(blk: int, count: int, entries: seq<int>)

  predicate NodeOk(n: FNode, max: nat) {
    |n.entries| == max && 0 <= n.count <= max
  }

  predicate ChainOk(chain: seq<FNode>, max: nat) {
    forall i | 0 <= i < |chain| :: NodeOk(chain[i], max)
  }

  function Live(n: FNode): seq<int> {
    if 0 <= n.count <= |n.entries| then n.entries[..n.count] else []
  }

  function Rev(s: seq<int>): (r: seq<int>)
    ensures |r| == |s|
  {
    if s == [] then [] else [s[|s| - 1]] + Rev(s[..|s| - 1])
  }

  /** What the nodes after the first give: each its own block, then its entries from the top. */
  function Later(chain: seq<FNode>): seq<int> {
    if chain == [] then [] else [chain[0].blk] + Rev(Live(chain[0])) + Later(chain[1..])
  }

  /** All free blocks in the order sbGetBlock gives them out. */
  function Handout(chain: seq<FNode>): seq<int> {
    if chain == [] then [] else Rev(Live(chain[0])) + Later(chain[1..]) + [chain[0].blk]
  }

  /** sbGetBlock on a nonempty chain: the block given out and the chain left. */
  function Get(chain: seq<FNode>): (int, seq<FNode>)
    requires chain != []
  {
    var n := chain[0];
    if 0 < n.count <= |n.entries| then
      (n.entries[n.count - 1],
       [FNode(n.blk, n.count - 1, n.entries[n.count - 1 := 0])] + chain[1..])
    else if |chain| == 1 then (n.blk, [])
    else (chain[1].blk, [Absorb(n, chain[1])] + chain[2..])
  }

  /** The first node after copying the live entries of the second. */
  function Absorb(n: FNode, n2: FNode): FNode {
    FNode(n.blk, n2.count, if 0 <= n2.count <= |n.entries| && n2.count <= |n2.entries|
                           then n2.entries[..n2.count] + n.entries[n2.count..] else n.entries)
  }

  lemma HandoutCons(n: FNode, rest: seq<FNode>)
    ensures Handout([n] + rest) == Rev(Live(n)) + Later(rest) + [n.blk]
    ensures Later([n] + rest) == [n.blk] + Rev(Live(n)) + Later(rest)
  {
    assert ([n] + rest)[1..] == rest;
  }

  lemma ChainCons(n: FNode, rest: seq<FNode>, max: nat)
    ensures ChainOk([n] + rest, max) <==> NodeOk(n, max) && ChainOk(rest, max)
  {
    var chain := [n] + rest;
    if ChainOk(chain, max) {
      assert NodeOk(chain[0], max);
      forall i | 0 <= i < |rest| ensures NodeOk(rest[i], max) { assert NodeOk(chain[i + 1], max); }
    }
    if NodeOk(n, max) && ChainOk(rest, max) {
      forall i | 0 <= i < |chain| ensures NodeOk(chain[i], max) { assert i > 0 ==> chain[i] == rest[i - 1]; }
    }
  }

  lemma ChainSnoc(rest: seq<FNode>, n: FNode, max: nat)
    ensures ChainOk(rest + [n], max) <==> NodeOk(n, max) && ChainOk(rest, max)
  {
    var chain := rest + [n];
    if ChainOk(chain, max) {
      assert NodeOk(chain[|rest|], max);
      forall i | 0 <= i < |rest| ensures NodeOk(rest[i], max) { assert NodeOk(chain[i], max); }
    }
  }

  /** In all three branches sbGetBlock pops the head of the handout sequence. */
  lemma GetPops(chain: seq<FNode>, max: nat)
    requires chain != [] && ChainOk(chain, max)
    ensures ChainOk(Get(chain).1, max)
    ensures Handout(chain) == [Get(chain).0] + Handout(Get(chain).1)
  {
    hide Handout, Later, ChainOk;
    var n, rest := chain[0], chain[1..];
    assert chain == [n] + rest;
    ChainCons(n, rest, max);
    HandoutCons(n, rest);
    if n.count > 0 {
      GetFromNode(n, rest, max);
    } else if |chain| > 1 {
      var n2, more := rest[0], rest[1..];
      assert rest == [n2] + more && more == chain[2..];
      GetFromNext(n, n2, more, max);
    } else {
      NoNodes();
    }
  }

  lemma GetFromNext(n: FNode, n2: FNode, more: seq<FNode>, max: nat)
    requires NodeOk(n, max) && n.count == 0 && ChainOk([n2] + more, max)
    ensures ChainOk([Absorb(n, n2)] + more, max)
    ensures Handout([n] + ([n2] + more)) == [n2.blk] + Handout([Absorb(n, n2)] + more)
  {
    hide Handout, Later, ChainOk;
    ChainCons(n2, more, max);
    ChainCons(Absorb(n, n2), more, max);
    assert Live(Absorb(n, n2)) == Live(n2) && Live(n) == [];
    NextMovesUp(n, n2, Absorb(n, n2), more);
  }

  /** A collector without entries and the next one hand out the same blocks as one with the next one's entries. */
  lemma NextMovesUp(n: FNode, n2: FNode, merged: FNode, more: seq<FNode>)
    requires Live(n) == [] && Live(merged) == Live(n2) && merged.blk == n.blk
    ensures Handout([n] + ([n2] + more)) == [n2.blk] + Handout([merged] + more)
  {
    hide Handout, Later, Live, Rev;
    NoNodes();
    HandoutCons(n, [n2] + more);
    HandoutCons(n2, more);
    HandoutCons(merged, more);
    var entries, rest, own := Rev(Live(n2)), Later(more), [n.blk];
    assert [] + ([n2.blk] + entries + rest) + own == [n2.blk] + (entries + rest + own);
  }

  lemma NoNodes()
    ensures Later([]) == [] && Handout([]) == [] && Rev([]) == []
  {
  }

  lemma GetFromNode(n: FNode, rest: seq<FNode>, max: nat)
    requires NodeOk(n, max) && n.count > 0 && ChainOk(rest, max)
    ensures var n' := FNode(n.blk, n.count - 1, n.entries[n.count - 1 := 0]);
            ChainOk([n'] + rest, max) && Handout([n] + rest) == [n.entries[n.count - 1]] + Handout([n'] + rest)
  {
    hide Handout, Later;
    var n' := FNode(n.blk, n.count - 1, n.entries[n.count - 1 := 0]);
    HandoutCons(n, rest);
    HandoutCons(n', rest);
    ChainCons(n', rest, max);
    assert Live(n') == Live(n)[..n.count - 1];
    assert Rev(Live(n)) == [n.entries[n.count - 1]] + Rev(Live(n'));
  }

  /** k calls of sbGetBlock. */
  function Drain(chain: seq<FNode>, k: nat): seq<FNode>
    decreases k
  {
    if k == 0 || chain == [] then chain else Drain(Get(chain).1, k - 1)
  }

  /** Draining gives the handout sequence from the front, and the list is empty exactly when all of it is out. */
  lemma {:induction false} DrainGivesHandout(chain: seq<FNode>, max: nat, k: nat)
    requires ChainOk(chain, max)
    ensures ChainOk(Drain(chain, k), max)
    ensures k <= |Handout(chain)| ==> Handout(Drain(chain, k)) == Handout(chain)[k..]
    ensures Drain(chain, k) == [] <==> k >= |Handout(chain)|
    decreases k
  {
    hide Handout, Get, ChainOk;
    NoNodes();
    if chain == [] {
    } else {
      GetPops(chain, max);
      if k > 0 {
        var h, h' := Handout(chain), Handout(Get(chain).1);
        assert k <= |h| ==> h[k..] == h'[k - 1..];
        DrainGivesHandout(Get(chain).1, max, k - 1);
      }
    }
  }

  /** The block numbers sbFreeBlock takes. */
  predicate Accepted(b: int, max: nat) {
    0 < b <= max + 1
  }

  /** What sbFreeBlock makes of the chain; `junk` is what malloc leaves in a new node. */
  function Put(chain: seq<FNode>, b: int, junk: seq<int>): seq<FNode> {
    if chain == [] then [FNode(b, 0, junk)]
    else
      var last := |chain| - 1;
      if 0 <= chain[last].count < |chain[last].entries| then
        chain[..last] + [AddEntry(chain[last], b)]
      else if last == 0 then chain
      else chain[..last - 1] + [chain[last - 1].(count := 0)]
  }

  function AddEntry(n: FNode, b: int): FNode
    requires 0 <= n.count < |n.entries|
  {
    FNode(n.blk, n.count + 1, n.entries[n.count := b])
  }

  /** Is there room for one more block without a new collector? */
  predicate Room(chain: seq<FNode>) {
    chain == [] || 0 <= chain[|chain| - 1].count < |chain[|chain| - 1].entries|
  }

  /** Where a freed block lands: in front of the last node's entries. */
  function PutPosition(chain: seq<FNode>): int {
    if |chain| <= 1 then 0 else |Handout(chain)| - 1 - |Live(chain[|chain| - 1])|
  }

  lemma {:induction false} LaterAppend(chain: seq<FNode>, n: FNode)
    ensures Later(chain + [n]) == Later(chain) + [n.blk] + Rev(Live(n))
  {
    hide Live, Rev;
    if chain == [] {
      assert chain + [n] == [n] && [n][1..] == [];
    } else {
      assert (chain + [n])[1..] == chain[1..] + [n];
      LaterAppend(chain[1..], n);
    }
  }

  lemma RevPush(s: seq<int>, b: int)
    ensures Rev(s + [b]) == [b] + Rev(s)
  {
    assert (s + [b])[..|s|] == s;
  }

  /** With room, freeing inserts the block at one place and keeps the order of all others; on a list
      of at most one node it is the next block handed out. */
  lemma PutInserts(chain: seq<FNode>, max: nat, b: int, junk: seq<int>)
    requires ChainOk(chain, max) && |junk| == max && Room(chain)
    ensures ChainOk(Put(chain, b, junk), max)
    ensures var k := PutPosition(chain);
            && 0 <= k <= |Handout(chain)|
            && Handout(Put(chain, b, junk)) == Handout(chain)[..k] + [b] + Handout(chain)[k..]
            && (|chain| <= 1 ==> k == 0)
  {
    hide Handout, Later, Rev, Live, ChainOk, AddEntry;
    if chain == [] {
      PutInNone(b, junk, max);
    } else {
      var front, n := chain[..|chain| - 1], chain[|chain| - 1];
      var n' := AddEntry(n, b);
      assert chain == front + [n] && Put(chain, b, junk) == front + [n'];
      ChainSnoc(front, n, max);
      AddedEntry(n, b, max);
      ChainSnoc(front, n', max);
      if front == [] {
        PutInOne(n, n', b);
      } else {
        var rest := front[1..];
        assert front == [front[0]] + rest && [front[0]] + rest + [n] == [front[0]] + (rest + [n]);
        assert [front[0]] + rest + [n'] == [front[0]] + (rest + [n']);
        PutInLast(front[0], rest, n, n', b);
      }
    }
  }

  lemma PutInNone(b: int, junk: seq<int>, max: nat)
    requires |junk| == max
    ensures ChainOk([FNode(b, 0, junk)], max) && Handout([FNode(b, 0, junk)]) == [b] && Handout([]) == []
  {
    hide Handout, Later, Rev, ChainOk;
    var n := FNode(b, 0, junk);
    assert [n] == [n] + [] && Live(n) == [];
    NoNodes();
    HandoutCons(n, []);
    ChainCons(n, [], max);
    EmptyOk(max);
  }

  lemma AddedEntry(n: FNode, b: int, max: nat)
    requires NodeOk(n, max) && n.count < max
    ensures var n' := AddEntry(n, b);
            && NodeOk(n', max) && n'.blk == n.blk && Rev(Live(n')) == [b] + Rev(Live(n))
  {
    hide Rev;
    assert Live(AddEntry(n, b)) == Live(n) + [b];
    RevPush(Live(n), b);
  }

  lemma PutInOne(n: FNode, n': FNode, b: int)
    requires n'.blk == n.blk && Rev(Live(n')) == [b] + Rev(Live(n))
    ensures Handout([] + [n']) == [b] + Handout([] + [n])
  {
    hide Handout, Later, Rev, Live;
    NoNodes();
    assert [] + [n] == [n] + [] && [] + [n'] == [n'] + [];
    HandoutCons(n, []);
    HandoutCons(n', []);
    assert [b] + Rev(Live(n)) + [] + [n.blk] == [b] + (Rev(Live(n)) + [] + [n.blk]);
  }

  lemma EmptyOk(max: nat)
    ensures ChainOk([], max)
  {
  }

  lemma PutInLast(n0: FNode, front: seq<FNode>, n: FNode, n': FNode, b: int)
    requires n'.blk == n.blk && Rev(Live(n')) == [b] + Rev(Live(n))
    ensures var h := Handout([n0] + (front + [n]));
            var k := |h| - 1 - |Live(n)|;
            0 <= k <= |h| && Handout([n0] + (front + [n'])) == h[..k] + [b] + h[k..]
  {
    hide Handout, Later, Live;
    HandoutCons(n0, front + [n]);
    HandoutCons(n0, front + [n']);
    LaterAppend(front, n);
    LaterAppend(front, n');
    var h := Rev(Live(n0)) + Later(front) + [n.blk];
    var t := Rev(Live(n)) + [n0.blk];
    assert Handout([n0] + (front + [n])) == h + t;
    assert Handout([n0] + (front + [n'])) == h + [b] + t;
  }

  /** sbFreeBlock conserves blocks exactly when the list is empty or its last node has room; otherwise
      it loses the block and every entry of the last two nodes.  (A single full node is left out: there
      the source writes through an uninitialised pointer.) */
  lemma PutConservesIff(chain: seq<FNode>, max: nat, b: int, junk: seq<int>)
    requires ChainOk(chain, max) && |junk| == max && (|chain| == 1 ==> Room(chain))
    ensures multiset(Handout(Put(chain, b, junk))) == multiset(Handout(chain)) + multiset{b} <==> Room(chain)
  {
    var h, h' := Handout(chain), Handout(Put(chain, b, junk));
    if Room(chain) {
      PutInserts(chain, max, b, junk);
      Inserted(h, PutPosition(chain), b);
    } else {
      PutLoses(chain, max, b, junk, b);
      Sizes(h', h, b);
    }
  }

  lemma Inserted(h: seq<int>, k: int, b: int)
    requires 0 <= k <= |h|
    ensures multiset(h[..k] + [b] + h[k..]) == multiset(h) + multiset{b}
  {
    assert h == h[..k] + h[k..];
  }

  lemma Sizes(h': seq<int>, h: seq<int>, b: int)
    ensures multiset(h') == multiset(h) + multiset{b} ==> |h'| == |h| + 1
  {
    if multiset(h') == multiset(h) + multiset{b} {
      assert |multiset(h')| == |h'|;
      assert |multiset(h) + multiset{b}| == |h| + 1;
    }
  }

  /** How often b occurs in s. */
  function Times(s: seq<int>, b: int): nat {
    if s == [] then 0 else (if s[0] == b then 1 else 0) + Times(s[1..], b)
  }

  lemma {:induction false} TimesAppend(s: seq<int>, t: seq<int>, b: int)
    ensures Times(s + t, b) == Times(s, b) + Times(t, b)
  {
    if s == [] {
      assert s + t == t;
    } else {
      assert (s + t)[1..] == s[1..] + t;
      TimesAppend(s[1..], t, b);
    }
  }

  lemma TimesOne(x: int, b: int)
    ensures Times([x], b) == if x == b then 1 else 0
  {
    assert [x][1..] == [];
  }

  /** A block that occurs at two places occurs at least twice. */
  lemma {:induction false} TimesTwice(s: seq<int>, i: int, j: int)
    requires 0 <= i < j < |s| && s[i] == s[j]
    ensures Times(s, s[i]) >= 2
  {
    if i == 0 {
      TimesIn(s[1..], j - 1);
    } else {
      TimesTwice(s[1..], i - 1, j - 1);
    }
  }

  lemma {:induction false} TimesIn(s: seq<int>, i: int)
    requires 0 <= i < |s|
    ensures Times(s, s[i]) >= 1
  {
    if i == 0 {
    } else {
      TimesIn(s[1..], i - 1);
    }
  }

  lemma {:induction false} TimesNotIn(s: seq<int>, b: int)
    requires b !in s
    ensures Times(s, b) == 0
  {
    if s == [] {
    } else {
      TimesNotIn(s[1..], b);
    }
  }

  lemma {:induction false} TimesRev(s: seq<int>, b: int)
    ensures Times(Rev(s), b) == Times(s, b)
  {
    if s == [] {
    } else {
      var last := |s| - 1;
      TimesRev(s[..last], b);
      TimesAppend([s[last]], Rev(s[..last]), b);
      TimesAppend(s[..last], [s[last]], b);
      assert s == s[..last] + [s[last]];
    }
  }

  /** The full-last-node branch gives the block to nobody and loses the last collector, all its entries and the
      entries of the collector before it; every other free block stays. */
  lemma PutLoses(chain: seq<FNode>, max: nat, b: int, junk: seq<int>, x: int)
    requires ChainOk(chain, max) && |chain| >= 2 && !Room(chain)
    ensures var n, p := chain[|chain| - 1], chain[|chain| - 2];
            && Times(Handout(chain), x)
               == Times(Handout(Put(chain, b, junk)), x) + Times([n.blk], x) + Times(n.entries, x) + Times(Live(p), x)
            && |Handout(Put(chain, b, junk))| == |Handout(chain)| - (1 + max) - p.count
  {
    hide Handout, Times, Rev, ChainOk;
    var kept, own := CutParts(chain, max, b, junk);
    var n, p := chain[|chain| - 1], chain[|chain| - 2];
    CutTimes(kept, Live(p), [n.blk], n.entries, [own], x);
  }

  /** ... where it loses them: the blocks `kept` stay in front, and the first collector's own block at the end. */
  lemma CutParts(chain: seq<FNode>, max: nat, b: int, junk: seq<int>) returns (kept: seq<int>, own: int)
    requires ChainOk(chain, max) && |chain| >= 2 && !Room(chain)
    ensures var n, p := chain[|chain| - 1], chain[|chain| - 2];
            && Handout(chain) == kept + (Rev(Live(p)) + ([n.blk] + (Rev(n.entries) + [own])))
            && Handout(Put(chain, b, junk)) == kept + [own]
            && |n.entries| == max && |Live(p)| == p.count
  {
    hide Handout, Later, Rev, Live, Put, ChainOk;
    var n, p := chain[|chain| - 1], chain[|chain| - 2];
    CutShape(chain, max, b, junk);
    if |chain| == 2 {
      kept, own := [], p.blk;
      assert chain == [p] + [n] && chain[..0] + [p.(count := 0)] == [p.(count := 0)] + [];
      CutTwo(p, n);
    } else {
      var front, f := chain[1..|chain| - 2], chain[0];
      kept, own := Rev(Live(f)) + Later(front) + [p.blk], f.blk;
      LastTwo(chain, p.(count := 0));
      CutMore(f, front, p, n);
    }
  }

  /** What sbFreeBlock makes of the list there, and what its last two nodes hold. */
  lemma CutShape(chain: seq<FNode>, max: nat, b: int, junk: seq<int>)
    requires ChainOk(chain, max) && |chain| >= 2 && !Room(chain)
    ensures var n, p := chain[|chain| - 1], chain[|chain| - 2];
            && Live(n) == n.entries && |n.entries| == max && |Live(p)| == p.count && Live(p.(count := 0)) == []
            && Put(chain, b, junk) == chain[..|chain| - 2] + [p.(count := 0)]
  {
    assert NodeOk(chain[|chain| - 1], max) && NodeOk(chain[|chain| - 2], max);
  }

  lemma LastTwo(chain: seq<FNode>, p': FNode)
    requires |chain| > 2
    ensures var front, f, n, p := chain[1..|chain| - 2], chain[0], chain[|chain| - 1], chain[|chain| - 2];
            chain == [f] + ((front + [p]) + [n]) && chain[..|chain| - 2] + [p'] == [f] + (front + [p'])
  {
    var front, f, n, p := chain[1..|chain| - 2], chain[0], chain[|chain| - 1], chain[|chain| - 2];
    assert chain[..|chain| - 2] == [f] + front;
    assert chain == chain[..|chain| - 2] + [p, n];
    assert [f] + front + [p, n] == [f] + ((front + [p]) + [n]);
    assert [f] + front + [p'] == [f] + (front + [p']);
  }

  lemma CutTwo(p: FNode, n: FNode)
    ensures Handout([p] + [n]) == [] + (Rev(Live(p)) + ([n.blk] + (Rev(Live(n)) + [p.blk])))
    ensures Live(p.(count := 0)) == [] ==> Handout([p.(count := 0)] + []) == [] + [p.blk]
  {
    hide Handout, Later, Live;
    NoNodes();
    assert [n] == [n] + [];
    HandoutCons(p, [n]);
    HandoutCons(n, []);
    HandoutCons(p.(count := 0), []);
  }

  lemma CutMore(f: FNode, front: seq<FNode>, p: FNode, n: FNode)
    ensures Handout([f] + ((front + [p]) + [n]))
         == Rev(Live(f)) + Later(front) + [p.blk] + (Rev(Live(p)) + ([n.blk] + (Rev(Live(n)) + [f.blk])))
    ensures Live(p.(count := 0)) == [] ==>
              Handout([f] + (front + [p.(count := 0)])) == Rev(Live(f)) + Later(front) + [p.blk] + [f.blk]
  {
    hide Handout, Later, Live, Rev;
    NoNodes();
    HandoutCons(f, (front + [p]) + [n]);
    LaterAppend(front + [p], n);
    LaterAppend(front, p);
    Regroup(Rev(Live(f)), Later(front), [p.blk], Rev(Live(p)), [n.blk], Rev(Live(n)), [f.blk]);
    HandoutCons(f, front + [p.(count := 0)]);
    LaterAppend(front, p.(count := 0));
    if Live(p.(count := 0)) == [] {
      assert Later(front) + [p.blk] + [] == Later(front) + [p.blk];
      assert Rev(Live(f)) + (Later(front) + [p.blk]) == Rev(Live(f)) + Later(front) + [p.blk];
    }
  }

  lemma Regroup(a: seq<int>, b: seq<int>, c: seq<int>, d: seq<int>, e: seq<int>, g: seq<int>, h: seq<int>)
    ensures a + (b + c + d + e + g) + h == a + b + c + (d + (e + (g + h)))
  {
  }

  lemma CutTimes(a: seq<int>, s: seq<int>, c: seq<int>, t: seq<int>, e: seq<int>, x: int)
    ensures Times(a + (Rev(s) + (c + (Rev(t) + e))), x) == Times(a + e, x) + Times(c, x) + Times(t, x) + Times(s, x)
  {
    hide Times, Rev;
    TimesAppend(a, Rev(s) + (c + (Rev(t) + e)), x);
    TimesAppend(Rev(s), c + (Rev(t) + e), x);
    TimesAppend(c, Rev(t) + e, x);
    TimesAppend(Rev(t), e, x);
    TimesAppend(a, e, x);
    TimesRev(s, x);
    TimesRev(t, x);
  }
}
