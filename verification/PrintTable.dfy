/** testcases.c, printPageTable: a recursive walk that reports one line for each entry in use. */
module PrintTable {
  import opened Bits
  import opened SafeMem
  import opened PageTables
  import opened PageRanges
  import opened MapSteps
  import opened Runs
  import opened Sv39

  datatype Line = LeafLine(index: nat) | LinkLine(index: nat)

  predicate IsLeaf(e: Word) {
    Has(e, PTE_R) || Has(e, PTE_W) || Has(e, PTE_X)
  }

  /** The lines for entries i .. 511 of a table: its own and, after each link, those of the table below. */
  function Lines(m: Mem, p: nat, level: nat, i: nat): seq<Line>
    requires i <= 512
    decreases level, 512 - i
  {
    if i == 512 then []
    else
      var e := At(m, p, i);
      (if IsLeaf(e) then [LeafLine(i)]
       else if Has(e, PTE_V) then [LinkLine(i)] + (if level == 0 then [] else Lines(m, Child(e), level - 1, 0))
       else [])
      + Lines(m, p, level, i + 1)
  }

  /** How many pages one entry of a table of this level covers. */
  function Span(level: nat): nat {
    if level == 0 then 1 else if level == 1 then 512 else 0x4_0000
  }

  /** The leaf slot for the page at offset `off` of the range a table covers. */
  function Slot(m: Mem, p: nat, level: nat, off: nat): Word
    decreases level
  {
    if level == 0 then At(m, p, off)
    else
      var e := At(m, p, off / Span(level));
      if Valid(e) then Slot(m, Child(e), level - 1, off % Span(level)) else 0
  }

  /** Every mapped page of the table can be read, written or executed. */
  ghost predicate Visible(m: Mem, p: nat, level: nat) {
    forall off: nat | off < 512 * Span(level) && Slot(m, p, level, off) != 0 :: IsLeaf(Slot(m, p, level, off))
  }

  /** The indices reported as leaves. */
  function Leaves(lines: seq<Line>): seq<nat> {
    if lines == [] then []
    else (if lines[0].LeafLine? then [lines[0].index] else []) + Leaves(lines[1..])
  }

  lemma LeavesCons(x: Line, rest: seq<Line>)
    ensures Leaves([x] + rest) == (if x.LeafLine? then [x.index] else []) + Leaves(rest)
  {
    assert ([x] + rest)[1..] == rest;
  }

  lemma {:induction false} LeavesAppend(a: seq<Line>, b: seq<Line>)
    ensures Leaves(a + b) == Leaves(a) + Leaves(b)
  {
    hide Leaves;
    if a == [] {
      NoLeaves();
      assert a + b == b;
    } else {
      var x, rest := a[0], a[1..];
      LeavesAppend(rest, b);
      LeavesCons(x, rest);
      LeavesCons(x, rest + b);
      assert a == [x] + rest && a + b == [x] + (rest + b);
    }
  }

  lemma NoLeaves()
    ensures Leaves([]) == []
  {
  }

  /** One reported leaf for each page, in order: `pages` are the mapped offsets from lo on, ascending. */
  ghost predicate Reports(m: Mem, p: nat, level: nat, lo: nat, lines: seq<Line>, pages: seq<nat>) {
    && |Leaves(lines)| == |pages|
    && (forall k | 0 <= k < |pages| :: lo <= pages[k] < 512 * Span(level) && Leaves(lines)[k] == pages[k] % 512)
    && (forall j, k | 0 <= j < k < |pages| :: pages[j] < pages[k])
    && (forall off: nat | lo <= off < 512 * Span(level) :: off in pages <==> Slot(m, p, level, off) != 0)
  }

  /** The view of a tree is its slots, offset from page 0. */
  lemma SlotIsView(m: Mem, r: nat, v: nat)
    requires v < 0x800_0000
    ensures Slot(m, r, 2, v) == View(m, r, v)
  {
    SplitOffset(v);
    var e, off := At(m, r, v / 0x4_0000), v % 0x4_0000;
    assert Slot(m, r, 2, v) == if Valid(e) then Slot(m, Child(e), 1, off) else 0;
    var e1 := At(m, Child(e), off / 512);
    assert Slot(m, Child(e), 1, off) == if Valid(e1) then Slot(m, Child(e1), 0, off % 512) else 0;
  }

  lemma SplitOffset(v: nat)
    ensures v % 0x4_0000 / 512 == v / 512 % 512 && v % 0x4_0000 % 512 == v % 512
  {
    var q, off := v / 0x4_0000, v % 0x4_0000;
    var b, d := off / 512, off % 512;
    DivUnique(v, 512, q * 512 + b, d);
    DivUnique(q * 512 + b, 512, q, b);
  }

  function Shift(s: seq<nat>, d: nat): (r: seq<nat>)
    ensures |r| == |s| && forall k | 0 <= k < |s| :: r[k] == s[k] + d
  {
    if s == [] then [] else [s[0] + d] + Shift(s[1..], d)
  }

  lemma LeavesOne(i: nat)
    ensures Leaves([LeafLine(i)]) == [i] && Leaves([LinkLine(i)]) == [] && Leaves([]) == []
  {
    assert [LeafLine(i)][1..] == [] && [LinkLine(i)][1..] == [];
  }

  lemma LineOf(m: Mem, p: nat, level: nat, i: nat)
    requires i < 512
    ensures var e, more := At(m, p, i), Lines(m, p, level, i + 1);
            Leaves(Lines(m, p, level, i))
            == (if IsLeaf(e) then [i]
                else if Has(e, PTE_V) && level > 0 then Leaves(Lines(m, Child(e), level - 1, 0))
                else []) + Leaves(more)
  {
    hide At, Child, Has, IsLeaf;
    var e, more := At(m, p, i), Lines(m, p, level, i + 1);
    var below := if level == 0 then [] else Lines(m, Child(e), level - 1, 0);
    LeavesOne(i);
    LeavesAppend([LeafLine(i)], more);
    LeavesAppend([LinkLine(i)], below);
    LeavesAppend([LinkLine(i)] + below, more);
    LeavesAppend([], more);
  }

  /** Entry i of a table answers for Span(level) offsets. */
  lemma EntrySlot(m: Mem, p: nat, level: nat, i: nat, off: nat)
    requires 0 < level <= 2 && i * Span(level) <= off < (i + 1) * Span(level)
    ensures var e := At(m, p, i);
            Slot(m, p, level, off) == if Valid(e) then Slot(m, Child(e), level - 1, off - i * Span(level)) else 0
  {
    Next(level, i);
    DivUnique(off, Span(level), i, off - i * Span(level));
  }

  /** An entry with nothing below it adds nothing. */
  lemma SkipReport(m: Mem, p: nat, level: nat, i: nat, lines: seq<Line>, rest: seq<nat>)
    requires i < 512 && level <= 2 && Reports(m, p, level, (i + 1) * Span(level), lines, rest)
    requires forall off: nat | i * Span(level) <= off < (i + 1) * Span(level) :: Slot(m, p, level, off) == 0
    ensures Reports(m, p, level, i * Span(level), lines, rest)
  {
    hide Slot;
    Next(level, i);
  }

  lemma Next(level: nat, i: nat)
    requires level <= 2
    ensures (i + 1) * Span(level) == i * Span(level) + Span(level)
    ensures i < 512 ==> (i + 1) * Span(level) <= 512 * Span(level)
    ensures level > 0 ==> Span(level) == 512 * Span(level - 1) && i * Span(level) % 512 == 0
  {
    if level > 0 {
      DivUnique(i * Span(level), 512, i * Span(level - 1), 0);
    }
  }

  /** An entry's pages come before those of the entries after it. */
  lemma JoinReports(m: Mem, p: nat, level: nat, i: nat, mine: seq<nat>, indices: seq<nat>, lines: seq<Line>,
                    rest: seq<nat>,
                    all: seq<Line>)
    requires i < 512 && level <= 2 && Reports(m, p, level, (i + 1) * Span(level), lines, rest)
    requires Leaves(all) == indices + Leaves(lines) && |indices| == |mine|
    requires forall k | 0 <= k < |mine| ::
               i * Span(level) <= mine[k] < (i + 1) * Span(level) && indices[k] == mine[k] % 512
    requires forall j, k | 0 <= j < k < |mine| :: mine[j] < mine[k]
    requires forall off: nat | i * Span(level) <= off < (i + 1) * Span(level) ::
               off in mine <==> Slot(m, p, level, off) != 0
    ensures Reports(m, p, level, i * Span(level), all, mine + rest)
  {
    hide Slot, Span, Leaves;
    Next(level, i);
  }

  /** The lines of a table report each of its mapped pages once. */
  lemma {:induction false} LinesReport(m: Mem, own: Roles, p: nat, level: nat, i: nat) returns (pages: seq<nat>)
    requires Trees(m, own) && IsTable(own, p, level) && level <= 2 && Visible(m, p, level) && i <= 512
    ensures Reports(m, p, level, i * Span(level), Lines(m, p, level, i), pages)
    decreases level, 512 - i
  {
    hide At, Child, Has, Trees, Slot, Lines, Leaves, Valid, Link, Reports;
    NoBits();
    if i == 512 {
      pages := [];
      NothingLeft(m, p, level);
    } else {
      var rest := LinesReport(m, own, p, level, i + 1);
      var e, lines, more := At(m, p, i), Lines(m, p, level, i), Lines(m, p, level, i + 1);
      LineOf(m, p, level, i);
      if e == 0 {
        EmptyEntry(m, p, level, i);
        pages := rest;
        assert Leaves(lines) == Leaves(more);
        SkipReport(m, p, level, i, more, rest);
        SameLeaves(m, p, level, i * Span(level), more, lines, rest);
      } else if level == 0 {
        pages := [i] + rest;
        LeafEntry(m, p, i);
        JoinReports(m, p, 0, i, [i], [i], more, rest, lines);
      } else {
        var c := LinkEntry(m, own, p, level, i);
        VisibleBelow(m, p, level, i, c);
        var below := LinesReport(m, own, c, level - 1, 0);
        var mine := Shift(below, i * Span(level));
        pages := mine + rest;
        BelowReport(m, p, level, i, c, below, mine);
        JoinReports(m, p, level, i, mine, Leaves(Lines(m, c, level - 1, 0)), more, rest, lines);
      }
    }
  }

  lemma NothingLeft(m: Mem, p: nat, level: nat)
    ensures Reports(m, p, level, 512 * Span(level), Lines(m, p, level, 512), [])
  {
  }

  lemma SameLeaves(m: Mem, p: nat, level: nat, lo: nat, a: seq<Line>, b: seq<Line>, pages: seq<nat>)
    requires Reports(m, p, level, lo, a, pages) && Leaves(a) == Leaves(b)
    ensures Reports(m, p, level, lo, b, pages)
  {
  }

  lemma EmptyEntry(m: Mem, p: nat, level: nat, i: nat)
    requires level <= 2 && At(m, p, i) == 0
    ensures forall off: nat | i * Span(level) <= off < (i + 1) * Span(level) :: Slot(m, p, level, off) == 0
  {
    forall off: nat | i * Span(level) <= off < (i + 1) * Span(level) ensures Slot(m, p, level, off) == 0 {
      if level > 0 {
        EntrySlot(m, p, level, i, off);
      }
    }
  }

  lemma LeafEntry(m: Mem, p: nat, i: nat)
    requires i < 512 && Visible(m, p, 0) && At(m, p, i) != 0
    ensures IsLeaf(At(m, p, i)) && Slot(m, p, 0, i) != 0
  {
    assert Slot(m, p, 0, i) != 0;
  }

  lemma LinkEntry(m: Mem, own: Roles, p: nat, level: nat, i: nat) returns (c: nat)
    requires Trees(m, own) && IsTable(own, p, level) && 0 < level <= 2 && i < 512 && At(m, p, i) != 0
    ensures c == Child(At(m, p, i)) && IsTable(own, c, level - 1)
    ensures Valid(At(m, p, i)) && Has(At(m, p, i), PTE_V) && !IsLeaf(At(m, p, i))
  {
    hide At, Child, Has;
    assert SlotOk(m, own, p, i);
    c := Child(At(m, p, i));
    LinkFacts(c);
    LinkBits(m, own, c);
  }

  lemma VisibleBelow(m: Mem, p: nat, level: nat, i: nat, c: nat)
    requires Visible(m, p, level) && 0 < level <= 2 && i < 512 && c == Child(At(m, p, i)) && Valid(At(m, p, i))
    ensures Visible(m, c, level - 1)
  {
    hide Slot, IsLeaf, Span, At, Child;
    Next(level, i);
    var size, l := 512 * Span(level - 1), level - 1;
    forall off: nat | off < size && Slot(m, c, l, off) != 0
      ensures IsLeaf(Slot(m, c, l, off))
    {
      EntrySlot(m, p, level, i, i * Span(level) + off);
      assert i * Span(level) + off < 512 * Span(level);
    }
  }

  lemma BelowReport(m: Mem, p: nat, level: nat, i: nat, c: nat, below: seq<nat>, mine: seq<nat>)
    requires 0 < level <= 2 && i < 512 && c == Child(At(m, p, i)) && Valid(At(m, p, i))
    requires Reports(m, c, level - 1, 0, Lines(m, c, level - 1, 0), below) && mine == Shift(below, i * Span(level))
    ensures var indices := Leaves(Lines(m, c, level - 1, 0));
            |indices| == |mine|
            && (forall k | 0 <= k < |mine| ::
                  i * Span(level) <= mine[k] < (i + 1) * Span(level) && indices[k] == mine[k] % 512)
    ensures forall j, k | 0 <= j < k < |mine| :: mine[j] < mine[k]
    ensures forall off: nat | i * Span(level) <= off < (i + 1) * Span(level) ::
              off in mine <==> Slot(m, p, level, off) != 0
  {
    hide Slot, Span, At, Child, Lines, Leaves, Shift;
    Next(level, i);
    var d := i * Span(level);
    forall k | 0 <= k < |mine| ensures mine[k] % 512 == below[k] % 512 {
      ShiftMod(below[k], d);
    }
    forall off: nat | d <= off < (i + 1) * Span(level) ensures off in mine <==> Slot(m, p, level, off) != 0 {
      EntrySlot(m, p, level, i, off);
      Shifted(below, mine, d, off);
    }
  }

  lemma Shifted(s: seq<nat>, t: seq<nat>, d: nat, x: nat)
    requires |t| == |s| && (forall k | 0 <= k < |s| :: t[k] == s[k] + d) && d <= x
    ensures x in t <==> x - d in s
  {
    if x - d in s {
      var k :| 0 <= k < |s| && s[k] == x - d;
      assert t[k] == x;
    }
  }

  lemma ShiftMod(x: nat, d: nat)
    requires d % 512 == 0
    ensures (x + d) % 512 == x % 512
  {
  }

  /** For a tree whose pages are all readable, writable or executable: printPageTable reports exactly one leaf for
      each mapped page, in ascending order, under its last VPN digit. */
  lemma PrintsEveryPage(m: Mem, own: Roles, r: nat) returns (pages: seq<nat>)
    requires Trees(m, own) && IsRoot(own, r)
    requires forall v: nat | v < 0x800_0000 && View(m, r, v) != 0 :: IsLeaf(View(m, r, v))
    ensures Visible(m, r, 2)
    ensures var leaves := Leaves(Lines(m, r, 2, 0));
            && |leaves| == |pages| && (forall k | 0 <= k < |pages| :: leaves[k] == pages[k] % 512)
            && (forall j, k | 0 <= j < k < |pages| :: pages[j] < pages[k])
            && (forall v: nat :: v in pages <==> v < 0x800_0000 && View(m, r, v) != 0)
  {
    hide View, Slot, Lines, Leaves, IsLeaf, Trees;
    forall v: nat | v < 0x800_0000 ensures Slot(m, r, 2, v) == View(m, r, v) {
      SlotIsView(m, r, v);
    }
    pages := LinesReport(m, own, r, 2, 0);
  }

  /** printPageTable itself; tables lie inside tables at most three deep, so it terminates. */
  method PrintPageTable(mem: array<Word>, pagetable: Word, ghost own: Roles, ghost level: nat) returns (out: seq<Line>)
    requires Trees(mem[..], own) && pagetable % 4096 == 0 && IsTable(own, pagetable / 4096, level) && level <= 2
    requires Visible(mem[..], pagetable / 4096, level)
    ensures out == Lines(mem[..], pagetable / 4096, level, 0)
    decreases level
  {
    hide Trees, Lines, Visible, At, Child, Link, Has, IsLeaf, Slot;
    ghost var m, p := mem[..], pagetable / 4096;
    out := [];
    for i := 0 to 512
      invariant mem[..] == m && out + Lines(m, p, level, i) == Lines(m, p, level, 0)
    {
      TableInMem(m, own, p);
      WordIndex(m, pagetable, i);
      LinesStep(m, p, level, i);
      EntryKinds(m, own, p, level, i);
      ghost var so := out;
      var e := mem[pagetable / 8 + i];
      if And(e, PTE_R) != 0 || And(e, PTE_W) != 0 || And(e, PTE_X) != 0 {
        out := out + [LeafLine(i)];
        assert so + ([LeafLine(i)] + Lines(m, p, level, i + 1)) == out + Lines(m, p, level, i + 1);
      } else if And(e, PTE_V) == PTE_V {
        out := out + [LinkLine(i)];
        LinkAddress(m, own, Child(e));
        var below := PrintPageTable(mem, Pte2Pa(e), own, level - 1);
        out := out + below;
        assert so + (([LinkLine(i)] + below) + Lines(m, p, level, i + 1)) == out + Lines(m, p, level, i + 1);
      } else {
        assert so + ([] + Lines(m, p, level, i + 1)) == out + Lines(m, p, level, i + 1);
      }
    }
    LinesEnd(m, p, level);
  }

  lemma TableInMem(m: Mem, own: Roles, p: nat)
    requires Trees(m, own) && p in own
    ensures InMem(m, p)
  {
  }

  lemma LinesEnd(m: Mem, p: nat, level: nat)
    ensures Lines(m, p, level, 512) == []
  {
  }

  lemma LinesStep(m: Mem, p: nat, level: nat, i: nat)
    requires i < 512
    ensures var e := At(m, p, i);
            && Lines(m, p, level, i)
               == (if IsLeaf(e) then [LeafLine(i)]
                   else if Has(e, PTE_V) then
                     [LinkLine(i)] + (if level == 0 then [] else Lines(m, Child(e), level - 1, 0))
                   else []) + Lines(m, p, level, i + 1)
            && (IsLeaf(e) <==> And(e, PTE_R) != 0 || And(e, PTE_W) != 0 || And(e, PTE_X) != 0)
            && (Has(e, PTE_V) <==> And(e, PTE_V) == PTE_V)
  {
    BitZero(At(m, p, i));
  }

  /** An entry that is valid but no leaf links to a table one level down. */
  lemma EntryKinds(m: Mem, own: Roles, p: nat, level: nat, i: nat)
    requires Trees(m, own) && IsTable(own, p, level) && level <= 2 && Visible(m, p, level) && i < 512
    ensures !IsLeaf(At(m, p, i)) && Has(At(m, p, i), PTE_V) ==>
              var c := Child(At(m, p, i));
              level > 0 && At(m, p, i) == Link(c) && IsTable(own, c, level - 1) && Visible(m, c, level - 1)
  {
    hide At, Child, Has, Slot, Link;
    NoBits();
    if At(m, p, i) != 0 {
      if level == 0 {
        LeafEntry(m, p, i);
      } else {
        var c := LinkEntry(m, own, p, level, i);
        VisibleBelow(m, p, level, i, c);
        assert SlotOk(m, own, p, i);
      }
    }
  }

  lemma LinkAddress(m: Mem, own: Roles, c: nat)
    requires Trees(m, own) && c in own && Link(c) < TWO64
    ensures Pte2Pa(Link(c)) % 4096 == 0 && Pte2Pa(Link(c)) / 4096 == c
  {
    assert InMem(m, c);
    LinkWord(c);
  }

  /** mapAddress was called for this tree only with attributes that allow reading, writing or executing. */
  ghost predicate AttributesVisible(log: seq<Event>, r: nat) {
    forall i | 0 <= i < |log| && log[i].Mapped? && log[i].root == r && log[i].attr < 1024 :: IsLeaf(log[i].attr)
  }

  lemma {:induction false} LookupVisible(log: seq<Event>, r: nat, v: nat)
    requires AttributesVisible(log, r)
    ensures Lookup(log, r, v) != 0 ==> IsLeaf(Lookup(log, r, v))
  {
    hide LeafWord, PhysAt, IsLeaf;
    if log == [] {
    } else {
      var rest, e := log[..|log| - 1], log[|log| - 1];
      assert AttributesVisible(rest, r);
      LookupVisible(rest, r, v);
      if e.Mapped? && e.root == r && e.lo <= v < e.lo + e.n && e.attr < 1024 {
        LeafVisible(PhysAt(e.pa, v - e.lo), e.attr);
      }
    }
  }

  lemma LeafVisible(pa: Word, attr: nat)
    requires attr < 1024
    ensures IsLeaf(LeafWord(pa, attr)) <==> IsLeaf(attr)
  {
    hide Or, And, LeafWord;
    LeafWordFields(pa, attr);
    HasFlags(pa / 4096, Or(attr, PTE_V), PTE_R);
    HasFlags(pa / 4096, Or(attr, PTE_V), PTE_W);
    HasFlags(pa / 4096, Or(attr, PTE_V), PTE_X);
    ValidFlags(attr);
  }

  /** So after every run in which mapAddress gave this tree only such attributes, printPageTable reports exactly the
      mapped pages. */
  lemma RunsPrint(states: seq<State>, log: seq<Event>, r: nat) returns (pages: seq<nat>)
    requires IsRun(states, log) && states[0].own == map[] && IsRoot(states[|log|].own, r) && AttributesVisible(log, r)
    requires Consistent(states[|log|])
    ensures var m := states[|log|].m;
            var leaves := Leaves(Lines(m, r, 2, 0));
            && |leaves| == |pages| && (forall k | 0 <= k < |pages| :: leaves[k] == pages[k] % 512)
            && (forall j, k | 0 <= j < k < |pages| :: pages[j] < pages[k])
            && (forall v: nat :: v in pages <==> v < 0x800_0000 && Lookup(log, r, v) != 0)
  {
    hide View, Lookup, Lines, Leaves, IsLeaf, Trees, FreeList;
    RunsAreLastWins(states, log);
    var last := states[|log|];
    forall v: nat | v < 0x800_0000 ensures View(last.m, r, v) == Lookup(log, r, v) {
    }
    forall v: nat | v < 0x800_0000 && View(last.m, r, v) != 0 ensures IsLeaf(View(last.m, r, v)) {
      LookupVisible(log, r, v);
    }
    pages := PrintsEveryPage(last.m, last.own, r);
  }
}
