/** parseltongue86's cartridge loop: one function for a cartridge does what the functions of its instructions do in order. */
module Cartridges {
  import opened CartridgeEmitter
  import opened CartridgeIR
  import opened Options
  import opened TextEmitter

  // ----- groups of instructions that share a function

  /** Consecutive instructions in one function, the first at vaddr; its temporaries are numbered from n. */
  datatype Group = Group(vaddr: int, instrs: seq<Instr>, n: nat)

  function GroupCode(instrs: seq<Instr>, n: nat): Code
    requires forall k :: 0 <= k < |instrs| ==> OperandsOk(instrs[k].operation)
  {
    if instrs == [] then Start({}, n)
    else
      var init := GroupCode(instrs[..|instrs| - 1], n);
      var last := InstrCode(init.next, instrs[|instrs| - 1]);
      Code({}, n, init.ss + last.ss, last.next)
  }

  predicate GroupOk(g: Group) {
    g.instrs != [] && g.vaddr == g.instrs[0].vaddr && forall k :: 0 <= k < |g.instrs| ==> OperandsOk(g.instrs[k].operation)
  }

  predicate AllOk(groups: seq<Group>) {
    forall k :: 0 <= k < |groups| ==> GroupOk(groups[k])
  }

  function NextNumber(groups: seq<Group>, n: nat): nat
    requires AllOk(groups)
  {
    if groups == [] then n else GroupCode(groups[|groups| - 1].instrs, groups[|groups| - 1].n).next
  }

  /** Each group numbers its temporaries from where the group before it stopped. */
  predicate Consecutive(groups: seq<Group>, n: nat)
    requires AllOk(groups)
  {
    groups == [] || (
      && Consecutive(groups[..|groups| - 1], n)
      && groups[|groups| - 1].n == NextNumber(groups[..|groups| - 1], n))
  }

  function Members(groups: seq<Group>): seq<Instr> {
    if groups == [] then [] else Members(groups[..|groups| - 1]) + groups[|groups| - 1].instrs
  }

  /** The end of the cartridge that is still open after these instructions. */
  function InCartridge(instrs: seq<Instr>, pairs: map<int, int>, batch: bool): Option<int> {
    if instrs == [] then None
    else
      var i, before := instrs[|instrs| - 1], InCartridge(instrs[..|instrs| - 1], pairs, batch);
      var end := if before.Some? then before else if batch && i.vaddr in pairs then Some(pairs[i.vaddr]) else None;
      if end.Some? && i.vaddr + i.length < end.value then end else None
  }

  /** The instructions that get code: all but the jumps and loads that reopen transactions, outside cartridges. */
  function Kept(instrs: seq<Instr>, pairs: map<int, int>, batch: bool): seq<Instr> {
    if instrs == [] then []
    else
      var i, init := instrs[|instrs| - 1], instrs[..|instrs| - 1];
      Kept(init, pairs, batch) +
      if batch && i.skipped && InCartridge(init, pairs, batch).None? && i.vaddr !in pairs then [] else [i]
  }

  function RenderOpen(g: Group): seq<Line>
    requires GroupOk(g)
  {
    [Open(g.vaddr)] + Texts(GroupCode(g.instrs, g.n).ss)
  }

  /** A whole function: prolog, text, and the registers written back. */
  function Render(g: Group): seq<Line>
    requires GroupOk(g)
  {
    RenderOpen(g) + [Close(Track([RIP], GroupCode(g.instrs, g.n).ss))]
  }

  function RenderAll(groups: seq<Group>): seq<Line>
    requires AllOk(groups)
  {
    if groups == [] then [] else RenderAll(groups[..|groups| - 1]) + Render(groups[|groups| - 1])
  }

  /** The registers to write back after a group. */
  function RegsOf(g: Group): seq<Reg>
    requires GroupOk(g)
  {
    Track([RIP], GroupCode(g.instrs, g.n).ss)
  }

  function LastRegs(groups: seq<Group>): seq<Reg>
    requires AllOk(groups) && groups != []
  {
    RegsOf(groups[|groups| - 1])
  }

  function Layout(groups: seq<Group>, open: bool): seq<Line>
    requires AllOk(groups) && (open ==> groups != [])
  {
    if open then RenderAll(groups[..|groups| - 1]) + RenderOpen(groups[|groups| - 1]) else RenderAll(groups)
  }

  ghost predicate LaidOut(out: seq<Line>, varCount: nat, bbRegs: seq<Reg>, groups: seq<Group>, open: bool) {
    && AllOk(groups) && Consecutive(groups, 0) && varCount == NextNumber(groups, 0) && (open ==> groups != [])
    && out == Layout(groups, open) && RIP in bbRegs
    && bbRegs == if open then LastRegs(groups) else [RIP]
  }

  function Longer(g: Group, i: Instr): Group {
    Group(g.vaddr, g.instrs + [i], g.n)
  }

  lemma LongerCode(g: Group, i: Instr)
    requires GroupOk(g) && OperandsOk(i.operation)
    ensures var before := GroupCode(g.instrs, g.n); var code := InstrCode(before.next, i);
            && GroupOk(Longer(g, i)) && GroupCode(Longer(g, i).instrs, g.n) == Code({}, g.n, before.ss + code.ss, code.next)
            && RenderOpen(Longer(g, i)) == RenderOpen(g) + Texts(code.ss)
            && RegsOf(Longer(g, i)) == Track(RegsOf(g), code.ss)
  {
    hide InstrCode, Texts, Track;
    assert Longer(g, i).instrs[..|g.instrs|] == g.instrs;
    var before := GroupCode(g.instrs, g.n);
    var code := InstrCode(before.next, i);
    TextsAppend(before.ss, code.ss);
    TrackAppend([RIP], before.ss, code.ss);
    assert RenderOpen(Longer(g, i)) == [Open(g.vaddr)] + (Texts(before.ss) + Texts(code.ss));
  }

  lemma ContinueLaid(out: seq<Line>, n: nat, regs: seq<Reg>, groups: seq<Group>, i: Instr)
    requires LaidOut(out, n, regs, groups, true) && OperandsOk(i.operation)
    ensures RIP in regs && groups != []
    ensures var code := InstrCode(n, i);
            var groups' := groups[..|groups| - 1] + [Longer(groups[|groups| - 1], i)];
            && LaidOut(out + Texts(code.ss), code.next, Track(regs, code.ss), groups', true)
            && LaidOut(out + Texts(code.ss) + [Close(Track(regs, code.ss))], code.next, [RIP], groups', false)
            && Members(groups') == Members(groups) + [i]
  {
    hide InstrCode, Texts, Track, OperandsOk, GroupCode, RenderOpen, RenderAll, Members, Consecutive, GroupOk;
    var init, g := groups[..|groups| - 1], groups[|groups| - 1];
    var groups' := init + [Longer(g, i)];
    LongerCode(g, i);
    assert groups'[..|groups'| - 1] == init;
    var code := InstrCode(n, i);
    TrackCovers(regs, code.ss, RIP);
    LongerLast(groups, i);
    assert RenderAll(init) + RenderOpen(g) + Texts(code.ss) == RenderAll(init) + (RenderOpen(g) + Texts(code.ss));
    EndLaid(out + Texts(code.ss), code.next, Track(regs, code.ss), groups');
  }

  lemma LongerLast(groups: seq<Group>, i: Instr)
    requires AllOk(groups) && Consecutive(groups, 0) && groups != [] && GroupOk(Longer(groups[|groups| - 1], i))
    ensures var groups' := groups[..|groups| - 1] + [Longer(groups[|groups| - 1], i)];
            AllOk(groups') && Consecutive(groups', 0) && Members(groups') == Members(groups) + [i]
  {
    hide GroupOk, GroupCode;
    var groups' := groups[..|groups| - 1] + [Longer(groups[|groups| - 1], i)];
    assert groups'[..|groups'| - 1] == groups[..|groups| - 1];
    assert Members(groups[..|groups| - 1]) + (groups[|groups| - 1].instrs + [i]) ==
           Members(groups[..|groups| - 1]) + groups[|groups| - 1].instrs + [i];
  }

  lemma EndLaid(out: seq<Line>, n: nat, regs: seq<Reg>, groups: seq<Group>)
    requires LaidOut(out, n, regs, groups, true)
    ensures LaidOut(out + [Close(regs)], n, [RIP], groups, false)
  {
    hide Texts, Track, OperandsOk, GroupCode, RenderOpen, Numbered;
    assert out + [Close(regs)] == RenderAll(groups[..|groups| - 1]) + (RenderOpen(groups[|groups| - 1]) + [Close(regs)]);
  }

  lemma StartLaid(out: seq<Line>, n: nat, regs: seq<Reg>, groups: seq<Group>, i: Instr)
    requires LaidOut(out, n, regs, groups, false) && OperandsOk(i.operation)
    ensures RIP in regs
    ensures var code := InstrCode(n, i); var groups' := groups + [Group(i.vaddr, [i], n)];
            && LaidOut(out + [Open(i.vaddr)] + Texts(code.ss), code.next, Track(regs, code.ss), groups', true)
            && LaidOut(out + [Open(i.vaddr)] + Texts(code.ss) + [Close(Track(regs, code.ss))], code.next, [RIP], groups', false)
            && Members(groups') == Members(groups) + [i]
  {
    hide InstrCode, Texts, Track, OperandsOk, GroupCode, RenderOpen, RenderAll, Members, Consecutive, GroupOk;
    var g := Group(i.vaddr, [i], n);
    var groups' := groups + [g];
    var code := InstrCode(n, i);
    OneCode(g, i);
    assert groups'[..|groups'| - 1] == groups;
    TrackCovers(regs, code.ss, RIP);
    AddedLast(groups, g);
    assert out + [Open(i.vaddr)] + Texts(code.ss) == RenderAll(groups) + ([Open(i.vaddr)] + Texts(code.ss));
    EndLaid(out + [Open(i.vaddr)] + Texts(code.ss), code.next, Track(regs, code.ss), groups');
  }

  /** A group of one instruction. */
  lemma OneCode(g: Group, i: Instr)
    requires g == Group(i.vaddr, [i], g.n) && OperandsOk(i.operation)
    ensures var code := InstrCode(g.n, i);
            && GroupOk(g) && GroupCode(g.instrs, g.n) == code
            && RenderOpen(g) == [Open(i.vaddr)] + Texts(code.ss) && RegsOf(g) == Track([RIP], code.ss)
  {
    hide InstrCode, Texts, Track, OperandsOk;
    var code := InstrCode(g.n, i);
    assert g.instrs[..0] == [];
    assert GroupCode(g.instrs, g.n) == code by { assert [] + code.ss == code.ss; }
  }

  lemma AddedLast(groups: seq<Group>, g: Group)
    requires AllOk(groups) && Consecutive(groups, 0) && GroupOk(g) && g.n == NextNumber(groups, 0)
    ensures var groups' := groups + [g];
            AllOk(groups') && Consecutive(groups', 0) && Members(groups') == Members(groups) + g.instrs
  {
    hide GroupOk, GroupCode;
    var groups' := groups + [g];
    assert groups'[..|groups'| - 1] == groups;
  }

  // ----- what the emitted functions do

  /** The function of a group. */
  function FnOf(g: Group): Fn
    requires GroupOk(g)
  {
    Fn(GroupCode(g.instrs, g.n).ss, RegsOf(g))
  }

  /** The functions that the same instructions get when each is a record of its own. */
  function SingleFns(instrs: seq<Instr>, n: nat): seq<Fn>
    requires forall k :: 0 <= k < |instrs| ==> OperandsOk(instrs[k].operation)
  {
    if instrs == [] then []
    else
      var init := instrs[..|instrs| - 1];
      var code := InstrCode(GroupCode(init, n).next, instrs[|instrs| - 1]);
      SingleFns(init, n) + [Fn(code.ss, Track([RIP], code.ss))]
  }

  lemma {:induction false} BodiesAppend(fs: seq<Fn>, f: Fn)
    ensures Bodies(fs + [f]) == Bodies(fs) + f.body
    decreases |fs|
  {
    if fs == [] {
      assert fs + [f] == [f] && [f][1..] == [] && f.body + [] == [] + f.body;
    } else {
      assert (fs + [f])[1..] == fs[1..] + [f];
      BodiesAppend(fs[1..], f);
      assert fs[0].body + (Bodies(fs[1..]) + f.body) == fs[0].body + Bodies(fs[1..]) + f.body;
    }
  }

  lemma TrackedCode(n: nat, i: Instr)
    requires OperandsOk(i.operation)
    ensures Tracked(Fn(InstrCode(n, i).ss, Track([RIP], InstrCode(n, i).ss)))
  {
    hide InstrCode, Track, Closed;
    assert Scoped(InstrCode(n, i));
    forall r | r in Writes(InstrCode(n, i).ss) ensures r in Track([RIP], InstrCode(n, i).ss) {
      TrackCovers([RIP], InstrCode(n, i).ss, r);
    }
  }

  lemma {:induction false} SinglesTracked(instrs: seq<Instr>, n: nat)
    requires forall k :: 0 <= k < |instrs| ==> OperandsOk(instrs[k].operation)
    ensures var fs := SingleFns(instrs, n);
            (forall k :: 0 <= k < |fs| ==> Tracked(fs[k])) && Bodies(fs) == GroupCode(instrs, n).ss
  {
    hide InstrCode, Track, Tracked, OperandsOk;
    if instrs != [] {
      var init := instrs[..|instrs| - 1];
      SinglesTracked(init, n);
      var m := GroupCode(init, n).next;
      TrackedCode(m, instrs[|instrs| - 1]);
      var code := InstrCode(m, instrs[|instrs| - 1]);
      BodiesAppend(SingleFns(init, n), Fn(code.ss, Track([RIP], code.ss)));
    }
  }

  /** A cartridge function does to registers and memory what the functions of its instructions do in order. */
  lemma CartridgeIsSequence(g: Group, w: World)
    requires GroupOk(g) && |w.gregs| == REG_COUNT
    ensures Call(FnOf(g), w) == CallAll(SingleFns(g.instrs, g.n), w)
  {
    hide GroupCode, SingleFns, Track, Call, CallAll, Tracked, OperandsOk;
    SinglesTracked(g.instrs, g.n);
    var ss := GroupCode(g.instrs, g.n).ss;
    forall r | r in Writes(ss) ensures r in Track([RIP], ss) {
      TrackCovers([RIP], ss, r);
    }
    BatchIsSequence(SingleFns(g.instrs, g.n), FnOf(g), w);
  }

  // ----- the shape of the output

  /** Functions are opened and closed alternately and text stands only inside them. */
  predicate Alternates(lines: seq<Line>, inside: bool, after: bool)
    decreases |lines|
  {
    if lines == [] then inside == after
    else match lines[0]
      case Open(_) => !inside && Alternates(lines[1..], true, after)
      case Text(_) => inside && Alternates(lines[1..], inside, after)
      case Close(_) => inside && Alternates(lines[1..], false, after)
  }

  lemma {:induction false} AlternatesAppend(a: seq<Line>, b: seq<Line>, x: bool, y: bool, z: bool)
    requires Alternates(a, x, y) && Alternates(b, y, z)
    ensures Alternates(a + b, x, z)
    decreases |a|
  {
    if a == [] {
      assert a + b == b;
    } else {
      assert (a + b)[1..] == a[1..] + b;
      AlternatesAppend(a[1..], b, if a[0].Open? then true else if a[0].Close? then false else x, y, z);
    }
  }

  lemma {:induction false} TextsAlternate(ss: seq<Stmt>)
    ensures Alternates(Texts(ss), true, true)
  {
    if ss != [] {
      assert Texts(ss)[1..] == Texts(ss[1..]);
      TextsAlternate(ss[1..]);
    }
  }

  lemma OpenAlternates(g: Group)
    requires GroupOk(g)
    ensures Alternates(RenderOpen(g), false, true)
  {
    hide GroupCode, Texts;
    var text := Texts(GroupCode(g.instrs, g.n).ss);
    TextsAlternate(GroupCode(g.instrs, g.n).ss);
    assert Alternates([Open(g.vaddr)], false, true) by { assert [Open(g.vaddr)][1..] == []; }
    AlternatesAppend([Open(g.vaddr)], text, false, true, true);
  }

  lemma {:induction false} AllAlternate(groups: seq<Group>)
    requires AllOk(groups)
    ensures Alternates(RenderAll(groups), false, false)
  {
    hide RenderOpen, Track, GroupCode;
    if groups != [] {
      var g := groups[|groups| - 1];
      AllAlternate(groups[..|groups| - 1]);
      OpenAlternates(g);
      assert Alternates([Close(RegsOf(g))], true, false) by { assert [Close(RegsOf(g))][1..] == []; }
      AlternatesAppend(RenderOpen(g), [Close(RegsOf(g))], false, true, false);
      AlternatesAppend(RenderAll(groups[..|groups| - 1]), Render(g), false, false, false);
    }
  }

  /** The output opens and closes functions alternately; it ends inside one exactly if a cartridge is still open. */
  lemma LayoutAlternates(groups: seq<Group>, open: bool)
    requires AllOk(groups) && (open ==> groups != [])
    ensures Alternates(Layout(groups, open), false, open)
  {
    hide RenderOpen;
    if open {
      AllAlternate(groups[..|groups| - 1]);
      OpenAlternates(groups[|groups| - 1]);
      AlternatesAppend(RenderAll(groups[..|groups| - 1]), RenderOpen(groups[|groups| - 1]), false, false, true);
    } else {
      AllAlternate(groups);
    }
  }


  /** A text ends outside functions or inside one, not both. */
  lemma {:induction false} EndsOneWay(lines: seq<Line>, x: bool, y: bool, z: bool)
    requires Alternates(lines, x, y) && Alternates(lines, x, z)
    ensures y == z
    decreases |lines|
  {
    if lines != [] { EndsOneWay(lines[1..], if lines[0].Open? then true else if lines[0].Close? then false else x, y, z); }
  }

  // ----- temporaries

  /** The temporaries that the output declares, in order. */
  function AllDeclared(lines: seq<Line>): seq<nat> {
    if lines == [] then [] else (if lines[0].Text? then Declared1(lines[0].s) else []) + AllDeclared(lines[1..])
  }

  lemma {:induction false} AllDeclaredAppend(a: seq<Line>, b: seq<Line>)
    ensures AllDeclared(a + b) == AllDeclared(a) + AllDeclared(b)
    decreases |a|
  {
    hide Declared1;
    if a == [] {
      assert a + b == b;
    } else {
      assert (a + b)[1..] == a[1..] + b;
      AllDeclaredAppend(a[1..], b);
    }
  }

  lemma {:induction false} TextsDeclare(ss: seq<Stmt>)
    ensures AllDeclared(Texts(ss)) == Declared(ss)
  {
    hide Declared1;
    if ss != [] {
      assert Texts(ss)[1..] == Texts(ss[1..]);
      TextsDeclare(ss[1..]);
    }
  }

  ghost predicate Unique(s: seq<nat>) {
    forall i, j :: 0 <= i < j < |s| ==> s[i] != s[j]
  }

  ghost predicate Within(s: seq<nat>, lo: nat, hi: nat) {
    lo <= hi && forall i :: 0 <= i < |s| ==> lo <= s[i] < hi
  }

  lemma UniqueAppend(a: seq<nat>, b: seq<nat>, lo: nat, mid: nat, hi: nat)
    requires Within(a, lo, mid) && Within(b, mid, hi)
    ensures Within(a + b, lo, hi) && (Unique(a + b) <==> Unique(a) && Unique(b))
  {
    if Unique(a + b) {
      forall i, j | 0 <= i < j < |a| ensures a[i] != a[j] { assert (a + b)[i] != (a + b)[j]; }
      forall i, j | 0 <= i < j < |b| ensures b[i] != b[j] { assert (a + b)[|a| + i] != (a + b)[|a| + j]; }
    }
  }

  lemma {:induction false} NumbersUnique(n: nat, next: nat)
    requires n <= next
    ensures Within(Numbers(n, next), n, next) && Unique(Numbers(n, next))
    decreases next - n
  {
    if n != next {
      NumbersUnique(n + 1, next);
      UniqueAppend([n], Numbers(n + 1, next), n, n + 1, next);
    }
  }

  predicate NoCmc(instrs: seq<Instr>) {
    forall k :: 0 <= k < |instrs| ==> !instrs[k].operation.Cmc?
  }

  lemma InstrDeclares(n: nat, i: Instr)
    requires OperandsOk(i.operation)
    ensures var code := InstrCode(n, i);
            Within(Declared(code.ss), n, code.next) && (Unique(Declared(code.ss)) <==> !i.operation.Cmc?)
  {
    hide InstrCode, Declared, Closed;
    var code := InstrCode(n, i);
    if i.operation.Cmc? {
      var d := Declared(code.ss);
      assert d[0] == d[1];
    } else {
      NumbersUnique(n, code.next);
    }
  }

  lemma {:induction false} GroupDeclares(instrs: seq<Instr>, n: nat)
    requires forall k :: 0 <= k < |instrs| ==> OperandsOk(instrs[k].operation)
    ensures var code := GroupCode(instrs, n);
            Within(Declared(code.ss), n, code.next) && (Unique(Declared(code.ss)) <==> NoCmc(instrs))
  {
    hide InstrCode, OperandsOk, Declared, Unique;
    if instrs == [] {
      NothingDeclared();
    } else {
      var init, last := instrs[..|instrs| - 1], instrs[|instrs| - 1];
      var a := GroupCode(init, n);
      GroupDeclares(init, n);
      InstrDeclares(a.next, last);
      var b := InstrCode(a.next, last);
      DeclaredAppend(a.ss, b.ss);
      UniqueAppend(Declared(a.ss), Declared(b.ss), n, a.next, b.next);
      assert instrs == init + [last];
    }
  }

  lemma NothingDeclared()
    ensures Declared([]) == [] && Unique([]) && AllDeclared([]) == []
  {}

  lemma RenderDeclares(g: Group)
    requires GroupOk(g)
    ensures var d := Declared(GroupCode(g.instrs, g.n).ss); AllDeclared(RenderOpen(g)) == d && AllDeclared(Render(g)) == d
  {
    hide Declared, GroupCode, Texts, Track, AllDeclared;
    var code := GroupCode(g.instrs, g.n);
    TextsDeclare(code.ss);
    OneLine(Open(g.vaddr));
    OneLine(Close(RegsOf(g)));
    AllDeclaredAppend([Open(g.vaddr)], Texts(code.ss));
    AllDeclaredAppend(RenderOpen(g), [Close(RegsOf(g))]);
    assert [] + Declared(code.ss) + [] == Declared(code.ss);
  }

  lemma OneLine(line: Line)
    requires !line.Text?
    ensures AllDeclared([line]) == []
  {
    assert [line][1..] == [];
  }

  lemma {:induction false} GroupsDeclare(groups: seq<Group>)
    requires AllOk(groups) && Consecutive(groups, 0)
    ensures Within(AllDeclared(RenderAll(groups)), 0, NextNumber(groups, 0))
    ensures Unique(AllDeclared(RenderAll(groups))) <==> NoCmc(Members(groups))
  {
    hide GroupCode, Declared, AllDeclared, Unique, Render;
    if groups == [] {
      NothingDeclared();
    } else {
      var init, g := groups[..|groups| - 1], groups[|groups| - 1];
      GroupsDeclare(init);
      GroupDeclares(g.instrs, g.n);
      RenderDeclares(g);
      AllDeclaredAppend(RenderAll(init), Render(g));
      UniqueAppend(AllDeclared(RenderAll(init)), Declared(GroupCode(g.instrs, g.n).ss), 0, g.n, NextNumber(groups, 0));
      NoCmcAppend(Members(init), g.instrs);
    }
  }

  lemma NoCmcAppend(a: seq<Instr>, b: seq<Instr>)
    ensures NoCmc(a + b) <==> NoCmc(a) && NoCmc(b)
  {
    if NoCmc(a + b) {
      forall k | 0 <= k < |b| ensures !b[k].operation.Cmc? { assert (a + b)[|a| + k] == b[k]; }
      forall k | 0 <= k < |a| ensures !a[k].operation.Cmc? { assert (a + b)[k] == a[k]; }
    }
  }

  /** Every temporary is declared once over the whole output, if and only if no instruction in it is a cmc. */
  lemma TemporariesAreUnique(groups: seq<Group>, open: bool)
    requires AllOk(groups) && Consecutive(groups, 0) && (open ==> groups != [])
    ensures Unique(AllDeclared(Layout(groups, open))) <==> NoCmc(Members(groups))
  {
    hide GroupCode, Declared, AllDeclared, Unique, Render, RenderOpen, NoCmc;
    GroupsDeclare(groups);
    if open {
      var init, g := groups[..|groups| - 1], groups[|groups| - 1];
      RenderDeclares(g);
      AllDeclaredAppend(RenderAll(init), RenderOpen(g));
      AllDeclaredAppend(RenderAll(init), Render(g));
    }
  }

  /** The code of a cmc declares its temporary twice. */
  lemma CmcDeclaresTwice(n: nat, i: Instr)
    requires i.operation.Cmc?
    ensures Declared(InstrCode(n, i).ss) == [n, n] && !Unique(Declared(InstrCode(n, i).ss))
  {
    hide InstrCode, Declared;
    assert Declared(InstrCode(n, i).ss)[0] == Declared(InstrCode(n, i).ss)[1];
  }

  // ----- when the output ends inside a cartridge

  function End(i: Instr): int {
    i.vaddr + i.length
  }

  /** Instructions in address order that do not overlap, cartridges that do not, and ends of cartridges at ends of instructions or past them all. */
  ghost predicate Orderly(instrs: seq<Instr>, pairs: map<int, int>) {
    && (forall k :: 0 <= k < |instrs| ==> 0 < instrs[k].length)
    && (forall j, k :: 0 <= j < k < |instrs| ==> End(instrs[j]) <= instrs[k].vaddr)
    && (forall j, k :: 0 <= j < k < |instrs| && instrs[j].vaddr in pairs && instrs[k].vaddr in pairs ==>
          pairs[instrs[j].vaddr] <= instrs[k].vaddr)
    && (forall j :: 0 <= j < |instrs| && instrs[j].vaddr in pairs ==>
          (forall k :: 0 <= k < |instrs| ==> End(instrs[k]) < pairs[instrs[j].vaddr]) ||
          (exists k :: j <= k < |instrs| && End(instrs[k]) == pairs[instrs[j].vaddr]))
  }

  /** A cartridge that starts at one of the first n instructions ends past them all. */
  ghost predicate Unfinished(instrs: seq<Instr>, pairs: map<int, int>, n: nat, j: nat)
    requires n <= |instrs|
  {
    j < n && instrs[j].vaddr in pairs && End(instrs[n - 1]) < pairs[instrs[j].vaddr]
  }

  lemma {:induction false} OpenAfter(instrs: seq<Instr>, pairs: map<int, int>, n: nat)
    requires Orderly(instrs, pairs) && n <= |instrs|
    ensures var open := InCartridge(instrs[..n], pairs, true);
            && (open.Some? ==> exists j: nat :: Unfinished(instrs, pairs, n, j) && pairs[instrs[j].vaddr] == open.value)
            && forall j: nat :: Unfinished(instrs, pairs, n, j) ==> open == Some(pairs[instrs[j].vaddr])
  {
    hide Orderly;
    if n != 0 {
      OpenAfter(instrs, pairs, n - 1);
      var i, before := instrs[n - 1], InCartridge(instrs[..n - 1], pairs, true);
      OneMore(instrs, pairs, n);
      EndsRise(instrs, pairs, n - 1);
      if before.Some? {
        var j: nat :| Unfinished(instrs, pairs, n - 1, j) && pairs[instrs[j].vaddr] == before.value;
        StartsOutside(instrs, pairs, n - 1, j);
        assert Unfinished(instrs, pairs, n, j) <==> End(i) < before.value;
      } else {
        assert Unfinished(instrs, pairs, n, n - 1) <==> i.vaddr in pairs && End(i) < pairs[i.vaddr];
      }
      forall j: nat | Unfinished(instrs, pairs, n, j) ensures InCartridge(instrs[..n], pairs, true) == Some(pairs[instrs[j].vaddr]) {
        if j < n - 1 { assert Unfinished(instrs, pairs, n - 1, j); }
      }
    }
  }

  lemma OneMore(instrs: seq<Instr>, pairs: map<int, int>, n: nat)
    requires 1 <= n <= |instrs|
    ensures var i, before := instrs[n - 1], InCartridge(instrs[..n - 1], pairs, true);
            var end := if before.Some? then before else if i.vaddr in pairs then Some(pairs[i.vaddr]) else None;
            InCartridge(instrs[..n], pairs, true) == if end.Some? && End(i) < end.value then end else None
  {
    assert instrs[..n][..n - 1] == instrs[..n - 1];
  }

  lemma EndsRise(instrs: seq<Instr>, pairs: map<int, int>, n: nat)
    requires Orderly(instrs, pairs) && n < |instrs|
    ensures 1 <= n ==> End(instrs[n - 1]) < End(instrs[n])
  {}

  /** No cartridge starts before the one before it has ended. */
  lemma StartsOutside(instrs: seq<Instr>, pairs: map<int, int>, n: nat, j: nat)
    requires Orderly(instrs, pairs) && n < |instrs| && Unfinished(instrs, pairs, n, j)
    ensures instrs[n].vaddr !in pairs
  {
    hide Orderly;
    if instrs[n].vaddr in pairs {
      var k := EndsAt(instrs, pairs, j, n);
      if k < n { EndsOrdered(instrs, pairs, k, n - 1); } else { EndsOrdered(instrs, pairs, n, k); }
    }
  }

  /** Where a cartridge ends before another one starts. */
  lemma EndsAt(instrs: seq<Instr>, pairs: map<int, int>, j: nat, n: nat) returns (k: nat)
    requires Orderly(instrs, pairs) && j < n < |instrs| && instrs[j].vaddr in pairs && instrs[n].vaddr in pairs
    ensures k < |instrs| && End(instrs[k]) == pairs[instrs[j].vaddr] < End(instrs[n])
  {
    assert pairs[instrs[j].vaddr] <= instrs[n].vaddr < End(instrs[n]);
    k :| j <= k < |instrs| && End(instrs[k]) == pairs[instrs[j].vaddr];
  }

  lemma EndsOrdered(instrs: seq<Instr>, pairs: map<int, int>, j: nat, k: nat)
    requires Orderly(instrs, pairs) && j <= k < |instrs|
    ensures End(instrs[j]) <= End(instrs[k])
  {}

  /** Some cartridge ends past the last instruction. */
  ghost predicate StaysOpen(instrs: seq<Instr>, pairs: map<int, int>) {
    exists j: nat :: Unfinished(instrs, pairs, |instrs|, j)
  }

  lemma OpenExactly(instrs: seq<Instr>, pairs: map<int, int>)
    requires Orderly(instrs, pairs)
    ensures InCartridge(instrs, pairs, true).Some? <==> StaysOpen(instrs, pairs)
  {
    OpenAfter(instrs, pairs, |instrs|);
    assert instrs[..|instrs|] == instrs;
  }

  lemma {:induction false} NeverOpen(instrs: seq<Instr>, pairs: map<int, int>)
    ensures InCartridge(instrs, pairs, false) == None
  {
    if instrs != [] { NeverOpen(instrs[..|instrs| - 1], pairs); }
  }

  /** A cartridge of two bytes, of which the last instruction is missing: the output ends inside its function. */
  lemma CutCartridge(v: int, g: Group)
    requires g == Group(v, [Instr(v, 1, Nop, false)], 0)
    ensures Orderly(g.instrs, map[v := v + 2]) && StaysOpen(g.instrs, map[v := v + 2])
    ensures AllOk([g]) && !Alternates(Layout([g], true), false, false)
  {
    hide RenderOpen, RenderAll, Alternates;
    assert Unfinished(g.instrs, map[v := v + 2], 1, 0);
    LayoutAlternates([g], true);
    if Alternates(Layout([g], true), false, false) { EndsOneWay(Layout([g], true), false, true, false); }
  }

  // ----- the loop of main

  /** The translation of instructions in address order, function by function, without the last function's end if it is open. */
  ghost predicate Laid(e: Emitter, groups: seq<Group>, open: bool)
    reads e
  {
    LaidOut(e.out, e.code.next, e.bbRegs, groups, open)
  }

  /** An instruction inside a cartridge, the last one of it or not. */
  method ContinueCartridge(e: Emitter, i: Instr, last: bool, ghost groups: seq<Group>) returns (ghost groups': seq<Group>)
    requires Laid(e, groups, true) && OperandsOk(i.operation)
    modifies e
    ensures Laid(e, groups', !last) && Members(groups') == Members(groups) + [i]
  {
    hide InstrCode, Texts, Track, OperandsOk, LaidOut, Members;
    ghost var n := e.code.next;
    ContinueLaid(e.out, n, e.bbRegs, groups, i);
    ghost var text := Texts(InstrCode(n, i).ss);
    assert e.out + [] == e.out && e.out + text + [] == e.out + text;
    e.EmitFunction(i, if last then 3 else 2);
    groups' := groups[..|groups| - 1] + [Longer(groups[|groups| - 1], i)];
  }

  /** The first instruction of a function: of a cartridge, or a record of its own. */
  method StartFunction(e: Emitter, i: Instr, kind: nat, ghost groups: seq<Group>) returns (ghost groups': seq<Group>)
    requires Laid(e, groups, false) && OperandsOk(i.operation) && kind <= 1
    modifies e
    ensures Laid(e, groups', kind == 1) && Members(groups') == Members(groups) + [i]
  {
    hide InstrCode, Texts, Track, OperandsOk, LaidOut, Members;
    ghost var n := e.code.next;
    StartLaid(e.out, n, e.bbRegs, groups, i);
    ghost var text := Texts(InstrCode(n, i).ss);
    assert e.out + [Open(i.vaddr)] + text + [] == e.out + [Open(i.vaddr)] + text;
    e.EmitFunction(i, kind);
    groups' := groups + [Group(i.vaddr, [i], n)];
  }

  /** The epilog of a cartridge of one instruction. */
  method EndCartridge(e: Emitter, ghost groups: seq<Group>)
    requires Laid(e, groups, true)
    modifies e
    ensures Laid(e, groups, false)
  {
    hide LaidOut;
    EndLaid(e.out, e.code.next, e.bbRegs, groups);
    e.EmitEpilog();
  }

  /** What the output of the translator promises. */
  ghost predicate Translated(out: seq<Line>, groups: seq<Group>, open: bool)
  {
    && AllOk(groups) && (open ==> groups != []) && out == Layout(groups, open)
    && (forall g, w: World :: g in groups && |w.gregs| == REG_COUNT ==>
          Call(FnOf(g), w) == CallAll(SingleFns(g.instrs, g.n), w))
    && (forall inside :: Alternates(out, false, inside) <==> inside == open)
    && (Unique(AllDeclared(out)) <==> NoCmc(Members(groups)))
  }

  lemma LaidTranslates(out: seq<Line>, n: nat, regs: seq<Reg>, groups: seq<Group>, open: bool)
    requires LaidOut(out, n, regs, groups, open)
    ensures Translated(out, groups, open)
  {
    hide Layout, Alternates, Consecutive, AllDeclared, Unique, NoCmc, Members, Call, CallAll, FnOf, SingleFns;
    forall g, w: World | g in groups && |w.gregs| == REG_COUNT ensures Call(FnOf(g), w) == CallAll(SingleFns(g.instrs, g.n), w) {
      CartridgeIsSequence(g, w);
    }
    LayoutAlternates(groups, open);
    if Alternates(out, false, !open) { EndsOneWay(out, false, open, !open); }
    TemporariesAreUnique(groups, open);
  }

  /**
   The loop of main over the instructions in address order.  The text is a sequence of whole functions, one for each
   group of consecutive instructions; only the last one can be left without its end.
   */
  method Translate(e: Emitter, instrs: seq<Instr>, pairs: map<int, int>, batch: bool) returns (ghost groups: seq<Group>, open: bool)
    requires e.out == [] && e.code == Start({}, 0) && e.bbRegs == [RIP]
    requires forall k :: 0 <= k < |instrs| ==> OperandsOk(instrs[k].operation)
    modifies e
    ensures Translated(e.out, groups, open) && Members(groups) == Kept(instrs, pairs, batch)
    ensures !batch ==> !open
    ensures batch && Orderly(instrs, pairs) ==> (open <==> StaysOpen(instrs, pairs))
  {
    hide OperandsOk, Laid, Members, Translated, Orderly, StaysOpen;
    var inCartridge := false;
    var end := 0;
    groups := [];
    NothingLaid(e);
    var k := 0;
    while k < |instrs|
      invariant 0 <= k <= |instrs|
      invariant Laid(e, groups, inCartridge) && Members(groups) == Kept(instrs[..k], pairs, batch)
      invariant InCartridge(instrs[..k], pairs, batch) == if inCartridge then Some(end) else None
    {
      var i := instrs[k];
      assert instrs[..k + 1][..k] == instrs[..k];
      if inCartridge {
        if i.vaddr + i.length >= end {
          groups := ContinueCartridge(e, i, true, groups);
          inCartridge := false;
        } else {
          groups := ContinueCartridge(e, i, false, groups);
        }
      } else if batch && i.vaddr in pairs {
        end := pairs[i.vaddr];
        groups := StartFunction(e, i, 1, groups);
        inCartridge := true;
        if i.vaddr + i.length >= end {
          inCartridge := false;
          EndCartridge(e, groups);
        }
      } else if batch && i.skipped {
      } else {
        groups := StartFunction(e, i, 0, groups);
      }
      k := k + 1;
    }
    assert instrs[..|instrs|] == instrs;
    open := inCartridge;
    FromLaid(e, groups, open);
    if !batch { NeverOpen(instrs, pairs); }
    if batch && Orderly(instrs, pairs) { OpenExactly(instrs, pairs); }
  }

  lemma FromLaid(e: Emitter, groups: seq<Group>, open: bool)
    requires Laid(e, groups, open)
    ensures Translated(e.out, groups, open)
  {
    hide LaidOut, Translated;
    LaidTranslates(e.out, e.code.next, e.bbRegs, groups, open);
  }

  lemma NothingLaid(e: Emitter)
    requires e.out == [] && e.code == Start({}, 0) && e.bbRegs == [RIP]
    ensures Laid(e, [], false) && Members([]) == []
  {}
}
