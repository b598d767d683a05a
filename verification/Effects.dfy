/** What the texts of parseltongue86's moves, exchanges, stack operations, calls and returns do when they are executed. */
module Effects {
  import opened AluFlags
  import opened Arith
  import opened CartridgeEmitter
  import opened CartridgeIR
  import opened Operands

  ghost predicate SameWorld(m: Machine, m': Machine) {
    m'.regs == m.regs && m'.mem == m.mem
  }

  // ----- moves

  /** A move stores the value of its source to its destination. */
  lemma MovExec(c: Code, src: Operand, dest: Operand, size: nat, m: Machine)
    requires Sound(c) && !dest.Imm? && SizeFits(dest, size) && RegsOk(m)
    ensures RegsOk(Exec(c.ss, m))
    ensures var z := Exec(c.ss, m);
            SameWorld(Exec(MovCode(c, src, dest, size, size, false).ss, m), Put(dest, OperandValue(src, size, z), size, z))
  {
    hide Exec, Sound, Scope, Extends, OperandValue, Put, FetchInto, StoreTo;
    ExecRegsOk(c.ss, m);
    var z := Exec(c.ss, m);
    RunFetch(c, src, size, m);
    var c1 := FetchInto(c, src, size, false);
    RunStore(c1, dest, Tmp(c.next), size, m);
    PutWorld(dest, OperandValue(src, size, z), size, z, Exec(c1.ss, m));
  }

  /** rsp moves by an offset. */
  lemma LeaExec(c: Code, offset: int, m: Machine)
    requires Sound(c) && RegsOk(m)
    ensures RegsOk(Exec(c.ss, m))
    ensures var z := Exec(c.ss, m);
            Exec(LeaCode(c, Stack(offset), Whole(RSP), 8).ss, m) == z.(regs := z.regs[RSP := (z.regs[RSP] + offset) % WORD])
  {
    hide Exec, Sound, Scope, Extends, StoreTo, Pow, Addr;
    MaskPowers();
    AddrReads(Stack(offset), Scope(c));
    var e := Cast(8, false, Addr(Stack(offset)));
    RunStore(c, Whole(RSP), e, 8, m);
    var z := Exec(c.ss, m);
    StackAddr(offset, z);
    var a := (z.regs[RSP] + offset) % WORD;
    ModSmall(a, WORD);
  }

  lemma StackAddr(offset: int, m: Machine)
    requires RegsOk(m)
    ensures Eval(Addr(Stack(offset)), m) == (m.regs[RSP] + offset) % WORD
  {
    hide Pow;
    MaskPowers();
    var x := m.regs[RSP];
    ModSmall(x, WORD);
    var o, b := Cast(8, false, Lit(offset)), Cast(8, false, RegVal(RSP));
    assert Eval(b, m) == x && Eval(o, m) == offset % WORD;
    if offset == 0 {
      assert Addr(Stack(offset)) == Cast(8, false, Total([b])) by { assert [] + [b] + [] == [b]; }
    } else {
      assert [o] + [b] + [] == [o, b] && [o, b][..1] == [o] && Total([o]) == o;
      assert Total([o, b]) == Bin(Plus, o, b);
      assert Addr(Stack(offset)) == Cast(8, false, Bin(Plus, o, b));
      assert Eval(Bin(Plus, o, b), m) == offset % WORD + x;
      ModAdd(offset, x, WORD);
    }
  }

  // ----- exchanges

  /** Storing to one operand leaves the value and the place of the other as they are. */
  predicate Apart(p: Operand, q: Operand) {
    if p.RegOp? && q.RegOp? then p.r != q.r || p.high != q.high
    else (p.RegOp? ==> Clear(q, p.r)) && (q.RegOp? ==> Clear(p, q.r)) && (p.RegOp? || q.RegOp?)
  }

  lemma HighKeepsLow(x: int, v: int)
    requires 0 <= x < WORD
    ensures PutReg(x, v, 1, true) % 0x100 == x % 0x100
  {
    var q, h, s, w := x / 0x1_0000, x / 0x100 % 0x100, x % 0x100, v % 0x100;
    HighField(x, q, h, s);
    DivModUnique(PutReg(x, v, 1, true), 0x100, q * 0x100 + w, s);
  }

  lemma LowKeepsHigh(x: int, v: int)
    requires 0 <= x < WORD && 0 <= v < 0x100
    ensures PutReg(x, v, 1, false) / 0x100 % 0x100 == x / 0x100 % 0x100
  {
    var q := x / 0x100;
    ModSmall(q * 0x100 + v, WORD);
    DivModUnique(q * 0x100 + v, 0x100, q, v);
  }

  lemma PutElsewhere(p: Operand, q: Operand, v: int, size: nat, m: Machine)
    requires !p.Imm? && Apart(p, q) && SizeFits(p, size) && SizeFits(q, size) && RegsOk(m)
    requires p.RegOp? && q.RegOp? && p.r == q.r && !p.high ==> 0 <= v < Pow(256, size)
    ensures OperandValue(q, size, Put(p, v, size, m)) == OperandValue(q, size, m)
  {
    hide OperandValue, PutReg, Pow, StoreBytes, Addr;
    var z := Put(p, v, size, m);
    if p.MemOp? {
      RegisterFetched(q.r, q.high, size, m, m.regs[q.r]);
      RegisterFetched(q.r, q.high, size, z, z.regs[q.r]);
    } else if q.RegOp? && p.r == q.r {
      MaskPowers();
      var x := m.regs[q.r];
      PutRegRange(x, v, size, p.high);
      if p.high { HighKeepsLow(x, v); } else { LowKeepsHigh(x, v); }
      RegisterFetched(q.r, q.high, size, m, x);
      RegisterFetched(q.r, q.high, size, z, z.regs[q.r]);
    } else {
      ValueClear(q, size, m, z, p.r);
    }
  }

  /** The code of xchg stores the two values in each other's place, one after the other. */
  lemma XchgExec(c: Code, src: Operand, dest: Operand, size: nat, m: Machine)
    requires Sound(c) && !src.Imm? && !dest.Imm? && SizeFits(src, size) && SizeFits(dest, size) && RegsOk(m)
    ensures RegsOk(Exec(c.ss, m))
    ensures var z := Exec(c.ss, m);
            var x, y := OperandValue(src, size, z), OperandValue(dest, size, z);
            && RegsOk(Put(src, y, size, z))
            && SameWorld(Exec(XchgCode(c, src, dest, size).ss, m), Put(dest, x, size, Put(src, y, size, z)))
  {
    hide Exec, Sound, Scope, Extends, OperandValue, Put, FetchInto, StoreTo, Pow, TmpOf;
    ExecRegsOk(c.ss, m);
    var z := Exec(c.ss, m);
    var x, y := OperandValue(src, size, z), OperandValue(dest, size, z);
    var c1 := FetchInto(c, src, size, false);
    RunFetch(c, src, size, m);
    var c2 := FetchInto(c1, dest, size, false);
    RunFetch(c1, dest, size, m);
    ValueAgrees(dest, size, z, Exec(c1.ss, m));
    var z2 := Exec(c2.ss, m);
    TmpsOfTwo(z, c.next, x, y);
    RunStore(c2, src, Tmp(c1.next), size, m);
    var c3 := StoreTo(c2, src, Tmp(c1.next), size);
    var z3 := Exec(c3.ss, m);
    PutWorld(src, y, size, z, z2);
    PutRegsOk(src, y, size, z);
    RunStore(c3, dest, Tmp(c.next), size, m);
    PutWorld(dest, x, size, Put(src, y, size, z), z3);
  }

  lemma TmpsOfTwo(z: Machine, n: nat, x: int, y: int)
    ensures var z2 := Bind(Bind(z, n, x), n + 1, y); Eval(Tmp(n), z2) == x && Eval(Tmp(n + 1), z2) == y
    ensures var z2 := Bind(Bind(z, n, x), n + 1, y); TmpOf(z2.tmps, n) == x && TmpOf(z2.tmps, n + 1) == y
  {}

  // ----- the stack

  /** The machine after v has been pushed. */
  function Pushed(m: Machine, v: int, size: nat): Machine
    requires |m.regs| == REG_COUNT
  {
    var sp := (m.regs[RSP] - size) % WORD;
    m.(regs := m.regs[RSP := sp], mem := StoreBytes(m.mem, sp, size, v))
  }

  /** What a pop would give. */
  function Top(m: Machine, size: nat): int
    requires |m.regs| == REG_COUNT
  {
    LoadBytes(m.mem, m.regs[RSP], size)
  }

  /** The stack pointer moved down. */
  function Lowered(m: Machine, size: nat): Machine
    requires |m.regs| == REG_COUNT
  {
    m.(regs := m.regs[RSP := (m.regs[RSP] - size) % WORD])
  }

  /** The stack pointer moved up. */
  function Raised(m: Machine, size: nat): Machine
    requires |m.regs| == REG_COUNT
  {
    m.(regs := m.regs[RSP := (m.regs[RSP] + size) % WORD])
  }

  /** The code of push reads the operand after it has moved the stack pointer. */
  lemma PushWorld(c: Code, src: Operand, size: nat, m: Machine)
    requires Sound(c) && RegsOk(m) && Size(size)
    ensures RegsOk(Exec(c.ss, m))
    ensures var z := Exec(c.ss, m);
            SameWorld(Exec(PushCode(c, src, size).ss, m), Pushed(z, OperandValue(src, size, Lowered(z, size)), size))
  {
    hide Exec, Sound, Scope, Extends, OperandValue, LeaCode, MovCode, Addr, StoreBytes;
    var down: int := size;
    LeaExec(c, -down, m);
    var c1 := LeaCode(c, Stack(-down), Whole(RSP), 8);
    var z1 := Exec(c1.ss, m);
    MovExec(c1, src, Stack(0), size, m);
    StackAddr(0, z1);
    ModSmall(z1.regs[RSP], WORD);
  }

  /** An operand that does not involve the stack pointer is pushed as it is. */
  lemma PushExec(c: Code, src: Operand, size: nat, m: Machine)
    requires Sound(c) && RegsOk(m) && Size(size) && Clear(src, RSP)
    ensures RegsOk(Exec(c.ss, m))
    ensures var z := Exec(c.ss, m); SameWorld(Exec(PushCode(c, src, size).ss, m), Pushed(z, OperandValue(src, size, z), size))
  {
    hide Exec, Sound, Scope, OperandValue, PushCode, Pushed;
    PushWorld(c, src, size, m);
    var z := Exec(c.ss, m);
    ValueClear(src, size, z, Lowered(z, size), RSP);
  }

  /** The code of pop stores the top of the stack before it moves the stack pointer. */
  lemma PopWorld(c: Code, dest: Operand, size: nat, m: Machine)
    requires Sound(c) && RegsOk(m) && !dest.Imm? && SizeFits(dest, size)
    ensures RegsOk(Exec(c.ss, m)) && 0 < Pow(256, size)
    ensures var z := Exec(c.ss, m); var s := Put(dest, Top(z, size) % Pow(256, size), size, z);
            RegsOk(s) && SameWorld(Exec(PopCode(c, dest, size).ss, m), Raised(s, size))
  {
    hide Exec, Sound, Scope, Extends, LeaCode, MovCode, Addr, LoadBytes, Put, Pow;
    MovExec(c, Stack(0), dest, size, m);
    var z := Exec(c.ss, m);
    StackAddr(0, z);
    ModSmall(z.regs[RSP], WORD);
    PowPos(256, size);
    assert OperandValue(Stack(0), size, z) == Top(z, size) % Pow(256, size);
    PutRegsOk(dest, Top(z, size) % Pow(256, size), size, z);
    LeaExec(MovCode(c, Stack(0), dest, size, size, false), size, m);
  }

  /** A register other than the stack pointer gets the top of the stack. */
  lemma PopExec(c: Code, r: Reg, size: nat, m: Machine)
    requires Sound(c) && RegsOk(m) && Size(size) && r != RSP
    ensures RegsOk(Exec(c.ss, m))
    ensures var z := Exec(c.ss, m); var z' := Exec(PopCode(c, Whole(r), size).ss, m);
            && z'.mem == z.mem && 0 < Pow(256, size)
            && z'.regs == Put(Whole(r), Top(z, size) % Pow(256, size), size, z).regs[RSP := (z.regs[RSP] + size) % WORD]
  {
    hide Exec, Sound, Scope, PopCode, LoadBytes, PutReg, Pow;
    PopWorld(c, Whole(r), size, m);
  }

  lemma TopOfPushed(m: Machine, v: int, size: nat)
    requires |m.regs| == REG_COUNT && Size(size)
    ensures 0 < Pow(256, size) && Top(Pushed(m, v, size), size) == v % Pow(256, size)
  {
    hide LoadBytes, StoreBytes, Pow;
    LoadStored(m.mem, (m.regs[RSP] - size) % WORD, size, v);
  }

  lemma BackUp(x: int, size: int)
    requires 0 <= x < WORD
    ensures ((x - size) % WORD + size) % WORD == x
  {
    ModAddLeft(x - size, size, WORD);
    ModSmall(x, WORD);
  }

  // ----- calls

  /** The code of call goes to the target and leaves the return address on the stack. */
  lemma CallExec(c: Code, src: Operand, m: Machine)
    requires Sound(c) && RegsOk(m)
    ensures RegsOk(Exec(c.ss, m))
    ensures var z, z' := Exec(c.ss, m), Exec(CallCode(c, src).ss, m); var p := Pushed(z, z.regs[RIP], 8);
            z'.mem == p.mem && z'.regs == p.regs[RIP := OperandValue(src, 8, z)]
  {
    hide Exec, Sound, Scope, OperandValue, PushCode, FetchInto, StoreTo, StoreBytes, Pow, TmpOf;
    ExecRegsOk(c.ss, m);
    var z := Exec(c.ss, m);
    RunFetch(c, src, 8, m);
    var c1 := FetchInto(c, src, 8, false);
    var z1 := Exec(c1.ss, m);
    PushExec(c1, Whole(RIP), 8, m);
    MaskPowers();
    RegisterFetched(RIP, false, 8, z1, z.regs[RIP]);
    ModSmall(z.regs[RIP], WORD);
    PushKeepsTmps(c1, m);
    var c2 := PushCode(c1, Whole(RIP), 8);
    RunStore(c2, Whole(RIP), Tmp(c.next), 8, m);
    ValueRange(src, 8, z);
    ModSmall(OperandValue(src, 8, z), WORD);
    assert TmpOf(z1.tmps, c.next) == OperandValue(src, 8, z) by { BoundTmp(z, c.next, OperandValue(src, 8, z)); }
  }

  lemma BoundTmp(z: Machine, id: nat, v: int)
    ensures TmpOf(Bind(z, id, v).tmps, id) == v
  {}

  /** Pushing does not change the temporaries before it. */
  lemma PushKeepsTmps(c: Code, m: Machine)
    requires Sound(c) && RegsOk(m)
    ensures forall id :: id != c.next ==>
              TmpOf(Exec(PushCode(c, Whole(RIP), 8).ss, m).tmps, id) == TmpOf(Exec(c.ss, m).tmps, id)
  {
    hide Exec, Sound, Scope, Extends, OperandValue, StoreTo, FetchInto, LeaCode, Addr, StoreBytes, PutReg, Pow;
    LeaExec(c, -8, m);
    var c1 := LeaCode(c, Stack(-8), Whole(RSP), 8);
    RunFetch(c1, Whole(RIP), 8, m);
    var c2 := FetchInto(c1, Whole(RIP), 8, false);
    RunStore(c2, Stack(0), Tmp(c1.next), 8, m);
    LeaNext(c, -8);
  }

  lemma LeaNext(c: Code, offset: int)
    requires Sound(c)
    ensures LeaCode(c, Stack(offset), Whole(RSP), 8).next == c.next
  {
    hide StoreTo, Sound, Scope, Addr;
    AddrReads(Stack(offset), Scope(c));
  }

  /**
   Whatever the callee did, if it leaves the stack pointer where the call put it and the return address in its place,
   then the code of ret goes back behind the call with the caller's stack pointer.
   */
  lemma CallThenReturn(c: Code, src: Operand, m: Machine, d: Code, callee: Machine)
    requires Sound(c) && Sound(d) && RegsOk(m) && RegsOk(callee)
    requires |Exec(CallCode(c, src).ss, m).regs| == |Exec(d.ss, callee).regs| == REG_COUNT
    requires var z, w := Exec(CallCode(c, src).ss, m), Exec(d.ss, callee);
             w.regs[RSP] == z.regs[RSP] && Top(w, 8) == Top(z, 8)
    ensures var z, z' := Exec(c.ss, m), Exec(PopCode(d, Whole(RIP), 8).ss, callee);
            |z.regs| == |z'.regs| == REG_COUNT && z'.regs[RIP] == z.regs[RIP] && z'.regs[RSP] == z.regs[RSP]
  {
    hide Exec, Sound, Scope, OperandValue, CallCode, PopCode, StoreBytes, LoadBytes, Pow;
    CallExec(c, src, m);
    PopExec(d, RIP, 8, callee);
    var z := Exec(c.ss, m);
    TopOfPushed(z, z.regs[RIP], 8);
    MaskPowers();
    ModSmall(z.regs[RIP], WORD);
    BackUp(z.regs[RSP], 8);
  }

  // ----- frames

  /** The code of enter saves rbp, makes it the frame pointer and makes room below. */
  lemma EnterExec(c: Code, alloc: int, m: Machine)
    requires Sound(c) && RegsOk(m)
    ensures RegsOk(Exec(c.ss, m))
    ensures var z, z' := Exec(c.ss, m), Exec(EnterCode(c, alloc).ss, m); var p := Pushed(z, z.regs[RBP], 8);
            && z'.mem == p.mem
            && z'.regs == p.regs[RBP := p.regs[RSP]][RSP := (p.regs[RSP] - alloc) % WORD]
  {
    hide Exec, Sound, Scope, Extends, OperandValue, PushCode, MovCode, LeaCode, StoreBytes, Pow;
    PushExec(c, Whole(RBP), 8, m);
    var z := Exec(c.ss, m);
    MaskPowers();
    RegisterFetched(RBP, false, 8, z, z.regs[RBP]);
    ModSmall(z.regs[RBP], WORD);
    var c1 := PushCode(c, Whole(RBP), 8);
    MovExec(c1, Whole(RSP), Whole(RBP), 8, m);
    var z1 := Exec(c1.ss, m);
    RegisterFetched(RSP, false, 8, z1, z1.regs[RSP]);
    ModSmall(z1.regs[RSP], WORD);
    var c2 := MovCode(c1, Whole(RSP), Whole(RBP), 8, 8, false);
    LeaExec(c2, -alloc, m);
  }

  /** After any code that keeps the frame pointer and the saved one, the code of leave undoes that of enter. */
  lemma EnterThenLeave(c: Code, alloc: int, m: Machine, d: Code, body: Machine)
    requires Sound(c) && Sound(d) && RegsOk(m) && RegsOk(body)
    requires |Exec(EnterCode(c, alloc).ss, m).regs| == |Exec(d.ss, body).regs| == REG_COUNT
    requires var z, w := Exec(EnterCode(c, alloc).ss, m), Exec(d.ss, body);
             w.regs[RBP] == z.regs[RBP] && LoadBytes(w.mem, w.regs[RBP], 8) == LoadBytes(z.mem, z.regs[RBP], 8)
    ensures var z, z' := Exec(c.ss, m), Exec(LeaveCode(d).ss, body);
            |z.regs| == |z'.regs| == REG_COUNT && z'.regs[RSP] == z.regs[RSP] && z'.regs[RBP] == z.regs[RBP]
  {
    hide Exec, Sound, Scope, Extends, OperandValue, EnterCode, MovCode, PopCode, StoreBytes, LoadBytes, Pow;
    EnterExec(c, alloc, m);
    var z, w := Exec(c.ss, m), Exec(d.ss, body);
    MovExec(d, Whole(RBP), Whole(RSP), 8, body);
    MaskPowers();
    RegisterFetched(RBP, false, 8, w, w.regs[RBP]);
    ModSmall(w.regs[RBP], WORD);
    var d1 := MovCode(d, Whole(RBP), Whole(RSP), 8, 8, false);
    PopExec(d1, RBP, 8, body);
    TopOfPushed(z, z.regs[RBP], 8);
    ModSmall(z.regs[RBP], WORD);
    BackUp(z.regs[RSP], 8);
  }

  // ----- not

  /** Only the bytes that are stored count. */
  lemma {:induction false} StoreCongruent(mem: map<int, int>, a: int, n: nat, v: int, k: int)
    ensures StoreBytes(mem, a, n, v + k * Pow(256, n)) == StoreBytes(mem, a, n, v)
    decreases n
  {
    if n != 0 {
      var p := Pow(256, n - 1);
      assert k * Pow(256, n) == k * p * 256;
      ModShift(v, k * p, 256);
      StoreCongruent(mem[a % WORD := v % 256], a + 1, n - 1, v / 256, k);
    }
  }

  lemma NotExec(c: Code, dest: Operand, size: nat, m: Machine)
    requires Sound(c) && !dest.Imm? && SizeFits(dest, size) && RegsOk(m)
    ensures RegsOk(Exec(c.ss, m))
    ensures var z := Exec(c.ss, m);
            SameWorld(Exec(NotCode(c, dest, size).ss, m), Put(dest, -1 - OperandValue(dest, size, z), size, z))
  {
    hide Exec, Sound, Scope, Extends, OperandValue, Put, FetchInto, StoreTo;
    ExecRegsOk(c.ss, m);
    var z := Exec(c.ss, m);
    RunFetch(c, dest, size, m);
    var c1 := FetchInto(c, dest, size, false);
    var e := Bin(Minus, Lit(-1), Tmp(c.next));
    assert RegFree(e);
    BinReads(Minus, Lit(-1), Tmp(c.next), Scope(c1));
    RunStore(c1, dest, e, size, m);
    var z1 := Exec(c1.ss, m);
    assert Eval(e, z1) == -1 - OperandValue(dest, size, z);
    PutWorld(dest, -1 - OperandValue(dest, size, z), size, z, z1);
  }

  /** Part of a register that is not its second byte. */
  predicate PartialLow(op: Operand, size: nat) {
    op.RegOp? && !op.high && size <= 2
  }

  lemma PutComplement(dest: Operand, v: int, size: nat, m: Machine)
    requires !dest.Imm? && SizeFits(dest, size) && RegsOk(m)
    ensures SameWorld(Put(dest, v, size, m), Put(dest, v + Pow(256, size), size, m)) <==> !PartialLow(dest, size)
  {
    hide Pow, StoreBytes, Addr;
    MaskPowers();
    var W := Pow(256, size);
    if dest.MemOp? {
      StoreCongruent(m.mem, Eval(Addr(dest), m), size, v, 1);
    } else {
      RegComplement(m.regs[dest.r], v, size, dest.high);
      if PartialLow(dest, size) {
        assert Put(dest, v, size, m).regs[dest.r] != Put(dest, v + W, size, m).regs[dest.r];
      }
    }
  }

  lemma RegComplement(x: int, v: int, size: nat, high: bool)
    requires 0 <= x < WORD && Size(size) && (high ==> size == 1)
    ensures PutReg(x, v, size, high) == PutReg(x, v + Pow(256, size), size, high) <==> high || size >= 4
  {
    hide Pow;
    MaskPowers();
    if high {
      ModShift(v, 1, 0x100);
    } else if size == 4 {
      ModShift(v, 1, 0x1_0000_0000);
    } else if size == 8 {
      ModShift(v, 1, WORD);
    } else if size == 1 {
      Shifted(x - x % 0x100 + v, 0x100);
    } else {
      Shifted(x - x % 0x1_0000 + v, 0x1_0000);
    }
  }

  lemma Shifted(y: int, p: int)
    requires 0 < p < WORD
    ensures y % WORD != (y + p) % WORD
  {
    CongSub(y + p, y, WORD);
    ModSmall(p, WORD);
  }

  /** The code of not complements its operand and nothing else, except in the low byte or half of a register, where it also borrows from the rest. */
  lemma NotIsExact(c: Code, dest: Operand, size: nat, m: Machine)
    requires Sound(c) && !dest.Imm? && SizeFits(dest, size) && RegsOk(m)
    ensures RegsOk(Exec(c.ss, m))
    ensures var z, z' := Exec(c.ss, m), Exec(NotCode(c, dest, size).ss, m);
            !PartialLow(dest, size) <==> SameWorld(z', Put(dest, Pow(256, size) - 1 - OperandValue(dest, size, z), size, z))
  {
    hide Exec, NotCode, OperandValue, Put, Pow, Sound, PartialLow;
    NotExec(c, dest, size, m);
    var z := Exec(c.ss, m);
    PutComplement(dest, -1 - OperandValue(dest, size, z), size, z);
  }

  // ----- moves that extend

  /** A number that fits the narrower word is the same in the wider one. */
  lemma Extended(x: int, size1: nat, size2: nat, signed: bool)
    requires Size(size1) && Size(size2) && size1 <= size2 && 0 <= x < Pow(256, size1)
    ensures var v := View(x, Pow(256, size1), signed);
            && Convert(v, size2, signed) == v && Pow(256, size1) <= Pow(256, size2)
            && v % Pow(256, size2) == if v < 0 then v + Pow(256, size2) else v
  {
    hide Pow, Convert;
    MaskPowers();
    PowMono(256, size1, size2);
    var v, W := View(x, Pow(256, size1), signed), Pow(256, size2);
    ConvertViews(v, size2, signed);
    if v < 0 { DivModUnique(v, W, -1, v + W); } else { ModSmall(v, W); }
  }

  /** A move with two sizes stores the source read with or without a sign. */
  lemma MovWorld(c: Code, src: Operand, dest: Operand, size1: nat, size2: nat, signed: bool, m: Machine)
    requires Sound(c) && RegsOk(m) && !dest.Imm? && SizeFits(dest, size2) && Size(size1) && size1 <= size2
    ensures RegsOk(Exec(c.ss, m))
    ensures var z := Exec(c.ss, m);
            SameWorld(Exec(MovCode(c, src, dest, size1, size2, signed).ss, m),
                      Put(dest, View(OperandValue(src, size1, z), Pow(256, size1), signed), size2, z))
  {
    hide Exec, Sound, Scope, Extends, OperandValue, Put, Declare, StoreTo, Eval, Convert, View, Pow, Fetch, TmpOf;
    ExecRegsOk(c.ss, m);
    var z, n := Exec(c.ss, m), c.next;
    var v := View(OperandValue(src, size1, z), Pow(256, size1), signed);
    ValueRange(src, size1, z);
    FetchReads(src, size1, Scope(c));
    RunDeclare(c, size1, signed, Fetch(src, size1), m);
    FetchViews(src, size1, signed, z);
    Extended(OperandValue(src, size1, z), size1, size2, signed);
    var c1 := FetchInto(c, src, size1, signed);
    var z1 := Exec(c1.ss, m);
    TmpBound(z, n, v);
    if size1 != size2 {
      RunDeclare(c1, size2, signed, Tmp(n), m);
      TmpBound(z1, n + 1, v);
      var c2 := Declare(c1, size2, signed, Tmp(n));
      RunStore(c2, dest, Tmp(n + 1), size2, m);
      PutWorld(dest, v, size2, z, Exec(c2.ss, m));
    } else {
      RunStore(c1, dest, Tmp(n), size2, m);
      PutWorld(dest, v, size2, z, z1);
    }
  }

  lemma TmpBound(z: Machine, id: nat, v: int)
    ensures Eval(Tmp(id), Bind(z, id, v)) == v
  {}

  /**
   mov, movz and movsx store the source, extended with zeros or with its sign, and nothing else, exactly if it is not a negative
   number for the low byte or half of a register.
   */
  lemma MovExtends(c: Code, src: Operand, dest: Operand, size1: nat, size2: nat, signed: bool, m: Machine)
    requires Sound(c) && RegsOk(m) && !dest.Imm? && SizeFits(dest, size2) && Size(size1) && size1 <= size2
    ensures RegsOk(Exec(c.ss, m)) && 0 < Pow(256, size2)
    ensures var z, z' := Exec(c.ss, m), Exec(MovCode(c, src, dest, size1, size2, signed).ss, m);
            var v := View(OperandValue(src, size1, z), Pow(256, size1), signed);
            SameWorld(z', Put(dest, v % Pow(256, size2), size2, z)) <==> !(PartialLow(dest, size2) && v < 0)
  {
    hide Exec, MovCode, OperandValue, Put, Pow, Sound, PartialLow, View, Convert;
    MovWorld(c, src, dest, size1, size2, signed, m);
    var z := Exec(c.ss, m);
    var v := View(OperandValue(src, size1, z), Pow(256, size1), signed);
    PowPos(256, size2);
    ValueRange(src, size1, z);
    Extended(OperandValue(src, size1, z), size1, size2, signed);
    PutComplement(dest, v, size2, z);
  }

  /** movsbw %al,%dx with a negative number in al borrows from the upper part of rdx. */
  lemma MovsbwBorrows(c: Code, m: Machine)
    requires Sound(c) && RegsOk(m) && OperandValue(Whole(RAX), 1, Exec(c.ss, m)) >= 0x80
    ensures RegsOk(Exec(c.ss, m))
    ensures var z, z' := Exec(c.ss, m), Exec(MovCode(c, Whole(RAX), Whole(RDX), 1, 2, true).ss, m);
            !SameWorld(z', Put(Whole(RDX), 0xFF00 + OperandValue(Whole(RAX), 1, z), 2, z))
  {
    hide Exec, MovCode, OperandValue, Put, Pow, Sound, Convert;
    MaskPowers();
    MovExtends(c, Whole(RAX), Whole(RDX), 1, 2, true, m);
    var x := OperandValue(Whole(RAX), 1, Exec(c.ss, m));
    ValueRange(Whole(RAX), 1, Exec(c.ss, m));
    DivModUnique(x - 0x100, 0x1_0000, -1, 0xFF00 + x);
  }
}
