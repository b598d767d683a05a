/**
 Operands that involve a register which the instruction itself changes: exactly for which operands the texts of push, pop,
 xchg, xadd and cmov do what the instructions mean.
 */
module Aliasing {
  import opened Addresses
  import opened AluChain
  import opened AluFlags
  import opened Arith
  import opened CartridgeEmitter
  import opened CartridgeIR
  import opened Conditions
  import opened Effects
  import opened Operands
  import opened Options

  // ----- machines to try

  /** A machine with zeros in all registers but r. */
  function Trial(r: Reg, v: int, mem: map<int, int>): (m: Machine)
    requires 0 <= v < WORD
    ensures RegsOk(m) && m.regs[r] == v && m.mem == mem
  {
    Machine(seq(REG_COUNT, q => if q == r then v else 0), mem, map[])
  }

  /** The empty text. */
  lemma FromStart(m: Machine)
    ensures Sound(Start({}, 0)) && Exec(Start({}, 0).ss, m) == m
  {}

  // ----- push

  /** The text of push stores the value that the operand has before the instruction. */
  ghost predicate PushRight(c: Code, src: Operand, size: nat, m: Machine)
    requires Sound(c) && RegsOk(m) && Size(size)
  {
    ExecRegsOk(c.ss, m);
    var z := Exec(c.ss, m);
    SameWorld(Exec(PushCode(c, src, size).ss, m), Pushed(z, OperandValue(src, size, z), size))
  }

  lemma PushWrong(c: Code, src: Operand, size: nat, m: Machine)
    requires Sound(c) && RegsOk(m) && Size(size) && |Exec(c.ss, m).regs| == REG_COUNT
    requires var z := Exec(c.ss, m); OperandValue(src, size, Lowered(z, size)) != OperandValue(src, size, z)
    ensures !PushRight(c, src, size, m)
    ensures var z, z' := Exec(c.ss, m), Exec(PushCode(c, src, size).ss, m);
            z'.mem != Pushed(z, OperandValue(src, size, z), size).mem
  {
    hide Exec, Sound, OperandValue, PushCode, StoreBytes, Pow;
    PushWorld(c, src, size, m);
    var z := Exec(c.ss, m);
    ValueRange(src, size, z);
    ValueRange(src, size, Lowered(z, size));
    StoresDiffer(z.mem, (z.regs[RSP] - size) % WORD, size, OperandValue(src, size, Lowered(z, size)), OperandValue(src, size, z));
  }

  /** The text of push %rsp stores the stack pointer that it has already moved, on every machine. */
  lemma PushOfRsp(c: Code, m: Machine)
    requires Sound(c) && RegsOk(m)
    ensures RegsOk(Exec(c.ss, m)) && !PushRight(c, Whole(RSP), 8, m)
    ensures var z, z' := Exec(c.ss, m), Exec(PushCode(c, Whole(RSP), 8).ss, m);
            z'.mem == Pushed(z, (z.regs[RSP] - 8) % WORD, 8).mem != Pushed(z, z.regs[RSP], 8).mem
  {
    hide Exec, Sound, OperandValue, PushCode, StoreBytes, Pow;
    ExecRegsOk(c.ss, m);
    MaskPowers();
    var z := Exec(c.ss, m);
    var x, low := z.regs[RSP], (z.regs[RSP] - 8) % WORD;
    RegisterFetched(RSP, false, 8, z, x);
    RegisterFetched(RSP, false, 8, Lowered(z, 8), low);
    ModSmall(x, WORD);
    ModSmall(low, WORD);
    BackUp(x, 8);
    PushWorld(c, Whole(RSP), 8, m);
    PushWrong(c, Whole(RSP), 8, m);
  }

  /** Every operand that involves rsp has another value after rsp has moved, on some machine. */
  lemma PushTrial(src: Operand, size: nat) returns (m: Machine)
    requires Size(size) && !Clear(src, RSP)
    ensures RegsOk(m) && OperandValue(src, size, Lowered(m, size)) != OperandValue(src, size, m)
  {
    hide OperandValue, Pow;
    MaskPowers();
    m := Trial(RSP, 0x100, map[]);
    if src.RegOp? {
      ModSmall(0x100 - size, WORD);
      RegisterRead(src, size, m, 0x100);
      RegisterRead(src, size, Lowered(m, size), 0x100 - size);
    } else {
      var down: int := size;
      ModSmall(0x100 - size, WORD);
      AddrMoves(src, m, Lowered(m, size), RSP, -down);
      AddrRange(src, m);
      AddrRange(src, Lowered(m, size));
      var a := Eval(Addr(src), m);
      m := Trial(RSP, 0x100, OneByte(a));
      AddrClear(src, Trial(RSP, 0x100, map[]), m, REG_COUNT);
      AddrClear(src, Lowered(Trial(RSP, 0x100, map[]), size), Lowered(m, size), REG_COUNT);
      LoadsDiffer(src, size, m, Lowered(m, size), a);
    }
  }

  /** What a fetch from a register of small numbers gives. */
  lemma RegisterRead(op: Operand, size: nat, m: Machine, x: int)
    requires op.RegOp? && Size(size) && |m.regs| == REG_COUNT && m.regs[op.r] == x && 0 <= x <= 0x100
    ensures OperandValue(op, size, m) == if op.high then x / 0x100 else if size == 1 then x % 0x100 else x
  {
    hide Pow, OperandValue;
    MaskPowers();
    if op.high {
      HighRead(op, size, m, x);
    } else {
      RegisterFetched(op.r, false, size, m, x);
      if size != 1 { ModSmall(x, Pow(256, size)); }
    }
  }

  lemma HighRead(op: Operand, size: nat, m: Machine, x: int)
    requires op.RegOp? && op.high && Size(size) && |m.regs| == REG_COUNT && m.regs[op.r] == x && 0 <= x <= 0x100
    ensures OperandValue(op, size, m) == x / 0x100
  {
    hide Pow, Convert;
    MaskPowers();
    Converted(x / 0x100, 1);
    Converted(x / 0x100, size);
    ModSmall(x / 0x100, 0x100);
    ModSmall(x / 0x100, Pow(256, size));
    assert Eval(Bin(ShiftR, RegVal(op.r), Lit(8)), m) == x / 0x100;
  }

  lemma AddrRange(op: Operand, m: Machine)
    requires op.MemOp? && |m.regs| == REG_COUNT
    ensures 0 <= Eval(Addr(op), m) < WORD
  {
    hide Eval, Addr;
    AddrValue(op, m);
  }

  /** A fetch from the one byte that is set, and one from elsewhere. */
  lemma LoadsDiffer(op: Operand, size: nat, m: Machine, m': Machine, a: int)
    requires op.MemOp? && Size(size) && |m.regs| == |m'.regs| == REG_COUNT && m.mem == m'.mem == OneByte(a)
    requires Eval(Addr(op), m) == a != Eval(Addr(op), m')
    ensures OperandValue(op, size, m) == 1 && OperandValue(op, size, m') % 256 == 0
  {
    hide LoadBytes, Addr, Pow, OneByte;
    MaskPowers();
    AddrRange(op, m);
    AddrRange(op, m');
    var b := Eval(Addr(op), m');
    LoadOne(a, size);
    LoadOther(a, b, size);
    var v := LoadBytes(m'.mem, b, size);
    LowByte(v, Pow(256, size), if size == 1 then 1 else if size == 2 then 0x100 else if size == 4 then 0x100_0000 else 0x100_0000_0000_0000);
    ModSmall(1, Pow(256, size));
  }

  lemma LowByte(v: int, p: int, k: int)
    requires 0 < k && p == k * 256
    ensures v % p % 256 == v % 256
  {
    var q := v / p;
    assert q * p == q * k * 256;
    ModShift(v, -(q * k), 256);
  }

  /** The text of push is right on every machine exactly for operands that do not involve rsp. */
  lemma PushExactly(src: Operand, size: nat)
    requires Size(size)
    ensures (forall c: Code, m: Machine :: Sound(c) && RegsOk(m) ==> PushRight(c, src, size, m)) <==> Clear(src, RSP)
  {
    hide Exec, Sound, OperandValue, PushCode, Pushed;
    if Clear(src, RSP) {
      forall c: Code, m: Machine | Sound(c) && RegsOk(m) ensures PushRight(c, src, size, m) { PushExec(c, src, size, m); }
    } else {
      var m := PushTrial(src, size);
      FromStart(m);
      PushWrong(Start({}, 0), src, size, m);
    }
  }

  // ----- pop

  /** The machine after a pop: the stack pointer has moved, and then the operand gets what was on top of the stack. */
  function Popped(m: Machine, dest: Operand, size: nat): Machine
    requires !dest.Imm? && |m.regs| == REG_COUNT
  {
    PowPos(256, size);
    Put(dest, Top(m, size) % Pow(256, size), size, Raised(m, size))
  }

  ghost predicate PopRight(c: Code, dest: Operand, size: nat, m: Machine)
    requires Sound(c) && RegsOk(m) && !dest.Imm?
  {
    ExecRegsOk(c.ss, m);
    SameWorld(Exec(PopCode(c, dest, size).ss, m), Popped(Exec(c.ss, m), dest, size))
  }

  /** Moving the stack pointer before or after storing elsewhere is the same. */
  lemma RaiseCommutes(dest: Operand, v: int, size: nat, z: Machine)
    requires !dest.Imm? && Clear(dest, RSP) && RegsOk(z)
    ensures RegsOk(Put(dest, v, size, z)) && SameWorld(Raised(Put(dest, v, size, z), size), Put(dest, v, size, Raised(z, size)))
  {
    hide Eval, Addr, PutReg, StoreBytes;
    PutRegsOk(dest, v, size, z);
    if dest.MemOp? {
      AddrClear(dest, z, Raised(z, size), RSP);
    } else {
      var y, sp := PutReg(z.regs[dest.r], v, size, dest.high), (z.regs[RSP] + size) % WORD;
      assert z.regs[dest.r := y][RSP := sp] == z.regs[RSP := sp][dest.r := y];
    }
  }

  /** Popping to the stack pointer itself, or to memory addressed through it, goes wrong on some machine. */
  lemma PopTrial(dest: Operand, size: nat) returns (m: Machine)
    requires !dest.Imm? && SizeFits(dest, size) && !Clear(dest, RSP)
    ensures RegsOk(m) && 0 < Pow(256, size)
    ensures var s := Put(dest, Top(m, size) % Pow(256, size), size, m);
            RegsOk(s) && !SameWorld(Raised(s, size), Popped(m, dest, size))
  {
    hide Put, Pow, LoadBytes, Top;
    PowPos(256, size);
    if dest.RegOp? {
      m := Trial(RSP, 0xFF, map[]);
      EmptyTop(size, m);
      PutRegsOk(dest, 0, size, m);
      PopToRsp(dest, size, m);
    } else {
      m := Trial(RSP, 0xFF, OneByte(0xFF));
      OneOnTop(size, m);
      PutRegsOk(dest, 1, size, m);
      PopThroughRsp(dest, size, m);
    }
  }

  lemma EmptyTop(size: nat, m: Machine)
    requires Size(size) && RegsOk(m) && m.mem == map[]
    ensures 0 < Pow(256, size) && Top(m, size) % Pow(256, size) == 0
  {
    hide Pow;
    PowPos(256, size);
    NothingThere(m.regs[RSP], size);
    ModSmall(0, Pow(256, size));
  }

  lemma {:induction false} NothingThere(a: int, n: nat)
    ensures LoadBytes(map[], a, n) == 0
    decreases n
  {
    if n != 0 { NothingThere(a + 1, n - 1); }
  }

  lemma OneOnTop(size: nat, m: Machine)
    requires Size(size) && RegsOk(m) && m.regs[RSP] == 0xFF && m.mem == OneByte(0xFF)
    ensures 0 < Pow(256, size) && Top(m, size) % Pow(256, size) == 1
  {
    hide Pow, LoadBytes, OneByte;
    MaskPowers();
    LoadOne(0xFF, size);
    ModSmall(1, Pow(256, size));
  }

  lemma PopToRsp(dest: Operand, size: nat, m: Machine)
    requires dest.RegOp? && dest.r == RSP && SizeFits(dest, size) && RegsOk(m) && m.regs[RSP] == 0xFF
    requires RegsOk(Put(dest, 0, size, m))
    ensures Raised(Put(dest, 0, size, m), size).regs != Put(dest, 0, size, Raised(m, size)).regs
  {
    var x, y := PutReg(0xFF, 0, size, dest.high), PutReg((0xFF + size) % WORD, 0, size, dest.high);
    ModSmall(0xFF + size, WORD);
    assert Raised(Put(dest, 0, size, m), size).regs[RSP] == (x + size) % WORD;
    assert Put(dest, 0, size, Raised(m, size)).regs[RSP] == y;
    assert (x + size) % WORD != y;
  }

  lemma PopThroughRsp(dest: Operand, size: nat, m: Machine)
    requires dest.MemOp? && !Clear(dest, RSP) && Size(size) && RegsOk(m) && m.regs[RSP] == 0xFF && m.mem == OneByte(0xFF)
    requires RegsOk(Put(dest, 1, size, m))
    ensures Raised(Put(dest, 1, size, m), size).mem != Put(dest, 1, size, Raised(m, size)).mem
  {
    hide StoreBytes, Eval, Addr;
    ModSmall(0xFF + size, WORD);
    AddrMoves(dest, m, Raised(m, size), RSP, size);
    AddrRange(dest, m);
    AddrRange(dest, Raised(m, size));
    var a, b := Eval(Addr(dest), m), Eval(Addr(dest), Raised(m, size));
    OneStored(m.mem, a, size, b);
    OneStored(m.mem, b, size, a);
  }

  /** The text of pop %rsp leaves the popped number plus 8 in rsp, on every machine. */
  lemma PopOfRsp(c: Code, m: Machine)
    requires Sound(c) && RegsOk(m)
    ensures RegsOk(Exec(c.ss, m)) && !PopRight(c, Whole(RSP), 8, m)
    ensures var z, z' := Exec(c.ss, m), Exec(PopCode(c, Whole(RSP), 8).ss, m);
            |z'.regs| == REG_COUNT && z'.regs[RSP] == (Top(z, 8) % WORD + 8) % WORD != Top(z, 8) % WORD == Popped(z, Whole(RSP), 8).regs[RSP]
  {
    hide Exec, Sound, PopCode, LoadBytes, Pow;
    MaskPowers();
    PopWorld(c, Whole(RSP), 8, m);
    var v := Top(Exec(c.ss, m), 8) % WORD;
    ModSmall(v, WORD);
    OffBySize(v, v, 8);
    assert Exec(PopCode(c, Whole(RSP), 8).ss, m).regs[RSP] == (v + 8) % WORD;
    assert Popped(Exec(c.ss, m), Whole(RSP), 8).regs[RSP] == v;
  }

  /** The text of pop is right on every machine exactly for operands that do not involve rsp. */
  lemma PopExactly(dest: Operand, size: nat)
    requires !dest.Imm? && SizeFits(dest, size)
    ensures (forall c: Code, m: Machine :: Sound(c) && RegsOk(m) ==> PopRight(c, dest, size, m)) <==> Clear(dest, RSP)
  {
    hide Exec, Sound, PopCode, Put, Raised, Top, Pow;
    if Clear(dest, RSP) {
      forall c: Code, m: Machine | Sound(c) && RegsOk(m) ensures PopRight(c, dest, size, m) {
        PopWorld(c, dest, size, m);
        RaiseCommutes(dest, Top(Exec(c.ss, m), size) % Pow(256, size), size, Exec(c.ss, m));
      }
    } else {
      var m := PopTrial(dest, size);
      FromStart(m);
      PopWorld(Start({}, 0), dest, size, m);
      assert !PopRight(Start({}, 0), dest, size, m);
    }
  }

  // ----- push, then pop

  /** A push and a pop move the operand to the register and leave all else as it was, but for the memory below the stack. */
  ghost predicate PushPopMoves(c: Code, src: Operand, r: Reg, size: nat, m: Machine)
    requires Sound(c) && RegsOk(m) && Size(size)
  {
    ExecRegsOk(c.ss, m);
    var z := Exec(c.ss, m);
    var z' := Exec(PopCode(PushCode(c, src, size), Whole(r), size).ss, m);
    && z'.regs == Put(Whole(r), OperandValue(src, size, z), size, z).regs
    && z'.mem == Pushed(z, OperandValue(src, size, z), size).mem
  }

  /** What a push and a pop do to the registers. */
  lemma PushPopWorld(c: Code, src: Operand, r: Reg, size: nat, m: Machine)
    requires Sound(c) && RegsOk(m) && Size(size)
    ensures RegsOk(Exec(c.ss, m))
    ensures var z := Exec(c.ss, m); var z' := Exec(PopCode(PushCode(c, src, size), Whole(r), size).ss, m);
            var v := OperandValue(src, size, Lowered(z, size)); var s := Put(Whole(r), v, size, Lowered(z, size));
            RegsOk(s) && z'.regs == Raised(s, size).regs && z'.mem == Pushed(z, v, size).mem
  {
    hide Exec, Sound, Scope, Extends, OperandValue, PushCode, PopCode, Pow, PutReg, StoreBytes, LoadBytes;
    PushWorld(c, src, size, m);
    var z := Exec(c.ss, m);
    var v := OperandValue(src, size, Lowered(z, size));
    var c1 := PushCode(c, src, size);
    PopWorld(c1, Whole(r), size, m);
    TopOfPushed(z, v, size);
    ValueRange(src, size, Lowered(z, size));
    ModSmall(v, Pow(256, size));
    PutRegsOk(Whole(r), v, size, Lowered(z, size));
  }

  lemma PushPopElsewhere(c: Code, src: Operand, r: Reg, size: nat, m: Machine)
    requires Sound(c) && RegsOk(m) && Size(size) && Clear(src, RSP) && r != RSP
    ensures PushPopMoves(c, src, r, size, m)
  {
    hide Exec, Sound, OperandValue, PushCode, PopCode, PutReg, StoreBytes;
    PushPopWorld(c, src, r, size, m);
    var z := Exec(c.ss, m);
    var v := OperandValue(src, size, z);
    ValueClear(src, size, z, Lowered(z, size), RSP);
    BackUp(z.regs[RSP], size);
    assert z.regs[RSP := (z.regs[RSP] - size) % WORD][r := PutReg(z.regs[r], v, size, false)][RSP := z.regs[RSP]] ==
           z.regs[r := PutReg(z.regs[r], v, size, false)];
  }

  /** Popping to rsp leaves another number there than the one that was pushed. */
  lemma PushPopRsp(c: Code, src: Operand, size: nat, m: Machine)
    requires Sound(c) && RegsOk(m) && Size(size) && Clear(src, RSP)
    ensures !PushPopMoves(c, src, RSP, size, m)
  {
    hide Exec, Sound, OperandValue, PushCode, PopCode, PutReg, StoreBytes, Pow;
    PushPopWorld(c, src, RSP, size, m);
    var z := Exec(c.ss, m);
    var v := OperandValue(src, size, z);
    ValueClear(src, size, z, Lowered(z, size), RSP);
    PutRegPart(z.regs[RSP], v, size, false);
    PutRegPart((z.regs[RSP] - size) % WORD, v, size, false);
    PutRegRange((z.regs[RSP] - size) % WORD, v, size, false);
    var x, y := PutReg(z.regs[RSP], v, size, false), PutReg((z.regs[RSP] - size) % WORD, v, size, false);
    OffBySize(x, y, size);
    var z' := Exec(PopCode(PushCode(c, src, size), Whole(RSP), size).ss, m);
    assert z'.regs[RSP] == (y + size) % WORD;
    assert Put(Whole(RSP), v, size, z).regs[RSP] == x;
  }

  lemma OffBySize(x: int, y: int, size: nat)
    requires Size(size) && 0 <= y < WORD && 0 < Pow(256, size) && x % Pow(256, size) == y % Pow(256, size)
    ensures x != (y + size) % WORD
  {
    hide Pow;
    MaskPowers();
    var W := Pow(256, size);
    if y + size < WORD {
      ModSmall(y + size, WORD);
      CongSub(y + size, x, W);
      CongSub(y, x, W);
      Apart8(x, y, size, W);
    } else {
      DivModUnique(y + size, WORD, 1, y + size - WORD);
      WrapApart(x, y, size);
    }
  }

  lemma Apart8(x: int, y: int, size: int, W: int)
    requires 0 < size < W && x % W == y % W
    ensures x != y + size
  {
    CongSub(x, y, W);
    ModSmall(size, W);
  }

  lemma WrapApart(x: int, y: int, size: nat)
    requires Size(size) && 0 < Pow(256, size) && x % Pow(256, size) == y % Pow(256, size)
    ensures x != y + size - WORD
  {
    hide Pow;
    MaskPowers();
    var W := Pow(256, size);
    var k := if size == 1 then 0x100_0000_0000_0000 else if size == 2 then 0x1_0000_0000_0000 else if size == 4 then 0x1_0000_0000 else 1;
    assert WORD == k * W;
    ModShift(x, k, W);
    Apart8(x + k * W, y, size, W);
  }

  /** Exactly when a push and a pop to a register move the operand and nothing else. */
  lemma PushThenPop(src: Operand, r: Reg, size: nat)
    requires Size(size)
    ensures (forall c: Code, m: Machine :: Sound(c) && RegsOk(m) ==> PushPopMoves(c, src, r, size, m)) <==>
              Clear(src, RSP) && r != RSP
  {
    hide Exec, Sound, OperandValue, PushCode, PopCode, Pushed, Put, Pow;
    if !Clear(src, RSP) {
      var m := PushTrial(src, size);
      FromStart(m);
      PushWrong(Start({}, 0), src, size, m);
      PopKeepsMemory(PushCode(Start({}, 0), src, size), r, size, m);
      assert !PushPopMoves(Start({}, 0), src, r, size, m);
    } else if r == RSP {
      TrialOk();
      FromStart(Trial(RSP, 0, map[]));
      PushPopRsp(Start({}, 0), src, size, Trial(RSP, 0, map[]));
    } else {
      forall c: Code, m: Machine | Sound(c) && RegsOk(m) ensures PushPopMoves(c, src, r, size, m) {
        PushPopElsewhere(c, src, r, size, m);
      }
    }
  }

  lemma TrialOk()
    ensures RegsOk(Trial(RSP, 0, map[]))
  {}

  lemma PopKeepsMemory(c: Code, r: Reg, size: nat, m: Machine)
    requires Sound(c) && RegsOk(m) && Size(size)
    ensures Exec(PopCode(c, Whole(r), size).ss, m).mem == Exec(c.ss, m).mem
  {
    hide Exec, Sound, PopCode, PutReg, LoadBytes, Pow;
    PopWorld(c, Whole(r), size, m);
  }

  /** Pushing a register and popping it again leaves every register as it was, rsp included. */
  lemma PushPopRestores(c: Code, r: Reg, m: Machine)
    requires Sound(c) && RegsOk(m)
    ensures RegsOk(Exec(c.ss, m)) && Exec(PopCode(PushCode(c, Whole(r), 8), Whole(r), 8).ss, m).regs == Exec(c.ss, m).regs
  {
    hide Exec, Sound, PushCode, PopCode, Pow, OperandValue, StoreBytes;
    PushPopWorld(c, Whole(r), r, 8, m);
    var z := Exec(c.ss, m);
    var low := Lowered(z, 8);
    MaskPowers();
    RegisterFetched(r, false, 8, low, low.regs[r]);
    ModSmall(low.regs[r], WORD);
    BackUp(z.regs[RSP], 8);
    assert low.regs[r := low.regs[r]] == low.regs;
    assert z.regs[RSP := low.regs[RSP]][RSP := z.regs[RSP]] == z.regs;
  }

  // ----- exchanges

  /** Where a memory operand is. */
  function PlaceOf(op: Operand, m: Machine): int {
    if op.MemOp? then Eval(Addr(op), m) else 0
  }

  /** The machine after v has been stored to an operand whose place is known. */
  function PutAt(op: Operand, place: int, v: int, size: nat, m: Machine): Machine
    requires !op.Imm? && |m.regs| == REG_COUNT
  {
    match op
    case RegOp(r, high) => m.(regs := m.regs[r := PutReg(m.regs[r], v, size, high)])
    case MemOp(_, _, _, _) => m.(mem := StoreBytes(m.mem, place, size, v))
  }

  lemma PutAtPlace(op: Operand, v: int, size: nat, m: Machine, place: int)
    requires !op.Imm? && |m.regs| == REG_COUNT && (op.MemOp? ==> place == Eval(Addr(op), m))
    ensures PutAt(op, place, v, size, m) == Put(op, v, size, m)
  {}

  lemma PutAtCount(op: Operand, place: int, v: int, size: nat, m: Machine)
    requires !op.Imm? && |m.regs| == REG_COUNT
    ensures |PutAt(op, place, v, size, m).regs| == REG_COUNT
  {}

  /** The machine after v and w have been stored to two operands where they are at the start. */
  function PutBoth(src: Operand, v: int, dest: Operand, w: int, size: nat, m: Machine): Machine
    requires !src.Imm? && !dest.Imm? && |m.regs| == REG_COUNT
  {
    PutAtCount(src, PlaceOf(src, m), v, size, m);
    PutAt(dest, PlaceOf(dest, m), w, size, PutAt(src, PlaceOf(src, m), v, size, m))
  }

  /** Memory addressed through the register that is stored to before it. */
  predicate Chained(src: Operand, dest: Operand) {
    src.RegOp? && dest.MemOp? && !Clear(dest, src.r)
  }

  predicate Pair(src: Operand, dest: Operand, size: nat) {
    !src.Imm? && !dest.Imm? && SizeFits(src, size) && SizeFits(dest, size)
  }

  /** The text of xchg swaps the values in the places that the operands have at the start, and changes nothing else. */
  ghost predicate XchgRight(c: Code, src: Operand, dest: Operand, size: nat, m: Machine)
    requires Sound(c) && RegsOk(m) && Pair(src, dest, size)
  {
    ExecRegsOk(c.ss, m);
    var z := Exec(c.ss, m);
    SameWorld(Exec(XchgCode(c, src, dest, size).ss, m),
              PutBoth(src, OperandValue(dest, size, z), dest, OperandValue(src, size, z), size, z))
  }

  /** Storing to one operand leaves the place of the other. */
  lemma PlaceStays(src: Operand, dest: Operand, v: int, size: nat, z: Machine)
    requires !src.Imm? && !dest.Imm? && !Chained(src, dest) && RegsOk(z)
    ensures RegsOk(Put(src, v, size, z)) && PlaceOf(dest, Put(src, v, size, z)) == PlaceOf(dest, z)
  {
    hide Eval, Addr, PutReg, StoreBytes;
    PutRegsOk(src, v, size, z);
    if dest.MemOp? {
      AddrClear(dest, z, Put(src, v, size, z), if src.RegOp? then src.r else REG_COUNT);
    }
  }

  lemma PutBothInTurn(src: Operand, v: int, dest: Operand, w: int, size: nat, z: Machine)
    requires !src.Imm? && !dest.Imm? && !Chained(src, dest) && RegsOk(z)
    ensures RegsOk(Put(src, v, size, z)) && PutBoth(src, v, dest, w, size, z) == Put(dest, w, size, Put(src, v, size, z))
  {
    hide Eval, Put, PutAt;
    PlaceStays(src, dest, v, size, z);
    PutAtPlace(src, v, size, z, PlaceOf(src, z));
    PutAtPlace(dest, w, size, Put(src, v, size, z), PlaceOf(dest, z));
  }

  /** A register whose named part is one, and no other number anywhere. */
  function OnePart(op: Operand): (m: Machine)
    requires op.RegOp?
    ensures RegsOk(m)
  {
    Trial(op.r, if op.high then 0x100 else 1, map[])
  }

  /** The first store moves the place of the second one. */
  lemma ChainedPlace(src: Operand, dest: Operand, size: nat)
    requires Pair(src, dest, size) && Chained(src, dest)
    ensures var m := OnePart(src);
            && OperandValue(src, size, m) == 1 && OperandValue(dest, size, m) == 0 && RegsOk(Put(src, 0, size, m))
            && 0 <= PlaceOf(dest, m) < WORD && 0 <= PlaceOf(dest, Put(src, 0, size, m)) < WORD
            && PlaceOf(dest, Put(src, 0, size, m)) != PlaceOf(dest, m)
            && Put(src, 0, size, m).mem == map[] && Put(src, 0, size, m).regs[src.r] == 0
  {
    hide OperandValue, Eval, Addr, Pow;
    var m := OnePart(src);
    var v := m.regs[src.r];
    PutRegsOk(src, 0, size, m);
    var s := Put(src, 0, size, m);
    RegisterRead(src, size, m, v);
    EmptyFetch(dest, size, m);
    CutToZero(size, src.high);
    AddrMoves(dest, m, s, src.r, -v);
    AddrRange(dest, m);
    AddrRange(dest, s);
  }

  lemma CutToZero(size: nat, high: bool)
    requires Size(size) && (high ==> size == 1)
    ensures PutReg(if high then 0x100 else 1, 0, size, high) == 0
  {}

  lemma EmptyFetch(op: Operand, size: nat, m: Machine)
    requires op.MemOp? && Size(size) && |m.regs| == REG_COUNT && m.mem == map[]
    ensures OperandValue(op, size, m) == 0
  {
    hide LoadBytes, Addr, Pow;
    MaskPowers();
    NothingThere(Eval(Addr(op), m), size);
    ModSmall(0, Pow(256, size));
  }

  /** An exchange of a register with memory addressed through it goes wrong on some machine. */
  lemma XchgWrong(src: Operand, dest: Operand, size: nat)
    requires Pair(src, dest, size) && Chained(src, dest)
    ensures Sound(Start({}, 0)) && !XchgRight(Start({}, 0), src, dest, size, OnePart(src))
  {
    hide OperandValue, Eval, Addr, Pow, Exec, XchgCode, StoreBytes, Sound;
    var m := OnePart(src);
    FromStart(m);
    ChainedPlace(src, dest, size);
    XchgExec(Start({}, 0), src, dest, size, m);
    var a, b := PlaceOf(dest, m), PlaceOf(dest, Put(src, 0, size, m));
    OneStored(map[], a, size, b);
    OneStored(map[], b, size, b);
  }

  /** The text of xchg is right on every machine exactly if it does not exchange a register with memory addressed through it. */
  lemma XchgExactly(src: Operand, dest: Operand, size: nat)
    requires Pair(src, dest, size)
    ensures (forall c: Code, m: Machine :: Sound(c) && RegsOk(m) ==> XchgRight(c, src, dest, size, m)) <==> !Chained(src, dest)
  {
    hide Exec, Sound, OperandValue, XchgCode, Put, PutBoth;
    if Chained(src, dest) {
      XchgWrong(src, dest, size);
    } else {
      forall c: Code, m: Machine | Sound(c) && RegsOk(m) ensures XchgRight(c, src, dest, size, m) {
        XchgExec(c, src, dest, size, m);
        var z := Exec(c.ss, m);
        PutBothInTurn(src, OperandValue(dest, size, z), dest, OperandValue(src, size, z), size, z);
      }
    }
  }

  /** xchg %rax,(%rax) with 1 in rax: the number goes to address 0 and not to address 1. */
  lemma XchgThroughItself()
    ensures var src, dest := Whole(RAX), MemOp(true, 0, Some(RAX), None);
            && Sound(Start({}, 0)) && Pair(src, dest, 8) && Chained(src, dest)
            && !XchgRight(Start({}, 0), src, dest, 8, OnePart(src)) && PlaceOf(dest, OnePart(src)) == 1
  {
    hide Exec, XchgCode, OperandValue, Eval, Addr;
    var src, dest := Whole(RAX), MemOp(true, 0, Some(RAX), None);
    XchgWrong(src, dest, 8);
    AddrValue(dest, OnePart(src));
  }

  // ----- exchange and add

  /** The text of xadd leaves the sum where the destination was, the old destination in the source, and the flags of the sum. */
  ghost predicate XaddRight(c: Code, src: Operand, dest: Operand, size: nat, m: Machine)
    requires Sound(c) && RegsOk(m) && Pair(src, dest, size)
  {
    ExecRegsOk(c.ss, m);
    PowPos(256, size);
    var z, z', W := Exec(c.ss, m), Exec(OpCode(c, Xadd(src, dest, size)).ss, m), Pow(256, size);
    var x, y := OperandValue(src, size, z), OperandValue(dest, size, z);
    var s := PutBoth(src, y, dest, (x + y) % W, size, z);
    && |s.regs| == |z'.regs| == REG_COUNT && z'.regs == s.regs[EFL := z'.regs[EFL]] && z'.mem == s.mem
    && FlagsRight(z'.regs[EFL], true, false, x, y, 0, W)
  }

  /** The addition after the exchange. */
  lemma XaddWorld(c: Code, src: Operand, dest: Operand, size: nat, m: Machine)
    requires Sound(c) && RegsOk(m) && Pair(src, dest, size) && Clear(dest, EFL)
    ensures RegsOk(Exec(c.ss, m)) && 0 < Pow(256, size)
    ensures var z, z', W := Exec(c.ss, m), Exec(OpCode(c, Xadd(src, dest, size)).ss, m), Pow(256, size);
            var x, y := OperandValue(src, size, z), OperandValue(dest, size, z);
            RegsOk(Put(src, y, size, z)) &&
            var s := Put(dest, x, size, Put(src, y, size, z));
            var a, b := OperandValue(dest, size, s), OperandValue(src, size, s);
            && RegsOk(s) && |z'.regs| == REG_COUNT && FlagsRight(z'.regs[EFL], true, false, a, b, 0, W)
            && z'.mem == Put(dest, (a + b) % W, size, s).mem
            && z'.regs == Put(dest, (a + b) % W, size, s).regs[EFL := z'.regs[EFL]]
  {
    hide Exec, Sound, Scope, OperandValue, XchgCode, AddCode, Put, Pow, FlagsRight;
    XchgExec(c, src, dest, size, m);
    var z := Exec(c.ss, m);
    var s1 := Put(src, OperandValue(dest, size, z), size, z);
    var s := Put(dest, OperandValue(src, size, z), size, s1);
    PutRegsOk(dest, OperandValue(src, size, z), size, s1);
    var c1, o := XchgCode(c, src, dest, size), AddOf(src, dest, size);
    var z1 := Exec(c1.ss, m);
    AddExec(c1, o, m);
    ValueAgrees(dest, size, s, z1);
    ValueAgrees(src, size, s, z1);
    PutWorld(dest, (OperandValue(dest, size, s) + OperandValue(src, size, s)) % Pow(256, size), size, s, z1);
    PutRegsOk(dest, (OperandValue(dest, size, s) + OperandValue(src, size, s)) % Pow(256, size), size, s);
  }

  /** The operands after an exchange. */
  lemma Swapped(src: Operand, dest: Operand, size: nat, z: Machine)
    requires Pair(src, dest, size) && src.RegOp? && !Chained(src, dest) && RegsOk(z)
    ensures var x, y := OperandValue(src, size, z), OperandValue(dest, size, z);
            RegsOk(Put(src, y, size, z)) &&
            var s := Put(dest, x, size, Put(src, y, size, z));
            OperandValue(dest, size, s) == x && OperandValue(src, size, s) == y
  {
    hide OperandValue, Put, Pow;
    var x, y := OperandValue(src, size, z), OperandValue(dest, size, z);
    ValueRange(src, size, z);
    ValueRange(dest, size, z);
    ModSmall(x, Pow(256, size));
    ModSmall(y, Pow(256, size));
    PutRegsOk(src, y, size, z);
    var s1 := Put(src, y, size, z);
    StoredValue(src, y, size, z);
    StoredValue(dest, x, size, s1);
    if src != dest { PutElsewhere(dest, src, x, size, s1); }
  }

  lemma XaddElsewhere(c: Code, src: Operand, dest: Operand, size: nat, m: Machine)
    requires Sound(c) && RegsOk(m) && Pair(src, dest, size) && src.RegOp? && Clear(dest, EFL) && !Chained(src, dest)
    ensures XaddRight(c, src, dest, size, m)
  {
    hide Exec, Sound, OperandValue, OpCode, Put, PutBoth, Pow, FlagsRight;
    XaddWorld(c, src, dest, size, m);
    var z, W := Exec(c.ss, m), Pow(256, size);
    var x, y := OperandValue(src, size, z), OperandValue(dest, size, z);
    Swapped(src, dest, size, z);
    ValueRange(src, size, z);
    PutTwice(dest, x, (x + y) % W, size, Put(src, y, size, z));
    PutBothInTurn(src, y, dest, (x + y) % W, size, z);
    PutRegsOk(dest, (x + y) % W, size, Put(src, y, size, z));
  }

  lemma XaddWrong(src: Operand, dest: Operand, size: nat)
    requires Pair(src, dest, size) && Chained(src, dest) && Clear(dest, EFL)
    ensures Sound(Start({}, 0)) && !XaddRight(Start({}, 0), src, dest, size, OnePart(src))
  {
    hide OperandValue, Eval, Addr, Pow, Exec, OpCode, StoreBytes, Sound, FlagsRight, PutReg;
    MaskPowers();
    var m := OnePart(src);
    FromStart(m);
    ChainedPlace(src, dest, size);
    XaddWorld(Start({}, 0), src, dest, size, m);
    var s1 := Put(src, 0, size, m);
    var s := Put(dest, 1, size, s1);
    StoredValue(dest, 1, size, s1);
    ModSmall(1, Pow(256, size));
    PutRegsOk(dest, 1, size, s1);
    RegisterRead(src, size, s, 0);
    AddrClear(dest, s1, s, REG_COUNT);
    var a, b := PlaceOf(dest, m), PlaceOf(dest, s1);
    OneStored(map[], a, size, b);
    OneStored(s.mem, b, size, b);
  }

  /** The text of xadd is right on every machine exactly if its destination is not memory addressed through its source. */
  lemma XaddExactly(src: Operand, dest: Operand, size: nat)
    requires Pair(src, dest, size) && src.RegOp? && Clear(dest, EFL)
    ensures (forall c: Code, m: Machine :: Sound(c) && RegsOk(m) ==> XaddRight(c, src, dest, size, m)) <==> !Chained(src, dest)
  {
    hide XaddRight, Sound;
    if Chained(src, dest) {
      XaddWrong(src, dest, size);
    } else {
      forall c: Code, m: Machine | Sound(c) && RegsOk(m) ensures XaddRight(c, src, dest, size, m) {
        XaddElsewhere(c, src, dest, size, m);
      }
    }
  }

  // ----- conditional moves

  predicate CmovOperands(cond: Option<Cond>, src: Operand, dest: Operand, size: nat) {
    CondOk(cond) && dest.RegOp? && dest.r != EFL && SizeFits(dest, size) && SizeFits(src, size)
  }

  /**
   The text of cmov gives its destination the value that the source has before the instruction exactly if the condition
   holds, and its own value otherwise, and changes nothing else; a destination of four bytes is cleared above them.
   */
  ghost predicate CmovRight(c: Code, cond: Option<Cond>, src: Operand, dest: Operand, size: nat, m: Machine)
    requires Sound(c) && RegsOk(m) && CmovOperands(cond, src, dest, size)
  {
    ExecRegsOk(c.ss, m);
    var z := Exec(c.ss, m);
    SameWorld(Exec(CmovCode(c, cond, src, dest, size).ss, m),
              Put(dest, OperandValue(if Taken(cond, z) then src else dest, size, z), size, z))
  }

  /** The source is read after the destination has been moved to itself. */
  lemma CmovWorld(c: Code, cond: Option<Cond>, src: Operand, dest: Operand, size: nat, m: Machine)
    requires Sound(c) && RegsOk(m) && CmovOperands(cond, src, dest, size)
    ensures RegsOk(Exec(c.ss, m))
    ensures var z := Exec(c.ss, m); var s := Put(dest, OperandValue(dest, size, z), size, z);
            && RegsOk(s)
            && SameWorld(Exec(CmovCode(c, cond, src, dest, size).ss, m),
                         Put(dest, OperandValue(if Taken(cond, z) then src else dest, size, if Taken(cond, z) then s else z), size, z))
  {
    hide Exec, Sound, Scope, Extends, OperandValue, GuardedMov, MovCode, Holds, Pow, Put;
    MovExec(c, dest, dest, size, m);
    var z := Exec(c.ss, m);
    var x := OperandValue(dest, size, z);
    var s := Put(dest, x, size, z);
    ValueRange(dest, size, z);
    PutRegsOk(dest, x, size, z);
    PutKeepsFlags(dest, x, size, z);
    var c1 := MovCode(c, dest, dest, size, size, false);
    var z1 := Exec(c1.ss, m);
    GuardedExec(c1, cond, src, dest, size, m);
    ValueAgrees(src, size, s, z1);
    var v := OperandValue(src, size, s);
    PutWorld(dest, v, size, s, z1);
    PutTwice(dest, x, v, size, z);
  }

  /** Storing a part of a register to itself changes nothing, except that four bytes clear the rest. */
  lemma PutOwn(dest: Operand, size: nat, z: Machine)
    requires dest.RegOp? && SizeFits(dest, size) && RegsOk(z)
    ensures Put(dest, OperandValue(dest, size, z), size, z) ==
              if size == 4 then z.(regs := z.regs[dest.r := z.regs[dest.r] % 0x1_0000_0000]) else z
  {
    hide OperandValue, Pow;
    MaskPowers();
    var x := z.regs[dest.r];
    RegisterFetched(dest.r, dest.high, size, z, x);
    OwnPart(x, size, dest.high);
    assert size != 4 ==> z.regs[dest.r := x] == z.regs;
  }

  lemma OwnPart(x: int, size: nat, high: bool)
    requires 0 <= x < WORD && Size(size) && (high ==> size == 1)
    ensures var own := if high then x / 0x100 % 0x100
                       else x % (if size == 1 then 0x100 else if size == 2 then 0x1_0000 else if size == 4 then 0x1_0000_0000 else WORD);
            PutReg(x, own, size, high) == if size == 4 then x % 0x1_0000_0000 else x
  {
    ModSmall(x, WORD);
    if high {
      ModSmall(x / 0x100 % 0x100, 0x100);
    } else if size == 4 {
      ModSmall(x % 0x1_0000_0000, 0x1_0000_0000);
    }
  }

  /** Cutting the destination to four bytes moves the source. */
  predicate CutMoves(src: Operand, dest: Operand, size: nat)
    requires dest.RegOp?
  {
    size == 4 && src.MemOp? && src.wide && !Clear(src, dest.r)
  }

  /** The source is the same after the destination has been moved to itself. */
  lemma SourceStays(src: Operand, dest: Operand, size: nat, z: Machine)
    requires dest.RegOp? && SizeFits(dest, size) && SizeFits(src, size) && RegsOk(z) && !CutMoves(src, dest, size)
    ensures OperandValue(src, size, Put(dest, OperandValue(dest, size, z), size, z)) == OperandValue(src, size, z)
  {
    hide OperandValue, Put, Pow;
    PutOwn(dest, size, z);
    var s := Put(dest, OperandValue(dest, size, z), size, z);
    if size == 4 {
      var x := z.regs[dest.r];
      MaskPowers();
      if src.RegOp? && src.r == dest.r {
        RegisterFetched(src.r, false, 4, z, x);
        RegisterFetched(src.r, false, 4, s, x % 0x1_0000_0000);
        ModSmall(x % 0x1_0000_0000, 0x1_0000_0000);
      } else if Clear(src, dest.r) {
        ValueClear(src, size, z, s, dest.r);
      } else {
        AddrCut(src, z, s, dest.r);
        SameLoad(src, z, s);
      }
    }
  }

  lemma SameLoad(op: Operand, z: Machine, s: Machine)
    requires op.MemOp? && s.mem == z.mem && Eval(Addr(op), s) == Eval(Addr(op), z)
    ensures OperandValue(op, 4, s) == OperandValue(op, 4, z)
  {
    hide Addr, LoadBytes, Convert;
  }

  /** Flags under which a condition holds. */
  lemma CondTrial(cond: Cond) returns (efl: nat)
    requires cond.bit < 16
    ensures efl < WORD && Holds(cond, efl)
  {
    hide BitOf, Pow;
    FlagPowers();
    PowPos(2, cond.bit);
    PowMono(2, cond.bit, 16);
    PowTwoValues();
    NoBit(cond.bit);
    FlagBits(0);
    FlagBits(0x80);
    if cond.negated {
      efl := 0;
    } else if cond.less {
      efl := 0x80;
    } else {
      efl := Pow(2, cond.bit);
      TopBit(efl, cond.bit);
    }
  }

  lemma {:induction false} NoBit(k: nat)
    ensures BitOf(0, k) == 0
  {
    if k != 0 { NoBit(k - 1); }
  }

  /** A machine on which a conditional move of four bytes reads from the wrong address. */
  lemma CmovTrial(cond: Option<Cond>, src: Operand, dest: Operand) returns (m: Machine)
    requires CmovOperands(cond, src, dest, 4) && CutMoves(src, dest, 4)
    ensures RegsOk(m) && Taken(cond, m) && m.regs[dest.r] == 0x1_0000_0000
    ensures OperandValue(src, 4, m) == 1
    ensures OperandValue(src, 4, Put(dest, OperandValue(dest, 4, m), 4, m)) % 256 == 0
  {
    hide OperandValue, Put, Holds, Eval, Addr, OneByte;
    var efl: nat := 0;
    if cond.Some? { efl := CondTrial(cond.value); }
    var regs := Trial(dest.r, 0x1_0000_0000, map[]).regs[EFL := efl];
    var m0 := Machine(regs, map[], map[]);
    var cut := m0.(regs := regs[dest.r := 0]);
    AddrMoves(src, m0, cut, dest.r, -0x1_0000_0000);
    var a := Eval(Addr(src), m0);
    m := m0.(mem := OneByte(a));
    PutOwn(dest, 4, m);
    var s := Put(dest, OperandValue(dest, 4, m), 4, m);
    AddrClear(src, m0, m, REG_COUNT);
    AddrClear(src, cut, s, REG_COUNT);
    LoadsDiffer(src, 4, m, s, a);
  }

  /** A conditional move of four bytes from memory addressed through its destination goes wrong on some machine. */
  lemma CmovWrong(cond: Option<Cond>, src: Operand, dest: Operand) returns (m: Machine)
    requires CmovOperands(cond, src, dest, 4) && CutMoves(src, dest, 4)
    ensures RegsOk(m) && Taken(cond, m) && Sound(Start({}, 0)) && !CmovRight(Start({}, 0), cond, src, dest, 4, m)
  {
    hide OperandValue, Holds, Exec, CmovCode, Pow, Sound;
    m := CmovTrial(cond, src, dest);
    FromStart(m);
    CmovWorld(Start({}, 0), cond, src, dest, 4, m);
    MaskPowers();
    var v := OperandValue(src, 4, Put(dest, OperandValue(dest, 4, m), 4, m));
    ValueRange(src, 4, Put(dest, OperandValue(dest, 4, m), 4, m));
    ModSmall(v, 0x1_0000_0000);
    assert Put(dest, v, 4, m).regs[dest.r] == v;
    assert Put(dest, 1, 4, m).regs[dest.r] == 1;
  }

  /**
   The text of cmov is right on every machine exactly if it does not move four bytes from memory with a 64-bit address that
   counts the destination.
   */
  lemma CmovExactly(cond: Option<Cond>, src: Operand, dest: Operand, size: nat)
    requires CmovOperands(cond, src, dest, size)
    ensures (forall c: Code, m: Machine :: Sound(c) && RegsOk(m) ==> CmovRight(c, cond, src, dest, size, m)) <==>
              !CutMoves(src, dest, size)
  {
    hide Exec, Sound, OperandValue, CmovCode, Put, Holds;
    if CutMoves(src, dest, size) {
      var m := CmovWrong(cond, src, dest);
    } else {
      forall c: Code, m: Machine | Sound(c) && RegsOk(m) ensures CmovRight(c, cond, src, dest, size, m) {
        CmovWorld(c, cond, src, dest, size, m);
        SourceStays(src, dest, size, Exec(c.ss, m));
      }
    }
  }

  /** cmovne (%rax),%eax is an instruction that goes wrong. */
  lemma CmovThroughItself() returns (m: Machine)
    ensures var ne, src, dest := Some(Cond(false, FLAG_ZF, false, true)), MemOp(true, 0, Some(RAX), None), Whole(RAX);
            && CmovOperands(ne, src, dest, 4) && Sound(Start({}, 0)) && RegsOk(m) && Taken(ne, m)
            && !CmovRight(Start({}, 0), ne, src, dest, 4, m)
  {
    m := CmovWrong(Some(Cond(false, FLAG_ZF, false, true)), MemOp(true, 0, Some(RAX), None), Whole(RAX));
  }
}
