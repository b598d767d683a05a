/** Executing parseltongue86's add, adc, sub and sbb code, and chains of them that work on numbers of many limbs. */
module AluChain {
  import opened AluFlags
  import opened Arith
  import opened Bits
  import opened CartridgeEmitter
  import opened CartridgeIR
  import opened Operands

  // ----- the declarations of _emit_add

  ghost function CarryIn(o: Operation, m: Machine): int
    requires o.Add? && |m.regs| == REG_COUNT
  {
    if o.carry then m.regs[EFL] % 2 else 0
  }

  lemma CarryEval(m: Machine)
    requires RegsOk(m)
    ensures Convert(Eval(Bin(BitAnd, Cast(2, false, RegVal(EFL)), Lit(1)), m), 2, false) == m.regs[EFL] % 2
  {
    hide And, Pow;
    FlagPowers();
    var x := m.regs[EFL];
    var low := x % 0x1_0000;
    assert Eval(Cast(2, false, RegVal(EFL)), m) == low;
    ModSmall(low, WORD);
    AndOne(low);
    ModSmall(x % 2, 0x1_0000);
  }

  lemma SumValue(m: Machine, t: AddTemps, o: Operation)
    requires o.Add?
    ensures Eval(SumOf(t, o), m) ==
              Exact(o.sub, TmpOf(m.tmps, t.aug), TmpOf(m.tmps, t.add), if o.carry then TmpOf(m.tmps, t.cf) else 0)
  {
    hide TmpOf;
    assert Eval(Bin(SignOp(o.sub), Tmp(t.aug), Tmp(t.add)), m) == Exact(o.sub, TmpOf(m.tmps, t.aug), TmpOf(m.tmps, t.add), 0);
  }

  /** The operands and the carry are read. */
  lemma OperandsExec(c: Code, o: Operation, m: Machine)
    requires Sound(c) && o.Add? && RegsOk(m)
    ensures var z, z' := Exec(c.ss, m), Exec(AddOperands(c, o).ss, m);
            && RegsOk(z) && z'.regs == z.regs && z'.mem == z.mem
            && TmpOf(z'.tmps, c.next) == OperandValue(o.left, o.size, z)
            && TmpOf(z'.tmps, c.next + 1) == OperandValue(o.right, o.size, z)
            && (o.carry ==> TmpOf(z'.tmps, c.next + 2) == z.regs[EFL] % 2)
  {
    hide Exec, Sound, Scope, Extends, OperandValue, FetchInto, Convert, Eval;
    ExecRegsOk(c.ss, m);
    var z := Exec(c.ss, m);
    RunFetch(c, o.left, o.size, m);
    var c1 := FetchInto(c, o.left, o.size, false);
    var z1 := Exec(c1.ss, m);
    RunFetch(c1, o.right, o.size, m);
    ValueAgrees(o.right, o.size, z, z1);
    if o.carry {
      var c2 := FetchInto(c1, o.right, o.size, false);
      CarryEval(Exec(c2.ss, m));
      BinReads(BitAnd, Cast(2, false, RegVal(EFL)), Lit(1), Scope(c2));
      RunDeclare(c2, 2, false, Bin(BitAnd, Cast(2, false, RegVal(EFL)), Lit(1)), m);
    }
  }

  lemma AddHeadExec(c: Code, o: Operation, m: Machine)
    requires Sound(c) && o.Add? && RegsOk(m) && Size(o.size)
    ensures var z, z' := Exec(c.ss, m), Exec(AddHead(c, o).ss, m); var t := TempsOf(c.next, o.carry);
            && RegsOk(z) && z'.regs == z.regs && z'.mem == z.mem && TmpOf(z'.tmps, t.efl) == 0
            && Loaded(z', t, o, CarryIn(o, z))
            && TmpOf(z'.tmps, t.aug) == OperandValue(o.left, o.size, z) && TmpOf(z'.tmps, t.add) == OperandValue(o.right, o.size, z)
  {
    hide Exec, Sound, Scope, Extends, OperandValue, Eval, Convert, Pow, AddOperands, Declare, SumOf;
    var t := TempsOf(c.next, o.carry);
    OperandsExec(c, o, m);
    var c3 := AddOperands(c, o);
    var z, z3 := Exec(c.ss, m), Exec(c3.ss, m);
    SumReads(t, o, Scope(c3));
    SumValue(z3, t, o);
    RunDeclare(c3, o.size, false, SumOf(t, o), m);
    var c4 := Declare(c3, o.size, false, SumOf(t, o));
    RunDeclare(c4, 2, false, Lit(0), m);
    ZeroConverted(Exec(c4.ss, m));
    ValueRange(o.left, o.size, z);
    ValueRange(o.right, o.size, z);
    Converted(Exact(o.sub, TmpOf(z3.tmps, t.aug), TmpOf(z3.tmps, t.add), CarryIn(o, z)), o.size);
  }

  lemma SumReads(t: AddTemps, o: Operation, k: set<nat>)
    requires o.Add? && t.aug in k && t.add in k && (o.carry ==> t.cf in k)
    ensures ReadsOnly(SumOf(t, o), k)
  {
    BinReads(SignOp(o.sub), Tmp(t.aug), Tmp(t.add), k);
  }

  lemma ZeroConverted(m: Machine)
    ensures Convert(Eval(Lit(0), m), 2, false) == 0
  {
    PowPos(256, 2);
    ModSmall(0, Pow(256, 2));
  }

  lemma Converted(x: int, size: nat)
    ensures 0 < Pow(256, size) && Convert(x, size, false) == x % Pow(256, size)
  {
    PowPos(256, size);
  }

  // ----- the whole operation

  /** The machine after the result of an addition has been stored. */
  ghost function AddStored(o: Operation, m: Machine): Machine
    requires o.Add? && OperandsOk(o) && |m.regs| == REG_COUNT
  {
    PowPos(256, o.size);
    var r := Exact(o.sub, OperandValue(o.left, o.size, m), OperandValue(o.right, o.size, m), CarryIn(o, m)) % Pow(256, o.size);
    match o.target
    case Left => Put(o.left, r, o.size, m)
    case Right => Put(o.right, r, o.size, m)
    case Nowhere => m
  }

  predicate TargetFits(o: Operation)
    requires o.Add?
  {
    (o.target.Left? ==> Clear(o.left, EFL) && SizeFits(o.left, o.size)) &&
    (o.target.Right? ==> Clear(o.right, EFL) && SizeFits(o.right, o.size)) && Size(o.size)
  }

  /** The code of an addition stores the reduced result and sets the flags of the exact one, and does nothing else. */
  lemma AddExec(c: Code, o: Operation, m: Machine)
    requires Sound(c) && o.Add? && OperandsOk(o) && RegsOk(m) && TargetFits(o)
    ensures RegsOk(Exec(c.ss, m)) && 0 < Pow(256, o.size)
    ensures var z, z' := Exec(c.ss, m), Exec(AddCode(c, o).ss, m);
            var a, b, s := OperandValue(o.left, o.size, z), OperandValue(o.right, o.size, z), AddStored(o, z);
            && |z'.regs| == |s.regs| == REG_COUNT && z'.regs == s.regs[EFL := z'.regs[EFL]] && z'.mem == s.mem
            && FlagsRight(z'.regs[EFL], o.setCarry, o.sub, a, b, CarryIn(o, z), Pow(256, o.size))
  {
    hide Exec, Sound, Scope, Extends, OperandValue, AddHead, AddFlags, FlagsRight, Pow, Put, TmpOf, Exact;
    var t := TempsOf(c.next, o.carry);
    AddHeadExec(c, o, m);
    var c1 := AddHead(c, o);
    var z, z1 := Exec(c.ss, m), Exec(c1.ss, m);
    var c2 := AddTarget(c1, t.res, o);
    TargetExec(c1, t.res, o, m, z);
    AddFlagsExec(c2, m, t, o, CarryIn(o, z));
  }

  lemma TargetExec(c1: Code, res: nat, o: Operation, m: Machine, z: Machine)
    requires Sound(c1) && o.Add? && OperandsOk(o) && RegsOk(m) && TargetFits(o) && res in Scope(c1) && RegsOk(z)
    requires var z1 := Exec(c1.ss, m); z1.regs == z.regs && z1.mem == z.mem
    requires 0 < Pow(256, o.size) && TmpOf(Exec(c1.ss, m).tmps, res) ==
      Exact(o.sub, OperandValue(o.left, o.size, z), OperandValue(o.right, o.size, z), CarryIn(o, z)) % Pow(256, o.size)
    ensures var s, z2 := AddStored(o, z), Exec(AddTarget(c1, res, o).ss, m);
            z2.regs == s.regs && z2.mem == s.mem && z2.tmps == Exec(c1.ss, m).tmps && RegsOk(z2) && z2.regs[EFL] == z.regs[EFL]
  {
    hide Exec, Sound, Scope, Extends, OperandValue, Pow, Put, TmpOf, Exact, StoreTo;
    if o.target != Nowhere {
      var op := if o.target == Left then o.left else o.right;
      var z1 := Exec(c1.ss, m);
      RunStore(c1, op, Tmp(res), o.size, m);
      PutWorld(op, TmpOf(z1.tmps, res), o.size, z, z1);
      PutRegsOk(op, TmpOf(z1.tmps, res), o.size, z1);
      PutKeepsFlags(op, TmpOf(z1.tmps, res), o.size, z);
    }
  }

  /** The code of add, adc, sub or sbb leaves the reduced result in its destination, and the flags of the exact one. */
  lemma AddIsExact(c: Code, o: Operation, m: Machine)
    requires Sound(c) && o.Add? && OperandsOk(o) && RegsOk(m) && TargetFits(o) && o.target == Left
    ensures RegsOk(Exec(c.ss, m)) && 0 < Pow(256, o.size)
    ensures var z, z' := Exec(c.ss, m), Exec(AddCode(c, o).ss, m);
            var a, b, c, W := OperandValue(o.left, o.size, z), OperandValue(o.right, o.size, z), CarryIn(o, z), Pow(256, o.size);
            && RegsOk(z') && FlagsRight(z'.regs[EFL], o.setCarry, o.sub, a, b, c, W)
            && OperandValue(o.left, o.size, z') == Exact(o.sub, a, b, c) % W
  {
    hide Pow, Exec, AddCode, OperandValue, FlagsRight, Exact, Put, Sound;
    AddExec(c, o, m);
    var z, z' := Exec(c.ss, m), Exec(AddCode(c, o).ss, m);
    var W := Pow(256, o.size);
    var r := Exact(o.sub, OperandValue(o.left, o.size, z), OperandValue(o.right, o.size, z), CarryIn(o, z)) % W;
    StoredValue(o.left, r, o.size, z);
    ModSmall(r, W);
    ValueClear(o.left, o.size, Put(o.left, r, o.size, z), z', EFL);
    ExecRegsOk(AddCode(c, o).ss, m);
  }

  /** The code of cmp changes the flags only, to those of the exact difference. */
  lemma CompareIsExact(c: Code, o: Operation, m: Machine)
    requires Sound(c) && o.Add? && OperandsOk(o) && RegsOk(m) && o.target == Nowhere && Size(o.size)
    ensures RegsOk(Exec(c.ss, m)) && 0 < Pow(256, o.size)
    ensures var z, z' := Exec(c.ss, m), Exec(AddCode(c, o).ss, m);
            var a, b, c, W := OperandValue(o.left, o.size, z), OperandValue(o.right, o.size, z), CarryIn(o, z), Pow(256, o.size);
            && |z'.regs| == REG_COUNT && z'.regs == z.regs[EFL := z'.regs[EFL]] && z'.mem == z.mem
            && FlagsRight(z'.regs[EFL], o.setCarry, o.sub, a, b, c, W)
  {
    hide Pow, Exec, AddCode, OperandValue, FlagsRight, Exact, Sound;
    AddExec(c, o, m);
  }

  // ----- chains

  /** One limb of a chain: the operands, and what is left in the destination. */
  datatype Limb = Limb(a: int, b: int, r: int)

  /** The machine when the operation of an instruction begins: rip is already past it. */
  ghost function AtOp(i: Instr, m: Machine): Machine {
    Exec1(SetReg(RIP, Bin(Plus, RegVal(RIP), Lit(i.length))), m)
  }

  predicate Encodable(is_: seq<Instr>) {
    forall k :: 0 <= k < |is_| ==> OperandsOk(is_[k].operation)
  }

  ghost function Run(is_: seq<Instr>, n: nat, m: Machine): Machine
    requires Encodable(is_)
    decreases |is_|
  {
    if is_ == [] then m else Run(is_[1..], InstrCode(n, is_[0]).next, Exec(InstrCode(n, is_[0]).ss, m))
  }

  /** The limbs that the additions of a run work on. */
  ghost function Trace(is_: seq<Instr>, n: nat, m: Machine): seq<Limb>
    requires Encodable(is_)
    decreases |is_|
  {
    if is_ == [] then []
    else
      var o, m' := is_[0].operation, Exec(InstrCode(n, is_[0]).ss, m);
      (if o.Add? then
         [Limb(OperandValue(o.left, o.size, AtOp(is_[0], m)), OperandValue(o.right, o.size, AtOp(is_[0], m)),
               OperandValue(o.left, o.size, m'))]
       else []) + Trace(is_[1..], InstrCode(n, is_[0]).next, m')
  }

  /** Moves and address computations that do not touch the flags. */
  predicate Between(o: Operation) {
    (o.Mov? || o.Lea?) && OperandsOk(o) && Clear(o.dest, EFL)
  }

  predicate LimbOp(o: Operation, sub: bool, size: nat, carry: bool) {
    && o.Add? && OperandsOk(o) && o.sub == sub && o.size == size && o.carry == carry
    && o.target == Left && o.setCarry && Clear(o.left, EFL) && SizeFits(o.left, size)
  }

  /** adc or sbb instructions with only moves and lea between them. */
  predicate Continued(is_: seq<Instr>, sub: bool, size: nat) {
    Encodable(is_) && forall k :: 0 <= k < |is_| ==> Between(is_[k].operation) || LimbOp(is_[k].operation, sub, size, true)
  }

  /** An add or sub, then adc or sbb instructions, with only moves and lea before and between them. */
  predicate Chain(is_: seq<Instr>, sub: bool, size: nat)
    decreases |is_|
  {
    is_ != [] && Encodable(is_) &&
    if Between(is_[0].operation) then Chain(is_[1..], sub, size)
    else LimbOp(is_[0].operation, sub, size, false) && Continued(is_[1..], sub, size)
  }

  /** The number with the given limbs, the least significant one first. */
  function NumberA(l: seq<Limb>, W: int): int {
    if l == [] then 0 else l[0].a + Mul(W, NumberA(l[1..], W))
  }

  function NumberB(l: seq<Limb>, W: int): int {
    if l == [] then 0 else l[0].b + Mul(W, NumberB(l[1..], W))
  }

  function NumberR(l: seq<Limb>, W: int): int {
    if l == [] then 0 else l[0].r + Mul(W, NumberR(l[1..], W))
  }

  /** What a chain computes: the exact sum or difference, with the carry out as its highest part. */
  ghost predicate Computes(l: seq<Limb>, sub: bool, W: int, cin: int, cout: int) {
    var a, b, r := NumberA(l, W), NumberB(l, W), NumberR(l, W);
    if sub then a - b - cin == r - Mul(cout, Pow(W, |l|)) else a + b + cin == r + Mul(cout, Pow(W, |l|))
  }

  lemma RipKeepsFlags(i: Instr, n: nat, m: Machine)
    requires RegsOk(m)
    ensures Exec(Begun(n, i).ss, m) == AtOp(i, m) && RegsOk(AtOp(i, m)) && AtOp(i, m).regs[EFL] == m.regs[EFL]
  {
    hide Eval, Exec;
    EmptyBody(m);
    RunAdd1(Start({}, n), SetReg(RIP, Bin(Plus, RegVal(RIP), Lit(i.length))), n, m);
  }

  lemma StoreWrites(op: Operand, e: Expr, size: nat)
    requires !op.Imm? && Clear(op, EFL)
    ensures EFL !in Writes(Store(op, e, size))
  {
    var ss := Store(op, e, size);
    WritesOne(ss[0]);
    if |ss| == 2 {
      WritesOne(ss[1]);
      WritesAppend([ss[0]], [ss[1]]);
      assert ss == [ss[0]] + [ss[1]];
    } else {
      assert ss == [ss[0]];
    }
  }

  lemma WritesOne(s: Stmt)
    ensures Writes([s]) == Writes1(s)
  {
    assert [s][1..] == [];
  }

  lemma StoreKeepsFlags(c: Code, op: Operand, e: Expr, size: nat, m: Machine)
    requires Sound(c) && !op.Imm? && ReadsOnly(e, Scope(c)) && Clear(op, EFL) && RegsOk(m)
    ensures |Exec(StoreTo(c, op, e, size).ss, m).regs| == |Exec(c.ss, m).regs| == REG_COUNT
    ensures Exec(StoreTo(c, op, e, size).ss, m).regs[EFL] == Exec(c.ss, m).regs[EFL]
  {
    hide Exec, Store, Sound, Scope, ReadsOnly;
    ExecRegsOk(c.ss, m);
    ExecAppend(c.ss, Store(op, e, size), m);
    StoreWrites(op, e, size);
    ExecFrame(Store(op, e, size), Exec(c.ss, m), EFL);
  }

  /** A move or lea leaves the flags alone. */
  lemma BetweenKeepsFlags(o: Operation, c: Code, m: Machine)
    requires Sound(c) && Between(o) && RegsOk(m)
    ensures var z, z' := Exec(c.ss, m), Exec(OpCode(c, o).ss, m); RegsOk(z) && RegsOk(z') && z'.regs[EFL] == z.regs[EFL]
  {
    hide Exec, Sound, Scope, Extends, StoreTo, Fetch, Addr, Declare;
    ExecRegsOk(c.ss, m);
    ExecRegsOk(OpCode(c, o).ss, m);
    match o {
      case Lea(src, dest, size) =>
        AddrReads(src, Scope(c));
        StoreKeepsFlags(c, dest, Cast(size, false, Addr(src)), size, m);
      case Mov(src, dest, size1, size2, signed) =>
        FetchReads(src, size1, Scope(c));
        RunDeclare(c, size1, signed, Fetch(src, size1), m);
        var c1 := Declare(c, size1, signed, Fetch(src, size1));
        if size1 != size2 {
          RunDeclare(c1, size2, signed, Tmp(c.next), m);
          StoreKeepsFlags(Declare(c1, size2, signed, Tmp(c.next)), dest, Tmp(c1.next), size2, m);
        } else {
          StoreKeepsFlags(c1, dest, Tmp(c.next), size2, m);
        }
    }
  }

  /** One limb: the exact result is what is left in the destination and the carry out. */
  lemma LimbStep(i: Instr, n: nat, m: Machine, sub: bool, size: nat, carry: bool)
    requires LimbOp(i.operation, sub, size, carry) && RegsOk(m)
    ensures var m' := Exec(InstrCode(n, i).ss, m); var o, m0, W := i.operation, AtOp(i, m), Pow(256, size);
            var a, b, r := OperandValue(o.left, size, m0), OperandValue(o.right, size, m0), OperandValue(o.left, size, m');
            var cin := if carry then m.regs[EFL] % 2 else 0;
            && RegsOk(m') && (if sub then a - b - cin == r - m'.regs[EFL] % 2 * W else a + b + cin == r + m'.regs[EFL] % 2 * W)
  {
    hide Pow, Exec, AddCode, OperandValue, FlagsRight, Exact, AtOp, Begun;
    var o, m0, W := i.operation, AtOp(i, m), Pow(256, size);
    RipKeepsFlags(i, n, m);
    AddIsExact(Begun(n, i), o, m);
    ValueRange(o.left, size, m0);
    ValueRange(o.right, size, m0);
    CarryIsExact(Exec(AddCode(Begun(n, i), o).ss, m).regs[EFL], sub, OperandValue(o.left, size, m0), OperandValue(o.right, size, m0),
                 CarryIn(o, m0), W);
  }

  lemma CarryIsExact(efl: int, sub: bool, a: int, b: int, c: int, W: int)
    requires 0 <= a < W && 0 <= b < W && 0 <= c <= 1 && FlagsRight(efl, true, sub, a, b, c, W)
    ensures var r := Exact(sub, a, b, c) % W;
            if sub then a - b - c == r - efl % 2 * W else a + b + c == r + efl % 2 * W
  {
    hide BitOf, SignedOverflow;
    Reduced(sub, a, b, c, W);
    FlagBits(efl);
    assert efl % 2 * W == if efl % 2 == 1 then W else 0;
  }

  lemma LimbComposes(l: seq<Limb>, sub: bool, W: int, cin: int, c: int, cout: int)
    requires l != [] && Computes(l[1..], sub, W, c, cout)
    requires if sub then l[0].a - l[0].b - cin == l[0].r - c * W else l[0].a + l[0].b + cin == l[0].r + c * W
    ensures Computes(l, sub, W, cin, cout)
  {
    var a, b, r, p := NumberA(l[1..], W), NumberB(l[1..], W), NumberR(l[1..], W), Pow(W, |l| - 1);
    assert Pow(W, |l|) == W * p;
    Distribute(W, a, b, r, c, cout, p, sub);
  }

  lemma Distribute(W: int, a: int, b: int, r: int, c: int, cout: int, p: int, sub: bool)
    requires if sub then a - b - c == r - Mul(cout, p) else a + b + c == r + Mul(cout, p)
    ensures if sub then Mul(W, a) - Mul(W, b) - c * W == Mul(W, r) - Mul(cout, W * p)
            else Mul(W, a) + Mul(W, b) + c * W == Mul(W, r) + Mul(cout, W * p)
  {
    assert W * (cout * p) == cout * (W * p);
    if sub {
      assert W * (a - b - c) == W * a - W * b - W * c && W * (r - cout * p) == W * r - W * (cout * p);
    } else {
      assert W * (a + b + c) == W * a + W * b + W * c && W * (r + cout * p) == W * r + W * (cout * p);
    }
  }

  lemma NoLimbs(sub: bool, W: int, c: int)
    ensures Computes([], sub, W, c, c)
  {
    assert Pow(W, 0) == 1;
  }

  lemma {:induction false} ContinuedComputes(is_: seq<Instr>, n: nat, m: Machine, sub: bool, size: nat)
    requires Continued(is_, sub, size) && RegsOk(m)
    ensures var z := Run(is_, n, m);
            && RegsOk(z) && Computes(Trace(is_, n, m), sub, Pow(256, size), m.regs[EFL] % 2, z.regs[EFL] % 2)
    decreases |is_|
  {
    hide Exec, Computes, InstrCode, OperandValue, AtOp, Pow, LimbOp, Between;
    if is_ == [] {
      NoLimbs(sub, Pow(256, size), m.regs[EFL] % 2);
    } else {
      var i := is_[0];
      var m', next := Exec(InstrCode(n, i).ss, m), InstrCode(n, i).next;
      if Between(i.operation) {
        BetweenStep(i, n, m);
        ContinuedComputes(is_[1..], next, m', sub, size);
        assert Trace(is_, n, m) == [] + Trace(is_[1..], next, m') == Trace(is_[1..], next, m');
      } else {
        LimbStep(i, n, m, sub, size, true);
        IsLimb(i.operation, sub, size, true);
        ContinuedComputes(is_[1..], next, m', sub, size);
        var l := Trace(is_, n, m);
        assert l[1..] == Trace(is_[1..], next, m');
        LimbComposes(l, sub, Pow(256, size), m.regs[EFL] % 2, m'.regs[EFL] % 2, Run(is_, n, m).regs[EFL] % 2);
      }
    }
  }

  lemma IsLimb(o: Operation, sub: bool, size: nat, carry: bool)
    requires LimbOp(o, sub, size, carry)
    ensures o.Add? && o.size == size && OperandsOk(o)
  {}

  lemma BetweenStep(i: Instr, n: nat, m: Machine)
    requires Between(i.operation) && RegsOk(m)
    ensures var m' := Exec(InstrCode(n, i).ss, m); RegsOk(m') && m'.regs[EFL] == m.regs[EFL] && !i.operation.Add?
  {
    hide Exec, OpCode, Begun;
    RipKeepsFlags(i, n, m);
    BetweenKeepsFlags(i.operation, Begun(n, i), m);
  }

  /** An add followed by adc instructions (or sub by sbb) computes the exact sum (difference) of numbers of many limbs. */
  lemma {:induction false} ChainComputes(is_: seq<Instr>, n: nat, m: Machine, sub: bool, size: nat)
    requires Chain(is_, sub, size) && RegsOk(m)
    ensures var z := Run(is_, n, m);
            && RegsOk(z) && Computes(Trace(is_, n, m), sub, Pow(256, size), 0, z.regs[EFL] % 2)
    decreases |is_|
  {
    hide Exec, Computes, InstrCode, OperandValue, AtOp, Pow, LimbOp, Between;
    var i := is_[0];
    var m', next := Exec(InstrCode(n, i).ss, m), InstrCode(n, i).next;
    if Between(i.operation) {
      BetweenStep(i, n, m);
      ChainComputes(is_[1..], next, m', sub, size);
      assert Trace(is_, n, m) == [] + Trace(is_[1..], next, m') == Trace(is_[1..], next, m');
    } else {
      LimbStep(i, n, m, sub, size, false);
      IsLimb(i.operation, sub, size, false);
      ContinuedComputes(is_[1..], next, m', sub, size);
      var l := Trace(is_, n, m);
      assert l[1..] == Trace(is_[1..], next, m');
      LimbComposes(l, sub, Pow(256, size), 0, m'.regs[EFL] % 2, Run(is_, n, m).regs[EFL] % 2);
    }
  }
}
