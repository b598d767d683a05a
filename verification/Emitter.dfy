/** parseltongue86's emitter: the state that the handlers share, and the handlers that write to it. */
module TextEmitter {
  import opened CartridgeEmitter
  import opened CartridgeIR
  import opened Options

  // ----- the registers that were assigned

  function AddRef(a: seq<Reg>, r: Reg): seq<Reg> {
    if r in a then a else a + [r]
  }

  /** BB_ASSIGNED_REGS after a text. */
  function Track(a: seq<Reg>, ss: seq<Stmt>): seq<Reg>
    decreases ss
  {
    if ss == [] then a else Track(Track1(a, ss[0]), ss[1..])
  }

  function Track1(a: seq<Reg>, s: Stmt): seq<Reg>
    decreases s
  {
    match s
    case SetReg(r, _) => AddRef(a, r)
    case Unless(_, body) => Track(a, body)
    case _ => a
  }

  lemma {:induction false} TrackCovers(a: seq<Reg>, ss: seq<Stmt>, r: Reg)
    ensures r in Track(a, ss) <==> r in a || r in Writes(ss)
    decreases ss
  {
    if ss != [] {
      TrackCovers1(a, ss[0], r);
      TrackCovers(Track1(a, ss[0]), ss[1..], r);
    }
  }

  lemma {:induction false} TrackCovers1(a: seq<Reg>, s: Stmt, r: Reg)
    ensures r in Track1(a, s) <==> r in a || r in Writes1(s)
    decreases s
  {
    if s.Unless? { TrackCovers(a, s.body, r); }
  }

  lemma {:induction false} TrackAppend(a: seq<Reg>, x: seq<Stmt>, y: seq<Stmt>)
    ensures Track(a, x + y) == Track(Track(a, x), y)
    decreases |x|
  {
    hide Track1;
    if x == [] {
      assert x + y == y;
    } else {
      assert (x + y)[1..] == x[1..] + y;
      TrackAppend(Track1(a, x[0]), x[1..], y);
    }
  }

  lemma TrackSnoc(a: seq<Reg>, ss: seq<Stmt>, s: Stmt)
    ensures Track(a, ss + [s]) == Track1(Track(a, ss), s)
  {
    hide Track1;
    TrackAppend(a, ss, [s]);
    assert [s][1..] == [];
  }

  /** Assignments inside a block count as assignments of the text around it. */
  lemma TrackBlock(a: seq<Reg>, ss: seq<Stmt>, c: Expr, body: seq<Stmt>)
    ensures Track(a, ss + [Unless(c, body)]) == Track(Track(a, ss), body)
  {
    TrackSnoc(a, ss, Unless(c, body));
  }

  // ----- the emitted text

  datatype Line = Open(vaddr: int) | Text(s: Stmt) | Close(writes: seq<Reg>)

  function Texts(ss: seq<Stmt>): (lines: seq<Line>)
    ensures |lines| == |ss| && forall i :: 0 <= i < |ss| ==> lines[i] == Text(ss[i])
  {
    if ss == [] then [] else [Text(ss[0])] + Texts(ss[1..])
  }

  lemma TextsAppend(a: seq<Stmt>, b: seq<Stmt>)
    ensures Texts(a + b) == Texts(a) + Texts(b)
  {}


  /** The operations that only move values. */
  predicate Moving(o: Operation) {
    || o.Nop? || o.Mov? || o.Lea? || o.Push? || o.Pop? || o.Xchg? || o.Jump? || o.Cmov? || o.SetOn? || o.SignFill?
    || o.CallTo? || o.Ret? || o.Enter? || o.Leave?
  }

  /** The translator's globals (BB_ASSIGNED_REGS, and var_count as code.next), the text of the current instruction and all before it. */
  class Emitter {
    var out: seq<Line>
    var code: Code
    var bbRegs: seq<Reg>
    ghost var base: seq<Reg>        // bbRegs where the text of code begins

    constructor ()
      ensures out == [] && code == Start({}, 0) && bbRegs == [RIP]
    {
      out, code, bbRegs, base := [], Start({}, 0), [RIP], [RIP];
    }

    /** The registers assigned in the text have been noted. */
    ghost predicate Tracks()
      reads this
    {
      bbRegs == Track(base, code.ss)
    }

    method AddBbRegRef(r: Reg)
      modifies this`bbRegs
      ensures bbRegs == AddRef(old(bbRegs), r)
    {
      if r in bbRegs {
        return;
      }
      bbRegs := bbRegs + [r];
    }

    /** A statement that assigns no register. */
    method Emit(s: Stmt)
      requires Tracks() && !s.SetReg? && !s.Unless?
      modifies this`code
      ensures Tracks() && code == Add1(old(code), s, old(code.next))
    {
      TrackSnoc(base, code.ss, s);
      code := code.(ss := code.ss + [s]);
    }

    /** r_tmp = e, through _reg_exp_l. */
    method EmitSetReg(r: Reg, e: Expr)
      requires Tracks()
      modifies this`code, this`bbRegs
      ensures Tracks() && code == Add1(old(code), SetReg(r, e), old(code.next))
    {
      TrackSnoc(base, code.ss, SetReg(r, e));
      AddBbRegRef(r);
      code := code.(ss := code.ss + [SetReg(r, e)]);
    }

    method EmitVarDecl(width: nat, signed: bool, e: Expr) returns (v: nat)
      requires Tracks()
      modifies this`code
      ensures v == old(code.next) && Tracks() && code == Add1(old(code), Decl(v, width, signed, e), v + 1)
    {
      v := code.next;
      Emit(Decl(v, width, signed, e));
      code := code.(next := v + 1);
    }

    method EmitFetch(op: Operand, size: nat, signed: bool) returns (v: nat)
      requires Tracks()
      modifies this`code
      ensures v == old(code.next) && Tracks() && code == Add1(old(code), Decl(v, size, signed, Fetch(op, size)), v + 1)
    {
      v := EmitVarDecl(size, signed, Fetch(op, size));
    }

    method EmitStore(op: Operand, e: Expr, size: nat)
      requires Tracks() && !op.Imm?
      modifies this`code, this`bbRegs
      ensures Tracks() && code == old(code).(ss := old(code.ss) + Store(op, e, size))
    {
      ghost var c, ss := code, Store(op, e, size);
      match op {
        case RegOp(r, high) =>
          if size == 1 && high {
            EmitSetReg(r, Bin(BitAnd, RegVal(r), Lit(0xFFFF_FFFF_FFFF_00FF)));
            EmitSetReg(r, Bin(Plus, RegVal(r), Cast(2, false, Bin(ShiftL, e, Lit(8)))));
            assert c.ss + [ss[0]] + [ss[1]] == c.ss + ss;
          } else if size == 1 || size == 2 {
            EmitSetReg(r, Bin(BitAnd, RegVal(r), Lit(if size == 1 then 0xFFFF_FFFF_FFFF_FF00 else 0xFFFF_FFFF_FFFF_0000)));
            EmitSetReg(r, Bin(Plus, RegVal(r), e));
            assert c.ss + [ss[0]] + [ss[1]] == c.ss + ss;
          } else if size == 4 {
            EmitSetReg(r, Cast(8, false, Cast(4, false, e)));
          } else {
            EmitSetReg(r, e);
          }
        case MemOp(_, _, _, _) => Emit(Poke(Addr(op), size, e));
      }
    }

    method EmitGetFlag(mask: int) returns (v: nat)
      requires Tracks()
      modifies this`code
      ensures v == old(code.next) && Tracks() && code == Add1(old(code), FlagDecl(v, mask), v + 1)
    {
      v := EmitVarDecl(2, false, Bin(BitAnd, Cast(2, false, RegVal(EFL)), Lit(mask)));
    }

    method EmitSetFlag(mask: int, value: Expr, clobber: bool)
      requires Tracks()
      modifies this`code, this`bbRegs
      ensures Tracks() && code == Add1(old(code), FlagStmt(mask, value, clobber), old(code.next))
    {
      if clobber {
        EmitSetReg(EFL, value);
      } else {
        EmitSetReg(EFL, Bin(BitOr, Bin(AndNot, RegVal(EFL), Lit(mask)), value));
      }
    }

    method EmitZps(efl: nat, res: nat, size: nat)
      requires Tracks()
      modifies this`code
      ensures var n := old(code.next);
              && Tracks()
              && code == Add1(Add1(Add1(old(code), OrInto(efl, 2, ParityBit(res)), n), OrInto(efl, 2, ZeroBit(res)), n),
                              OrInto(efl, 2, SignBit(res, size)), n)
    {
      Emit(OrInto(efl, 2, ParityBit(res)));
      Emit(OrInto(efl, 2, ZeroBit(res)));
      Emit(OrInto(efl, 2, SignBit(res, size)));
    }

    method EmitMov(src: Operand, dest: Operand, size1: nat, size2: nat, signed: bool)
      requires Tracks() && Sound(code) && !dest.Imm?
      modifies this`code, this`bbRegs
      ensures Tracks() && code == MovCode(old(code), src, dest, size1, size2, signed)
    {
      hide Tracks, Sound, Extends, Scope, Fetch, Store, OverflowBit, CarryBit, ParityBit, ZeroBit, SignBit;
      var v := EmitFetch(src, size1, signed);
      if size1 != size2 {
        v := EmitVarDecl(size2, signed, Tmp(v));
      }
      EmitStore(dest, Tmp(v), size2);
    }

    method EmitLea(src: Operand, dest: Operand, size: nat)
      requires Tracks() && Sound(code) && src.MemOp? && !dest.Imm?
      modifies this`code, this`bbRegs
      ensures Tracks() && code == LeaCode(old(code), src, dest, size)
    {
      hide Tracks, Sound, Extends, Scope, Fetch, Store, OverflowBit, CarryBit, ParityBit, ZeroBit, SignBit;
      EmitStore(dest, Cast(size, false, Addr(src)), size);
    }

    method EmitPush(src: Operand, size: nat)
      requires Tracks() && Sound(code)
      modifies this`code, this`bbRegs
      ensures Tracks() && code == PushCode(old(code), src, size)
    {
      hide Tracks, Sound, Extends, Scope, Fetch, Store, OverflowBit, CarryBit, ParityBit, ZeroBit, SignBit, LeaCode, MovCode;
      var down: int := size;
      EmitLea(Stack(-down), Whole(RSP), 8);
      EmitMov(src, Stack(0), size, size, false);
    }

    method EmitPop(dest: Operand, size: nat)
      requires Tracks() && Sound(code) && !dest.Imm?
      modifies this`code, this`bbRegs
      ensures Tracks() && code == PopCode(old(code), dest, size)
    {
      hide Tracks, Sound, Extends, Scope, Fetch, Store, OverflowBit, CarryBit, ParityBit, ZeroBit, SignBit, LeaCode, MovCode;
      EmitMov(Stack(0), dest, size, size, false);
      EmitLea(Stack(size), Whole(RSP), 8);
    }

    method EmitCall(src: Operand)
      requires Tracks() && Sound(code)
      modifies this`code, this`bbRegs
      ensures Tracks() && code == CallCode(old(code), src)
    {
      hide Tracks, Sound, Extends, Scope, Fetch, Store, OverflowBit, CarryBit, ParityBit, ZeroBit, SignBit, PushCode;
      ghost var c := code;
      var target := EmitFetch(src, 8, false);
      assert code == FetchInto(c, src, 8, false);
      EmitPush(Whole(RIP), 8);
      EmitStore(Whole(RIP), Tmp(target), 8);
    }

    method EmitEnter(alloc: int)
      requires Tracks() && Sound(code)
      modifies this`code, this`bbRegs
      ensures Tracks() && code == EnterCode(old(code), alloc)
    {
      hide Tracks, Sound, Extends, Scope, Fetch, Store, OverflowBit, CarryBit, ParityBit, ZeroBit, SignBit, LeaCode, MovCode, PushCode;
      EmitPush(Whole(RBP), 8);
      EmitMov(Whole(RSP), Whole(RBP), 8, 8, false);
      EmitLea(Stack(-alloc), Whole(RSP), 8);
    }

    method EmitLeave()
      requires Tracks() && Sound(code)
      modifies this`code, this`bbRegs
      ensures Tracks() && code == LeaveCode(old(code))
    {
      hide Tracks, Sound, Extends, Scope, Fetch, Store, OverflowBit, CarryBit, ParityBit, ZeroBit, SignBit, MovCode, PopCode;
      EmitMov(Whole(RBP), Whole(RSP), 8, 8, false);
      EmitPop(Whole(RBP), 8);
    }

    method EmitXchg(src: Operand, dest: Operand, size: nat)
      requires Tracks() && Sound(code) && !src.Imm? && !dest.Imm?
      modifies this`code, this`bbRegs
      ensures Tracks() && code == XchgCode(old(code), src, dest, size)
    {
      hide Tracks, Sound, Extends, Scope, Fetch, Store, OverflowBit, CarryBit, ParityBit, ZeroBit, SignBit;
      var s := EmitFetch(src, size, false);
      var d := EmitFetch(dest, size, false);
      EmitStore(src, Tmp(d), size);
      EmitStore(dest, Tmp(s), size);
    }

    /** The declarations at the start of _emit_add. */
    method EmitAddHead(o: Operation) returns (t: AddTemps)
      requires Tracks() && Sound(code) && o.Add?
      modifies this`code
      ensures t == TempsOf(old(code.next), o.carry) && Tracks() && code == AddHead(old(code), o)
    {
      hide Tracks, Sound, Extends, Scope, Fetch, Store;
      var aug := EmitFetch(o.left, o.size, false);
      var add := EmitFetch(o.right, o.size, false);
      var cf := code.next;
      var sum := Bin(SignOp(o.sub), Tmp(aug), Tmp(add));
      if o.carry {
        cf := EmitGetFlag(1);
        sum := Bin(SignOp(o.sub), sum, Tmp(cf));
      }
      var res := EmitVarDecl(o.size, false, sum);
      var efl := EmitVarDecl(2, false, Lit(0));
      t := AddTemps(aug, add, cf, res, efl);
    }

    method EmitAdd(o: Operation)
      requires Tracks() && Sound(code) && o.Add? && OperandsOk(o)
      modifies this`code, this`bbRegs
      ensures Tracks() && code == AddCode(old(code), o)
    {
      hide Tracks, Sound, Extends, Scope, Fetch, Store, AddHead, OverflowBit, CarryBit, ParityBit, ZeroBit, SignBit;
      var t := EmitAddHead(o);
      match o.target {
        case Left => EmitStore(o.left, Tmp(t.res), o.size);
        case Right => EmitStore(o.right, Tmp(t.res), o.size);
        case Nowhere =>
      }
      Emit(OrInto(t.efl, 2, OverflowBit(t, o)));
      if o.setCarry {
        Emit(OrInto(t.efl, 2, CarryBit(t, o)));
      }
      EmitZps(t.efl, t.res, o.size);
      EmitSetFlag(COZPS, Tmp(t.efl), o.clobber);
    }

    method EmitProduct(signed: bool, f: Factors, size: nat) returns (product: nat)
      requires Tracks() && Sound(code)
      modifies this`code
      ensures product == old(code.next) + 2 && Tracks() && code == ProductCode(old(code), signed, f, size)
    {
      hide Tracks, Sound, Extends, Scope, Fetch, Store;
      var x := EmitFetch(f.multiplicand, size, false);
      var y := EmitFetch(f.multiplier, size, false);
      product := EmitVarDecl(size * 2, signed, Bin(Times, Cast(size * 2, signed, Tmp(x)), Cast(size * 2, signed, Tmp(y))));
    }

    method EmitMultiply(signed: bool, ops: seq<Operand>, size: nat)
      requires Tracks() && Sound(code) && OperandsOk(Multiply(signed, ops, size))
      modifies this`code, this`bbRegs
      ensures Tracks() && code == MultiplyCode(old(code), signed, ops, size)
    {
      hide Tracks, Sound, Extends, Scope, Store, ProductCode, ProductFlags;
      var f := FactorsOf(signed, ops, size);
      var product := EmitProduct(signed, f, size);
      var lo := EmitVarDecl(size, false, Cast(size, false, Tmp(product)));
      EmitStore(f.lo, Tmp(lo), size);
      var hi := EmitVarDecl(size, false, Cast(size, false, Bin(ShiftR, Tmp(product), Lit(size * 8))));
      if f.hi.Some? {
        EmitStore(f.hi.value, Tmp(hi), size);
      }
      EmitSetFlag(CO, ProductFlags(signed, lo, hi, size), false);
    }

    method EmitDivide(signed: bool, divisor: Operand, size: nat)
      requires Tracks() && Sound(code)
      modifies this`code, this`bbRegs
      ensures Tracks() && code == DivideCode(old(code), signed, divisor, size)
    {
      hide Tracks, Sound, Extends, Scope, Fetch, Store, OverflowBit, CarryBit, ParityBit, ZeroBit, SignBit;
      var hi := EmitFetch(HighHalf(size), size, false);
      var lo := EmitFetch(Whole(RAX), size, false);
      var dividend := EmitVarDecl(size * 2, signed,
        Bin(WideOr, Tmp(lo), Bin(ShiftL, Cast(size * 2, signed, Tmp(hi)), Lit(size * 8))));
      var d := EmitFetch(divisor, size, signed);
      var q := EmitVarDecl(size, signed, Bin(Quot, Tmp(dividend), Tmp(d)));
      var r := EmitVarDecl(size, signed, Bin(Rem, Tmp(dividend), Tmp(d)));
      EmitStore(Whole(RAX), Tmp(q), size);
      EmitStore(HighHalf(size), Tmp(r), size);
    }

    method EmitBitwise(op: BinOp, src: Operand, dest: Operand, size: nat) returns (res: nat)
      requires Tracks() && Sound(code)
      modifies this`code
      ensures res == old(code.next) + 2 && Tracks() && code == BitwiseCode(old(code), op, src, dest, size)
    {
      hide Tracks, Sound, Extends, Scope, Fetch;
      var s := EmitFetch(src, size, false);
      var d := EmitFetch(dest, size, false);
      res := EmitVarDecl(size, false, Bin(op, Tmp(d), Tmp(s)));
    }

    method EmitLogical(op: BinOp, src: Operand, dest: Operand, write: bool, size: nat)
      requires Tracks() && Sound(code) && !dest.Imm?
      modifies this`code, this`bbRegs
      ensures Tracks() && code == LogicalCode(old(code), op, src, dest, write, size)
    {
      hide Tracks, Sound, Extends, Scope, Store, BitwiseCode, ParityBit, ZeroBit, SignBit;
      var res := EmitBitwise(op, src, dest, size);
      if write {
        EmitStore(dest, Tmp(res), size);
      }
      var efl := EmitVarDecl(2, false, Lit(0));
      EmitZps(efl, res, size);
      EmitSetFlag(COZPS, Tmp(efl), true);
    }

    method EmitNot(dest: Operand, size: nat)
      requires Tracks() && Sound(code) && !dest.Imm?
      modifies this`code, this`bbRegs
      ensures Tracks() && code == NotCode(old(code), dest, size)
    {
      hide Tracks, Sound, Extends, Scope, Fetch, Store;
      var v := EmitFetch(dest, size, false);
      EmitStore(dest, Bin(Minus, Lit(-1), Tmp(v)), size);
    }

    method EmitSignFill(src: Operand, dest: Operand, size: nat)
      requires Tracks() && Sound(code) && !dest.Imm?
      modifies this`code, this`bbRegs
      ensures Tracks() && code == SignFillCode(old(code), src, dest, size)
    {
      hide Tracks, Sound, Extends, Scope, Fetch, Store;
      var v := EmitFetch(src, size, true);
      var shift := EmitVarDecl(size, true, Bin(ShiftR, Tmp(v), Lit(size * 8 - 1)));
      EmitStore(dest, Tmp(shift), size);
    }

    method EmitBswap(r: Reg, size: nat)
      requires Tracks() && Sound(code) && (size == 4 || size == 8)
      modifies this`code, this`bbRegs
      ensures Tracks() && code == BswapCode(old(code), r, size)
    {
      hide Tracks, Sound, Extends, Scope, Fetch, Store, SwapPairs;
      var v := EmitFetch(Whole(r), size, false);
      var swapped := EmitVarDecl(size, false, SwapPairs(v, size, size / 2));
      EmitStore(Whole(r), Tmp(swapped), size);
    }

    method EmitBitTest(test: Testing, src: Operand, dest: Operand, size: nat)
      requires Tracks() && Sound(code) && dest.RegOp?
      modifies this`code, this`bbRegs
      ensures Tracks() && code == BitTestCode(old(code), test, src, dest, size)
    {
      hide Tracks, Sound, Extends, Scope, Fetch, Store;
      var raw := EmitFetch(src, size, false);
      var offset := EmitVarDecl(size, false, Bin(BitAnd, Tmp(raw), Lit(size * 8 - 1)));
      var orig := EmitFetch(dest, size, false);
      var bit := EmitVarDecl(size, false, Bin(BitAnd, Tmp(orig), Bin(ShiftL, Lit(1), Tmp(offset))));
      EmitSetFlag(1, Bin(ShiftL, Bin(ShiftR, Tmp(bit), Tmp(offset)), Lit(FLAG_CF)), false);
      if !test.Test? {
        var final := EmitVarDecl(size, false, Bin(TestOp(test), Tmp(orig), Bin(ShiftL, Lit(1), Tmp(offset))));
        EmitStore(dest, Tmp(final), size);
      }
    }

    method EmitCmc()
      requires Tracks() && Sound(code)
      modifies this`code, this`bbRegs
      ensures Tracks() && code == CmcCode(old(code))
    {
      hide Tracks, Sound, Extends, Scope, Fetch, Store;
      var efl := EmitVarDecl(2, false, Lit(0));
      Emit(FlagDecl(efl, 1));
      EmitSetFlag(1, Bin(BitXor, Tmp(efl), Lit(1)), false);
    }

    // ----- blocks

    /** " else {": what follows goes into a block of its own. */
    method OpenBlock() returns (before: Code, ghost base0: seq<Reg>)
      requires Tracks()
      modifies this`code, this`base
      ensures Tracks() && before == old(code) && base0 == old(base) && base == old(bbRegs)
      ensures code == Start(Scope(before), before.next)
    {
      before, base0 := code, base;
      base := bbRegs;
      code := Start(Scope(code), code.next);
    }

    /** " }" */
    method CloseBlock(skip: Expr, before: Code, ghost base0: seq<Reg>)
      requires Tracks() && base == Track(base0, before.ss)
      modifies this`code, this`base
      ensures Tracks() && base == base0 && code == Add1(before, Unless(skip, old(code.ss)), old(code.next))
    {
      TrackBlock(base0, before.ss, skip, code.ss);
      code := before.(ss := before.ss + [Unless(skip, code.ss)], next := code.next);
      base := base0;
    }

    method EmitGuardedMov(cond: Option<Cond>, src: Operand, dest: Operand, size: nat)
      requires Tracks() && Sound(code) && !dest.Imm?
      modifies this`code, this`bbRegs, this`base
      ensures Tracks() && base == old(base) && code == GuardedMov(old(code), cond, src, dest, size)
    {
      hide Tracks, Extends, Fetch, Store, Sound, Scope, MovCode, SkipTest;
      if cond.None? {
        EmitMov(src, dest, size, size, false);
        return;
      }
      ghost var c := code;
      var efl := EmitGetFlag(0xFFFF);
      assert code == GetFlag(c, 0xFFFF);
      var before, base0 := OpenBlock();
      EmitMov(src, dest, size, size, false);
      CloseBlock(SkipTest(cond.value, efl), before, base0);
    }

    method EmitCmov(cond: Option<Cond>, src: Operand, dest: Operand, size: nat)
      requires Tracks() && Sound(code) && !dest.Imm?
      modifies this`code, this`bbRegs, this`base
      ensures Tracks() && base == old(base) && code == CmovCode(old(code), cond, src, dest, size)
    {
      hide Tracks, Sound, Extends, Scope, Fetch, Store, MovCode, GuardedMov;
      EmitMov(dest, dest, size, size, false);
      EmitGuardedMov(cond, src, dest, size);
    }

    method EmitSetOn(cond: Option<Cond>, dest: Operand)
      requires Tracks() && Sound(code) && !dest.Imm?
      modifies this`code, this`bbRegs, this`base
      ensures Tracks() && base == old(base) && code == SetCode(old(code), cond, dest)
    {
      hide Tracks, Extends, Fetch, Store, Sound, Scope, SkipTest;
      EmitStore(dest, Lit(0), 1);
      if cond.None? {
        EmitStore(dest, Lit(1), 1);
        return;
      }
      var efl := EmitGetFlag(0xFFFF);
      var before, base0 := OpenBlock();
      EmitStore(dest, Lit(1), 1);
      CloseBlock(SkipTest(cond.value, efl), before, base0);
    }

    /** The bits that a rotation or a double shift moves in. */
    method EmitShiftFill(kind: Shifting, left: bool, ops: seq<Operand>, amt: nat, shift: nat, size: nat)
      requires Tracks() && Sound(code) && ShiftOperandsOk(kind, ops) && amt in Scope(code) && shift in Scope(code)
      modifies this`code
      ensures Tracks() && code == ShiftFill(old(code), kind, left, ops, amt, shift, size)
    {
      hide Tracks, Sound, Extends, Scope, Fetch, Store;
      if kind.Plain? {
        return;
      }
      var bits := EmitFetch(if kind.Double? then ops[1] else ops[|ops| - 1], size, false);
      if kind.RotateCarry? {
        var cf := EmitGetFlag(1);
        var carry := Bin(ShiftL, Bin(ShiftR, Tmp(cf), Lit(FLAG_CF)), Lit(if left then size * 8 - 1 else 0));
        Emit(Assign(bits, size, Bin(BitOr, Bin(Way(!left), Tmp(bits), Lit(1)), carry)));
      }
      Emit(OrInto(shift, size, Bin(Way(!left), Tmp(bits), Bin(Minus, Lit(size * 8), Tmp(amt)))));
    }

    method EmitShiftFlags(left: bool, amt: nat, src: nat, shift: nat, size1: nat, size2: nat)
      requires Tracks() && Sound(code) && {amt, src, shift} <= Scope(code)
      modifies this`code, this`bbRegs
      ensures Tracks() && code == ShiftFlags(old(code), left, amt, src, shift, size1, size2)
    {
      hide Tracks, Sound, Extends, Scope, Fetch, Store, ParityBit, ZeroBit, SignBit, ShiftOverflow, ShiftCarry;
      var efl := EmitVarDecl(2, false, Lit(0));
      EmitZps(efl, shift, size1);
      Emit(OrInto(efl, 2, ShiftOverflow(shift, src, size2)));
      Emit(OrInto(efl, 2, ShiftCarry(left, src, amt, size2)));
      EmitSetFlag(COZPS, Tmp(efl), false);
    }

    method EmitShiftHead(o: Operation) returns (amt: nat, src: nat, shift: nat)
      requires Tracks() && Sound(code) && o.Shift? && OperandsOk(o)
      modifies this`code
      ensures amt == old(code.next) + 1 && src == amt + 1 && shift == src + 1 && Tracks() && code == ShiftHead(old(code), o)
    {
      hide Tracks, Sound, Extends, Scope, Fetch;
      var raw := EmitFetch(o.ops[0], o.size1, false);
      amt := EmitVarDecl(o.size1, false, Bin(BitAnd, Tmp(raw), Lit(if o.size2 == 8 then 63 else 31)));
      src := EmitFetch(if o.kind.Double? then o.ops[|o.ops| - 1] else o.ops[1], o.size2, o.signed);
      shift := EmitVarDecl(o.size2, o.signed, Bin(Way(o.left_), Tmp(src), Tmp(amt)));
    }

    method EmitShift(o: Operation)
      requires Tracks() && Sound(code) && o.Shift? && OperandsOk(o)
      modifies this`code, this`bbRegs, this`base
      ensures Tracks() && base == old(base) && code == ShiftCode(old(code), o)
    {
      hide Tracks, Store, Sound, Scope, ShiftHead, ShiftFill, ShiftFlags;
      var dest := o.ops[|o.ops| - 1];
      var amt, src, shift := EmitShiftHead(o);
      EmitShiftFill(o.kind, o.left_, o.ops, amt, shift, o.size2);
      ghost var c := code;
      EmitStore(dest, Tmp(shift), o.size2);
      assert code == StoreTo(c, dest, Tmp(shift), o.size2);
      if !o.noFlag {
        NotedIn(base);
        var before, base0 := OpenBlock();
        EmitShiftFlags(o.left_, amt, src, shift, o.size1, o.size2);
        CloseBlock(Bin(Eq, Tmp(amt), Lit(0)), before, base0);
      }
    }

    lemma NotedIn(base0: seq<Reg>)
      requires Tracks() && base0 == base
      ensures bbRegs == Track(base0, code.ss)
    {}

    // ----- instructions

    /** The moves, stack operations and jumps of emit_function's dispatch. */
    method EmitMoving(o: Operation)
      requires Tracks() && Sound(code) && OperandsOk(o) && Moving(o)
      modifies this`code, this`bbRegs, this`base
      ensures Tracks() && base == old(base) && code == OpCode(old(code), o)
    {
      hide Tracks, Sound, Extends, Scope, MovCode, LeaCode, PushCode, PopCode, XchgCode, GuardedMov, CmovCode, SetCode,
           SignFillCode, CallCode, EnterCode, LeaveCode;
      match o {
        case Nop =>
        case Mov(src, dest, size1, size2, signed) => EmitMov(src, dest, size1, size2, signed);
        case Lea(src, dest, size) => EmitLea(src, dest, size);
        case Push(src, size) => EmitPush(src, size);
        case Pop(dest, size) => EmitPop(dest, size);
        case Xchg(src, dest, size) => EmitXchg(src, dest, size);
        case Jump(cond, src, size) => EmitGuardedMov(cond, src, Whole(RIP), size);
        case Cmov(cond, src, dest, size) => EmitCmov(cond, src, dest, size);
        case SetOn(cond, dest) => EmitSetOn(cond, dest);
        case SignFill(src, dest, size) => EmitSignFill(src, dest, size);
        case CallTo(src) => EmitCall(src);
        case Ret => EmitPop(Whole(RIP), 8);
        case Enter(alloc) => EmitEnter(alloc);
        case Leave => EmitLeave();
      }
    }

    /** The dispatch of emit_function. */
    method EmitOperation(o: Operation)
      requires Tracks() && Sound(code) && OperandsOk(o)
      modifies this`code, this`bbRegs, this`base
      ensures Tracks() && base == old(base) && code == OpCode(old(code), o)
    {
      hide Tracks, Sound, Extends, Scope, XchgCode, AddCode, MultiplyCode, DivideCode, LogicalCode, NotCode, ShiftCode,
           BitTestCode, BswapCode, CmcCode;
      if Moving(o) {
        EmitMoving(o);
        return;
      }
      match o {
        case Xadd(src, dest, size) => EmitXchg(src, dest, size); EmitAdd(AddOf(src, dest, size));
        case Add(_, _, _, _, _, _, _, _) => EmitAdd(o);
        case Multiply(signed, ops, size) => EmitMultiply(signed, ops, size);
        case Divide(signed, divisor, size) => EmitDivide(signed, divisor, size);
        case Logical(op, src, dest, write, size) => EmitLogical(op, src, dest, write, size);
        case Not(dest, size) => EmitNot(dest, size);
        case Shift(_, _, _, _, _, _, _) => EmitShift(o);
        case BitTest(test, src, dest, size) => EmitBitTest(test, src, dest, size);
        case Bswap(r, size) => EmitBswap(r, size);
        case FlagTo(bit, clear) => EmitSetFlag(FlagMask(bit), if clear then Lit(0) else Lit(FlagMask(bit)), false);
        case Cmc => EmitCmc();
      }
    }

    /** print_reg_writes and clear_bb_reg_refs. */
    method EmitEpilog()
      modifies this`out, this`bbRegs
      ensures out == old(out) + [Close(old(bbRegs))] && bbRegs == [RIP]
    {
      out := out + [Close(bbRegs)];
      bbRegs := [];
      AddBbRegRef(RIP);
    }

    /** emit_function: 0 is a record of its own, 1 opens a cartridge, 2 is inside one, 3 closes one. */
    method EmitFunction(i: Instr, kind: nat)
      requires kind <= 3 && OperandsOk(i.operation) && RIP in bbRegs
      modifies this
      ensures code == InstrCode(old(code.next), i)
      ensures var regs := Track(old(bbRegs), code.ss);
              && out == old(out) + (if kind == 0 || kind == 1 then [Open(i.vaddr)] else []) + Texts(code.ss) +
                        (if kind == 0 || kind == 3 then [Close(regs)] else [])
              && bbRegs == if kind == 0 || kind == 3 then [RIP] else regs
    {
      hide OpCode, Begun, Texts, Track, Sound, Extends, Scope;
      if kind == 0 || kind == 1 {
        out := out + [Open(i.vaddr)];
      }
      code, base := Start({}, code.next), bbRegs;
      EmptyTracks();
      // rip_tmp is assigned without add_bb_reg_ref
      var s := SetReg(RIP, Bin(Plus, RegVal(RIP), Lit(i.length)));
      RipTracks(base, s);
      code := code.(ss := code.ss + [s]);
      RipBegins(code, old(code.next), i);
      EmitOperation(i.operation);
      out := out + Texts(code.ss);
      if kind == 0 || kind == 3 {
        EmitEpilog();
      }
    }

    lemma EmptyTracks()
      requires code.ss == [] && base == bbRegs
      ensures Tracks()
    {}
  }

  lemma RipTracks(base: seq<Reg>, s: Stmt)
    requires s.SetReg? && s.r in base
    ensures Track(base, [] + [s]) == base
  {
    assert ([] + [s])[1..] == [];
  }

  lemma RipBegins(c: Code, n: nat, i: Instr)
    requires c == Start({}, n).(ss := [] + [SetReg(RIP, Bin(Plus, RegVal(RIP), Lit(i.length)))])
    ensures c == Begun(n, i)
  {}
}
