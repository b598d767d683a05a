/** parseltongue86's handlers: the C++ text that each x86 instruction becomes, with its temporaries. */
module CartridgeEmitter {
  import opened CartridgeIR
  import opened Options

  // ----- instructions

  /** The scales that an index can have. */
  type Scale = s: nat | s == 1 || s == 2 || s == 4 || s == 8 witness 1

  datatype Index = Index(r: Reg, scale: Scale)

  /** A register (high for %ah and the like), an immediate or address, or a memory operand. */
  datatype Operand =
    | RegOp(r: Reg, high: bool)
    | Imm(n: int)
    | MemOp(wide: bool, offset: int, base: Option<Reg>, index: Option<Index>)

  /** Where an addition puts its result. */
  datatype Target = Left | Right | Nowhere

  /** The condition of a jump, a conditional move or a set. */
  datatype Cond = Cond(less: bool, bit: nat, orZero: bool, negated: bool)

  /** sh and sa, ro, rc, and the double shift. */
  datatype Shifting = Plain | Rotate | RotateCarry | Double

  /** bt, btc, btr and bts. */
  datatype Testing = Test | Complement | Reset | SetIt

  /** The operations that emit_function dispatches; Nop stands for all that get no code of their own. */
  datatype Operation =
    | Nop
    | Mov(src: Operand, dest: Operand, size1: nat, size2: nat, signed: bool)
    | Lea(src: Operand, dest: Operand, size: nat)
    | Push(src: Operand, size: nat)
    | Pop(dest: Operand, size: nat)
    | Xchg(src: Operand, dest: Operand, size: nat)
    | Xadd(src: Operand, dest: Operand, size: nat)
    | Add(sub: bool, carry: bool, left: Operand, right: Operand, target: Target, setCarry: bool, clobber: bool, size: nat)
    | Multiply(signed: bool, ops: seq<Operand>, size: nat)
    | Divide(signed: bool, divisor: Operand, size: nat)
    | Logical(op: BinOp, src: Operand, dest: Operand, write: bool, size: nat)
    | Not(dest: Operand, size: nat)
    | Shift(kind: Shifting, left_: bool, signed: bool, noFlag: bool, ops: seq<Operand>, size1: nat, size2: nat)
    | Jump(cond: Option<Cond>, src: Operand, size: nat)
    | Cmov(cond: Option<Cond>, src: Operand, dest: Operand, size: nat)
    | SetOn(cond: Option<Cond>, dest: Operand)
    | BitTest(test: Testing, src: Operand, dest: Operand, size: nat)
    | Bswap(r: Reg, size: nat)
    | SignFill(src: Operand, dest: Operand, size: nat)
    | CallTo(src: Operand)
    | Ret
    | Enter(alloc: int)
    | Leave
    | FlagTo(bit: nat, clear: bool)
    | Cmc

  datatype Instr = Instr(vaddr: int, length: nat, operation: Operation, skipped: bool)

  // ----- the code of an operand

  /** Operand.addr: the terms that are present, added in 32 or 64 bits. */
  function Addr(op: Operand): Expr
    requires op.MemOp?
  {
    var width := if op.wide then 8 else 4;
    var o := if op.offset == 0 then [] else [Cast(width, false, Lit(op.offset))];
    var b := if op.base.None? then [] else [Cast(width, false, RegVal(op.base.value))];
    var i := if op.index.None? then []
             else [Bin(Times, Cast(width, false, RegVal(op.index.value.r)), Lit(op.index.value.scale))];
    Cast(width, false, Total(o + b + i))
  }

  function Total(terms: seq<Expr>): Expr {
    if terms == [] then Lit(0)
    else if |terms| == 1 then terms[0]
    else Bin(Plus, Total(terms[..|terms| - 1]), terms[|terms| - 1])
  }

  /** The initialiser of Operand.emit_fetch. */
  function Fetch(op: Operand, size: nat): Expr {
    match op
    case RegOp(r, high) => if high then Cast(1, false, Bin(ShiftR, RegVal(r), Lit(8))) else Cast(size, false, RegVal(r))
    case Imm(n) => Lit(n)
    case MemOp(_, _, _, _) => Deref(Addr(op), size)
  }

  /** Operand.emit_store. */
  function Store(op: Operand, e: Expr, size: nat): seq<Stmt>
    requires !op.Imm?
  {
    match op
    case RegOp(r, high) =>
      if size == 1 then
        if high then
          [SetReg(r, Bin(BitAnd, RegVal(r), Lit(0xFFFF_FFFF_FFFF_00FF))),
           SetReg(r, Bin(Plus, RegVal(r), Cast(2, false, Bin(ShiftL, e, Lit(8)))))]
        else
          [SetReg(r, Bin(BitAnd, RegVal(r), Lit(0xFFFF_FFFF_FFFF_FF00))), SetReg(r, Bin(Plus, RegVal(r), e))]
      else if size == 2 then
        [SetReg(r, Bin(BitAnd, RegVal(r), Lit(0xFFFF_FFFF_FFFF_0000))), SetReg(r, Bin(Plus, RegVal(r), e))]
      else if size == 4 then [SetReg(r, Cast(8, false, Cast(4, false, e)))]
      else [SetReg(r, e)]
    case MemOp(_, _, _, _) => [Poke(Addr(op), size, e)]
  }

  // ----- what an expression reads

  lemma BinReads(op: BinOp, l: Expr, r: Expr, k: set<nat>)
    requires ReadsOnly(l, k) && ReadsOnly(r, k)
    ensures ReadsOnly(Bin(op, l, r), k)
  {}

  lemma {:induction false} TotalReads(terms: seq<Expr>, known: set<nat>)
    requires forall i :: 0 <= i < |terms| ==> ReadsOnly(terms[i], known)
    ensures ReadsOnly(Total(terms), known)
  {
    if |terms| > 1 { TotalReads(terms[..|terms| - 1], known); }
  }

  lemma AddrReads(op: Operand, known: set<nat>)
    requires op.MemOp?
    ensures ReadsOnly(Addr(op), known)
  {
    hide Total;
    var width := if op.wide then 8 else 4;
    var o := if op.offset == 0 then [] else [Cast(width, false, Lit(op.offset))];
    var b := if op.base.None? then [] else [Cast(width, false, RegVal(op.base.value))];
    var i := if op.index.None? then []
             else [Bin(Times, Cast(width, false, RegVal(op.index.value.r)), Lit(op.index.value.scale))];
    if op.index.Some? {
      assert ReadsOnly(Cast(width, false, RegVal(op.index.value.r)), known);
      assert ReadsOnly(i[0], known);
    }
    TotalReads(o + b + i, known);
  }

  lemma FetchReads(op: Operand, size: nat, known: set<nat>)
    ensures ReadsOnly(Fetch(op, size), known)
  {
    if op.MemOp? { AddrReads(op, known); }
  }

  // ----- a text and its temporaries

  /**
   A text under construction: the temporaries in scope where it starts, the number of the first one of its own, the
   statements so far, and the number of the next temporary (the global var_count).
   */
  datatype Code = Code(outer: set<nat>, first: nat, ss: seq<Stmt>, next: nat)

  /** The temporaries that a text declares, nested blocks included, in order. */
  function Declared(ss: seq<Stmt>): seq<nat>
    decreases ss
  {
    if ss == [] then [] else Declared1(ss[0]) + Declared(ss[1..])
  }

  function Declared1(s: Stmt): seq<nat>
    decreases s
  {
    match s
    case Decl(id, _, _, _) => [id]
    case Unless(_, body) => Declared(body)
    case _ => []
  }

  /** n, n + 1, ..., next - 1. */
  function Numbers(n: nat, next: nat): seq<nat>
    requires n <= next
    decreases next - n
  {
    if n == next then [] else [n] + Numbers(n + 1, next)
  }

  lemma {:induction false} NumbersAppend(a: nat, b: nat, c: nat)
    requires a <= b <= c
    ensures Numbers(a, c) == Numbers(a, b) + Numbers(b, c)
    decreases b - a
  {
    if a != b {
      NumbersAppend(a + 1, b, c);
    } else {
      assert Numbers(a, b) == [];
    }
  }

  lemma NumbersSnoc(n: nat, m: nat)
    requires n <= m
    ensures Numbers(n, m + 1) == Numbers(n, m) + [m]
  {
    NumbersAppend(n, m, m + 1);
    assert Numbers(m + 1, m + 1) == [] && Numbers(m, m + 1) == [m] + Numbers(m + 1, m + 1);
  }

  function KnownAfter(ss: seq<Stmt>, known: set<nat>): set<nat>
    decreases |ss|
  {
    if ss == [] then known else KnownAfter(ss[1..], Known(ss[0], known))
  }

  lemma {:induction false} DeclaredAppend(a: seq<Stmt>, b: seq<Stmt>)
    ensures Declared(a + b) == Declared(a) + Declared(b)
    decreases |a|
  {
    hide Declared1;
    if a == [] {
      assert a + b == b;
    } else {
      assert (a + b)[1..] == a[1..] + b;
      DeclaredAppend(a[1..], b);
    }
  }

  lemma {:induction false} ClosedAppend(a: seq<Stmt>, b: seq<Stmt>, known: set<nat>)
    requires Closed(a, known) && Closed(b, KnownAfter(a, known))
    ensures Closed(a + b, known) && KnownAfter(a + b, known) == KnownAfter(b, KnownAfter(a, known))
    decreases |a|
  {
    hide Closed1, Known;
    if a == [] {
      assert a + b == b;
    } else {
      assert (a + b)[1..] == a[1..] + b;
      ClosedAppend(a[1..], b, Known(a[0], known));
    }
  }

  /** The temporaries in scope at the end of a text. */
  function Scope(c: Code): set<nat> {
    KnownAfter(c.ss, c.outer)
  }

  /** Every temporary is declared before it is used. */
  predicate Scoped(c: Code) {
    c.first <= c.next && Closed(c.ss, c.outer)
  }

  /** The text declares each of its numbers once, in order. */
  predicate Numbered(c: Code) {
    c.first <= c.next && Declared(c.ss) == Numbers(c.first, c.next)
  }

  predicate Sound(c: Code) {
    Scoped(c) && Numbered(c)
  }

  /** r continues the text c. */
  predicate Extends(c: Code, r: Code) {
    r.outer == c.outer && r.first == c.first && c.next <= r.next && Scope(c) <= Scope(r)
  }

  function Start(outer: set<nat>, n: nat): (r: Code)
    ensures Sound(r) && Scope(r) == outer
  {
    Code(outer, n, [], n)
  }

  function Add1(c: Code, s: Stmt, next: nat): Code {
    c.(ss := c.ss + [s], next := next)
  }

  lemma Add1Scoped(c: Code, s: Stmt, next: nat)
    requires Scoped(c) && Closed1(s, Scope(c)) && c.next <= next
    ensures var r := Add1(c, s, next);
            && Scoped(r) && Scope(r) == Known(s, Scope(c)) && Extends(c, r)
            && Declared(r.ss) == Declared(c.ss) + Declared1(s)
  {
    hide Closed1;
    assert [s][1..] == [];
    assert Declared1(s) + [] == Declared1(s);
    ClosedAppend(c.ss, [s], c.outer);
    DeclaredAppend(c.ss, [s]);
  }

  /** Instruction.emit_var_decl. */
  function Declare(c: Code, width: nat, signed: bool, e: Expr): (r: Code)
    requires Sound(c) && ReadsOnly(e, Scope(c))
    ensures Sound(r) && Extends(c, r) && Scope(r) == Scope(c) + {c.next} && r.next == c.next + 1
  {
    Add1Scoped(c, Decl(c.next, width, signed, e), c.next + 1);
    NumbersSnoc(c.first, c.next);
    Add1(c, Decl(c.next, width, signed, e), c.next + 1)
  }

  /** A statement that declares nothing. */
  function Write(c: Code, s: Stmt): (r: Code)
    requires Sound(c) && Closed1(s, Scope(c)) && !s.Decl? && !s.Unless?
    ensures Sound(r) && Extends(c, r) && Scope(r) == Scope(c) && r.next == c.next
  {
    Add1Scoped(c, s, c.next);
    assert Declared(c.ss) + [] == Declared(c.ss);
    Add1(c, s, c.next)
  }

  /** The block "if (skip) {} else { body }". */
  function Block(c: Code, skip: Expr, body: Code): (r: Code)
    requires Sound(c) && Sound(body) && ReadsOnly(skip, Scope(c)) && body.outer == Scope(c) && body.first == c.next
    ensures Sound(r) && Extends(c, r) && Scope(r) == Scope(c) && r.next == body.next
  {
    Add1Scoped(c, Unless(skip, body.ss), body.next);
    NumbersAppend(c.first, c.next, body.next);
    Add1(c, Unless(skip, body.ss), body.next)
  }

  /** Operand.emit_fetch. */
  function FetchInto(c: Code, op: Operand, size: nat, signed: bool): (r: Code)
    requires Sound(c)
    ensures Sound(r) && Extends(c, r) && Scope(r) == Scope(c) + {c.next} && r.next == c.next + 1
  {
    FetchReads(op, size, Scope(c));
    Declare(c, size, signed, Fetch(op, size))
  }

  /** Operand.emit_store. */
  function StoreTo(c: Code, op: Operand, e: Expr, size: nat): (r: Code)
    requires Sound(c) && !op.Imm? && ReadsOnly(e, Scope(c))
    ensures Sound(r) && Extends(c, r) && Scope(r) == Scope(c) && r.next == c.next
  {
    StoreCloses(op, e, size, Scope(c));
    StoreSound(c, Store(op, e, size));
    c.(ss := c.ss + Store(op, e, size))
  }

  predicate PlainStmts(ss: seq<Stmt>, known: set<nat>) {
    1 <= |ss| <= 2 && forall i :: 0 <= i < |ss| ==> Closed1(ss[i], known) && !ss[i].Decl? && !ss[i].Unless?
  }

  lemma StoreCloses(op: Operand, e: Expr, size: nat, known: set<nat>)
    requires !op.Imm? && ReadsOnly(e, known)
    ensures PlainStmts(Store(op, e, size), known)
  {
    if op.MemOp? {
      AddrReads(op, known);
    } else {
      var r := RegVal(op.r);
      BinReads(ShiftL, e, Lit(8), known);
      assert ReadsOnly(Cast(2, false, Bin(ShiftL, e, Lit(8))), known);
      BinReads(Plus, r, Cast(2, false, Bin(ShiftL, e, Lit(8))), known);
      BinReads(Plus, r, e, known);
      BinReads(BitAnd, r, Lit(0xFFFF_FFFF_FFFF_00FF), known);
      BinReads(BitAnd, r, Lit(0xFFFF_FFFF_FFFF_FF00), known);
      BinReads(BitAnd, r, Lit(0xFFFF_FFFF_FFFF_0000), known);
      assert ReadsOnly(Cast(8, false, Cast(4, false, e)), known);
    }
  }

  lemma StoreSound(c: Code, ss: seq<Stmt>)
    requires Sound(c) && PlainStmts(ss, Scope(c))
    ensures var r := c.(ss := c.ss + ss); Sound(r) && Extends(c, r) && Scope(r) == Scope(c)
  {
    hide Sound, Extends, Scope, Closed1;
    var r := Write(c, ss[0]);
    if |ss| == 1 {
      assert ss == [ss[0]];
    } else {
      var r2 := Write(r, ss[1]);
      assert c.ss + ss == c.ss + [ss[0]] + [ss[1]];
      assert Extends(c, r2) by { ExtendsTrans(c, r, r2); }
    }
  }

  lemma ExtendsTrans(c: Code, d: Code, e: Code)
    requires Extends(c, d) && Extends(d, e)
    ensures Extends(c, e)
  {
    hide Scope;
  }

  // ----- flags

  const FLAG_CF: nat := 0
  const FLAG_PF: nat := 2
  const FLAG_ZF: nat := 6
  const FLAG_SF: nat := 7
  const FLAG_OF: nat := 11

  /** The bits of CF, PF, ZF, SF and OF, and those of CF and OF. */
  const COZPS: int := 0x8C5
  const CO: int := 0x801

  /** The declaration of emit_get_flag. */
  function FlagDecl(id: nat, mask: int): Stmt {
    Decl(id, 2, false, Bin(BitAnd, Cast(2, false, RegVal(EFL)), Lit(mask)))
  }

  function GetFlag(c: Code, mask: int): (r: Code)
    requires Sound(c)
    ensures Sound(r) && Extends(c, r) && Scope(r) == Scope(c) + {c.next} && r.next == c.next + 1
  {
    BinReads(BitAnd, Cast(2, false, RegVal(EFL)), Lit(mask), Scope(c));
    Declare(c, 2, false, Bin(BitAnd, Cast(2, false, RegVal(EFL)), Lit(mask)))
  }

  /** The statement of emit_set_flag. */
  function FlagStmt(mask: int, value: Expr, clobber: bool): Stmt {
    if clobber then SetReg(EFL, value) else SetReg(EFL, Bin(BitOr, Bin(AndNot, RegVal(EFL), Lit(mask)), value))
  }

  function SetFlag(c: Code, mask: int, value: Expr, clobber: bool): (r: Code)
    requires Sound(c) && ReadsOnly(value, Scope(c))
    ensures Sound(r) && Extends(c, r) && Scope(r) == Scope(c) && r.next == c.next
  {
    BinReads(AndNot, RegVal(EFL), Lit(mask), Scope(c));
    BinReads(BitOr, Bin(AndNot, RegVal(EFL), Lit(mask)), value, Scope(c));
    Write(c, FlagStmt(mask, value, clobber))
  }

  /** v_efl |= e. */
  function OrFlag(c: Code, efl: nat, e: Expr): (r: Code)
    requires Sound(c) && efl in Scope(c) && ReadsOnly(e, Scope(c))
    ensures Sound(r) && Extends(c, r) && Scope(r) == Scope(c) && r.next == c.next
  {
    Write(c, OrInto(efl, 2, e))
  }

  function ParityBit(res: nat): Expr {
    Bin(ShiftL, Bin(BitAnd, Bin(ShiftR, Lit(0x6996),
      Bin(BitAnd, Bin(BitXor, Bin(ShiftR, Tmp(res), Lit(4)), Tmp(res)), Lit(0xF))), Lit(1)), Lit(FLAG_PF))
  }

  function ZeroBit(res: nat): Expr {
    Bin(ShiftL, Bin(Eq, Tmp(res), Lit(0)), Lit(FLAG_ZF))
  }

  function SignBit(res: nat, size: nat): Expr {
    Bin(BitAnd, Bin(ShiftR, Tmp(res), Lit(size * 8 - FLAG_SF - 1)), Lit(0x80))
  }

  lemma ZpsReads(res: nat, size: nat, k: set<nat>)
    requires res in k
    ensures ReadsOnly(ParityBit(res), k) && ReadsOnly(ZeroBit(res), k) && ReadsOnly(SignBit(res, size), k)
  {
    var t := Tmp(res);
    BinReads(ShiftR, t, Lit(4), k);
    var x := Bin(BitXor, Bin(ShiftR, t, Lit(4)), t);
    BinReads(BitXor, Bin(ShiftR, t, Lit(4)), t, k);
    BinReads(BitAnd, x, Lit(0xF), k);
    BinReads(ShiftR, Lit(0x6996), Bin(BitAnd, x, Lit(0xF)), k);
    BinReads(BitAnd, Bin(ShiftR, Lit(0x6996), Bin(BitAnd, x, Lit(0xF))), Lit(1), k);
    BinReads(Eq, t, Lit(0), k);
    BinReads(ShiftR, t, Lit(size * 8 - FLAG_SF - 1), k);
  }

  /** _emit_zps: parity, zero and sign of a result. */
  function Zps(c: Code, efl: nat, res: nat, size: nat): (r: Code)
    requires Sound(c) && efl in Scope(c) && res in Scope(c)
    ensures Sound(r) && Extends(c, r) && Scope(r) == Scope(c) && r.next == c.next
  {
    hide OrFlag, ParityBit, ZeroBit, SignBit, Sound, Scope;
    ZpsReads(res, size, Scope(c));
    OrFlag(OrFlag(OrFlag(c, efl, ParityBit(res)), efl, ZeroBit(res)), efl, SignBit(res, size))
  }

  // ----- moves and the stack

  /** _emit_mov. */
  function MovCode(c: Code, src: Operand, dest: Operand, size1: nat, size2: nat, signed: bool): (r: Code)
    requires Sound(c) && !dest.Imm?
    ensures Sound(r) && Extends(c, r)
  {
    hide Declare, FetchInto, StoreTo, Sound, Scope;
    var c1 := FetchInto(c, src, size1, signed);
    if size1 != size2 then
      var c2 := Declare(c1, size2, signed, Tmp(c.next));
      StoreTo(c2, dest, Tmp(c1.next), size2)
    else StoreTo(c1, dest, Tmp(c.next), size2)
  }

  /** _emit_lea. */
  function LeaCode(c: Code, src: Operand, dest: Operand, size: nat): (r: Code)
    requires Sound(c) && src.MemOp? && !dest.Imm?
    ensures Sound(r) && Extends(c, r)
  {
    AddrReads(src, Scope(c));
    StoreTo(c, dest, Cast(size, false, Addr(src)), size)
  }

  /** A whole register. */
  function Whole(r: Reg): Operand {
    RegOp(r, false)
  }

  function Stack(offset: int): Operand {
    MemOp(true, offset, Some(RSP), None)
  }

  /** _emit_push. */
  function PushCode(c: Code, src: Operand, size: nat): (r: Code)
    requires Sound(c)
    ensures Sound(r) && Extends(c, r)
  {
    hide LeaCode, MovCode, Sound, Scope;
    var down: int := size;
    MovCode(LeaCode(c, Stack(-down), Whole(RSP), 8), src, Stack(0), size, size, false)
  }

  /** _emit_pop. */
  function PopCode(c: Code, dest: Operand, size: nat): (r: Code)
    requires Sound(c) && !dest.Imm?
    ensures Sound(r) && Extends(c, r)
  {
    hide LeaCode, MovCode, Sound, Scope;
    LeaCode(MovCode(c, Stack(0), dest, size, size, false), Stack(size), Whole(RSP), 8)
  }

  /** _emit_call. */
  function CallCode(c: Code, src: Operand): (r: Code)
    requires Sound(c)
    ensures Sound(r) && Extends(c, r)
  {
    hide FetchInto, PushCode, StoreTo, Sound, Scope;
    StoreTo(PushCode(FetchInto(c, src, 8, false), Whole(RIP), 8), Whole(RIP), Tmp(c.next), 8)
  }

  /** _emit_enter. */
  function EnterCode(c: Code, alloc: int): (r: Code)
    requires Sound(c)
    ensures Sound(r) && Extends(c, r)
  {
    hide PushCode, MovCode, LeaCode, Sound, Scope;
    LeaCode(MovCode(PushCode(c, Whole(RBP), 8), Whole(RSP), Whole(RBP), 8, 8, false), Stack(-alloc), Whole(RSP), 8)
  }

  /** _emit_leave. */
  function LeaveCode(c: Code): (r: Code)
    requires Sound(c)
    ensures Sound(r) && Extends(c, r)
  {
    hide PopCode, MovCode, Sound, Scope;
    PopCode(MovCode(c, Whole(RBP), Whole(RSP), 8, 8, false), Whole(RBP), 8)
  }

  /** _emit_xchg. */
  function XchgCode(c: Code, src: Operand, dest: Operand, size: nat): (r: Code)
    requires Sound(c) && !src.Imm? && !dest.Imm?
    ensures Sound(r) && Extends(c, r)
  {
    hide Declare, FetchInto, StoreTo, Sound, Scope;
    var c1 := FetchInto(c, src, size, false);
    var c2 := FetchInto(c1, dest, size, false);
    StoreTo(StoreTo(c2, src, Tmp(c1.next), size), dest, Tmp(c.next), size)
  }

  // ----- arithmetic

  function SignOp(sub: bool): BinOp {
    if sub then Minus else Plus
  }

  /** The temporaries of _emit_add. */
  datatype AddTemps = AddTemps(aug: nat, add: nat, cf: nat, res: nat, efl: nat)

  function TempsOf(n: nat, carry: bool): AddTemps {
    if carry then AddTemps(n, n + 1, n + 2, n + 3, n + 4) else AddTemps(n, n + 1, n + 2, n + 2, n + 3)
  }

  predicate InScope(t: AddTemps, carry: bool, k: set<nat>) {
    {t.aug, t.add, t.res, t.efl} <= k && (carry ==> t.cf in k)
  }

  /** The operands of _emit_add. */
  function AddOperands(c: Code, o: Operation): (r: Code)
    requires Sound(c) && o.Add?
    ensures Sound(r) && Extends(c, r) && r.next == TempsOf(c.next, o.carry).res
    ensures {c.next, c.next + 1} <= Scope(r) && (o.carry ==> c.next + 2 in Scope(r))
  {
    hide FetchInto, GetFlag, Sound, Scope;
    var c2 := FetchInto(FetchInto(c, o.left, o.size, false), o.right, o.size, false);
    if o.carry then GetFlag(c2, 1) else c2
  }

  function SumOf(t: AddTemps, o: Operation): Expr
    requires o.Add?
  {
    var sum := Bin(SignOp(o.sub), Tmp(t.aug), Tmp(t.add));
    if o.carry then Bin(SignOp(o.sub), sum, Tmp(t.cf)) else sum
  }

  /** The declarations of _emit_add: operands, carry, result and flags. */
  function AddHead(c: Code, o: Operation): (r: Code)
    requires Sound(c) && o.Add?
    ensures Sound(r) && Extends(c, r) && InScope(TempsOf(c.next, o.carry), o.carry, Scope(r))
  {
    hide AddOperands, Declare, Sound, Scope;
    var t := TempsOf(c.next, o.carry);
    var c3 := AddOperands(c, o);
    BinReads(SignOp(o.sub), Tmp(t.aug), Tmp(t.add), Scope(c3));
    Declare(Declare(c3, o.size, false, SumOf(t, o)), 2, false, Lit(0))
  }

  function OverflowBit(t: AddTemps, o: Operation): Expr
    requires o.Add?
  {
    Bin(ShiftL, Bin(ShiftR,
      Bin(BitAnd, Bin(BitXor, Tmp(t.res), Tmp(t.aug)), Bin(BitXor, Tmp(if o.sub then t.aug else t.res), Tmp(t.add))),
      Lit(o.size * 8 - 1)), Lit(FLAG_OF))
  }

  function CarryBit(t: AddTemps, o: Operation): Expr
    requires o.Add?
  {
    var plain := Bin(if o.sub then Gt else Lt, Tmp(t.res), Tmp(t.aug));
    if o.carry then Choose(Tmp(t.cf), Bin(if o.sub then Ge else Le, Tmp(t.res), Tmp(t.aug)), plain) else plain
  }

  lemma AddBitsRead(t: AddTemps, o: Operation, k: set<nat>)
    requires o.Add? && InScope(t, o.carry, k)
    ensures ReadsOnly(OverflowBit(t, o), k) && ReadsOnly(CarryBit(t, o), k)
  {
    var x, y := Bin(BitXor, Tmp(t.res), Tmp(t.aug)), Bin(BitXor, Tmp(if o.sub then t.aug else t.res), Tmp(t.add));
    BinReads(BitAnd, x, y, k);
    BinReads(ShiftR, Bin(BitAnd, x, y), Lit(o.size * 8 - 1), k);
    BinReads(if o.sub then Gt else Lt, Tmp(t.res), Tmp(t.aug), k);
    BinReads(if o.sub then Ge else Le, Tmp(t.res), Tmp(t.aug), k);
  }

  /** The flags of _emit_add. */
  function AddFlags(c: Code, t: AddTemps, o: Operation): (r: Code)
    requires Sound(c) && o.Add? && InScope(t, o.carry, Scope(c))
    ensures Sound(r) && Extends(c, r)
  {
    hide OrFlag, Zps, SetFlag, OverflowBit, CarryBit, Sound, Scope;
    AddBitsRead(t, o, Scope(c));
    var c1 := OrFlag(c, t.efl, OverflowBit(t, o));
    var c2 := if o.setCarry then OrFlag(c1, t.efl, CarryBit(t, o)) else c1;
    SetFlag(Zps(c2, t.efl, t.res, o.size), COZPS, Tmp(t.efl), o.clobber)
  }

  function AddTarget(c: Code, res: nat, o: Operation): (r: Code)
    requires Sound(c) && o.Add? && OperandsOk(o) && res in Scope(c)
    ensures Sound(r) && Extends(c, r)
  {
    match o.target
    case Left => StoreTo(c, o.left, Tmp(res), o.size)
    case Right => StoreTo(c, o.right, Tmp(res), o.size)
    case Nowhere => c
  }

  /** _emit_add. */
  function AddCode(c: Code, o: Operation): (r: Code)
    requires Sound(c) && o.Add? && OperandsOk(o)
    ensures Sound(r) && Extends(c, r)
  {
    hide AddHead, AddTarget, AddFlags, Sound, Scope;
    var t := TempsOf(c.next, o.carry);
    AddFlags(AddTarget(AddHead(c, o), t.res, o), t, o)
  }

  /** The operands of _emit_mul: two factors, and where the low and the high half of the product go. */
  datatype Factors = Factors(multiplicand: Operand, multiplier: Operand, lo: Operand, hi: Option<Operand>)

  /** The high half of a double-width accumulator. */
  function HighHalf(size: nat): Operand {
    if size == 1 then RegOp(RAX, true) else Whole(RDX)
  }

  function FactorsOf(signed: bool, ops: seq<Operand>, size: nat): Factors
    requires ops != []
  {
    if signed && |ops| == 3 then Factors(ops[1], ops[0], ops[2], None)
    else if signed && |ops| == 2 then Factors(ops[1], ops[0], ops[1], None)
    else Factors(Whole(RAX), ops[0], Whole(RAX), Some(HighHalf(size)))
  }

  /** The value that _emit_mul gives to CF and OF. */
  function ProductFlags(signed: bool, lo: nat, hi: nat, size: nat): Expr {
    if signed then
      Choose(Bin(Eq, Bin(ShiftR, Cast(size, true, Tmp(lo)), Lit(size * 8 - 1)), Cast(size, true, Tmp(hi))), Lit(0), Lit(CO))
    else Choose(Bin(Eq, Tmp(hi), Lit(0)), Lit(0), Lit(CO))
  }

  lemma ProductFlagsRead(signed: bool, lo: nat, hi: nat, size: nat, k: set<nat>)
    requires lo in k && hi in k
    ensures ReadsOnly(ProductFlags(signed, lo, hi, size), k)
  {
    assert ReadsOnly(Cast(size, true, Tmp(lo)), k) && ReadsOnly(Cast(size, true, Tmp(hi)), k);
    BinReads(ShiftR, Cast(size, true, Tmp(lo)), Lit(size * 8 - 1), k);
    BinReads(Eq, Bin(ShiftR, Cast(size, true, Tmp(lo)), Lit(size * 8 - 1)), Cast(size, true, Tmp(hi)), k);
    BinReads(Eq, Tmp(hi), Lit(0), k);
  }

  /** The product of _emit_mul: both factors are fetched unsigned, whatever the product is. */
  function ProductCode(c: Code, signed: bool, f: Factors, size: nat): (r: Code)
    requires Sound(c)
    ensures Sound(r) && Extends(c, r) && r.next == c.next + 3 && c.next + 2 in Scope(r)
  {
    hide Declare, FetchInto, Sound, Scope;
    var c1 := FetchInto(c, f.multiplicand, size, false);
    var c2 := FetchInto(c1, f.multiplier, size, false);
    var x, y := Cast(size * 2, signed, Tmp(c.next)), Cast(size * 2, signed, Tmp(c1.next));
    BinReads(Times, x, y, Scope(c2));
    Declare(c2, size * 2, signed, Bin(Times, x, y))
  }

  /** _emit_mul. */
  function MultiplyCode(c: Code, signed: bool, ops: seq<Operand>, size: nat): (r: Code)
    requires Sound(c) && ops != [] && !FactorsOf(signed, ops, size).lo.Imm?
    ensures Sound(r) && Extends(c, r)
  {
    hide ProductCode, Declare, StoreTo, Sound, Scope, SetFlag;
    var f := FactorsOf(signed, ops, size);
    var product, lo, hi := c.next + 2, c.next + 3, c.next + 4;
    var c1 := ProductCode(c, signed, f, size);
    var c2 := StoreTo(Declare(c1, size, false, Cast(size, false, Tmp(product))), f.lo, Tmp(lo), size);
    BinReads(ShiftR, Tmp(product), Lit(size * 8), Scope(c2));
    var c3 := Declare(c2, size, false, Cast(size, false, Bin(ShiftR, Tmp(product), Lit(size * 8))));
    var c4 := if f.hi.Some? then StoreTo(c3, f.hi.value, Tmp(hi), size) else c3;
    ProductFlagsRead(signed, lo, hi, size, Scope(c4));
    SetFlag(c4, CO, ProductFlags(signed, lo, hi, size), false)
  }

  /** _emit_div. */
  function DivideCode(c: Code, signed: bool, divisor: Operand, size: nat): (r: Code)
    requires Sound(c)
    ensures Sound(r) && Extends(c, r)
  {
    hide Declare, FetchInto, StoreTo, Sound, Scope;
    var c1 := FetchInto(c, HighHalf(size), size, false);
    var c2 := FetchInto(c1, Whole(RAX), size, false);
    var high := Bin(ShiftL, Cast(size * 2, signed, Tmp(c.next)), Lit(size * 8));
    BinReads(ShiftL, Cast(size * 2, signed, Tmp(c.next)), Lit(size * 8), Scope(c2));
    BinReads(WideOr, Tmp(c1.next), high, Scope(c2));
    var c3 := Declare(c2, size * 2, signed, Bin(WideOr, Tmp(c1.next), high));
    var c4 := FetchInto(c3, divisor, size, signed);
    BinReads(Quot, Tmp(c2.next), Tmp(c3.next), Scope(c4));
    var c5 := Declare(c4, size, signed, Bin(Quot, Tmp(c2.next), Tmp(c3.next)));
    BinReads(Rem, Tmp(c2.next), Tmp(c3.next), Scope(c5));
    var c6 := Declare(c5, size, signed, Bin(Rem, Tmp(c2.next), Tmp(c3.next)));
    StoreTo(StoreTo(c6, Whole(RAX), Tmp(c4.next), size), HighHalf(size), Tmp(c5.next), size)
  }

  /** The operands and the result of _emit_logical. */
  function BitwiseCode(c: Code, op: BinOp, src: Operand, dest: Operand, size: nat): (r: Code)
    requires Sound(c)
    ensures Sound(r) && Extends(c, r) && r.next == c.next + 3 && c.next + 2 in Scope(r)
  {
    hide FetchInto, Declare, Sound, Scope;
    var c2 := FetchInto(FetchInto(c, src, size, false), dest, size, false);
    BinReads(op, Tmp(c.next + 1), Tmp(c.next), Scope(c2));
    Declare(c2, size, false, Bin(op, Tmp(c.next + 1), Tmp(c.next)))
  }

  /** _emit_logical. */
  function LogicalCode(c: Code, op: BinOp, src: Operand, dest: Operand, write: bool, size: nat): (r: Code)
    requires Sound(c) && !dest.Imm?
    ensures Sound(r) && Extends(c, r)
  {
    hide BitwiseCode, StoreTo, Declare, Sound, Scope, Zps, SetFlag;
    var res := c.next + 2;
    var c3 := BitwiseCode(c, op, src, dest, size);
    var c4 := if write then StoreTo(c3, dest, Tmp(res), size) else c3;
    SetFlag(Zps(Declare(c4, 2, false, Lit(0)), c4.next, res, size), COZPS, Tmp(c4.next), true)
  }

  /** _emit_not. */
  function NotCode(c: Code, dest: Operand, size: nat): (r: Code)
    requires Sound(c) && !dest.Imm?
    ensures Sound(r) && Extends(c, r)
  {
    hide FetchInto, StoreTo, Sound, Scope;
    StoreTo(FetchInto(c, dest, size, false), dest, Bin(Minus, Lit(-1), Tmp(c.next)), size)
  }

  // ----- shifts

  function Way(left: bool): BinOp {
    if left then ShiftL else ShiftR
  }

  /** The operands of _emit_shift: the amount comes first, the destination last. */
  predicate ShiftOperandsOk(kind: Shifting, ops: seq<Operand>) {
    |ops| >= 2 && (kind.Double? ==> |ops| == 3) && !ops[|ops| - 1].Imm?
  }

  /** The bits that a rotation or a double shift moves in. */
  function ShiftFill(c: Code, kind: Shifting, left: bool, ops: seq<Operand>, amt: nat, shift: nat, size: nat): (r: Code)
    requires Sound(c) && ShiftOperandsOk(kind, ops) && amt in Scope(c) && shift in Scope(c)
    ensures Sound(r) && Extends(c, r)
  {
    hide FetchInto, CarryFill, Write, Sound, Scope;
    if kind.Plain? then c
    else
      var bits := c.next;
      var c1 := FetchInto(c, if kind.Double? then ops[1] else ops[|ops| - 1], size, false);
      var c2 := if kind.RotateCarry? then CarryFill(c1, left, bits, size) else c1;
      BinReads(Minus, Lit(size * 8), Tmp(amt), Scope(c2));
      BinReads(Way(!left), Tmp(bits), Bin(Minus, Lit(size * 8), Tmp(amt)), Scope(c2));
      Write(c2, OrInto(shift, size, Bin(Way(!left), Tmp(bits), Bin(Minus, Lit(size * 8), Tmp(amt)))))
  }

  /** rc moves the carry into the bits first. */
  function CarryFill(c: Code, left: bool, bits: nat, size: nat): (r: Code)
    requires Sound(c) && bits in Scope(c)
    ensures Sound(r) && Extends(c, r)
  {
    var c1 := GetFlag(c, 1);
    var moved := Bin(Way(!left), Tmp(bits), Lit(1));
    var carry := Bin(ShiftL, Bin(ShiftR, Tmp(c.next), Lit(FLAG_CF)), Lit(if left then size * 8 - 1 else 0));
    BinReads(ShiftR, Tmp(c.next), Lit(FLAG_CF), Scope(c1));
    BinReads(ShiftL, Bin(ShiftR, Tmp(c.next), Lit(FLAG_CF)), Lit(if left then size * 8 - 1 else 0), Scope(c1));
    BinReads(BitOr, moved, carry, Scope(c1));
    Write(c1, Assign(bits, size, Bin(BitOr, moved, carry)))
  }

  function ShiftOverflow(shift: nat, src: nat, size: nat): Expr {
    Bin(ShiftL, Bin(BitAnd, Bin(ShiftR, Bin(BitXor, Tmp(shift), Tmp(src)), Lit(size * 8 - 1)), Lit(1)), Lit(FLAG_OF))
  }

  function ShiftCarry(left: bool, src: nat, amt: nat, size: nat): Expr {
    var back := if left then Bin(Minus, Lit(size * 8), Tmp(amt)) else Bin(Minus, Tmp(amt), Lit(1));
    Bin(ShiftL, Bin(BitAnd, Bin(ShiftR, Tmp(src), back), Lit(1)), Lit(FLAG_CF))
  }

  lemma ShiftBitsRead(left: bool, amt: nat, src: nat, shift: nat, size: nat, k: set<nat>)
    requires {amt, src, shift} <= k
    ensures ReadsOnly(ShiftOverflow(shift, src, size), k) && ReadsOnly(ShiftCarry(left, src, amt, size), k)
  {
    var x := Bin(BitXor, Tmp(shift), Tmp(src));
    BinReads(ShiftR, x, Lit(size * 8 - 1), k);
    BinReads(BitAnd, Bin(ShiftR, x, Lit(size * 8 - 1)), Lit(1), k);
    var back := if left then Bin(Minus, Lit(size * 8), Tmp(amt)) else Bin(Minus, Tmp(amt), Lit(1));
    BinReads(ShiftR, Tmp(src), back, k);
    BinReads(BitAnd, Bin(ShiftR, Tmp(src), back), Lit(1), k);
  }

  /** The flags of a shift that moves something; zero, parity and sign are taken at the size of the amount. */
  function ShiftFlags(c: Code, left: bool, amt: nat, src: nat, shift: nat, size1: nat, size2: nat): (r: Code)
    requires Sound(c) && {amt, src, shift} <= Scope(c)
    ensures Sound(r) && Extends(c, r)
  {
    hide Declare, Zps, OrFlag, SetFlag, ShiftOverflow, ShiftCarry, Sound, Scope;
    var efl := c.next;
    var c1 := Zps(Declare(c, 2, false, Lit(0)), efl, shift, size1);
    ShiftBitsRead(left, amt, src, shift, size2, Scope(c1));
    var c2 := OrFlag(c1, efl, ShiftOverflow(shift, src, size2));
    SetFlag(OrFlag(c2, efl, ShiftCarry(left, src, amt, size2)), COZPS, Tmp(efl), false)
  }

  /** The amount, the source and the shifted source. */
  function ShiftHead(c: Code, o: Operation): (r: Code)
    requires Sound(c) && o.Shift? && OperandsOk(o)
    ensures Sound(r) && Extends(c, r) && {c.next + 1, c.next + 2, c.next + 3} <= Scope(r)
  {
    hide Declare, FetchInto, StoreTo, Sound, Scope;
    var mask := Lit(if o.size2 == 8 then 63 else 31);
    var c1 := FetchInto(c, o.ops[0], o.size1, false);
    BinReads(BitAnd, Tmp(c.next), mask, Scope(c1));
    var c2 := Declare(c1, o.size1, false, Bin(BitAnd, Tmp(c.next), mask));
    var c3 := FetchInto(c2, if o.kind.Double? then o.ops[|o.ops| - 1] else o.ops[1], o.size2, o.signed);
    BinReads(Way(o.left_), Tmp(c2.next), Tmp(c1.next), Scope(c3));
    Declare(c3, o.size2, o.signed, Bin(Way(o.left_), Tmp(c2.next), Tmp(c1.next)))
  }

  /** _emit_shift. */
  function ShiftCode(c: Code, o: Operation): (r: Code)
    requires Sound(c) && o.Shift? && OperandsOk(o)
    ensures Sound(r) && Extends(c, r)
  {
    hide ShiftHead, ShiftFill, StoreTo, ShiftFlags, Block, Sound, Scope;
    var dest := o.ops[|o.ops| - 1];
    var amt, src, shift := c.next + 1, c.next + 2, c.next + 3;
    var c1 := ShiftFill(ShiftHead(c, o), o.kind, o.left_, o.ops, amt, shift, o.size2);
    var c2 := StoreTo(c1, dest, Tmp(shift), o.size2);
    if o.noFlag then c2
    else
      BinReads(Eq, Tmp(amt), Lit(0), Scope(c2));
      Block(c2, Bin(Eq, Tmp(amt), Lit(0)), ShiftFlags(Start(Scope(c2), c2.next), o.left_, amt, src, shift, o.size1, o.size2))
  }

  // ----- conditions

  /** The test of _emit_return_for_cond, true when nothing is to be done. */
  function SkipTest(cond: Cond, efl: nat): Expr {
    var basic := if cond.less then
        Bin(BitAnd, Bin(BitXor, Bin(ShiftR, Tmp(efl), Lit(FLAG_SF)), Bin(ShiftR, Tmp(efl), Lit(FLAG_OF))), Lit(1))
      else Bin(BitAnd, Tmp(efl), Bin(ShiftL, Lit(1), Lit(cond.bit)));
    var test := if cond.orZero then Choose(Bin(BitAnd, Tmp(efl), Lit(0x40)), Lit(1), basic) else basic;
    if cond.negated then test else Bin(Eq, test, Lit(0))
  }

  lemma SkipTestReads(cond: Cond, efl: nat, k: set<nat>)
    requires efl in k
    ensures ReadsOnly(SkipTest(cond, efl), k)
  {
    var t := Tmp(efl);
    BinReads(ShiftR, t, Lit(FLAG_SF), k);
    BinReads(ShiftR, t, Lit(FLAG_OF), k);
    BinReads(BitXor, Bin(ShiftR, t, Lit(FLAG_SF)), Bin(ShiftR, t, Lit(FLAG_OF)), k);
    var x := Bin(BitAnd, Bin(BitXor, Bin(ShiftR, t, Lit(FLAG_SF)), Bin(ShiftR, t, Lit(FLAG_OF))), Lit(1));
    assert ReadsOnly(x, k);
    BinReads(ShiftL, Lit(1), Lit(cond.bit), k);
    var y := Bin(BitAnd, t, Bin(ShiftL, Lit(1), Lit(cond.bit)));
    assert ReadsOnly(y, k);
    BinReads(BitAnd, t, Lit(0x40), k);
    var basic := if cond.less then x else y;
    assert ReadsOnly(Choose(Bin(BitAnd, t, Lit(0x40)), Lit(1), basic), k);
    var test := if cond.orZero then Choose(Bin(BitAnd, t, Lit(0x40)), Lit(1), basic) else basic;
    BinReads(Eq, test, Lit(0), k);
  }

  /** _emit_jump's move under a condition, or without one. */
  function GuardedMov(c: Code, cond: Option<Cond>, src: Operand, dest: Operand, size: nat): (r: Code)
    requires Sound(c) && !dest.Imm?
    ensures Sound(r) && Extends(c, r)
  {
    hide MovCode, GetFlag, Block, SkipTest, Sound, Scope;
    if cond.None? then MovCode(c, src, dest, size, size, false)
    else
      var c1 := GetFlag(c, 0xFFFF);
      SkipTestReads(cond.value, c.next, Scope(c1));
      Block(c1, SkipTest(cond.value, c.next), MovCode(Start(Scope(c1), c1.next), src, dest, size, size, false))
  }

  /** _emit_cmov. */
  function CmovCode(c: Code, cond: Option<Cond>, src: Operand, dest: Operand, size: nat): (r: Code)
    requires Sound(c) && !dest.Imm?
    ensures Sound(r) && Extends(c, r)
  {
    hide MovCode, GuardedMov, Sound, Scope;
    GuardedMov(MovCode(c, dest, dest, size, size, false), cond, src, dest, size)
  }

  /** _emit_set. */
  function SetCode(c: Code, cond: Option<Cond>, dest: Operand): (r: Code)
    requires Sound(c) && !dest.Imm?
    ensures Sound(r) && Extends(c, r)
  {
    hide StoreTo, GetFlag, Block, SkipTest, Sound, Scope;
    var c1 := StoreTo(c, dest, Lit(0), 1);
    if cond.None? then StoreTo(c1, dest, Lit(1), 1)
    else
      var c2 := GetFlag(c1, 0xFFFF);
      SkipTestReads(cond.value, c1.next, Scope(c2));
      Block(c2, SkipTest(cond.value, c1.next), StoreTo(Start(Scope(c2), c2.next), dest, Lit(1), 1))
  }

  // ----- bits

  /** The bit operation of btc, btr or bts. */
  function TestOp(test: Testing): BinOp {
    if test.Complement? then BitXor else if test.Reset? then AndNot else BitOr
  }

  /** _emit_bittest. */
  function BitTestCode(c: Code, test: Testing, src: Operand, dest: Operand, size: nat): (r: Code)
    requires Sound(c) && dest.RegOp?
    ensures Sound(r) && Extends(c, r)
  {
    hide Declare, FetchInto, StoreTo, Sound, Scope, SetFlag;
    var offset, orig, bit := c.next + 1, c.next + 2, c.next + 3;
    var c1 := FetchInto(c, src, size, false);
    BinReads(BitAnd, Tmp(c.next), Lit(size * 8 - 1), Scope(c1));
    var c2 := Declare(c1, size, false, Bin(BitAnd, Tmp(c.next), Lit(size * 8 - 1)));
    var c3 := FetchInto(c2, dest, size, false);
    var one := Bin(ShiftL, Lit(1), Tmp(offset));
    BinReads(ShiftL, Lit(1), Tmp(offset), Scope(c3));
    BinReads(BitAnd, Tmp(orig), one, Scope(c3));
    var c4 := Declare(c3, size, false, Bin(BitAnd, Tmp(orig), one));
    BinReads(ShiftR, Tmp(bit), Tmp(offset), Scope(c4));
    var c5 := SetFlag(c4, 1, Bin(ShiftL, Bin(ShiftR, Tmp(bit), Tmp(offset)), Lit(FLAG_CF)), false);
    if test.Test? then c5
    else
      BinReads(ShiftL, Lit(1), Tmp(offset), Scope(c5));
      BinReads(TestOp(test), Tmp(orig), one, Scope(c5));
      StoreTo(Declare(c5, size, false, Bin(TestOp(test), Tmp(orig), one)), dest, Tmp(c5.next), size)
  }

  /** The expression of _emit_bswap after the first k pairs of bytes. */
  function SwapPairs(v: nat, size: nat, k: nat): Expr
    requires 1 <= k
  {
    var amount := Lit((size - 2 * (k - 1) - 1) * 8);
    var mask := Lit(if k == 1 then 0xFF else if k == 2 then 0xFF00 else if k == 3 then 0xFF_0000 else 0xFF00_0000);
    var down := Bin(BitAnd, Bin(ShiftR, Tmp(v), amount), mask);
    var up := Bin(ShiftL, Bin(BitAnd, Tmp(v), mask), amount);
    if k == 1 then Bin(BitOr, down, up) else Bin(BitOr, Bin(BitOr, SwapPairs(v, size, k - 1), down), up)
  }

  lemma {:induction false} SwapPairsRead(v: nat, size: nat, k: nat, known: set<nat>)
    requires 1 <= k && v in known
    ensures ReadsOnly(SwapPairs(v, size, k), known)
  {
    var amount := Lit((size - 2 * (k - 1) - 1) * 8);
    var mask := Lit(if k == 1 then 0xFF else if k == 2 then 0xFF00 else if k == 3 then 0xFF_0000 else 0xFF00_0000);
    BinReads(ShiftR, Tmp(v), amount, known);
    BinReads(BitAnd, Bin(ShiftR, Tmp(v), amount), mask, known);
    BinReads(BitAnd, Tmp(v), mask, known);
    var down, up := Bin(BitAnd, Bin(ShiftR, Tmp(v), amount), mask), Bin(ShiftL, Bin(BitAnd, Tmp(v), mask), amount);
    BinReads(ShiftL, Bin(BitAnd, Tmp(v), mask), amount, known);
    if k != 1 {
      SwapPairsRead(v, size, k - 1, known);
      BinReads(BitOr, SwapPairs(v, size, k - 1), down, known);
    }
  }

  /** _emit_bswap. */
  function BswapCode(c: Code, r: Reg, size: nat): (r': Code)
    requires Sound(c) && (size == 4 || size == 8)
    ensures Sound(r') && Extends(c, r')
  {
    hide Declare, FetchInto, StoreTo, Sound, Scope, SwapPairs;
    var c1 := FetchInto(c, Whole(r), size, false);
    SwapPairsRead(c.next, size, size / 2, Scope(c1));
    StoreTo(Declare(c1, size, false, SwapPairs(c.next, size, size / 2)), Whole(r), Tmp(c1.next), size)
  }

  /** _emit_ctd. */
  function SignFillCode(c: Code, src: Operand, dest: Operand, size: nat): (r: Code)
    requires Sound(c) && !dest.Imm?
    ensures Sound(r) && Extends(c, r)
  {
    hide Declare, FetchInto, StoreTo, Sound, Scope;
    var c1 := FetchInto(c, src, size, true);
    BinReads(ShiftR, Tmp(c.next), Lit(size * 8 - 1), Scope(c1));
    StoreTo(Declare(c1, size, true, Bin(ShiftR, Tmp(c.next), Lit(size * 8 - 1))), dest, Tmp(c1.next), size)
  }

  /** _emit_cmc: emit_get_flag declares again the temporary that _emit_flag_decl has declared. */
  function CmcCode(c: Code): (r: Code)
    requires Sound(c)
    ensures Scoped(r) && Extends(c, r) && Declared(r.ss) == Declared(c.ss) + [c.next, c.next] && r.next == c.next + 1
  {
    var get := Decl(c.next, 2, false, Bin(BitAnd, Cast(2, false, RegVal(EFL)), Lit(1)));
    var flip := FlagStmt(1, Bin(BitXor, Tmp(c.next), Lit(1)), false);
    var c1 := Declare(c, 2, false, Lit(0));
    CmcScoped(c, c1);
    Add1(Add1(c1, get, c1.next), flip, c1.next)
  }

  lemma CmcScoped(c: Code, c1: Code)
    requires Sound(c) && c1 == Declare(c, 2, false, Lit(0))
    ensures var get := Decl(c.next, 2, false, Bin(BitAnd, Cast(2, false, RegVal(EFL)), Lit(1)));
            var flip := FlagStmt(1, Bin(BitXor, Tmp(c.next), Lit(1)), false);
            var r := Add1(Add1(c1, get, c1.next), flip, c1.next);
            Scoped(r) && Extends(c, r) && Declared(r.ss) == Declared(c.ss) + [c.next, c.next]
  {
    hide Scoped, Numbered, Extends;
    var k := Scope(c1);
    var get := Decl(c.next, 2, false, Bin(BitAnd, Cast(2, false, RegVal(EFL)), Lit(1)));
    BinReads(BitAnd, Cast(2, false, RegVal(EFL)), Lit(1), k);
    Add1Scoped(c, Decl(c.next, 2, false, Lit(0)), c1.next);
    Add1Scoped(c1, get, c1.next);
    var c2 := Add1(c1, get, c1.next);
    BinReads(AndNot, RegVal(EFL), Lit(1), Scope(c2));
    BinReads(BitXor, Tmp(c.next), Lit(1), Scope(c2));
    BinReads(BitOr, Bin(AndNot, RegVal(EFL), Lit(1)), Bin(BitXor, Tmp(c.next), Lit(1)), Scope(c2));
    var flip := FlagStmt(1, Bin(BitXor, Tmp(c.next), Lit(1)), false);
    Add1Scoped(c2, flip, c1.next);
    var r := Add1(c2, flip, c1.next);
    ExtendsTrans(c, c1, c2);
    ExtendsTrans(c, c2, r);
    assert Declared(c.ss) + [c.next] + [c.next] + [] == Declared(c.ss) + [c.next, c.next];
  }

  // ----- whole instructions

  /** What the handlers assert of their operands. */
  predicate OperandsOk(o: Operation) {
    match o
    case Mov(_, dest, _, _, _) => !dest.Imm?
    case Lea(src, dest, _) => src.MemOp? && !dest.Imm?
    case Pop(dest, _) => !dest.Imm?
    case Xchg(src, dest, _) => !src.Imm? && !dest.Imm?
    case Xadd(src, dest, _) => !src.Imm? && !dest.Imm?
    case Add(_, _, left, right, target, _, _, _) => (target.Left? ==> !left.Imm?) && (target.Right? ==> !right.Imm?)
    case Multiply(signed, ops, size) => (|ops| == 1 || (signed && 2 <= |ops| <= 3)) && !FactorsOf(signed, ops, size).lo.Imm?
    case Logical(_, _, dest, _, _) => !dest.Imm?
    case Not(dest, _) => !dest.Imm?
    case Shift(kind, _, _, _, ops, _, _) => ShiftOperandsOk(kind, ops)
    case Cmov(_, _, dest, _) => !dest.Imm?
    case SetOn(_, dest) => !dest.Imm?
    case BitTest(_, _, dest, _) => dest.RegOp?
    case Bswap(_, size) => size == 4 || size == 8
    case SignFill(_, dest, _) => !dest.Imm?
    case _ => true
  }

  /** _emit_xadd: an exchange, then an addition. */
  function AddOf(src: Operand, dest: Operand, size: nat): Operation {
    Add(false, false, dest, src, Left, true, false, size)
  }

  /** The dispatch of emit_function. */
  function OpCode(c: Code, o: Operation): (r: Code)
    requires Sound(c) && OperandsOk(o)
    ensures Scoped(r) && Extends(c, r) && (!o.Cmc? ==> Numbered(r))
    ensures o.Cmc? ==> Declared(r.ss) == Declared(c.ss) + [c.next, c.next] && r.next == c.next + 1
  {
    hide MovCode, LeaCode, PushCode, PopCode, XchgCode, AddCode, MultiplyCode, DivideCode, LogicalCode, NotCode, ShiftCode,
         GuardedMov, CmovCode, SetCode, BitTestCode, BswapCode, SignFillCode, CallCode, EnterCode, LeaveCode, SetFlag, CmcCode, Scope;
    match o
    case Nop => c
    case Mov(src, dest, size1, size2, signed) => MovCode(c, src, dest, size1, size2, signed)
    case Lea(src, dest, size) => LeaCode(c, src, dest, size)
    case Push(src, size) => PushCode(c, src, size)
    case Pop(dest, size) => PopCode(c, dest, size)
    case Xchg(src, dest, size) => XchgCode(c, src, dest, size)
    case Xadd(src, dest, size) => AddCode(XchgCode(c, src, dest, size), AddOf(src, dest, size))
    case Add(_, _, _, _, _, _, _, _) => AddCode(c, o)
    case Multiply(signed, ops, size) => MultiplyCode(c, signed, ops, size)
    case Divide(signed, divisor, size) => DivideCode(c, signed, divisor, size)
    case Logical(op, src, dest, write, size) => LogicalCode(c, op, src, dest, write, size)
    case Not(dest, size) => NotCode(c, dest, size)
    case Shift(_, _, _, _, _, _, _) => ShiftCode(c, o)
    case Jump(cond, src, size) => GuardedMov(c, cond, src, Whole(RIP), size)
    case Cmov(cond, src, dest, size) => CmovCode(c, cond, src, dest, size)
    case SetOn(cond, dest) => SetCode(c, cond, dest)
    case BitTest(test, src, dest, size) => BitTestCode(c, test, src, dest, size)
    case Bswap(r, size) => BswapCode(c, r, size)
    case SignFill(src, dest, size) => SignFillCode(c, src, dest, size)
    case CallTo(src) => CallCode(c, src)
    case Ret => PopCode(c, Whole(RIP), 8)
    case Enter(alloc) => EnterCode(c, alloc)
    case Leave => LeaveCode(c)
    case FlagTo(bit, clear) => SetFlag(c, FlagMask(bit), if clear then Lit(0) else Lit(FlagMask(bit)), false)
    case Cmc => CmcCode(c)
  }

  /** The mask of CF (bit 0) or DF (bit 10). */
  function FlagMask(bit: nat): int {
    if bit == 0 then 1 else 0x400
  }

  /** rip moves past the instruction. */
  function Begun(n: nat, i: Instr): (c: Code)
    ensures Sound(c) && c.outer == {} && c.first == n && c.next == n && Declared(c.ss) == []
  {
    BinReads(Plus, RegVal(RIP), Lit(i.length), {});
    Write(Start({}, n), SetReg(RIP, Bin(Plus, RegVal(RIP), Lit(i.length))))
  }

  /** The text of one instruction from its first temporary on: rip moves past it, then it acts. */
  function InstrCode(n: nat, i: Instr): (r: Code)
    requires OperandsOk(i.operation)
    ensures r.outer == {} && r.first == n && Scoped(r) && (!i.operation.Cmc? ==> Numbered(r))
    ensures i.operation.Cmc? ==> Declared(r.ss) == [n, n] && r.next == n + 1
  {
    hide OpCode, Begun;
    assert [] + [n, n] == [n, n];
    OpCode(Begun(n, i), i.operation)
  }
}
