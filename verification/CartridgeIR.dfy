/**
 The C++ fragments that parseltongue86 emits: statements over local copies of the registers, numbered temporaries and
 memory.  A function loads every register, runs its statements and writes back the registers it lists.
 */
module CartridgeIR {
  import opened Arith
  import opened Bits

  // ----- syntax

  const REG_COUNT: nat := 18
  const RAX: nat := 0
  const RDX: nat := 3
  const RSP: nat := 6
  const RBP: nat := 7
  const RIP: nat := 16
  const EFL: nat := 17

  /** An index into REG_64. */
  type Reg = r: nat | r < 18

  datatype BinOp =
    | Plus | Minus | Times | Quot | Rem
    | BitAnd | BitOr | BitXor | AndNot | WideOr | ShiftL | ShiftR
    | Eq | Lt | Le | Gt | Ge

  datatype Expr =
    | Lit(n: int)
    | RegVal(r: Reg)
    | Tmp(id: nat)
    | Deref(addr: Expr, bytes: nat)
    | Cast(width: nat, signed: bool, e: Expr)
    | Bin(op: BinOp, l: Expr, r2: Expr)
    | Choose(c: Expr, yes: Expr, no: Expr)

  datatype Stmt =
    | Decl(id: nat, width: nat, signed: bool, e: Expr)    // [u]intN_t v = e;
    | Assign(id: nat, width: nat, e: Expr)                // v = e;
    | OrInto(id: nat, width: nat, e: Expr)                // v |= e;
    | SetReg(r: Reg, e: Expr)                             // r_tmp = e;
    | Poke(addr: Expr, bytes: nat, e: Expr)               // *(uintN_t*) addr = e;
    | Unless(c: Expr, body: seq<Stmt>)                    // if (c) {} else { body }

  // ----- semantics

  const WORD: int := 0x1_0000_0000_0000_0000
  const WIDE: int := 0x1_0000_0000_0000_0000_0000_0000_0000_0000

  /** Registers are 64-bit words; memory bytes and temporaries that were never written read as zero. */
  datatype Machine = Machine(regs: seq<int>, mem: map<int, int>, tmps: map<nat, int>)

  function Peek(mem: map<int, int>, a: int): int {
    if a in mem then mem[a] % 256 else 0
  }

  /** A little-endian load. */
  function LoadBytes(mem: map<int, int>, a: int, n: nat): int
    decreases n
  {
    if n == 0 then 0 else Peek(mem, a % WORD) + 256 * LoadBytes(mem, a + 1, n - 1)
  }

  function StoreBytes(mem: map<int, int>, a: int, n: nat, v: int): map<int, int>
    decreases n
  {
    if n == 0 then mem else StoreBytes(mem[a % WORD := v % 256], a + 1, n - 1, v / 256)
  }

  function TmpOf(tmps: map<nat, int>, id: nat): int {
    if id in tmps then tmps[id] else 0
  }

  /** Conversion to an integer type of the given number of bytes. */
  function Convert(v: int, width: nat, signed: bool): int {
    PowPos(256, width);
    var m := Pow(256, width);
    var u := v % m;
    if signed && 2 * u >= m then u - m else u
  }

  function Flag(b: bool): int {
    if b then 1 else 0
  }

  /** C's division, which truncates; dividing by zero is undefined there and gives 0 here. */
  function Quotient(x: int, y: int): int {
    if y == 0 then 0
    else if x < 0 then if y < 0 then -x / -y else -(-x / y)
    else if y < 0 then -(x / -y) else x / y
  }

  /** The value of an operator; bitwise operators work on 64-bit words, WideOr on 128-bit ones. */
  function Apply(op: BinOp, x: int, y: int): int {
    match op
    case Plus => x + y
    case Minus => x - y
    case Times => x * y
    case Quot => Quotient(x, y)
    case Rem => x - y * Quotient(x, y)
    case BitAnd => And(x % WORD, y % WORD)
    case BitOr => Or(x % WORD, y % WORD)
    case BitXor => Xor(x % WORD, y % WORD)
    case AndNot => x % WORD - And(x % WORD, y % WORD)
    case WideOr => Or(x % WIDE, y % WIDE)
    case ShiftL => if 0 <= y then x * Pow(2, y) else 0
    case ShiftR => if 0 <= y then PowPos(2, y); x / Pow(2, y) else 0
    case Eq => Flag(x == y)
    case Lt => Flag(x < y)
    case Le => Flag(x <= y)
    case Gt => Flag(x > y)
    case Ge => Flag(x >= y)
  }

  function Eval(e: Expr, m: Machine): int {
    match e
    case Lit(n) => n
    case RegVal(r) => if r < |m.regs| then m.regs[r] else 0
    case Tmp(id) => TmpOf(m.tmps, id)
    case Deref(a, n) => LoadBytes(m.mem, Eval(a, m), n)
    case Cast(w, s, x) => Convert(Eval(x, m), w, s)
    case Bin(op, x, y) => Apply(op, Eval(x, m), Eval(y, m))
    case Choose(c, x, y) => if Eval(c, m) != 0 then Eval(x, m) else Eval(y, m)
  }

  function Exec(ss: seq<Stmt>, m: Machine): Machine
    decreases ss
  {
    if ss == [] then m else Exec(ss[1..], Exec1(ss[0], m))
  }

  function Exec1(s: Stmt, m: Machine): Machine
    decreases s
  {
    match s
    case Decl(id, w, signed, e) => m.(tmps := m.tmps[id := Convert(Eval(e, m), w, signed)])
    case Assign(id, w, e) => m.(tmps := m.tmps[id := Convert(Eval(e, m), w, false)])
    case OrInto(id, w, e) =>
      m.(tmps := m.tmps[id := Convert(Apply(BitOr, TmpOf(m.tmps, id), Eval(e, m)), w, false)])
    case SetReg(r, e) => if r < |m.regs| then m.(regs := m.regs[r := Eval(e, m) % WORD]) else m
    case Poke(a, n, e) => m.(mem := StoreBytes(m.mem, Eval(a, m), n, Eval(e, m)))
    case Unless(c, body) => if Eval(c, m) != 0 then m else Exec(body, m)
  }

  // ----- functions

  /** The text of one function between its prolog and its epilog, and the registers that the epilog writes back. */
  datatype Fn = Fn(body: seq<Stmt>, writes: seq<Reg>)

  /** What survives a call: the register file and memory. */
  datatype World = World(gregs: seq<int>, mem: map<int, int>)

  function WriteBack(gregs: seq<int>, locals: seq<int>, writes: seq<Reg>): seq<int>
    decreases |writes|
  {
    if writes == [] then gregs
    else
      var r := writes[0];
      WriteBack(if r < |gregs| && r < |locals| then gregs[r := locals[r]] else gregs, locals, writes[1..])
  }

  /** Calling a function: load all registers, run the body, write back. */
  function Call(f: Fn, w: World): World {
    var m := Exec(f.body, Machine(w.gregs, w.mem, map[]));
    World(WriteBack(w.gregs, m.regs, f.writes), m.mem)
  }

  function CallAll(fs: seq<Fn>, w: World): World
    decreases |fs|
  {
    if fs == [] then w else CallAll(fs[1..], Call(fs[0], w))
  }

  // ----- what a body writes and reads

  function Writes(ss: seq<Stmt>): set<Reg>
    decreases ss
  {
    if ss == [] then {} else Writes1(ss[0]) + Writes(ss[1..])
  }

  function Writes1(s: Stmt): set<Reg>
    decreases s
  {
    match s
    case SetReg(r, _) => {r}
    case Unless(_, body) => Writes(body)
    case _ => {}
  }

  predicate ReadsOnly(e: Expr, known: set<nat>) {
    match e
    case Lit(_) => true
    case RegVal(_) => true
    case Tmp(id) => id in known
    case Deref(a, _) => ReadsOnly(a, known)
    case Cast(_, _, x) => ReadsOnly(x, known)
    case Bin(_, x, y) => ReadsOnly(x, known) && ReadsOnly(y, known)
    case Choose(c, x, y) => ReadsOnly(c, known) && ReadsOnly(x, known) && ReadsOnly(y, known)
  }

  /** The temporaries known after a statement; those declared in a nested block end with it. */
  function Known(s: Stmt, known: set<nat>): set<nat> {
    if s.Decl? then known + {s.id} else known
  }

  /** Every temporary is declared before it is used. */
  predicate Closed(ss: seq<Stmt>, known: set<nat>)
    decreases ss
  {
    ss == [] || (Closed1(ss[0], known) && Closed(ss[1..], Known(ss[0], known)))
  }

  predicate Closed1(s: Stmt, known: set<nat>)
    decreases s
  {
    match s
    case Decl(_, _, _, e) => ReadsOnly(e, known)
    case Assign(id, _, e) => id in known && ReadsOnly(e, known)
    case OrInto(id, _, e) => id in known && ReadsOnly(e, known)
    case SetReg(_, e) => ReadsOnly(e, known)
    case Poke(a, _, e) => ReadsOnly(a, known) && ReadsOnly(e, known)
    case Unless(c, body) => ReadsOnly(c, known) && Closed(body, known)
  }

  // ----- frame lemmas

  lemma {:induction false} ExecAppend(a: seq<Stmt>, b: seq<Stmt>, m: Machine)
    ensures Exec(a + b, m) == Exec(b, Exec(a, m))
    decreases |a|
  {
    hide Exec1;
    if a == [] {
      assert a + b == b;
    } else {
      assert (a + b)[1..] == a[1..] + b;
      ExecAppend(a[1..], b, Exec1(a[0], m));
    }
  }

  /** A body changes only the registers that it assigns. */
  lemma {:induction false} ExecFrame(ss: seq<Stmt>, m: Machine, r: Reg)
    requires r !in Writes(ss)
    ensures |Exec(ss, m).regs| == |m.regs| && (r < |m.regs| ==> Exec(ss, m).regs[r] == m.regs[r])
    decreases ss
  {
    hide Eval;
    if ss != [] {
      ExecFrame1(ss[0], m, r);
      ExecFrame(ss[1..], Exec1(ss[0], m), r);
    }
  }

  lemma {:induction false} ExecFrame1(s: Stmt, m: Machine, r: Reg)
    requires r !in Writes1(s)
    ensures |Exec1(s, m).regs| == |m.regs| && (r < |m.regs| ==> Exec1(s, m).regs[r] == m.regs[r])
    decreases s
  {
    hide Eval, Convert, StoreBytes, Apply;
    if s.Unless? { ExecFrame(s.body, m, r); }
  }

  lemma {:induction false} ExecRegCount(ss: seq<Stmt>, m: Machine)
    ensures |Exec(ss, m).regs| == |m.regs|
    decreases ss
  {
    hide Eval;
    if ss != [] {
      ExecRegCount1(ss[0], m);
      ExecRegCount(ss[1..], Exec1(ss[0], m));
    }
  }

  lemma {:induction false} ExecRegCount1(s: Stmt, m: Machine)
    ensures |Exec1(s, m).regs| == |m.regs|
    decreases s
  {
    hide Eval, Convert, StoreBytes, Apply;
    if s.Unless? { ExecRegCount(s.body, m); }
  }

  /** Two machines that a body with the given known temporaries cannot tell apart. */
  ghost predicate Agree(m: Machine, m': Machine, known: set<nat>) {
    m.regs == m'.regs && m.mem == m'.mem && forall id :: id in known ==> TmpOf(m.tmps, id) == TmpOf(m'.tmps, id)
  }

  lemma {:induction false} EvalAgrees(e: Expr, m: Machine, m': Machine, known: set<nat>)
    requires ReadsOnly(e, known) && Agree(m, m', known)
    ensures Eval(e, m) == Eval(e, m')
    decreases e
  {
    match e
    case Lit(_) =>
    case RegVal(_) =>
    case Tmp(_) =>
    case Deref(a, _) => EvalAgrees(a, m, m', known);
    case Cast(_, _, x) => EvalAgrees(x, m, m', known);
    case Bin(_, x, y) => EvalAgrees(x, m, m', known); EvalAgrees(y, m, m', known);
    case Choose(c, x, y) => EvalAgrees(c, m, m', known); EvalAgrees(x, m, m', known); EvalAgrees(y, m, m', known);
  }

  /** A closed body does the same to registers and memory whatever other temporaries there are. */
  lemma {:induction false} ExecAgrees(ss: seq<Stmt>, m: Machine, m': Machine, known: set<nat>)
    requires Closed(ss, known) && Agree(m, m', known)
    ensures Agree(Exec(ss, m), Exec(ss, m'), known)
    decreases ss
  {
    hide Eval, ReadsOnly;
    if ss != [] {
      Exec1Agrees(ss[0], m, m', known);
      ExecAgrees(ss[1..], Exec1(ss[0], m), Exec1(ss[0], m'), Known(ss[0], known));
    }
  }

  lemma {:induction false} Exec1Agrees(s: Stmt, m: Machine, m': Machine, known: set<nat>)
    requires Closed1(s, known) && Agree(m, m', known)
    ensures Agree(Exec1(s, m), Exec1(s, m'), Known(s, known))
    decreases s
  {
    hide Eval, Convert, StoreBytes, Apply, ReadsOnly;
    match s
    case Decl(_, _, _, e) => EvalAgrees(e, m, m', known);
    case Assign(_, _, e) => EvalAgrees(e, m, m', known);
    case OrInto(_, _, e) => EvalAgrees(e, m, m', known);
    case SetReg(_, e) => EvalAgrees(e, m, m', known);
    case Poke(a, _, e) => EvalAgrees(a, m, m', known); EvalAgrees(e, m, m', known);
    case Unless(c, body) => EvalAgrees(c, m, m', known); ExecAgrees(body, m, m', known);
  }

  // ----- batching

  lemma {:induction false} WriteBackAt(gregs: seq<int>, locals: seq<int>, writes: seq<Reg>, r: Reg)
    requires |gregs| == |locals| == REG_COUNT
    ensures |WriteBack(gregs, locals, writes)| == REG_COUNT
    ensures WriteBack(gregs, locals, writes)[r] == if r in writes then locals[r] else gregs[r]
    decreases |writes|
  {
    if writes != [] {
      WriteBackAt(gregs[writes[0] := locals[writes[0]]], locals, writes[1..], r);
    }
  }

  /** A function that writes back all that its body assigns leaves the register file as its locals are. */
  lemma CallIsExec(f: Fn, w: World)
    requires |w.gregs| == REG_COUNT && forall r :: r in Writes(f.body) ==> r in f.writes
    ensures var m := Exec(f.body, Machine(w.gregs, w.mem, map[]));
            Call(f, w) == World(m.regs, m.mem) && |m.regs| == REG_COUNT
  {
    hide Exec, Writes;
    var m := Exec(f.body, Machine(w.gregs, w.mem, map[]));
    ExecRegCount(f.body, Machine(w.gregs, w.mem, map[]));
    WriteBackAt(w.gregs, m.regs, f.writes, 0);
    var gregs := WriteBack(w.gregs, m.regs, f.writes);
    forall r: Reg ensures gregs[r] == m.regs[r] {
      WriteBackAt(w.gregs, m.regs, f.writes, r);
      if r !in Writes(f.body) { ExecFrame(f.body, Machine(w.gregs, w.mem, map[]), r); }
    }
    assert gregs == m.regs;
  }

  ghost predicate Tracked(f: Fn) {
    Closed(f.body, {}) && forall r :: r in Writes(f.body) ==> r in f.writes
  }

  function Bodies(fs: seq<Fn>): seq<Stmt>
    decreases |fs|
  {
    if fs == [] then [] else fs[0].body + Bodies(fs[1..])
  }

  lemma {:induction false} WritesAppend(a: seq<Stmt>, b: seq<Stmt>)
    ensures Writes(a + b) == Writes(a) + Writes(b)
    decreases |a|
  {
    hide Writes1;
    if a == [] {
      assert a + b == b;
    } else {
      assert (a + b)[1..] == a[1..] + b;
      WritesAppend(a[1..], b);
    }
  }

  lemma {:induction false} BodiesRun(fs: seq<Fn>, w: World, m: Machine)
    requires |w.gregs| == REG_COUNT && m.regs == w.gregs && m.mem == w.mem
    requires forall i :: 0 <= i < |fs| ==> Tracked(fs[i])
    ensures var z := Exec(Bodies(fs), m); CallAll(fs, w) == World(z.regs, z.mem) && |z.regs| == REG_COUNT
    decreases |fs|
  {
    hide Exec, Call;
    if fs == [] {
      EmptyBody(m);
    } else {
      var f := fs[0];
      ExecAppend(f.body, Bodies(fs[1..]), m);
      CallIsExec(f, w);
      ExecAgrees(f.body, m, Machine(w.gregs, w.mem, map[]), {});
      BodiesRun(fs[1..], Call(f, w), Exec(f.body, m));
    }
  }

  lemma EmptyBody(m: Machine)
    ensures Exec([], m) == m
  {}

  /** One function for a whole batch does what the functions of its parts do one after the other. */
  lemma BatchIsSequence(fs: seq<Fn>, batch: Fn, w: World)
    requires |w.gregs| == REG_COUNT && (forall i :: 0 <= i < |fs| ==> Tracked(fs[i]))
    requires batch.body == Bodies(fs) && forall r :: r in Writes(batch.body) ==> r in batch.writes
    ensures Call(batch, w) == CallAll(fs, w)
  {
    hide Exec, Writes, CallAll, Call;
    BodiesRun(fs, w, Machine(w.gregs, w.mem, map[]));
    CallIsExec(batch, w);
  }
}
