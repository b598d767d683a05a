/** The addresses of memory operands in closed form, and how they move with the registers that they name. */
module Addresses {
  import opened AluFlags
  import opened Arith
  import opened CartridgeEmitter
  import opened CartridgeIR
  import opened Operands

  // ----- addresses

  /** Addresses are computed in 64 or 32 bits. */
  function Span(op: Operand): int
    requires op.MemOp?
  {
    if op.wide then WORD else 0x1_0000_0000
  }

  function BasePart(op: Operand, regs: seq<int>): int
    requires op.MemOp? && |regs| == REG_COUNT
  {
    if op.base.Some? then regs[op.base.value] else 0
  }

  function IndexPart(op: Operand, regs: seq<int>): int
    requires op.MemOp? && |regs| == REG_COUNT
  {
    if op.index.Some? then regs[op.index.value.r] * op.index.value.scale else 0
  }

  lemma TotalSnoc(terms: seq<Expr>, t: Expr, m: Machine)
    ensures Eval(Total(terms + [t]), m) == Eval(Total(terms), m) + Eval(t, m)
  {
    assert (terms + [t])[..|terms|] == terms;
  }

  lemma TotalEval(o: seq<Expr>, b: seq<Expr>, i: seq<Expr>, m: Machine)
    requires |o| <= 1 && |b| <= 1 && |i| <= 1
    ensures var x := if o == [] then 0 else Eval(o[0], m);
            var y := if b == [] then 0 else Eval(b[0], m);
            var w := if i == [] then 0 else Eval(i[0], m);
            Eval(Total(o + b + i), m) == x + y + w
  {
    hide Eval, Total;
    NoTerms(m);
    Appended([], o, m);
    Appended(o, b, m);
    Appended(o + b, i, m);
    assert [] + o == o;
  }

  lemma Appended(terms: seq<Expr>, t: seq<Expr>, m: Machine)
    requires |t| <= 1
    ensures Eval(Total(terms + t), m) == Eval(Total(terms), m) + if t == [] then 0 else Eval(t[0], m)
  {
    hide Eval, Total;
    if t == [] {
      assert terms + t == terms;
    } else {
      assert t == [t[0]];
      TotalSnoc(terms, t[0], m);
    }
  }

  lemma NoTerms(m: Machine)
    ensures Eval(Total([]), m) == 0
  {}

  /** Operand.addr adds offset, base and scaled index in the width of the address. */
  lemma AddrValue(op: Operand, m: Machine)
    requires op.MemOp? && |m.regs| == REG_COUNT
    ensures Eval(Addr(op), m) == (op.offset + BasePart(op, m.regs) + IndexPart(op, m.regs)) % Span(op)
  {
    hide Total, Pow;
    MaskPowers();
    var width, S := if op.wide then 8 else 4, Span(op);
    var o := if op.offset == 0 then [] else [Cast(width, false, Lit(op.offset))];
    var b := if op.base.None? then [] else [Cast(width, false, RegVal(op.base.value))];
    var i := if op.index.None? then []
             else [Bin(Times, Cast(width, false, RegVal(op.index.value.r)), Lit(op.index.value.scale))];
    TotalEval(o, b, i, m);
    var x, y, w := if o == [] then 0 else Eval(o[0], m), if b == [] then 0 else Eval(b[0], m), if i == [] then 0 else Eval(i[0], m);
    assert x == op.offset % S by { if op.offset == 0 { ModSmall(0, S); } }
    assert y == BasePart(op, m.regs) % S by { if op.base.None? { ModSmall(0, S); } }
    assert w % S == IndexPart(op, m.regs) % S by {
      if op.index.Some? {
        assert Eval(Cast(width, false, RegVal(op.index.value.r)), m) == m.regs[op.index.value.r] % S;
        ModMul(m.regs[op.index.value.r], op.index.value.scale, S);
      }
    }
    ThreeSum(op.offset, BasePart(op, m.regs), IndexPart(op, m.regs), w, S);
    assert Eval(Addr(op), m) == (x + y + w) % S;
  }

  lemma ThreeSum(x: int, y: int, z: int, w: int, S: int)
    requires 0 < S && w % S == z % S
    ensures (x % S + y % S + w) % S == (x + y + z) % S
  {
    ModAdd(x, y, S);
    ModAdd(x % S + y % S, w, S);
    ModAdd(x + y, z, S);
    ModAdd(x % S + y % S, z, S);
    ModAdd((x % S + y % S) % S, z, S);
  }

  /** How often an address counts a register. */
  function Weight(op: Operand, r: Reg): nat
    requires op.MemOp?
  {
    (if op.base.Some? && op.base.value == r then 1 else 0) +
    (if op.index.Some? && op.index.value.r == r then op.index.value.scale else 0)
  }

  lemma WeightRange(op: Operand, r: Reg)
    requires op.MemOp?
    ensures Clear(op, r) <==> Weight(op, r) == 0
    ensures Weight(op, r) <= 9
  {}

  lemma PartsMove(op: Operand, regs: seq<int>, r: Reg, v: int)
    requires op.MemOp? && |regs| == REG_COUNT
    ensures BasePart(op, regs[r := v]) + IndexPart(op, regs[r := v]) ==
              BasePart(op, regs) + IndexPart(op, regs) + Weight(op, r) * (v - regs[r])
  {
    var d := v - regs[r];
    if op.index.Some? && op.index.value.r == r {
      var s := op.index.value.scale;
      assert v * s == regs[r] * s + s * d;
      assert (1 + s) * d == d + s * d && (0 + s) * d == s * d;
    }
  }

  /** The address is another one if a register that it counts moves by a distance below the span. */
  lemma AddrMoves(op: Operand, m: Machine, m': Machine, r: Reg, d: int)
    requires op.MemOp? && !Clear(op, r) && |m.regs| == REG_COUNT && m'.regs == m.regs[r := m.regs[r] + d]
    requires (d != 0 && -0x1000_0000 < d < 0x1000_0000) || (d == -0x1_0000_0000 && op.wide)
    ensures Eval(Addr(op), m') != Eval(Addr(op), m)
  {
    hide Eval, Addr;
    var w, p := Weight(op, r), op.offset + BasePart(op, m.regs) + IndexPart(op, m.regs);
    WeightRange(op, r);
    AddrValue(op, m);
    AddrValue(op, m');
    PartsMove(op, m.regs, r, m.regs[r] + d);
    WeightTimes(w, d, Span(op));
    CongSub(p + w * d, p, Span(op));
  }

  lemma WeightTimes(w: nat, d: int, S: int)
    requires 1 <= w <= 9 && (S == WORD || S == 0x1_0000_0000)
    requires (d != 0 && -0x1000_0000 < d < 0x1000_0000) || (d == -0x1_0000_0000 && S == WORD)
    ensures w * d % S != 0
  {
    if d > 0 {
      MulLe(1, w, d);
      MulLe(w, 9, d);
      ModSmall(w * d, S);
    } else {
      MulLe(1, w, -d);
      MulLe(w, 9, -d);
      DivModUnique(w * d, S, -1, S + w * d);
    }
  }

  /** An address in 32 bits does not see the upper half of a register. */
  lemma AddrCut(op: Operand, m: Machine, m': Machine, r: Reg)
    requires op.MemOp? && !op.wide && |m.regs| == REG_COUNT && m'.regs == m.regs[r := m.regs[r] % 0x1_0000_0000]
    ensures Eval(Addr(op), m') == Eval(Addr(op), m)
  {
    hide Eval, Addr;
    var x, S := m.regs[r], 0x1_0000_0000;
    var w, p := Weight(op, r), op.offset + BasePart(op, m.regs) + IndexPart(op, m.regs);
    AddrValue(op, m);
    AddrValue(op, m');
    PartsMove(op, m.regs, r, x % S);
    CutSum(p, w, x, S);
  }

  lemma CutSum(p: int, w: int, x: int, S: int)
    requires 0 < S
    ensures (p + w * (x % S - x)) % S == p % S
  {
    var k := x / S;
    assert x % S - x == -k * S;
    assert w * (-k * S) == -(w * k) * S;
    ModShift(p, -(w * k), S);
  }

  // ----- memories with one byte set

  function OneByte(a: int): map<int, int> {
    map[a := 1]
  }

  lemma {:induction false} LoadAfter(a: int, i: nat, n: nat)
    requires 0 <= a < WORD && 1 <= i && i + n <= 9
    ensures LoadBytes(OneByte(a), a + i, n) == 0
    decreases n
  {
    if n != 0 {
      ModSmall(a, WORD);
      Differ(a, i);
      LoadAfter(a, i + 1, n - 1);
    }
  }

  lemma LoadOne(a: int, n: nat)
    requires 0 <= a < WORD && 1 <= n <= 8
    ensures LoadBytes(OneByte(a), a, n) == 1
  {
    ModSmall(a, WORD);
    LoadAfter(a, 1, n - 1);
  }

  lemma LoadOther(a: int, b: int, n: nat)
    requires 0 <= b < WORD && a != b && 1 <= n
    ensures LoadBytes(OneByte(a), b, n) % 256 == 0
  {
    ModSmall(b, WORD);
    var rest := LoadBytes(OneByte(a), b + 1, n - 1);
    ModOfMultiple(rest, 256);
  }

  /** Storing zero bytes makes no byte other than zero. */
  lemma {:induction false} ZeroStored(mem: map<int, int>, a: int, n: nat, y: int)
    requires Peek(mem, y) == 0
    ensures Peek(StoreBytes(mem, a, n, 0), y) == 0
    decreases n
  {
    if n != 0 { ZeroStored(mem[a % WORD := 0], a + 1, n - 1, y); }
  }

  /** Storing the number one changes the first byte to one and leaves zeros elsewhere. */
  lemma OneStored(mem: map<int, int>, a: int, n: nat, y: int)
    requires 0 <= a < WORD && 1 <= n <= 8
    ensures Peek(StoreBytes(mem, a, n, 1), a) == 1
    ensures y != a && Peek(mem, y) == 0 ==> Peek(StoreBytes(mem, a, n, 1), y) == 0
  {
    hide Misses;
    ModSmall(a, WORD);
    var mem1 := mem[a := 1];
    MissesAhead(a, 1, n - 1);
    StoreElsewhere(mem1, a + 1, n - 1, 0, a);
    if y != a && Peek(mem, y) == 0 { ZeroStored(mem1, a + 1, n - 1, y); }
  }

  /** Different numbers leave different bytes. */
  lemma StoresDiffer(mem: map<int, int>, a: int, n: nat, v: int, w: int)
    requires 0 <= n <= 8 && 0 <= v < Pow(256, n) && 0 <= w < Pow(256, n) && v != w
    ensures StoreBytes(mem, a, n, v) != StoreBytes(mem, a, n, w)
  {
    hide Pow, StoreBytes, LoadBytes;
    LoadStored(mem, a, n, v);
    LoadStored(mem, a, n, w);
    ModSmall(v, Pow(256, n));
    ModSmall(w, Pow(256, n));
  }

  // ----- storing twice

  lemma {:induction false} StoreCommutes(mem: map<int, int>, a: int, n: nat, v: int, x: int, b: int)
    requires Misses(a, n, x)
    ensures StoreBytes(mem, a, n, v)[x := b] == StoreBytes(mem[x := b], a, n, v)
    decreases n
  {
    if n != 0 {
      var mem1 := mem[a % WORD := v % 256];
      StoreCommutes(mem1, a + 1, n - 1, v / 256, x, b);
      assert mem1[x := b] == mem[x := b][a % WORD := v % 256];
    }
  }

  /** The last store to an address counts. */
  lemma {:induction false} StoreTwice(mem: map<int, int>, a: int, n: nat, v: int, w: int)
    requires n <= 8
    ensures StoreBytes(StoreBytes(mem, a, n, v), a, n, w) == StoreBytes(mem, a, n, w)
    decreases n
  {
    hide Misses;
    if n != 0 {
      var x := a % WORD;
      var mem1 := mem[x := v % 256];
      MissesAhead(a, 1, n - 1);
      StoreCommutes(mem1, a + 1, n - 1, v / 256, x, w % 256);
      assert mem1[x := w % 256] == mem[x := w % 256];
      StoreTwice(mem[x := w % 256], a + 1, n - 1, v / 256, w / 256);
    }
  }

  lemma PutRegTwice(x: int, v: int, w: int, size: nat, high: bool)
    requires 0 <= x < WORD && Size(size) && 0 <= v < Pow(256, size)
    ensures PutReg(PutReg(x, v, size, high), w, size, high) == PutReg(x, w, size, high)
  {
    hide Pow;
    MaskPowers();
    if size == 1 && high {
      var q, h, s, u := x / 0x1_0000, x / 0x100 % 0x100, x % 0x100, v % 0x100;
      HighField(x, q, h, s);
      var y := PutReg(x, v, 1, true);
      DivModUnique(y, 0x100, q * 0x100 + u, s);
      DivModUnique(q * 0x100 + u, 0x100, q, u);
    } else if size <= 2 {
      var p := if size == 1 then 0x100 else 0x1_0000;
      var q := x / p;
      ModSmall(q * p + v, WORD);
      DivModUnique(q * p + v, p, q, v);
    }
  }

  /** The last of two stores to an operand counts. */
  lemma PutTwice(op: Operand, v: int, w: int, size: nat, m: Machine)
    requires !op.Imm? && SizeFits(op, size) && RegsOk(m) && 0 <= v < Pow(256, size)
    ensures RegsOk(Put(op, v, size, m)) && Put(op, w, size, Put(op, v, size, m)) == Put(op, w, size, m)
  {
    hide Eval, Addr, PutReg, StoreBytes, Pow;
    PutRegsOk(op, v, size, m);
    var z := Put(op, v, size, m);
    if op.RegOp? {
      var y := PutReg(m.regs[op.r], w, size, op.high);
      PutRegTwice(m.regs[op.r], v, w, size, op.high);
      assert z.regs[op.r := y] == m.regs[op.r := y];
    } else {
      AddrClear(op, m, z, REG_COUNT);
      StoreTwice(m.mem, Eval(Addr(op), m), size, v, w);
    }
  }
}
