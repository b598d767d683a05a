/**
 Emulated thread-local storage (compiler-rt's emutls.c): every control gets a global index on first use, every thread
 keeps a growing table of addresses, and a slot is filled on a thread's first use of a control.  Threads interleave in
 any order; the mutex and the allocator are abstract.
 */
module Emutls {
  import opened Arith
  import opened Bits
  import opened Options

  const MODULUS: int := 0x1_0000_0000_0000_0000
  const WORD_BYTES: int := 8
  const HEADER_WORDS: int := 2

  // ----- sizes and addresses

  /** x & ~mask for a mask of low bits. */
  function Clear(x: nat, mask: nat): int {
    x - And(x, mask)
  }

  /** emutls_new_data_array_size. */
  function NewDataArraySize(index: nat): int {
    Clear((index + HEADER_WORDS + 15) % MODULUS, 15) - HEADER_WORDS
  }

  lemma ClearLow(x: nat, k: nat)
    ensures 0 < Pow(2, k) && Clear(x, Pow(2, k) - 1) % Pow(2, k) == 0
    ensures x - Pow(2, k) < Clear(x, Pow(2, k) - 1) <= x
  {
    hide And, Shl, Pow, Mul;
    PowPos(2, k);
    Parts(x, k);
    AndLowMask(x / Pow(2, k), k, x % Pow(2, k));
  }

  lemma Parts(x: nat, k: nat)
    requires 0 < Pow(2, k)
    ensures var p := Pow(2, k); var q, r := x / p, x % p;
            0 <= q && 0 <= r < p && x == Mul(q, p) + r && Mul(q, p) % p == 0 && Shl(q, k) == Mul(q, p)
  {
    hide Shl, Pow;
    ShlPow(x / Pow(2, k), k);
    ModOfMultiple(x / Pow(2, k), Pow(2, k));
  }

  /** The new table holds the index, and with its header fills a multiple of 16 words. */
  lemma NewSizeHolds(index: nat)
    requires index + 17 < MODULUS
    ensures index <= NewDataArraySize(index) < index + 16 && (NewDataArraySize(index) + HEADER_WORDS) % 16 == 0
  {
    hide And, Pow;
    assert Pow(2, 4) == 16 by { SixteenIsPower(); }
    ClearLow(index + HEADER_WORDS + 15, 4);
  }

  lemma SixteenIsPower()
    ensures Pow(2, 4) == 16
  {}

  /** The alignment that is used: at least that of a pointer. */
  function Alignment(align: nat): nat {
    if align < WORD_BYTES then WORD_BYTES else align
  }

  predicate PowerOfTwo(align: nat) {
    0 < align && And(align, align - 1) == 0
  }

  /** How many bytes emutls_memalign_alloc asks malloc for. */
  function Request(align: nat, size: nat): int {
    (align - 1 + WORD_BYTES + size) % MODULUS
  }

  /** The aligned address inside a block. */
  function Base(block: nat, align: nat): int
    requires 0 < align
  {
    Clear((block + (align - 1 + WORD_BYTES)) % MODULUS, align - 1)
  }

  /** The object and the pointer saved before it lie inside the block. */
  predicate Inside(block: nat, align: nat, size: nat)
    requires 0 < align
  {
    block + WORD_BYTES <= Base(block, align) && Base(block, align) + size <= block + Request(align, size)
  }

  /** The object is aligned, and it lies inside the block that malloc was asked for exactly if the request does not wrap around. */
  lemma BaseInside(block: nat, align: nat, size: nat)
    requires PowerOfTwo(align) && align < MODULUS && size < MODULUS && block + Request(align, size) < MODULUS
    ensures Base(block, align) % align == 0
    ensures Inside(block, align, size) <==> align - 1 + WORD_BYTES + size < MODULUS
  {
    hide And, Pow, Ctz, Clear, PowerOfTwo;
    AlignmentBound(align);
    var end, total := block + (align - 1 + WORD_BYTES), align - 1 + WORD_BYTES + size;
    Wraps(end);
    Wraps(total);
    ClearLow(end % MODULUS, Ctz(align));
  }

  lemma Wraps(x: int)
    requires 0 <= x < 2 * MODULUS
    ensures x % MODULUS == if x < MODULUS then x else x - MODULUS
  {
    if x < MODULUS { ModSmall(x, MODULUS); } else { DivModUnique(x, MODULUS, 1, x - MODULUS); }
  }

  lemma AlignmentBound(align: nat)
    requires PowerOfTwo(align) && align < MODULUS
    ensures 0 < align <= MODULUS / 2 && Pow(2, Ctz(align)) == align
  {
    hide And, Pow, Ctz;
    PowerOfTwoTest(align);
    PowTwoValues();
    OnePower();
    PowAdd(2, 63, 1);
    if Ctz(align) >= 64 { PowMono(2, 64, Ctz(align)); } else { PowMono(2, Ctz(align), 63); }
  }

  lemma OnePower()
    ensures Pow(2, 0) == 1 && Pow(2, 1) == 2
  {}

  /** A control whose size makes the request wrap: 14 bytes are asked for, and the object does not lie inside them. */
  lemma WrappingRequest()
    ensures var size := MODULUS - 1; Request(8, size) == 14 && PowerOfTwo(8) && !Inside(16, 8, size)
  {
    EightIsPower();
    BaseInside(16, 8, MODULUS - 1);
  }

  lemma EightIsPower()
    ensures PowerOfTwo(8)
  {
    assert And(1, 0) == 0 && And(2, 1) == 0 && And(4, 3) == 0;
  }

  // ----- the state machine

  datatype Control = Control(size: nat, align: nat, index: nat)

  datatype Phase =
    | Idle
    | Called(c: nat)                     // about to load the index without the mutex
    | Locking(c: nat)                    // the index was zero; waiting for the mutex
    | Locked(c: nat)                     // about to look at the index again
    | Numbered(c: nat, index: nat)       // took the next number; about to store it
    | Unlocking(c: nat, index: nat)      // about to release the mutex
    | Indexed(c: nat, index: nat)        // about to look for the table
    | Ready(c: nat, index: nat)          // the table has been looked up

  /** An object made for a thread's use of a control: the block from malloc and the address handed out. */
  datatype Made = Made(t: nat, c: nat, start: nat, length: nat, base: int)

  datatype Return = Return(t: nat, c: nat, address: int)

  datatype State = State(
    controls: seq<Control>,
    numObject: nat,
    mutex: Option<nat>,
    phases: seq<Phase>,
    tables: seq<Option<seq<int>>>,
    made: seq<Made>,
    returned: seq<Return>,
    aborted: bool)

  /** A call, one step, a step that allocates a table (ok or not), or one that gets a block from malloc (0 if it fails). */
  datatype Action = Call(c: nat) | Step | Grow(ok: bool) | Allocate(at: nat)

  datatype Move = Move(t: nat, a: Action)

  predicate Disjoint(a: int, n: int, b: int, m: int) {
    a + n <= b || b + m <= a
  }

  /** What malloc promises: a block whose end has an address and that overlaps no live block. */
  predicate Fresh(s: State, at: nat, length: int) {
    at + length < MODULUS && forall i :: 0 <= i < |s.made| ==> Disjoint(at, length, s.made[i].start, s.made[i].length)
  }

  /** The slot that a thread looks at is inside its table. */
  predicate SlotInTable(s: State, t: nat)
    requires t < |s.phases| && s.phases[t].Ready?
  {
    var index := s.phases[t].index;
    t < |s.tables| && s.tables[t].Some? && 1 <= index <= |s.tables[t].value|
  }

  predicate Enabled(s: State, m: Move) {
    && !s.aborted && m.t < |s.phases| && |s.tables| == |s.phases|
    && (s.phases[m.t].Idle? || s.phases[m.t].c < |s.controls|)
    && match m.a
       case Call(c) => s.phases[m.t].Idle? && c < |s.controls|
       case Step =>
         match s.phases[m.t] {
           case Called(_) => true
           case Locking(_) => s.mutex == None
           case Locked(_) => true
           case Numbered(_, _) => true
           case Unlocking(_, _) => true
           case Ready(_, index) => SlotInTable(s, m.t) && s.tables[m.t].value[index - 1] != 0
           case _ => false
         }
       case Grow(_) => s.phases[m.t].Indexed?
       case Allocate(at) =>
         && s.phases[m.t].Ready? && SlotInTable(s, m.t) && s.tables[m.t].value[s.phases[m.t].index - 1] == 0
         && (at == 0 || Fresh(s, at, Request(Alignment(s.controls[s.phases[m.t].c].align), s.controls[s.phases[m.t].c].size)))
  }

  function To(s: State, t: nat, p: Phase): State
    requires t < |s.phases|
  {
    s.(phases := s.phases[t := p])
  }

  /** emutls_get_index, step by step, and the return. */
  function NextStep(s: State, t: nat): State
    requires Enabled(s, Move(t, Step))
  {
    match s.phases[t]
    case Called(c) =>
      if s.controls[c].index != 0 then To(s, t, Indexed(c, s.controls[c].index)) else To(s, t, Locking(c))
    case Locking(c) => To(s.(mutex := Some(t)), t, Locked(c))
    case Locked(c) =>
      if s.controls[c].index != 0 then To(s, t, Unlocking(c, s.controls[c].index))
      else
        var next := (s.numObject + 1) % MODULUS;
        To(s.(numObject := next), t, Numbered(c, next))
    case Numbered(c, index) =>
      To(s.(controls := s.controls[c := s.controls[c].(index := index)]), t, Unlocking(c, index))
    case Unlocking(c, index) => To(s.(mutex := None), t, Indexed(c, index))
    case Ready(c, index) =>
      To(s.(returned := s.returned + [Return(t, c, s.tables[t].value[index - 1])]), t, Idle)
  }

  function Zeros(n: int): (z: seq<int>)
    ensures |z| == if 0 <= n then n else 0
    ensures forall i :: 0 <= i < |z| ==> z[i] == 0
  {
    seq(if 0 <= n then n else 0, _ => 0)
  }

  /** The table after emutls_get_address_array: made, extended with empty slots, or left alone. */
  function Grown(table: Option<seq<int>>, index: nat): seq<int> {
    match table
    case None => Zeros(NewDataArraySize(index))
    case Some(data) => if index > |data| then data + Zeros(NewDataArraySize(index) - |data|) else data
  }

  predicate NeedsMemory(table: Option<seq<int>>, index: nat) {
    table == None || index > |table.value|
  }

  function Next(s: State, m: Move): State
    requires Enabled(s, m)
  {
    match m.a
    case Call(c) => To(s, m.t, Called(c))
    case Step => NextStep(s, m.t)
    case Grow(ok) =>
      var p := s.phases[m.t];
      if !ok && NeedsMemory(s.tables[m.t], p.index) then s.(aborted := true)
      else To(s.(tables := s.tables[m.t := Some(Grown(s.tables[m.t], p.index))]), m.t, Ready(p.c, p.index))
    case Allocate(at) =>
      var p := s.phases[m.t];
      var control := s.controls[p.c];
      var align := Alignment(control.align);
      if at == 0 || !PowerOfTwo(align) then s.(aborted := true)
      else
        var base := Base(at, align);
        s.(tables := s.tables[m.t := Some(s.tables[m.t].value[p.index - 1 := base])],
           made := s.made + [Made(m.t, p.c, at, Request(align, control.size), base)])
  }

  /** A program's controls: each takes 32 bytes of the address space, and the blocks asked for are below 2^64 bytes. */
  ghost predicate ControlsFit(controls: seq<Control>) {
    && |controls| < MODULUS / 32
    && forall c :: 0 <= c < |controls| ==>
         Alignment(controls[c].align) - 1 + WORD_BYTES + controls[c].size < MODULUS
  }

  ghost predicate Initial(s: State) {
    && ControlsFit(s.controls) && (forall c :: 0 <= c < |s.controls| ==> s.controls[c].index == 0)
    && s.numObject == 0 && s.mutex == None && |s.tables| == |s.phases|
    && (forall t :: 0 <= t < |s.phases| ==> s.phases[t] == Idle && s.tables[t] == None)
    && s.made == [] && s.returned == [] && !s.aborted
  }

  ghost predicate CanRun(s: State, moves: seq<Move>)
    decreases |moves|
  {
    moves == [] || (Enabled(s, moves[0]) && CanRun(Next(s, moves[0]), moves[1..]))
  }

  ghost function After(s: State, moves: seq<Move>): State
    requires CanRun(s, moves)
    decreases |moves|
  {
    if moves == [] then s else After(Next(s, moves[0]), moves[1..])
  }
}
