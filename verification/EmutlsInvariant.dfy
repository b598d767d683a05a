/** What every step of the emulated thread-local storage keeps, over every interleaving of threads. */
module EmutlsInvariant {
  import opened Arith
  import opened Emutls
  import opened Options

  // ----- indices

  predicate HasMutex(p: Phase) {
    p.Locked? || p.Numbered? || p.Unlocking?
  }

  predicate HasIndex(p: Phase) {
    p.Unlocking? || p.Indexed? || p.Ready?
  }

  /** How many controls have an index. */
  ghost function Used(controls: seq<Control>): nat {
    if controls == [] then 0
    else Used(controls[..|controls| - 1]) + if controls[|controls| - 1].index != 0 then 1 else 0
  }

  /** Some thread has taken a number and not yet stored it. */
  ghost predicate Pending(s: State) {
    s.mutex.Some? && s.mutex.value < |s.phases| && s.phases[s.mutex.value].Numbered?
  }

  ghost predicate ThreadOk(s: State, t: nat)
    requires t < |s.phases|
  {
    var p := s.phases[t];
    && (HasMutex(p) <==> s.mutex == Some(t)) && (p.Idle? || p.c < |s.controls|)
    && (p.Numbered? ==> s.controls[p.c].index == 0 && p.index == s.numObject)
    && (HasIndex(p) ==> p.index == s.controls[p.c].index != 0)
  }

  ghost predicate IndexInv(s: State) {
    && ControlsFit(s.controls)
    && (forall t :: 0 <= t < |s.phases| ==> ThreadOk(s, t))
    && (forall c :: 0 <= c < |s.controls| ==>
          0 <= s.controls[c].index <= s.numObject && (Pending(s) ==> s.controls[c].index < s.numObject))
    && (forall c, d :: 0 <= c < d < |s.controls| && s.controls[c].index != 0 ==> s.controls[c].index != s.controls[d].index)
    && s.numObject == Used(s.controls) + if Pending(s) then 1 else 0
  }

  lemma {:induction false} UsedBound(controls: seq<Control>)
    ensures Used(controls) <= |controls|
  {
    if controls != [] { UsedBound(controls[..|controls| - 1]); }
  }

  lemma {:induction false} UsedMore(controls: seq<Control>, c: nat, index: nat)
    requires c < |controls| && controls[c].index == 0 && index != 0
    ensures Used(controls[c := controls[c].(index := index)]) == Used(controls) + 1
  {
    var after := controls[c := controls[c].(index := index)];
    var init := controls[..|controls| - 1];
    if c == |controls| - 1 {
      assert after[..|after| - 1] == init;
    } else {
      UsedMore(init, c, index);
      assert after[..|after| - 1] == init[c := controls[c].(index := index)];
    }
  }

  /** The next number does not wrap and is new. */
  lemma NextNumber(s: State, t: nat)
    requires IndexInv(s) && t < |s.phases| && s.phases[t].Locked?
    requires s.phases[t].c < |s.controls| && s.controls[s.phases[t].c].index == 0
    ensures (s.numObject + 1) % MODULUS == s.numObject + 1 && !Pending(s)
  {
    hide ControlsFit;
    assert ThreadOk(s, t);
    UsedBound(s.controls);
    FewControls(s.controls);
    ModSmall(s.numObject + 1, MODULUS);
  }

  lemma FewControls(controls: seq<Control>)
    requires ControlsFit(controls)
    ensures |controls| < MODULUS / 32
  {}

  /** A step that changes neither the indices nor the pending number. */
  lemma SameIndices(s: State, s': State, t: nat)
    requires IndexInv(s) && t < |s.phases| && s'.controls == s.controls && s'.numObject == s.numObject
    requires |s'.phases| == |s.phases| && (forall u :: 0 <= u < |s.phases| && u != t ==> s'.phases[u] == s.phases[u])
    requires ThreadOk(s', t) && !s.phases[t].Numbered? && !s'.phases[t].Numbered?
    requires s'.mutex == s.mutex || (s.mutex == None && s'.mutex == Some(t)) || (s.mutex == Some(t) && s'.mutex == None)
    ensures IndexInv(s')
  {
    hide ControlsFit;
    forall u | 0 <= u < |s'.phases| ensures ThreadOk(s', u) {
      if u != t { assert ThreadOk(s, u); }
    }
    assert ThreadOk(s, t);
    assert Pending(s') <==> Pending(s);
  }

  lemma TakeNumber(s: State, t: nat)
    requires IndexInv(s) && Enabled(s, Move(t, Step)) && s.phases[t].Locked? && s.controls[s.phases[t].c].index == 0
    ensures IndexInv(NextStep(s, t))
  {
    hide ControlsFit;
    NextNumber(s, t);
    var s' := NextStep(s, t);
    assert ThreadOk(s, t);
    forall u | 0 <= u < |s'.phases| ensures ThreadOk(s', u) {
      assert ThreadOk(s, u);
    }
    assert Pending(s');
  }

  lemma StoreNumber(s: State, t: nat)
    requires IndexInv(s) && Enabled(s, Move(t, Step)) && s.phases[t].Numbered?
    ensures IndexInv(NextStep(s, t))
  {
    var s' := NextStep(s, t);
    assert ThreadOk(s, t);
    var c := s.phases[t].c;
    forall u | 0 <= u < |s'.phases| ensures ThreadOk(s', u) {
      assert ThreadOk(s, u);
    }
    assert Pending(s) && !Pending(s');
    UsedMore(s.controls, c, s.phases[t].index);
  }

  lemma StepKeepsIndices(s: State, t: nat)
    requires IndexInv(s) && Enabled(s, Move(t, Step))
    ensures IndexInv(NextStep(s, t))
  {
    hide ControlsFit, IndexInv;
    PhaseOk(s, t);
    match s.phases[t]
    case Locked(c) =>
      if s.controls[c].index == 0 { TakeNumber(s, t); } else { SameIndices(s, NextStep(s, t), t); }
    case Numbered(_, _) => StoreNumber(s, t);
    case Called(_) => SameIndices(s, NextStep(s, t), t);
    case Locking(_) => SameIndices(s, NextStep(s, t), t);
    case Unlocking(_, _) => SameIndices(s, NextStep(s, t), t);
    case Ready(_, _) => SameIndices(s, NextStep(s, t), t);
    case _ =>
  }

  lemma PhaseOk(s: State, t: nat)
    requires IndexInv(s) && t < |s.phases|
    ensures ThreadOk(s, t)
  {}

  lemma KeepsIndices(s: State, m: Move)
    requires IndexInv(s) && Enabled(s, m)
    ensures IndexInv(Next(s, m))
  {
    hide IndexInv, ControlsFit, Grown, Base, Request, PowerOfTwo;
    PhaseOk(s, m.t);
    if m.a.Step? {
      StepKeepsIndices(s, m.t);
    } else {
      SameIndices(s, Next(s, m), m.t);
    }
  }

  // ----- tables and objects

  /** The address in a thread's slot for a control; zero while there is none. */
  ghost function Slot(s: State, t: int, c: int): int {
    if 0 <= t < |s.tables| && 0 <= c < |s.controls| && s.tables[t].Some? &&
       1 <= s.controls[c].index <= |s.tables[t].value| then s.tables[t].value[s.controls[c].index - 1] else 0
  }

  /** The object lies inside its block, behind room for the saved pointer, and is aligned. */
  ghost predicate WellPlaced(control: Control, a: Made) {
    && 0 < a.start && a.start + WORD_BYTES <= a.base && a.base + control.size <= a.start + a.length
    && 0 < Alignment(control.align) && a.base % Alignment(control.align) == 0
  }

  ghost predicate MadeOk(s: State, a: Made) {
    && a.t < |s.tables| && a.c < |s.controls|
    && WellPlaced(s.controls[a.c], a) && Slot(s, a.t, a.c) == a.base
  }

  /** A table slot in use has an index that some control owns. */
  ghost predicate SlotsNumbered(s: State) {
    forall t, k :: 0 <= t < |s.tables| && s.tables[t].Some? && 0 <= k < |s.tables[t].value| && s.tables[t].value[k] != 0 ==>
      k + 1 <= s.numObject && (Pending(s) ==> k + 1 < s.numObject)
  }

  ghost predicate Comes(s: State, t: int, c: int, i: int) {
    0 <= i < |s.made| && s.made[i].t == t && s.made[i].c == c
  }

  ghost predicate TableInv(s: State) {
    && |s.tables| == |s.phases|
    && (forall i :: 0 <= i < |s.made| ==> MadeOk(s, s.made[i]))
    && (forall i, j :: 0 <= i < j < |s.made| ==>
          Disjoint(s.made[i].start, s.made[i].length, s.made[j].start, s.made[j].length))
    && (forall t, c :: Slot(s, t, c) != 0 ==> exists i :: Comes(s, t, c, i))
    && SlotsNumbered(s)
    && (forall t :: 0 <= t < |s.phases| && s.phases[t].Ready? ==> SlotInTable(s, t))
    && (forall i :: 0 <= i < |s.returned| ==>
          s.returned[i].address == Slot(s, s.returned[i].t, s.returned[i].c) != 0)
  }

  ghost predicate Inv(s: State) {
    IndexInv(s) && TableInv(s)
  }

  /** Changes to phases and the mutex alone do not touch the tables. */
  lemma SameTables(s: State, s': State, t: nat)
    requires TableInv(s) && t < |s.phases| && s'.controls == s.controls && s'.tables == s.tables && s'.made == s.made
    requires s'.returned == s.returned && SlotsNumbered(s')
    requires |s'.phases| == |s.phases| && (forall u :: 0 <= u < |s.phases| && u != t ==> s'.phases[u] == s.phases[u])
    requires !s'.phases[t].Ready? || s'.phases[t] == s.phases[t]
    ensures TableInv(s')
  {
    hide WellPlaced;
    SameSlots(s, s');
    forall t, c | Slot(s', t, c) != 0 ensures exists i :: Comes(s', t, c, i) {
      var i :| Comes(s, t, c, i);
      assert Comes(s', t, c, i);
    }
    forall i | 0 <= i < |s'.made| ensures MadeOk(s', s'.made[i]) {
      assert MadeOk(s, s.made[i]);
    }
  }

  lemma SameSlots(s: State, s': State)
    requires s'.controls == s.controls && s'.tables == s.tables
    ensures forall t, c :: Slot(s', t, c) == Slot(s, t, c)
  {}

  lemma StoreKeepsTables(s: State, t: nat)
    requires Inv(s) && Enabled(s, Move(t, Step)) && s.phases[t].Numbered?
    ensures TableInv(NextStep(s, t))
  {
    hide WellPlaced, ControlsFit;
    var s' := NextStep(s, t);
    assert ThreadOk(s, t);
    var c := s.phases[t].c;
    forall u, d ensures Slot(s', u, d) == Slot(s, u, d) {}
    forall u, d | Slot(s', u, d) != 0 ensures exists i :: Comes(s', u, d, i) {
      var i :| Comes(s, u, d, i);
      assert Comes(s', u, d, i);
    }
    forall i | 0 <= i < |s'.made| ensures MadeOk(s', s'.made[i]) {
      assert MadeOk(s, s.made[i]);
      SameShape(s.controls[s.made[i].c], s'.controls[s.made[i].c], s.made[i]);
    }
  }

  lemma SameShape(control: Control, control': Control, a: Made)
    requires WellPlaced(control, a) && control'.size == control.size && control'.align == control.align
    ensures WellPlaced(control', a)
  {}

  lemma ReturnKeepsTables(s: State, t: nat)
    requires Inv(s) && Enabled(s, Move(t, Step)) && s.phases[t].Ready?
    ensures TableInv(NextStep(s, t))
  {
    hide WellPlaced, ControlsFit;
    var s' := NextStep(s, t);
    assert ThreadOk(s, t);
    var s1 := s'.(returned := s.returned);
    SameTables(s, s1, t);
    SameSlots(s1, s');
    forall u, d | Slot(s', u, d) != 0 ensures exists i :: Comes(s', u, d, i) {
      var i :| Comes(s1, u, d, i);
      assert Comes(s', u, d, i);
    }
    forall i | 0 <= i < |s'.made| ensures MadeOk(s', s'.made[i]) {
      assert MadeOk(s1, s1.made[i]);
    }
  }

  lemma StepKeepsTables(s: State, t: nat)
    requires Inv(s) && Enabled(s, Move(t, Step))
    ensures TableInv(NextStep(s, t))
  {
    hide TableInv, ControlsFit;
    assert ThreadOk(s, t);
    NumbersOfSlots(s);
    match s.phases[t]
    case Locked(c) =>
      if s.controls[c].index == 0 { NextNumber(s, t); }
      SameTables(s, NextStep(s, t), t);
    case Numbered(_, _) => StoreKeepsTables(s, t);
    case Called(_) => SameTables(s, NextStep(s, t), t);
    case Locking(_) => SameTables(s, NextStep(s, t), t);
    case Unlocking(_, _) => SameTables(s, NextStep(s, t), t);
    case Ready(_, _) => ReturnKeepsTables(s, t);
    case _ =>
  }

  lemma NumbersOfSlots(s: State)
    requires TableInv(s)
    ensures SlotsNumbered(s)
  {}

  /** Growing a table keeps every slot and adds empty ones. */
  lemma GrowKeepsTables(s: State, t: nat)
    requires Inv(s) && Enabled(s, Move(t, Grow(true)))
    ensures TableInv(Next(s, Move(t, Grow(true))))
  {
    hide WellPlaced, ControlsFit, NewDataArraySize;
    var s' := Next(s, Move(t, Grow(true)));
    var p := s.phases[t];
    assert ThreadOk(s, t);
    FewControls(s.controls);
    UsedBound(s.controls);
    NewSizeHolds(p.index);
    forall u, d ensures Slot(s', u, d) == Slot(s, u, d) {}
    forall u, d | Slot(s', u, d) != 0 ensures exists i :: Comes(s', u, d, i) {
      var i :| Comes(s, u, d, i);
      assert Comes(s', u, d, i);
    }
    forall i | 0 <= i < |s'.made| ensures MadeOk(s', s'.made[i]) {
      assert MadeOk(s, s.made[i]);
    }
  }

  lemma NewObject(s: State, t: nat, at: nat)
    requires IndexInv(s) && Enabled(s, Move(t, Allocate(at))) && at != 0
    requires PowerOfTwo(Alignment(s.controls[s.phases[t].c].align))
    ensures var control := s.controls[s.phases[t].c]; var align := Alignment(control.align);
            0 <= Request(align, control.size) &&
            WellPlaced(control, Made(t, s.phases[t].c, at, Request(align, control.size), Base(at, align)))
  {
    hide Base, PowerOfTwo;
    var control := s.controls[s.phases[t].c];
    BaseInside(at, Alignment(control.align), control.size);
  }

  /** Filling a slot changes the slot of this thread and control only. */
  lemma FillKeepsTables(s: State, t: nat, a: Made)
    requires Inv(s) && t < |s.phases| && s.phases[t].Ready? && SlotInTable(s, t) && s.phases[t].c < |s.controls|
    requires s.tables[t].value[s.phases[t].index - 1] == 0 && a.t == t && a.c == s.phases[t].c
    requires WellPlaced(s.controls[a.c], a)
    requires forall i :: 0 <= i < |s.made| ==> Disjoint(a.start, a.length, s.made[i].start, s.made[i].length)
    ensures TableInv(s.(tables := s.tables[t := Some(s.tables[t].value[s.phases[t].index - 1 := a.base])], made := s.made + [a]))
  {
    hide ControlsFit, WellPlaced;
    var index := s.phases[t].index;
    var s' := s.(tables := s.tables[t := Some(s.tables[t].value[index - 1 := a.base])], made := s.made + [a]);
    assert ThreadOk(s, t);
    BaseNotZero(s.controls[a.c], a);
    forall u, d ensures Slot(s', u, d) == if u == t && d == a.c then a.base else Slot(s, u, d) {}
    forall u, d | Slot(s', u, d) != 0 ensures exists i :: Comes(s', u, d, i) {
      if u == t && d == a.c {
        assert Comes(s', u, d, |s.made|);
      } else {
        var i :| Comes(s, u, d, i);
        assert Comes(s', u, d, i);
      }
    }
    forall i | 0 <= i < |s'.made| ensures MadeOk(s', s'.made[i]) {
      if i < |s.made| {
        assert MadeOk(s, s.made[i]);
        BaseNotZero(s.controls[s.made[i].c], s.made[i]);
      }
    }
  }

  lemma BaseNotZero(control: Control, a: Made)
    requires WellPlaced(control, a)
    ensures 0 < a.base
  {}

  lemma Keeps(s: State, m: Move)
    requires Inv(s) && Enabled(s, m)
    ensures Inv(Next(s, m))
  {
    hide IndexInv, TableInv, ControlsFit, Base, Request, PowerOfTwo, Grown;
    KeepsIndices(s, m);
    NumbersOfSlots(s);
    match m.a
    case Call(_) => SameTables(s, Next(s, m), m.t);
    case Step => StepKeepsTables(s, m.t);
    case Grow(ok) =>
      if !ok && NeedsMemory(s.tables[m.t], s.phases[m.t].index) {
        SameTables(s, Next(s, m), m.t);
      } else {
        GrowKeepsTables(s, m.t);
      }
    case Allocate(at) =>
      var control := s.controls[s.phases[m.t].c];
      var align := Alignment(control.align);
      if at == 0 || !PowerOfTwo(align) {
        SameTables(s, Next(s, m), m.t);
      } else {
        NewObject(s, m.t, at);
        FillKeepsTables(s, m.t, Made(m.t, s.phases[m.t].c, at, Request(align, control.size), Base(at, align)));
      }
  }

  lemma InitialInv(s: State)
    requires Initial(s)
    ensures Inv(s)
  {
    NoneUsed(s.controls);
  }

  lemma {:induction false} NoneUsed(controls: seq<Control>)
    requires forall c :: 0 <= c < |controls| ==> controls[c].index == 0
    ensures Used(controls) == 0
  {
    if controls != [] { NoneUsed(controls[..|controls| - 1]); }
  }

  // ----- whole runs

  lemma {:induction false} RunKeeps(s: State, moves: seq<Move>)
    requires Inv(s) && CanRun(s, moves)
    ensures Inv(After(s, moves))
    decreases |moves|
  {
    hide Inv, Enabled, Next;
    if moves != [] {
      Keeps(s, moves[0]);
      RunKeeps(Next(s, moves[0]), moves[1..]);
    }
  }

  /** An index that has been set never changes, and neither do the addresses in slots. */
  lemma StepIsStable(s: State, m: Move, t: int, c: int)
    requires Inv(s) && Enabled(s, m) && 0 <= c < |s.controls|
    ensures var s' := Next(s, m);
            && |s'.controls| == |s.controls| && s'.controls[c].size == s.controls[c].size && s'.controls[c].align == s.controls[c].align
            && (s.controls[c].index != 0 ==> s'.controls[c].index == s.controls[c].index)
            && (Slot(s, t, c) != 0 ==> Slot(s', t, c) == Slot(s, t, c))
  {
    hide ControlsFit, Base, Request, PowerOfTwo, NewDataArraySize;
    assert ThreadOk(s, m.t);
    FewControls(s.controls);
  }

  lemma {:induction false} RunIsStable(s: State, moves: seq<Move>, t: int, c: int)
    requires Inv(s) && CanRun(s, moves) && 0 <= c < |s.controls|
    ensures var z := After(s, moves);
            && |z.controls| == |s.controls|
            && (s.controls[c].index != 0 ==> z.controls[c].index == s.controls[c].index)
            && (Slot(s, t, c) != 0 ==> Slot(z, t, c) == Slot(s, t, c))
    decreases |moves|
  {
    hide Inv, Enabled, Next, Slot;
    if moves != [] {
      Keeps(s, moves[0]);
      StepIsStable(s, moves[0], t, c);
      RunIsStable(Next(s, moves[0]), moves[1..], t, c);
    }
  }

  /** In every reachable state the indices that have been given out are distinct and lie in 1..emutls_num_object. */
  lemma IndicesAreUnique(s: State, moves: seq<Move>, c: nat, d: nat)
    requires Initial(s) && CanRun(s, moves) && c < |s.controls| && d < |s.controls| && c != d
    ensures var z := After(s, moves);
            && |z.controls| == |s.controls| && 0 <= z.controls[c].index <= z.numObject
            && (z.controls[c].index != 0 ==> z.controls[c].index != z.controls[d].index)
  {
    hide TableInv, ControlsFit, Initial;
    InitialInv(s);
    RunKeeps(s, moves);
    RunIsStable(s, moves, 0, c);
  }

  /** The slot that a thread is about to use is always inside its table. */
  lemma SlotsAreInBounds(s: State, moves: seq<Move>, t: nat)
    requires Initial(s) && CanRun(s, moves)
    requires t < |After(s, moves).phases| && After(s, moves).phases[t].Ready?
    ensures SlotInTable(After(s, moves), t)
  {
    hide IndexInv, Initial, MadeOk;
    InitialInv(s);
    RunKeeps(s, moves);
  }

  /** A thread gets the same address for a control every time. */
  lemma AddressesAreStable(s: State, moves: seq<Move>, i: nat, j: nat)
    requires Initial(s) && CanRun(s, moves) && i < |After(s, moves).returned| && j < |After(s, moves).returned|
    ensures var r, r' := After(s, moves).returned[i], After(s, moves).returned[j];
            r.t == r'.t && r.c == r'.c ==> r.address == r'.address
  {
    hide IndexInv, Initial, MadeOk, Slot;
    InitialInv(s);
    RunKeeps(s, moves);
  }

  /** Where the object behind a returned address is. */
  ghost predicate Located(z: State, r: Return, a: Made) {
    && a in z.made && a.t == r.t && a.c == r.c && a.base == r.address && a.c < |z.controls| && WellPlaced(z.controls[a.c], a)
  }

  /** Every address that is returned is that of an aligned object inside a block of its own. */
  lemma AddressesAreObjects(s: State, moves: seq<Move>, i: nat) returns (a: Made)
    requires Initial(s) && CanRun(s, moves) && i < |After(s, moves).returned|
    ensures Located(After(s, moves), After(s, moves).returned[i], a)
  {
    hide IndexInv, Initial, WellPlaced;
    InitialInv(s);
    RunKeeps(s, moves);
    var z := After(s, moves);
    var r := z.returned[i];
    var k :| Comes(z, r.t, r.c, k);
    assert MadeOk(z, z.made[k]);
    a := z.made[k];
  }

  /** Objects in different blocks share no byte. */
  lemma MadeApart(z: State, a: Made, b: Made)
    requires TableInv(z) && a in z.made && b in z.made && a != b && a.c < |z.controls| && b.c < |z.controls|
    requires WellPlaced(z.controls[a.c], a) && WellPlaced(z.controls[b.c], b)
    ensures Disjoint(a.base, z.controls[a.c].size, b.base, z.controls[b.c].size)
  {
    hide Slot, Comes, MadeOk, SlotsNumbered, SlotInTable;
    var m :| 0 <= m < |z.made| && z.made[m] == a;
    var n :| 0 <= n < |z.made| && z.made[n] == b;
  }

  /** Objects of different controls or different threads share no byte. */
  lemma ObjectsAreDisjoint(s: State, moves: seq<Move>, i: nat, j: nat)
    requires Initial(s) && CanRun(s, moves) && i < |After(s, moves).returned| && j < |After(s, moves).returned|
    requires var r, r' := After(s, moves).returned[i], After(s, moves).returned[j]; r.t != r'.t || r.c != r'.c
    ensures var z := After(s, moves); var r, r' := z.returned[i], z.returned[j];
            && r.c < |z.controls| && r'.c < |z.controls|
            && Disjoint(r.address, z.controls[r.c].size, r'.address, z.controls[r'.c].size)
  {
    hide IndexInv, TableInv, Initial, WellPlaced;
    InitialInv(s);
    RunKeeps(s, moves);
    var a := AddressesAreObjects(s, moves, i);
    var b := AddressesAreObjects(s, moves, j);
    MadeApart(After(s, moves), a, b);
  }
}
