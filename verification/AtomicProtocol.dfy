/** Threads running the operations of atomic.c in any interleaving, and the proof that each of them is one atomic step. */
module AtomicProtocol {
  import opened Atomic

  // ----- the state machine

  /**
   Where a thread is.  In the states that hold the lock, was is a history variable: the bytes of the object when the
   lock was taken.
   */
  datatype Thread =
    | Idle
    | Waiting(o: Object, op: Op)                                                  // spinning in lock
    | Copying(o: Object, op: Op, was: seq<Byte>, got: seq<Byte>)                  // memcpy out of the object
    | Comparing(o: Object, op: Op, was: seq<Byte>, equal: nat)                    // memcmp, bytes equal so far
    | Writing(o: Object, op: Op, was: seq<Byte>, v: seq<Byte>, done: nat, r: Result) // memcpy into the object
    | Releasing(o: Object, op: Op, was: seq<Byte>, r: Result)                     // about to unlock
  {
    /** Between lock and unlock. */
    predicate Inside() {
      !Idle? && !Waiting?
    }
  }

  datatype State = State(mem: Memory, locks: seq<bool>, threads: seq<Thread>, log: seq<Event>)

  /** A lock-free operation, calling a locked one, one compare-exchange of lock (a weak one may fail), or the next step under the lock. */
  datatype Action = Direct(o: Object, op: Op) | Call(o: Object, op: Op) | TryLock(spurious: bool) | Advance

  datatype Move = Move(t: nat, a: Action)

  predicate Enabled(objs: set<Object>, s: State, m: Move) {
    && m.t < |s.threads| && |s.locks| == SPINLOCK_COUNT
    && match m.a
       case Direct(o, op) => s.threads[m.t].Idle? && o in objs && LockFree(o) && Within(o, s.mem) && Fits(op, o.size)
       case Call(o, op) => s.threads[m.t].Idle? && o in objs && !LockFree(o) && Within(o, s.mem) && Fits(op, o.size)
       case TryLock(_) => s.threads[m.t].Waiting?
       case Advance => s.threads[m.t].Inside() && Within(s.threads[m.t].o, s.mem) && CanAdvance(s.threads[m.t])
  }

  /** The buffers that a step indexes are as long as the object. */
  predicate CanAdvance(th: Thread)
    requires th.Inside()
  {
    match th
    case Copying(o, op, was, got) => !op.Store?
    case Comparing(o, op, was, n) => op.CompareExchange? && |op.expected| == o.size
    case Writing(o, op, was, v, n, r) => |v| == o.size
    case Releasing(_, _, _, _) => true
  }

  /** The first step under the lock. */
  function Enter(o: Object, op: Op, was: seq<Byte>): Thread {
    match op
    case Store(v) => Writing(o, op, was, v, 0, Result(true, []))
    case CompareExchange(_, _) => Comparing(o, op, was, 0)
    case _ => Copying(o, op, was, [])
  }

  /** After the object has been copied out. */
  function Copied(o: Object, op: Op, was: seq<Byte>, got: seq<Byte>): Thread
    requires !op.Store?
  {
    match op
    case Load => Releasing(o, op, was, Result(true, got))
    case Exchange(v) => Writing(o, op, was, v, 0, Result(true, got))
    case CompareExchange(_, _) => Releasing(o, op, was, Result(false, got))
    case FetchOp(rmw, v) => Writing(o, op, was, Combine(rmw, got, v), 0, Result(true, got))
  }

  /** The thread after one step under the lock. */
  function Stepped(th: Thread, mem: Memory): Thread
    requires th.Inside() && Within(th.o, mem) && CanAdvance(th)
  {
    match th
    case Copying(o, op, was, got) =>
      if |got| < o.size then Copying(o, op, was, got + [mem[o.ptr + |got|]]) else Copied(o, op, was, got)
    case Comparing(o, op, was, n) =>
      if n < o.size then
        if mem[o.ptr + n] == op.expected[n] then Comparing(o, op, was, n + 1) else Copying(o, op, was, [])
      else Writing(o, op, was, op.desired, 0, Result(true, op.expected))
    case Writing(o, op, was, v, n, r) =>
      if n < o.size then Writing(o, op, was, v, n + 1, r) else Releasing(o, op, was, r)
    case Releasing(_, _, _, _) => Idle
  }

  /** The memory after one step under the lock: only a byte being written changes. */
  function Written(th: Thread, mem: Memory): Memory
    requires th.Inside() && Within(th.o, mem) && CanAdvance(th)
  {
    if th.Writing? && th.done < th.o.size then mem[th.o.ptr + th.done := th.v[th.done]] else mem
  }

  function Next(objs: set<Object>, s: State, m: Move): State
    requires Enabled(objs, s, m)
  {
    var th := s.threads[m.t];
    match m.a
    case Direct(o, op) =>
      var e := Event(o, op, Answer(op, Bytes(s.mem, o)));
      s.(mem := Atomically(s.mem, e), log := s.log + [e])
    case Call(o, op) => s.(threads := s.threads[m.t := Waiting(o, op)])
    case TryLock(spurious) =>
      LockInTable(th.o.ptr);
      var l := LockFor(th.o.ptr);
      if spurious || s.locks[l] || !Within(th.o, s.mem) then s
      else s.(locks := s.locks[l := true], threads := s.threads[m.t := Enter(th.o, th.op, Bytes(s.mem, th.o))])
    case Advance =>
      LockInTable(th.o.ptr);
      var l := LockFor(th.o.ptr);
      if th.Releasing? then
        s.(locks := s.locks[l := false], threads := s.threads[m.t := Idle], log := s.log + [Event(th.o, th.op, th.r)])
      else
        s.(mem := Written(th, s.mem), threads := s.threads[m.t := Stepped(th, s.mem)])
  }

  ghost predicate Initial(s: State) {
    && |s.locks| == SPINLOCK_COUNT && (forall l :: 0 <= l < |s.locks| ==> !s.locks[l])
    && (forall t :: 0 <= t < |s.threads| ==> s.threads[t].Idle?) && s.log == []
  }

  ghost predicate CanRun(objs: set<Object>, s: State, moves: seq<Move>)
    decreases |moves|
  {
    moves == [] || (Enabled(objs, s, moves[0]) && CanRun(objs, Next(objs, s, moves[0]), moves[1..]))
  }

  ghost function After(objs: set<Object>, s: State, moves: seq<Move>): State
    requires CanRun(objs, s, moves)
    decreases |moves|
  {
    if moves == [] then s else After(objs, Next(objs, s, moves[0]), moves[1..])
  }

  // ----- what every step keeps

  /** A thread under the lock sees its object as it was, with its own writes. */
  ghost predicate ThreadOk(th: Thread, mem: Memory) {
    match th
    case Idle => true
    case Waiting(o, op) => Within(o, mem) && Fits(op, o.size)
    case Copying(o, op, was, got) =>
      && Within(o, mem) && Fits(op, o.size) && Bytes(mem, o) == was && got <= was && !op.Store?
      && (op.CompareExchange? ==> op.expected != was)
    case Comparing(o, op, was, n) =>
      && Within(o, mem) && Fits(op, o.size) && Bytes(mem, o) == was && op.CompareExchange?
      && n <= o.size && op.expected[..n] == was[..n]
    case Writing(o, op, was, v, n, r) =>
      && Within(o, mem) && Fits(op, o.size) && |was| == o.size && n <= o.size
      && v == NewValue(op, was) && r == Answer(op, was) && |v| == o.size
      && Bytes(mem, o) == v[..n] + was[n..]
    case Releasing(o, op, was, r) =>
      && Within(o, mem) && Fits(op, o.size) && |was| == o.size && r == Answer(op, was) && Bytes(mem, o) == NewValue(op, was)
  }

  /** A lock word is set exactly if some thread is between its lock and unlock, and then only one is. */
  ghost predicate LocksOk(s: State) {
    && |s.locks| == SPINLOCK_COUNT
    && (forall t :: 0 <= t < |s.threads| && s.threads[t].Inside() ==>
          LockFor(s.threads[t].o.ptr) < SPINLOCK_COUNT && s.locks[LockFor(s.threads[t].o.ptr)])
    && (forall l :: 0 <= l < |s.locks| && s.locks[l] ==> exists t :: HoldsLock(s, t, l))
    && (forall t, u :: 0 <= t < |s.threads| && 0 <= u < |s.threads| && t != u && s.threads[t].Inside() && s.threads[u].Inside()
          ==> LockFor(s.threads[t].o.ptr) != LockFor(s.threads[u].o.ptr))
  }

  ghost predicate HoldsLock(s: State, t: int, l: int) {
    0 <= t < |s.threads| && s.threads[t].Inside() && LockFor(s.threads[t].o.ptr) == l
  }

  predicate HoldsByte(s: State, t: int, x: int) {
    0 <= t < |s.threads| && s.threads[t].Inside() && Covers(s.threads[t].o, x)
  }

  /** A is the memory as if operations that are under way had not begun. */
  ghost predicate Abstracts(s: State, A: Memory) {
    && |A| == |s.mem|
    && (forall x, t :: 0 <= x < |A| && HoldsByte(s, t, x) ==>
          |s.threads[t].was| == s.threads[t].o.size && A[x] == s.threads[t].was[x - s.threads[t].o.ptr])
    && (forall x :: 0 <= x < |A| && A[x] != s.mem[x] ==> exists t :: HoldsByte(s, t, x))
  }

  ghost predicate ThreadsOk(objs: set<Object>, s: State) {
    forall t :: 0 <= t < |s.threads| ==>
      ThreadOk(s.threads[t], s.mem) && (s.threads[t].Idle? || (s.threads[t].o in objs && !LockFree(s.threads[t].o)))
  }

  /** The completed operations, run one at a time in the order of their unlocks, explain their results and the memory. */
  ghost predicate Inv(objs: set<Object>, start: Memory, s: State) {
    && ThreadsOk(objs, s) && LocksOk(s)
    && Explains(start, s.log) && Abstracts(s, Replay(start, s.log))
  }

  // ----- one thread's step, seen by itself and by the others

  /** A thread's own step keeps what it knows, its object and its history. */
  ghost predicate StepOk(th: Thread, mem: Memory) {
    && th.Inside() && Within(th.o, mem) && CanAdvance(th)
    && |Written(th, mem)| == |mem| && ThreadOk(Stepped(th, mem), Written(th, mem))
    && (!th.Releasing? ==> Stepped(th, mem).Inside() && Stepped(th, mem).o == th.o && Stepped(th, mem).was == th.was)
  }

  lemma CopyStep(th: Thread, mem: Memory)
    requires ThreadOk(th, mem) && th.Copying?
    ensures StepOk(th, mem)
  {
    if |th.got| < th.o.size {
      assert mem[th.o.ptr + |th.got|] == Bytes(mem, th.o)[|th.got|];
    } else {
      assert th.got == th.was;
      CopiedOk(th.o, th.op, th.was, mem);
    }
  }

  lemma CompareStep(th: Thread, mem: Memory)
    requires ThreadOk(th, mem) && th.Comparing?
    ensures StepOk(th, mem)
  {
    var was, n, e := th.was, th.equal, th.op.expected;
    if n < th.o.size {
      assert mem[th.o.ptr + n] == Bytes(mem, th.o)[n] == was[n];
      if was[n] == e[n] { assert e[..n + 1] == was[..n + 1]; }
    } else {
      assert e[..n] == e && was[..n] == was;
      assert th.op.desired[..0] + was[0..] == was;
    }
  }

  lemma WriteStep(th: Thread, mem: Memory)
    requires ThreadOk(th, mem) && th.Writing?
    ensures StepOk(th, mem)
  {
    hide NewValue, Answer;
    if th.done < th.o.size {
      WriteByte(mem, th.o, th.was, th.v, th.done);
    } else {
      assert th.v[..th.done] + th.was[th.done..] == th.v;
    }
  }

  lemma ThreadStep(th: Thread, mem: Memory)
    requires ThreadOk(th, mem) && th.Inside()
    ensures StepOk(th, mem)
  {
    match th
    case Copying(_, _, _, _) => CopyStep(th, mem);
    case Comparing(_, _, _, _) => CompareStep(th, mem);
    case Writing(_, _, _, _, _, _) => WriteStep(th, mem);
    case Releasing(_, _, _, _) =>
  }

  lemma CopiedOk(o: Object, op: Op, was: seq<Byte>, mem: Memory)
    requires Within(o, mem) && Fits(op, o.size) && Bytes(mem, o) == was && !op.Store?
    requires op.CompareExchange? ==> op.expected != was
    ensures ThreadOk(Copied(o, op, was, was), mem)
  {
    NewValueSize(op, was);
    var v := NewValue(op, was);
    assert v[..0] + was[0..] == was;
  }

  lemma WriteByte(mem: Memory, o: Object, was: seq<Byte>, v: seq<Byte>, n: nat)
    requires Within(o, mem) && n < o.size == |was| == |v| && Bytes(mem, o) == v[..n] + was[n..]
    ensures Bytes(mem[o.ptr + n := v[n]], o) == v[..n + 1] + was[n + 1..]
  {
    var m := mem[o.ptr + n := v[n]];
    forall i | 0 <= i < o.size ensures Bytes(m, o)[i] == (v[..n + 1] + was[n + 1..])[i] {
      assert Bytes(mem, o)[i] == (v[..n] + was[n..])[i];
    }
  }

  lemma EnterOk(o: Object, op: Op, mem: Memory)
    requires Within(o, mem) && Fits(op, o.size)
    ensures ThreadOk(Enter(o, op, Bytes(mem, o)), mem)
    ensures var th := Enter(o, op, Bytes(mem, o)); th.Inside() && th.o == o && th.was == Bytes(mem, o)
  {
    var was := Bytes(mem, o);
    if op.Store? { assert op.value[..0] + was[0..] == was; }
  }

  /** Another thread's write leaves a thread alone if their objects share no byte, or if it is not under its lock. */
  lemma OtherThread(th: Thread, mem: Memory, x: int, b: Byte)
    requires ThreadOk(th, mem) && 0 <= x < |mem| && (th.Inside() ==> !Covers(th.o, x))
    ensures ThreadOk(th, mem[x := b])
  {
    if th.Inside() {
      assert Bytes(mem[x := b], th.o) == Bytes(mem, th.o);
    }
  }

  // ----- every step keeps the invariant

  /** Two threads under locks work on objects without a common byte. */
  lemma HoldersDisjoint(objs: set<Object>, s: State, t: int, u: int, x: int)
    requires Guarded(objs) && ThreadsOk(objs, s) && LocksOk(s) && t != u
    requires HoldsByte(s, t, x)
    ensures !HoldsByte(s, u, x)
  {
    hide LockFor, LockFree, ThreadOk;
  }

  /** The same threads are under locks, with the same objects. */
  ghost predicate SameHolders(s: State, s': State) {
    && |s'.threads| == |s.threads|
    && forall t :: 0 <= t < |s.threads| ==>
         && s'.threads[t].Inside() == s.threads[t].Inside()
         && (s.threads[t].Inside() ==> s'.threads[t].o == s.threads[t].o && s'.threads[t].was == s.threads[t].was)
  }

  lemma SameLocks(s: State, s': State)
    requires LocksOk(s) && SameHolders(s, s') && s'.locks == s.locks
    ensures LocksOk(s')
  {
    hide LockFor;
    forall l | 0 <= l < |s'.locks| && s'.locks[l] ensures exists t :: HoldsLock(s', t, l) {
      var t :| HoldsLock(s, t, l);
      assert HoldsLock(s', t, l);
    }
  }

  lemma SameAbstract(s: State, s': State, A: Memory)
    requires Abstracts(s, A) && SameHolders(s, s') && |s'.mem| == |s.mem|
    requires forall x :: 0 <= x < |s.mem| && s'.mem[x] != s.mem[x] ==> exists t :: HoldsByte(s, t, x)
    ensures Abstracts(s', A)
  {
    forall x, t | 0 <= x < |A| && HoldsByte(s', t, x)
      ensures |s'.threads[t].was| == s'.threads[t].o.size && A[x] == s'.threads[t].was[x - s'.threads[t].o.ptr]
    {
      assert HoldsByte(s, t, x);
    }
    forall x | 0 <= x < |A| && A[x] != s'.mem[x] ensures exists t :: HoldsByte(s', t, x) {
      var t :| HoldsByte(s, t, x);
      assert HoldsByte(s', t, x);
    }
  }

  /** A lock-free operation leaves the threads under locks alone. */
  lemma DirectThread(th: Thread, mem: Memory, mem': Memory)
    requires ThreadOk(th, mem) && |mem'| == |mem|
    requires th.Inside() ==> forall x :: 0 <= x < |mem| && Covers(th.o, x) ==> mem'[x] == mem[x]
    ensures ThreadOk(th, mem')
  {
    hide NewValue, Answer;
    if th.Inside() {
      assert Within(th.o, mem);
      assert Bytes(mem', th.o) == Bytes(mem, th.o);
    }
  }

  /** Nobody under a lock holds a byte of a lock-free object. */
  lemma NobodyHolds(objs: set<Object>, s: State, o: Object, t: int, x: int)
    requires Guarded(objs) && ThreadsOk(objs, s) && o in objs && LockFree(o) && Covers(o, x)
    ensures !HoldsByte(s, t, x)
  {
    hide LockFor, LockFree, ThreadOk;
  }

  lemma DirectKeeps(objs: set<Object>, start: Memory, s: State, t: nat, o: Object, op: Op)
    requires Guarded(objs) && Inv(objs, start, s) && Enabled(objs, s, Move(t, Direct(o, op)))
    ensures Inv(objs, start, Next(objs, s, Move(t, Direct(o, op))))
  {
    hide LocksOk, Explains, Replay, ThreadOk, LockFor, LockFree, Guarded, Answer, NewValue;
    var s', A := Next(objs, s, Move(t, Direct(o, op))), Replay(start, s.log);
    var e := Event(o, op, Answer(op, Bytes(s.mem, o)));
    forall x, u | Covers(o, x) ensures !HoldsByte(s, u, x) { NobodyHolds(objs, s, o, u, x); }
    NewValueSize(op, Bytes(s.mem, o));
    forall u | 0 <= u < |s.threads| ensures ThreadOk(s.threads[u], s'.mem) {
      forall x | s.threads[u].Inside() && 0 <= x < |s.mem| && Covers(s.threads[u].o, x) ensures s'.mem[x] == s.mem[x] {
        assert HoldsByte(s, u, x);
      }
      DirectThread(s.threads[u], s.mem, s'.mem);
    }
    assert Bytes(A, o) == Bytes(s.mem, o);
    ReplaySnoc(start, s.log, e);
    LocksIrrelevant(s, s');
    DirectAbstract(s, s', A, Atomically(A, e), o);
  }

  lemma DirectAbstract(s: State, s': State, A: Memory, A': Memory, o: Object)
    requires Abstracts(s, A) && s'.threads == s.threads && |s'.mem| == |A'| == |A|
    requires forall x :: 0 <= x < |A| ==> if Covers(o, x) then A'[x] == s'.mem[x] else A'[x] == A[x] && s'.mem[x] == s.mem[x]
    requires forall x, u :: Covers(o, x) ==> !HoldsByte(s, u, x)
    ensures Abstracts(s', A')
  {
    forall x, u | 0 <= x < |A'| && HoldsByte(s', u, x)
      ensures |s'.threads[u].was| == s'.threads[u].o.size && A'[x] == s'.threads[u].was[x - s'.threads[u].o.ptr]
    {
      assert HoldsByte(s, u, x);
    }
    forall x | 0 <= x < |A'| && A'[x] != s'.mem[x] ensures exists u :: HoldsByte(s', u, x) {
      var u :| HoldsByte(s, u, x);
      assert HoldsByte(s', u, x);
    }
  }

  lemma CallKeeps(objs: set<Object>, start: Memory, s: State, t: nat, o: Object, op: Op)
    requires Inv(objs, start, s) && Enabled(objs, s, Move(t, Call(o, op)))
    ensures Inv(objs, start, Next(objs, s, Move(t, Call(o, op))))
  {
    hide LocksOk, Abstracts, Explains, Replay;
    var s' := Next(objs, s, Move(t, Call(o, op)));
    SameLocks(s, s');
    SameAbstract(s, s', Replay(start, s.log));
  }

  lemma AdvanceThreads(objs: set<Object>, s: State, t: nat)
    requires Guarded(objs) && ThreadsOk(objs, s) && LocksOk(s) && t < |s.threads| && s.threads[t].Inside()
    requires StepOk(s.threads[t], s.mem)
    requires !s.threads[t].Releasing?
    ensures var s' := s.(mem := Written(s.threads[t], s.mem), threads := s.threads[t := Stepped(s.threads[t], s.mem)]);
            ThreadsOk(objs, s')
  {
    hide ThreadOk, Stepped, LocksOk, LockFor;
    var th := s.threads[t];
    forall u | 0 <= u < |s.threads| && u != t ensures ThreadOk(s.threads[u], Written(th, s.mem)) {
      if th.Writing? && th.done < th.o.size {
        var x := th.o.ptr + th.done;
        assert HoldsByte(s, t, x);
        HoldersDisjoint(objs, s, t, u, x);
        OtherThread(s.threads[u], s.mem, x, th.v[th.done]);
      }
    }
  }

  lemma AdvanceKeeps(objs: set<Object>, start: Memory, s: State, t: nat)
    requires Guarded(objs) && Inv(objs, start, s) && Enabled(objs, s, Move(t, Advance)) && !s.threads[t].Releasing?
    ensures Inv(objs, start, Next(objs, s, Move(t, Advance)))
  {
    hide LocksOk, Abstracts, Explains, Replay, ThreadOk, Stepped, LockFor, Guarded;
    var s' := Next(objs, s, Move(t, Advance));
    ThreadStep(s.threads[t], s.mem);
    AdvanceThreads(objs, s, t);
    SameLocks(s, s');
    forall x | 0 <= x < |s.mem| && s'.mem[x] != s.mem[x] ensures exists u :: HoldsByte(s, u, x) {
      assert HoldsByte(s, t, x);
    }
    SameAbstract(s, s', Replay(start, s.log));
  }

  lemma AcquireLocks(s: State, t: nat, th: Thread)
    requires LocksOk(s) && t < |s.threads| && !s.threads[t].Inside() && th.Inside()
    requires LockFor(th.o.ptr) < SPINLOCK_COUNT && !s.locks[LockFor(th.o.ptr)]
    ensures LocksOk(s.(locks := s.locks[LockFor(th.o.ptr) := true], threads := s.threads[t := th]))
  {
    hide LockFor;
    var s' := s.(locks := s.locks[LockFor(th.o.ptr) := true], threads := s.threads[t := th]);
    forall l | 0 <= l < |s'.locks| && s'.locks[l] ensures exists u :: HoldsLock(s', u, l) {
      if l == LockFor(th.o.ptr) {
        assert HoldsLock(s', t, l);
      } else {
        var u :| HoldsLock(s, u, l);
        assert HoldsLock(s', u, l);
      }
    }
  }

  /** A free lock means that nobody holds a byte of the object, so the bytes read there are settled. */
  lemma AcquireAbstract(objs: set<Object>, s: State, t: nat, th: Thread, A: Memory)
    requires Guarded(objs) && ThreadsOk(objs, s) && LocksOk(s) && Abstracts(s, A)
    requires t < |s.threads| && !s.threads[t].Inside() && th.Inside() && th.o in objs && Within(th.o, s.mem)
    requires th.was == Bytes(s.mem, th.o) && LockFor(th.o.ptr) < SPINLOCK_COUNT && !s.locks[LockFor(th.o.ptr)]
    ensures Abstracts(s.(locks := s.locks[LockFor(th.o.ptr) := true], threads := s.threads[t := th]), A)
  {
    hide LockFor, LockFree, ThreadOk;
    var s' := s.(locks := s.locks[LockFor(th.o.ptr) := true], threads := s.threads[t := th]);
    forall x, u | 0 <= x < |A| && HoldsByte(s', u, x)
      ensures |s'.threads[u].was| == s'.threads[u].o.size && A[x] == s'.threads[u].was[x - s'.threads[u].o.ptr]
    {
      if u != t { assert HoldsByte(s, u, x); }
    }
    forall x | 0 <= x < |A| && A[x] != s'.mem[x] ensures exists u :: HoldsByte(s', u, x) {
      var u :| HoldsByte(s, u, x);
      assert HoldsByte(s', u, x);
    }
  }

  lemma TryLockKeeps(objs: set<Object>, start: Memory, s: State, t: nat, spurious: bool)
    requires Guarded(objs) && Inv(objs, start, s) && Enabled(objs, s, Move(t, TryLock(spurious)))
    ensures Inv(objs, start, Next(objs, s, Move(t, TryLock(spurious))))
  {
    hide LocksOk, Abstracts, Explains, Replay, ThreadOk, LockFor, Guarded, Enter;
    var th := s.threads[t];
    LockInTable(th.o.ptr);
    WaitingFacts(th, s.mem);
    if !spurious && !s.locks[LockFor(th.o.ptr)] {
      var th' := Enter(th.o, th.op, Bytes(s.mem, th.o));
      EnterOk(th.o, th.op, s.mem);
      AcquireLocks(s, t, th');
      AcquireAbstract(objs, s, t, th', Replay(start, s.log));
    }
  }

  lemma WaitingFacts(th: Thread, mem: Memory)
    requires th.Waiting? && ThreadOk(th, mem)
    ensures Within(th.o, mem) && Fits(th.op, th.o.size)
  {}

  lemma ReleaseLocks(s: State, t: nat)
    requires LocksOk(s) && t < |s.threads| && s.threads[t].Inside() && LockFor(s.threads[t].o.ptr) < SPINLOCK_COUNT
    ensures LocksOk(s.(locks := s.locks[LockFor(s.threads[t].o.ptr) := false], threads := s.threads[t := Idle]))
  {
    hide LockFor;
    var s' := s.(locks := s.locks[LockFor(s.threads[t].o.ptr) := false], threads := s.threads[t := Idle]);
    forall l | 0 <= l < |s'.locks| && s'.locks[l] ensures exists u :: HoldsLock(s', u, l) {
      var u :| HoldsLock(s, u, l);
      assert HoldsLock(s', u, l);
    }
  }

  /** At the unlock the operation takes effect in the abstract memory. */
  lemma ReleaseAbstract(objs: set<Object>, s: State, t: nat, A: Memory)
    requires Guarded(objs) && ThreadsOk(objs, s) && LocksOk(s) && Abstracts(s, A)
    requires t < |s.threads| && s.threads[t].Releasing?
    ensures var th := s.threads[t]; var e := Event(th.o, th.op, th.r);
            && EventOk(e, A) && e.result == Answer(e.op, Bytes(A, e.o))
            && Abstracts(s.(threads := s.threads[t := Idle]), Atomically(A, e))
  {
    hide LockFor, LocksOk, Guarded, NewValue, Answer;
    var th := s.threads[t];
    assert ThreadOk(th, s.mem);
    assert Bytes(A, th.o) == th.was by {
      forall i | 0 <= i < th.o.size ensures Bytes(A, th.o)[i] == th.was[i] {
        assert HoldsByte(s, t, th.o.ptr + i);
      }
    }
    NewValueSize(th.op, th.was);
    ReleaseBytes(objs, s, t, A, Updated(A, th.o, NewValue(th.op, th.was)));
  }

  lemma ReleaseBytes(objs: set<Object>, s: State, t: nat, A: Memory, A': Memory)
    requires Guarded(objs) && ThreadsOk(objs, s) && LocksOk(s) && Abstracts(s, A)
    requires t < |s.threads| && s.threads[t].Inside() && Within(s.threads[t].o, s.mem)
    requires |A'| == |A| && Bytes(A', s.threads[t].o) == Bytes(s.mem, s.threads[t].o)
    requires forall x :: 0 <= x < |A| && !Covers(s.threads[t].o, x) ==> A'[x] == A[x]
    ensures Abstracts(s.(threads := s.threads[t := Idle]), A')
  {
    hide LockFor, LocksOk, Guarded, ThreadOk;
    var o, s' := s.threads[t].o, s.(threads := s.threads[t := Idle]);
    forall x, u | 0 <= x < |A'| && HoldsByte(s', u, x)
      ensures |s'.threads[u].was| == s'.threads[u].o.size && A'[x] == s'.threads[u].was[x - s'.threads[u].o.ptr]
    {
      assert HoldsByte(s, u, x);
      HoldersDisjoint(objs, s, u, t, x);
    }
    forall x | 0 <= x < |A'| ensures A'[x] == s.mem[x] || exists u :: HoldsByte(s', u, x) {
      if Covers(o, x) {
        assert A'[x] == Bytes(A', o)[x - o.ptr] && s.mem[x] == Bytes(s.mem, o)[x - o.ptr];
      } else if A'[x] != s.mem[x] {
        var u :| HoldsByte(s, u, x);
        assert HoldsByte(s', u, x);
      }
    }
  }

  lemma ReleaseKeeps(objs: set<Object>, start: Memory, s: State, t: nat)
    requires Guarded(objs) && Inv(objs, start, s) && Enabled(objs, s, Move(t, Advance)) && s.threads[t].Releasing?
    ensures Inv(objs, start, Next(objs, s, Move(t, Advance)))
  {
    hide LocksOk, Abstracts, Explains, Replay, ThreadOk, LockFor, Guarded, Answer, Atomically;
    var th := s.threads[t];
    var e := Event(th.o, th.op, th.r);
    LockInTable(th.o.ptr);
    ReleaseLocks(s, t);
    ReleaseAbstract(objs, s, t, Replay(start, s.log));
    ReplaySnoc(start, s.log, e);
    var s' := Next(objs, s, Move(t, Advance));
    LogIrrelevant(s.(threads := s.threads[t := Idle]), s', Replay(start, s'.log));
    LocksIrrelevant(s.(locks := s'.locks, threads := s'.threads), s');
    IdleOk(s.mem);
  }

  lemma IdleOk(mem: Memory)
    ensures ThreadOk(Idle, mem)
  {}

  lemma LogIrrelevant(s: State, s': State, A: Memory)
    requires Abstracts(s, A) && s'.mem == s.mem && s'.threads == s.threads
    ensures Abstracts(s', A)
  {
    SameAbstract(s, s', A);
  }

  lemma LocksIrrelevant(s: State, s': State)
    requires LocksOk(s) && s'.locks == s.locks && s'.threads == s.threads
    ensures LocksOk(s')
  {
    SameLocks(s, s');
  }

  lemma StepKeeps(objs: set<Object>, start: Memory, s: State, m: Move)
    requires Guarded(objs) && Inv(objs, start, s) && Enabled(objs, s, m)
    ensures Inv(objs, start, Next(objs, s, m))
  {
    hide Inv, Next, Guarded;
    match m.a
    case Direct(o, op) => DirectKeeps(objs, start, s, m.t, o, op);
    case Call(o, op) => CallKeeps(objs, start, s, m.t, o, op);
    case TryLock(spurious) => TryLockKeeps(objs, start, s, m.t, spurious);
    case Advance =>
      if s.threads[m.t].Releasing? {
        ReleaseKeeps(objs, start, s, m.t);
      } else {
        AdvanceKeeps(objs, start, s, m.t);
      }
  }

  lemma InitialInv(objs: set<Object>, s: State)
    requires Initial(s)
    ensures Inv(objs, s.mem, s)
  {}

  // ----- whole runs

  lemma {:induction false} RunKeeps(objs: set<Object>, start: Memory, s: State, moves: seq<Move>)
    requires Guarded(objs) && Inv(objs, start, s) && CanRun(objs, s, moves)
    ensures Inv(objs, start, After(objs, s, moves))
    decreases |moves|
  {
    hide Inv, Guarded, Enabled, Next;
    if moves != [] {
      StepKeeps(objs, start, s, moves[0]);
      RunKeeps(objs, start, Next(objs, s, moves[0]), moves[1..]);
    }
  }

  lemma SteppedHolds(th: Thread, mem: Memory)
    requires th.Inside() && Within(th.o, mem) && CanAdvance(th) && !th.Releasing?
    ensures Stepped(th, mem).Inside() && Stepped(th, mem).o == th.o && Stepped(th, mem).was == th.was
  {}

  /** The locks are kept whatever the objects are. */
  lemma StepKeepsLocks(objs: set<Object>, s: State, m: Move)
    requires LocksOk(s) && Enabled(objs, s, m)
    ensures LocksOk(Next(objs, s, m))
  {
    hide LocksOk, LockFor, LockFree, Stepped, Enter, Written, Atomically;
    var th, s' := s.threads[m.t], Next(objs, s, m);
    match m.a
    case Direct(_, _) => LocksIrrelevant(s, s');
    case Call(_, _) => SameLocks(s, s');
    case TryLock(spurious) =>
      LockInTable(th.o.ptr);
      if !spurious && !s.locks[LockFor(th.o.ptr)] && Within(th.o, s.mem) {
        EnterHolds(th.o, th.op, Bytes(s.mem, th.o));
        AcquireLocks(s, m.t, Enter(th.o, th.op, Bytes(s.mem, th.o)));
      }
    case Advance =>
      LockInTable(th.o.ptr);
      if th.Releasing? {
        ReleaseLocks(s, m.t);
        LocksIrrelevant(s.(locks := s'.locks, threads := s'.threads), s');
      } else {
        SteppedHolds(th, s.mem);
        SameLocks(s, s');
      }
  }

  lemma EnterHolds(o: Object, op: Op, was: seq<Byte>)
    ensures Enter(o, op, was).Inside() && Enter(o, op, was).o == o
  {}

  lemma {:induction false} RunKeepsLocks(objs: set<Object>, s: State, moves: seq<Move>)
    requires LocksOk(s) && CanRun(objs, s, moves)
    ensures LocksOk(After(objs, s, moves))
    decreases |moves|
  {
    hide LocksOk, Enabled, Next;
    if moves != [] {
      StepKeepsLocks(objs, s, moves[0]);
      RunKeepsLocks(objs, Next(objs, s, moves[0]), moves[1..]);
    }
  }

  /** In every reachable state a lock word is set if and only if exactly one thread is between its lock and unlock. */
  lemma MutualExclusion(objs: set<Object>, s: State, moves: seq<Move>, l: nat)
    requires Initial(s) && CanRun(objs, s, moves) && l < SPINLOCK_COUNT
    ensures var z := After(objs, s, moves);
            && |z.locks| == SPINLOCK_COUNT && (z.locks[l] <==> exists t :: HoldsLock(z, t, l))
            && (forall t, u :: HoldsLock(z, t, l) && HoldsLock(z, u, l) ==> t == u)
  {
    hide LockFor;
    RunKeepsLocks(objs, s, moves);
  }

  /** No operation is under way. */
  ghost predicate Quiet(s: State) {
    forall t :: 0 <= t < |s.threads| ==> !s.threads[t].Inside()
  }

  /** Every run is explained by its operations taking effect one at a time, each between its call and its return. */
  lemma RunsAreAtomic(objs: set<Object>, s: State, moves: seq<Move>)
    requires Guarded(objs) && Initial(s) && CanRun(objs, s, moves)
    ensures var z := After(objs, s, moves);
            && Explains(s.mem, z.log) && Abstracts(z, Replay(s.mem, z.log))
            && (Quiet(z) ==> z.mem == Replay(s.mem, z.log))
  {
    hide LockFor, ThreadsOk, Explains, LocksOk, Guarded;
    InitialInv(objs, s);
    RunKeeps(objs, s.mem, s, moves);
    var z := After(objs, s, moves);
    var A := Replay(s.mem, z.log);
    if Quiet(z) {
      forall x | 0 <= x < |A| ensures A[x] == z.mem[x] {
        assert forall t :: !HoldsByte(z, t, x);
      }
    }
  }

  /** How many more steps a thread under its lock takes at most. */
  function Remaining(th: Thread): nat
    requires th.Inside()
  {
    match th
    case Comparing(o, _, _, n) => 3 * o.size + 4 - (if n <= o.size then n else o.size)
    case Copying(o, _, _, got) => 2 * o.size + 2 - (if |got| <= o.size then |got| else o.size)
    case Writing(o, _, _, _, n, _) => o.size + 1 - (if n <= o.size then n else o.size)
    case Releasing(_, _, _, _) => 0
  }

  /** A thread under its lock can always take a step and gets nearer to its unlock; other threads cannot hinder it. */
  lemma HolderAdvances(objs: set<Object>, start: Memory, s: State, t: nat)
    requires Guarded(objs) && Inv(objs, start, s) && t < |s.threads| && s.threads[t].Inside()
    ensures Enabled(objs, s, Move(t, Advance))
    ensures var th := Next(objs, s, Move(t, Advance)).threads[t];
            if s.threads[t].Releasing? then th.Idle? else th.Inside() && Remaining(th) < Remaining(s.threads[t])
    ensures forall m :: Enabled(objs, s, m) && m.t != t ==> Next(objs, s, m).threads[t] == s.threads[t]
  {
    hide Explains, Abstracts, LockFor, Guarded;
    ThreadStep(s.threads[t], s.mem);
  }
}
