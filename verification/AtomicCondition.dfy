/** Exactly when the operations of atomic.c are atomic: objects that share a byte must share a lock, or all be lock-free. */
module AtomicCondition {
  import opened Atomic
  import opened AtomicProtocol

  /** Some order of the completed operations explains their results and the memory they left. */
  ghost predicate Serializable(start: Memory, log: seq<Event>, final: Memory) {
    exists order: seq<Event> :: IsOrder(order, log) && Explains(start, order) && Replay(start, order) == final
  }

  ghost predicate IsOrder(order: seq<Event>, log: seq<Event>) {
    multiset(order) == multiset(log)
  }

  // ----- runs in pieces

  lemma {:induction false} RunAppend(objs: set<Object>, s: State, a: seq<Move>, b: seq<Move>)
    requires CanRun(objs, s, a) && CanRun(objs, After(objs, s, a), b)
    ensures CanRun(objs, s, a + b) && After(objs, s, a + b) == After(objs, After(objs, s, a), b)
    decreases |a|
  {
    hide Enabled, Next;
    if a == [] {
      assert a + b == b;
    } else {
      assert (a + b)[1..] == a[1..] + b;
      RunAppend(objs, Next(objs, s, a[0]), a[1..], b);
    }
  }

  ghost predicate Runs(objs: set<Object>, s: State, moves: seq<Move>, z: State) {
    CanRun(objs, s, moves) && After(objs, s, moves) == z
  }

  lemma RunsTrans(objs: set<Object>, s: State, a: seq<Move>, y: State, b: seq<Move>, z: State)
    requires Runs(objs, s, a, y) && Runs(objs, y, b, z)
    ensures Runs(objs, s, a + b, z)
  {
    RunAppend(objs, s, a, b);
  }

  lemma RunsOne(objs: set<Object>, s: State, m: Move)
    requires Enabled(objs, s, m)
    ensures Runs(objs, s, [m], Next(objs, s, m))
  {
    hide Enabled, Next;
    assert [m][1..] == [] && CanRun(objs, Next(objs, s, m), []);
    assert After(objs, Next(objs, s, m), []) == Next(objs, s, m);
  }

  /** k steps of one thread under its lock. */
  function Advances(t: nat, k: nat): seq<Move> {
    if k == 0 then [] else [Move(t, Advance)] + Advances(t, k - 1)
  }

  /** Copying the rest of the object out. */
  lemma {:induction false} CopyRun(objs: set<Object>, s: State, t: nat, got: seq<Byte>, k: nat)
    requires |s.locks| == SPINLOCK_COUNT && t < |s.threads| && s.threads[t].Copying? && s.threads[t].got == got
    requires Within(s.threads[t].o, s.mem) && !s.threads[t].op.Store? && |got| + k == s.threads[t].o.size
    requires got == Bytes(s.mem, s.threads[t].o)[..|got|]
    ensures Runs(objs, s, Advances(t, k),
                 s.(threads := s.threads[t := s.threads[t].(got := Bytes(s.mem, s.threads[t].o))]))
    decreases k
  {
    hide LockFor;
    var th := s.threads[t];
    var all := Bytes(s.mem, th.o);
    if k == 0 {
      assert all[..|got|] == all;
      assert s.threads[t := th.(got := all)] == s.threads;
    } else {
      var m := Move(t, Advance);
      var got' := got + [s.mem[th.o.ptr + |got|]];
      assert got' == all[..|got| + 1];
      var s' := Next(objs, s, m);
      assert s' == s.(threads := s.threads[t := th.(got := got')]);
      CopyRun(objs, s', t, got', k - 1);
      RunsOne(objs, s, m);
      var z := s.(threads := s.threads[t := th.(got := all)]);
      assert s'.threads[t := th.(got := all)] == z.threads;
      RunsTrans(objs, s, [m], s', Advances(t, k - 1), z);
    }
  }

  /** Copying the rest of the new value in. */
  lemma {:induction false} WriteRun(objs: set<Object>, s: State, t: nat, n: nat, k: nat)
    requires |s.locks| == SPINLOCK_COUNT && t < |s.threads| && s.threads[t].Writing? && s.threads[t].done == n
    requires Within(s.threads[t].o, s.mem) && |s.threads[t].v| == s.threads[t].o.size == n + k
    requires forall i :: 0 <= i < n ==> s.mem[s.threads[t].o.ptr + i] == s.threads[t].v[i]
    ensures Runs(objs, s, Advances(t, k),
                 s.(mem := Updated(s.mem, s.threads[t].o, s.threads[t].v), threads := s.threads[t := s.threads[t].(done := n + k)]))
    decreases k
  {
    hide LockFor;
    var th := s.threads[t];
    var z := s.(mem := Updated(s.mem, th.o, th.v), threads := s.threads[t := th.(done := n + k)]);
    if k == 0 {
      assert Updated(s.mem, th.o, th.v) == s.mem;
      assert s.threads[t := th.(done := n + k)] == s.threads;
    } else {
      var m := Move(t, Advance);
      var s' := Next(objs, s, m);
      assert s' == s.(mem := s.mem[th.o.ptr + n := th.v[n]], threads := s.threads[t := th.(done := n + 1)]);
      WriteRun(objs, s', t, n + 1, k - 1);
      assert Updated(s'.mem, th.o, th.v) == z.mem;
      assert s'.threads[t := th.(done := n + 1).(done := n + k)] == z.threads;
      RunsOne(objs, s, m);
      RunsTrans(objs, s, [m], s', Advances(t, k - 1), z);
    }
  }

  // ----- an exchange torn by a store

  function Filled(size: nat, b: Byte): (v: seq<Byte>)
    ensures |v| == size && forall i :: 0 <= i < size ==> v[i] == b
  {
    seq(size, _ => b)
  }

  function Length(o: Object, o': Object): nat {
    if o.ptr + o.size < o'.ptr + o'.size then o'.ptr + o'.size else o.ptr + o.size
  }

  function Start(o: Object, o': Object): State {
    State(Filled(Length(o, o'), 0), seq(SPINLOCK_COUNT, _ => false), [Idle, Idle], [])
  }

  /** The first thread has copied the object out and not yet written it. */
  lemma ExchangeHalfway(objs: set<Object>, o: Object, o': Object) returns (moves: seq<Move>, z: State)
    requires o in objs && !LockFree(o)
    ensures Runs(objs, Start(o, o'), moves, z)
    ensures var s := Start(o, o'); var op, zeros := Exchange(Filled(o.size, 1)), Filled(o.size, 0);
            && LockFor(o.ptr) < SPINLOCK_COUNT
            && z == s.(locks := s.locks[LockFor(o.ptr) := true],
                       threads := [Writing(o, op, zeros, Filled(o.size, 1), 0, Result(true, zeros)), Idle])
  {
    hide LockFor;
    LockInTable(o.ptr);
    var s := Start(o, o');
    var op, zeros := Exchange(Filled(o.size, 1)), Filled(o.size, 0);
    assert Bytes(s.mem, o) == zeros;
    var m1, m2, m3 := Move(0, Call(o, op)), Move(0, TryLock(false)), Move(0, Advance);
    RunsOne(objs, s, m1);
    var s1 := Next(objs, s, m1);
    assert s1.threads == [Waiting(o, op), Idle];
    RunsOne(objs, s1, m2);
    var s2 := Next(objs, s1, m2);
    assert s2.threads == [Copying(o, op, zeros, []), Idle];
    CopyRun(objs, s2, 0, [], o.size);
    var s3 := s2.(threads := [Copying(o, op, zeros, zeros), Idle]);
    assert s2.threads[0 := s2.threads[0].(got := zeros)] == s3.threads;
    RunsOne(objs, s3, m3);
    z := Next(objs, s3, m3);
    assert z.threads == [Writing(o, op, zeros, Filled(o.size, 1), 0, Result(true, zeros)), Idle];
    RunsTrans(objs, s, [m1], s1, [m2], s2);
    RunsTrans(objs, s, [m1] + [m2], s2, Advances(0, o.size), s3);
    RunsTrans(objs, s, [m1] + [m2] + Advances(0, o.size), s3, [m3], z);
    moves := [m1] + [m2] + Advances(0, o.size) + [m3];
  }

  /** A thread that has written nothing yet writes its object, unlocks and returns. */
  lemma FinishWrite(objs: set<Object>, s: State, t: nat) returns (moves: seq<Move>, z: State)
    requires |s.locks| == SPINLOCK_COUNT && t < |s.threads| && s.threads[t].Writing? && s.threads[t].done == 0
    requires Within(s.threads[t].o, s.mem) && |s.threads[t].v| == s.threads[t].o.size
    ensures Runs(objs, s, moves, z)
    ensures var th := s.threads[t];
            && LockFor(th.o.ptr) < SPINLOCK_COUNT
            && z == State(Updated(s.mem, th.o, th.v), s.locks[LockFor(th.o.ptr) := false], s.threads[t := Idle],
                          s.log + [Event(th.o, th.op, th.r)])
  {
    hide LockFor;
    var th, m := s.threads[t], Move(t, Advance);
    LockInTable(th.o.ptr);
    WriteRun(objs, s, t, 0, th.o.size);
    var s1 := s.(mem := Updated(s.mem, th.o, th.v), threads := s.threads[t := th.(done := th.o.size)]);
    RunsOne(objs, s1, m);
    var s2 := Next(objs, s1, m);
    assert s2 == s1.(threads := s.threads[t := Releasing(th.o, th.op, th.was, th.r)]);
    RunsOne(objs, s2, m);
    z := Next(objs, s2, m);
    assert z.threads == s.threads[t := Idle];
    RunsTrans(objs, s, Advances(t, th.o.size), s1, [m], s2);
    RunsTrans(objs, s, Advances(t, th.o.size) + [m], s2, [m], z);
    moves := Advances(t, th.o.size) + [m] + [m];
  }

  /** The second thread enters a store under its own, different lock. */
  lemma StoreEnters(objs: set<Object>, s: State, o': Object) returns (z: State)
    requires |s.locks| == SPINLOCK_COUNT && |s.threads| == 2 && s.threads[1] == Idle && o' in objs && !LockFree(o') && Within(o', s.mem)
    requires LockFor(o'.ptr) < SPINLOCK_COUNT && !s.locks[LockFor(o'.ptr)]
    ensures var op := Store(Filled(o'.size, 2));
            && z == s.(locks := s.locks[LockFor(o'.ptr) := true],
                       threads := s.threads[1 := Writing(o', op, Bytes(s.mem, o'), Filled(o'.size, 2), 0, Result(true, []))])
            && Runs(objs, s, [Move(1, Call(o', op))] + [Move(1, TryLock(false))], z)
  {
    hide LockFor;
    var op := Store(Filled(o'.size, 2));
    var m1, m2 := Move(1, Call(o', op)), Move(1, TryLock(false));
    RunsOne(objs, s, m1);
    var s1 := Next(objs, s, m1);
    RunsOne(objs, s1, m2);
    z := Next(objs, s1, m2);
    assert z.threads == s.threads[1 := Writing(o', op, Bytes(s.mem, o'), Filled(o'.size, 2), 0, Result(true, []))];
    RunsTrans(objs, s, [m1], s1, [m2], z);
  }

  /** What a run leaves in which a store falls between the two copies of an exchange. */
  ghost predicate Torn(z: State, o: Object, o': Object) {
    && Quiet(z) && z.mem == Updated(Updated(Start(o, o').mem, o', Filled(o'.size, 2)), o, Filled(o.size, 1))
    && z.log == [Event(o', Store(Filled(o'.size, 2)), Result(true, [])),
                 Event(o, Exchange(Filled(o.size, 1)), Result(true, Filled(o.size, 0)))]
  }

  /** A whole run in which a store under another lock falls between the two copies of an exchange. */
  lemma TornRun(objs: set<Object>, o: Object, o': Object) returns (moves: seq<Move>, z: State)
    requires o in objs && o' in objs && !LockFree(o) && !LockFree(o') && LockFor(o.ptr) != LockFor(o'.ptr)
    ensures Runs(objs, Start(o, o'), moves, z) && Torn(z, o, o')
  {
    hide LockFor, LockFree, Runs;
    var s := Start(o, o');
    LockInTable(o'.ptr);
    var a, s1 := ExchangeHalfway(objs, o, o');
    var s2 := StoreEnters(objs, s1, o');
    var b := [Move(1, Call(o', Store(Filled(o'.size, 2))))] + [Move(1, TryLock(false))];
    var c, s3 := FinishWrite(objs, s2, 1);
    var d, s4 := FinishWrite(objs, s3, 0);
    RunsTrans(objs, s, a, s1, b, s2);
    RunsTrans(objs, s, a + b, s2, c, s3);
    RunsTrans(objs, s, a + b + c, s3, d, s4);
    moves, z := a + b + c + d, s4;
  }

  /** A whole run in which a lock-free store, which takes no lock, does the same. */
  lemma DirectTornRun(objs: set<Object>, o: Object, o': Object) returns (moves: seq<Move>, z: State)
    requires o in objs && o' in objs && !LockFree(o) && LockFree(o')
    ensures Runs(objs, Start(o, o'), moves, z) && Torn(z, o, o')
  {
    hide LockFor, LockFree, Runs;
    var s := Start(o, o');
    var a, s1 := ExchangeHalfway(objs, o, o');
    var m := Move(1, Direct(o', Store(Filled(o'.size, 2))));
    RunsOne(objs, s1, m);
    var s2 := Next(objs, s1, m);
    var d, s3 := FinishWrite(objs, s2, 0);
    RunsTrans(objs, s, a, s1, [m], s2);
    RunsTrans(objs, s, a + [m], s2, d, s3);
    moves, z := a + [m] + d, s3;
  }

  /** No order of the two operations explains that run. */
  lemma TornNotSerializable(o: Object, o': Object, x: int)
    requires Covers(o, x) && Covers(o', x)
    ensures var s := Start(o, o');
            var e', e := Event(o', Store(Filled(o'.size, 2)), Result(true, [])),
                         Event(o, Exchange(Filled(o.size, 1)), Result(true, Filled(o.size, 0)));
            !Serializable(s.mem, [e', e], Updated(Updated(s.mem, o', Filled(o'.size, 2)), o, Filled(o.size, 1)))
  {
    var s := Start(o, o');
    var e', e := Event(o', Store(Filled(o'.size, 2)), Result(true, [])),
                 Event(o, Exchange(Filled(o.size, 1)), Result(true, Filled(o.size, 0)));
    var final := Updated(Updated(s.mem, o', Filled(o'.size, 2)), o, Filled(o.size, 1));
    forall order: seq<Event> | IsOrder(order, [e', e]) ensures !Explains(s.mem, order) || Replay(s.mem, order) != final {
      TwoOrders(order, e', e);
      if order == [e, e'] {
        StoreLast(s.mem, e, o', x, o);
      } else {
        ExchangeLast(s.mem, o', o, x);
      }
    }
  }

  lemma TwoOrders(order: seq<Event>, a: Event, b: Event)
    requires IsOrder(order, [a, b])
    ensures order == [a, b] || order == [b, a]
  {
    assert |multiset(order)| == 2;
    assert order[0] in multiset(order) && order[1] in multiset(order);
    assert order == [order[0], order[1]];
    assert multiset(order) == multiset{order[0], order[1]};
    assert multiset([a, b]) == multiset{a, b};
  }

  /** If the store comes last, the shared byte holds what it stored. */
  lemma StoreLast(mem: Memory, e: Event, o': Object, x: int, o: Object)
    requires Within(o', mem) && Covers(o', x)
    ensures Replay(mem, [e, Event(o', Store(Filled(o'.size, 2)), Result(true, []))])[x] == 2
  {
    var e' := Event(o', Store(Filled(o'.size, 2)), Result(true, []));
    ReplaySnoc(mem, [e], e');
    assert [e] + [e'] == [e, e'];
  }

  /** If the exchange comes last, it finds what was stored in the shared byte. */
  lemma ExchangeLast(mem: Memory, o': Object, o: Object, x: int)
    requires Within(o, mem) && Within(o', mem) && Covers(o', x) && Covers(o, x)
    ensures !Explains(mem, [Event(o', Store(Filled(o'.size, 2)), Result(true, [])),
                            Event(o, Exchange(Filled(o.size, 1)), Result(true, Filled(o.size, 0)))])
  {
    var e', e := Event(o', Store(Filled(o'.size, 2)), Result(true, [])),
                 Event(o, Exchange(Filled(o.size, 1)), Result(true, Filled(o.size, 0)));
    ReplaySnoc(mem, [e'], e);
    assert [e'] + [e] == [e', e];
    var mem1 := Replay(mem, [e']);
    ReplaySnoc(mem, [], e');
    assert [] + [e'] == [e'];
    assert mem1[x] == 2 && Bytes(mem1, o)[x - o.ptr] == 2;
    assert Filled(o.size, 0)[x - o.ptr] == 0;
  }

  /** Every complete run on these objects behaves as if its operations had taken effect one at a time. */
  ghost predicate AlwaysSerializable(objs: set<Object>) {
    forall s: State, moves: seq<Move> ::
      Initial(s) && CanRun(objs, s, moves) && Quiet(After(objs, s, moves)) ==>
        Serializable(s.mem, After(objs, s, moves).log, After(objs, s, moves).mem)
  }

  /** The operations are atomic exactly for sets of objects in which objects that share a byte share a lock or are lock-free both. */
  lemma AtomicIffGuarded(objs: set<Object>)
    ensures AlwaysSerializable(objs) <==> Guarded(objs)
  {
    hide LockFor, Initial, CanRun, After, Explains, Replay, Abstracts;
    if Guarded(objs) {
      forall s: State, moves: seq<Move> | Initial(s) && CanRun(objs, s, moves) && Quiet(After(objs, s, moves))
        ensures Serializable(s.mem, After(objs, s, moves).log, After(objs, s, moves).mem)
      {
        RunsAreAtomic(objs, s, moves);
        assert IsOrder(After(objs, s, moves).log, After(objs, s, moves).log);
      }
    } else {
      UnguardedFails(objs);
    }
  }

  lemma UnguardedFails(objs: set<Object>)
    requires !Guarded(objs)
    ensures !AlwaysSerializable(objs)
  {
    hide LockFor, LockFree;
    var p, q :| p in objs && q in objs && Overlap(p, q) && !SameGuard(p, q);
    var x :| Covers(p, x) && Covers(q, x);
    if LockFree(p) {
      var moves, z := DirectTornRun(objs, q, p);
      TornFails(objs, q, p, x, moves, z);
    } else if LockFree(q) {
      var moves, z := DirectTornRun(objs, p, q);
      TornFails(objs, p, q, x, moves, z);
    } else {
      var moves, z := TornRun(objs, p, q);
      TornFails(objs, p, q, x, moves, z);
    }
  }

  lemma TornFails(objs: set<Object>, o: Object, o': Object, x: int, moves: seq<Move>, z: State)
    requires Covers(o, x) && Covers(o', x) && Runs(objs, Start(o, o'), moves, z) && Torn(z, o, o')
    ensures !AlwaysSerializable(objs)
  {
    hide LockFor, LockFree, Serializable, Quiet;
    TornNotSerializable(o, o', x);
    StartInitial(o, o');
  }

  lemma StartInitial(o: Object, o': Object)
    ensures Initial(Start(o, o'))
  {}

  /** Two locked objects that overlap across a 16-byte boundary and have different locks. */
  lemma UnguardedPair()
    ensures !LockFree(Object(8, 24)) && !LockFree(Object(24, 24)) && !Guarded({Object(8, 24), Object(24, 24)})
  {
    assert Covers(Object(8, 24), 24) && Covers(Object(24, 24), 24);
    assert Overlap(Object(8, 24), Object(24, 24));
    assert LockFor(8) == 0 && LockFor(24) == 1;
  }

  /** A structure of three words and its first word, which is lock-free. */
  lemma MixedPair()
    ensures LockFree(Object(16, 8)) && !LockFree(Object(16, 24)) && !Guarded({Object(16, 8), Object(16, 24)})
  {
    assert Covers(Object(16, 8), 16) && Covers(Object(16, 24), 16);
    assert Overlap(Object(16, 8), Object(16, 24));
  }
}
