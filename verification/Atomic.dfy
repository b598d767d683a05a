/**
 compiler-rt's atomic.c: objects of a lock-free size and alignment are handled by one machine operation, all others by a
 table of spinlocks, an object's lock found by hashing its address, and loads, stores, exchanges, compare-exchanges and
 read-modify-writes that copy the object byte by byte under the lock.  Any number of threads take steps in any order.
 */
module Atomic {
  import opened Arith
  import opened Bits

  // ----- objects and locks

  type Byte = x: int | 0 <= x < 256

  datatype Object = Object(ptr: nat, size: nat)

  const SPINLOCK_COUNT: nat := 1024

  /** lock_for_pointer: bits 4 to 13 of the address, perturbed by bits 20 to 29. */
  function LockFor(ptr: nat): nat {
    var hash := ptr / 16;
    var low := hash % SPINLOCK_COUNT;
    Xor(hash / 0x1_0000 % SPINLOCK_COUNT, low)
  }

  lemma LockInTable(ptr: nat)
    ensures LockFor(ptr) < SPINLOCK_COUNT
  {
    assert Pow(2, 5) == 32;
    PowAdd(2, 5, 5);
    XorBound(ptr / 16 / 0x1_0000 % SPINLOCK_COUNT, ptr / 16 % SPINLOCK_COUNT, 10);
  }

  /** IS_LOCK_FREE_n on x86-64: an aligned object of one of the sizes that the machine handles in one operation. */
  predicate LockFree(o: Object) {
    (o.size == 1 || o.size == 2 || o.size == 4 || o.size == 8) && o.ptr % o.size == 0
  }

  predicate Covers(o: Object, x: int) {
    o.ptr <= x < o.ptr + o.size
  }

  ghost predicate Overlap(o: Object, o': Object) {
    exists x :: Covers(o, x) && Covers(o', x)
  }

  /** Both objects are lock-free, or both take the same lock. */
  predicate SameGuard(o: Object, o': Object) {
    if LockFree(o) then LockFree(o') else !LockFree(o') && LockFor(o.ptr) == LockFor(o'.ptr)
  }

  /** Objects that share a byte are guarded in the same way. */
  ghost predicate Guarded(objs: set<Object>) {
    forall o, o' :: o in objs && o' in objs && Overlap(o, o') ==> SameGuard(o, o')
  }

  /**
   Objects are guarded if no lock-free one overlaps a locked one and the locked ones each lie inside one 16-byte block, as
   aligned ones of up to 16 bytes do.
   */
  lemma BlocksAreGuarded(objs: set<Object>)
    requires forall o :: o in objs && !LockFree(o) ==> o.size == 0 || o.ptr / 16 == (o.ptr + o.size - 1) / 16
    requires forall o, o' :: o in objs && o' in objs && Overlap(o, o') ==> LockFree(o) == LockFree(o')
    ensures Guarded(objs)
  {
    hide LockFree;
    forall o, o' | o in objs && o' in objs && Overlap(o, o') ensures SameGuard(o, o') {
      if !LockFree(o) {
        var x :| Covers(o, x) && Covers(o', x);
        assert o.ptr / 16 == x / 16 == o'.ptr / 16;
      }
    }
  }

  // ----- what the operations mean

  datatype Rmw = Add | Sub | AndOp | OrOp | XorOp

  datatype Op =
    | Load
    | Store(value: seq<Byte>)
    | Exchange(value: seq<Byte>)
    | CompareExchange(expected: seq<Byte>, desired: seq<Byte>)
    | FetchOp(rmw: Rmw, operand: seq<Byte>)

  /** What the caller gets back: the flag of a compare-exchange, and the bytes copied out. */
  datatype Result = Result(ok: bool, value: seq<Byte>)

  predicate Fits(op: Op, size: nat) {
    match op
    case Load => true
    case Store(v) => |v| == size
    case Exchange(v) => |v| == size
    case CompareExchange(e, d) => |e| == size && |d| == size
    case FetchOp(_, v) => |v| == size
  }

  /** The number in a little-endian sequence of bytes. */
  function Number(v: seq<Byte>): nat {
    if v == [] then 0 else v[0] + 256 * Number(v[1..])
  }

  function ToBytes(n: nat, size: nat): (v: seq<Byte>)
    ensures |v| == size
  {
    if size == 0 then [] else [n % 256] + ToBytes(n / 256, size - 1)
  }

  /** C's operator on unsigned integers with modulus m. */
  function Apply(rmw: Rmw, a: nat, b: nat, m: nat): nat
    requires 0 < m
  {
    match rmw
    case Add => (a + b) % m
    case Sub => (a - b) % m
    case AndOp => And(a, b) % m
    case OrOp => Or(a, b) % m
    case XorOp => Xor(a, b) % m
  }

  function Combine(rmw: Rmw, old_: seq<Byte>, operand: seq<Byte>): seq<Byte> {
    PowPos(256, |old_|);
    ToBytes(Apply(rmw, Number(old_), Number(operand), Pow(256, |old_|)), |old_|)
  }

  lemma {:induction false} NumberToBytes(n: nat, size: nat)
    requires n < Pow(256, size)
    ensures Number(ToBytes(n, size)) == n
  {
    if size != 0 { NumberToBytes(n / 256, size - 1); }
  }

  /** The number that a read-modify-write leaves is the operator applied to the numbers. */
  lemma CombinedNumber(rmw: Rmw, v: seq<Byte>, operand: seq<Byte>)
    ensures 0 < Pow(256, |v|)
    ensures Number(Combine(rmw, v, operand)) == Apply(rmw, Number(v), Number(operand), Pow(256, |v|))
  {
    PowPos(256, |v|);
    ApplyBound(rmw, Number(v), Number(operand), Pow(256, |v|));
    NumberToBytes(Apply(rmw, Number(v), Number(operand), Pow(256, |v|)), |v|);
  }

  lemma ApplyBound(rmw: Rmw, a: nat, b: nat, m: nat)
    requires 0 < m
    ensures Apply(rmw, a, b, m) < m
  {}

  /** The new bytes of the object when the operation is one atomic step. */
  function NewValue(op: Op, v: seq<Byte>): seq<Byte> {
    match op
    case Load => v
    case Store(w) => w
    case Exchange(w) => w
    case CompareExchange(e, d) => if v == e then d else v
    case FetchOp(rmw, w) => Combine(rmw, v, w)
  }

  function Answer(op: Op, v: seq<Byte>): Result {
    match op
    case Load => Result(true, v)
    case Store(_) => Result(true, [])
    case Exchange(_) => Result(true, v)
    case CompareExchange(e, _) => Result(v == e, v)
    case FetchOp(_, _) => Result(true, v)
  }

  lemma NewValueSize(op: Op, v: seq<Byte>)
    requires Fits(op, |v|)
    ensures |NewValue(op, v)| == |v|
  {}

  // ----- sequential memory

  type Memory = seq<Byte>

  predicate Within(o: Object, mem: Memory) {
    o.ptr + o.size <= |mem|
  }

  function Bytes(mem: Memory, o: Object): seq<Byte>
    requires Within(o, mem)
  {
    mem[o.ptr..o.ptr + o.size]
  }

  function Updated(mem: Memory, o: Object, v: seq<Byte>): (r: Memory)
    requires Within(o, mem) && |v| == o.size
    ensures |r| == |mem|
    ensures forall x :: 0 <= x < |mem| ==> r[x] == if Covers(o, x) then v[x - o.ptr] else mem[x]
  {
    mem[..o.ptr] + v + mem[o.ptr + o.size..]
  }

  datatype Event = Event(o: Object, op: Op, result: Result)

  predicate EventOk(e: Event, mem: Memory) {
    Within(e.o, mem) && Fits(e.op, e.o.size)
  }

  /** One atomic step of an operation. */
  function Atomically(mem: Memory, e: Event): (r: Memory)
    ensures |r| == |mem|
  {
    if EventOk(e, mem) then
      NewValueSize(e.op, Bytes(mem, e.o));
      Updated(mem, e.o, NewValue(e.op, Bytes(mem, e.o)))
    else mem
  }

  /** Running operations one at a time gives each of them the result it recorded. */
  ghost predicate Explains(mem: Memory, events: seq<Event>)
    decreases |events|
  {
    events == [] || (
      && EventOk(events[0], mem) && events[0].result == Answer(events[0].op, Bytes(mem, events[0].o))
      && Explains(Atomically(mem, events[0]), events[1..]))
  }

  function Replay(mem: Memory, events: seq<Event>): (r: Memory)
    ensures |r| == |mem|
    decreases |events|
  {
    if events == [] then mem else Replay(Atomically(mem, events[0]), events[1..])
  }

  lemma {:induction false} ReplaySnoc(mem: Memory, events: seq<Event>, e: Event)
    ensures Replay(mem, events + [e]) == Atomically(Replay(mem, events), e)
    ensures Explains(mem, events + [e]) <==>
      && Explains(mem, events) && EventOk(e, mem)
      && e.result == Answer(e.op, Bytes(Replay(mem, events), e.o))
    decreases |events|
  {
    hide Answer, NewValue, Updated;
    if events == [] {
      assert events + [e] == [e];
      assert Explains(Atomically(mem, e), []);
    } else {
      assert (events + [e])[1..] == events[1..] + [e];
      ReplaySnoc(Atomically(mem, events[0]), events[1..], e);
    }
  }
}
