/** The output FIFO of the deflate side, a 256-slot ring that keeps one slot free (include/deflate_fifo.h). */
module OutputFifo {
  import opened Bits

  const SIZE := 256
  const CAPACITY := SIZE - 1

  /** The n bytes of a ring image that start at index pop. */
  function Queue(ring: seq<byte>, pop: nat, n: nat): (s: seq<byte>)
    requires |ring| == SIZE
    ensures |s| == n
  {
    seq(n, i => ring[(pop + i) % SIZE])
  }

  lemma QueuePut(ring: seq<byte>, pop: nat, n: nat, data: byte)
    requires |ring| == SIZE && n < SIZE
    ensures Queue(ring[(pop + n) % SIZE := data], pop, n + 1) == Queue(ring, pop, n) + [data]
  {
    forall i: nat | i < n
      ensures Queue(ring[(pop + n) % SIZE := data], pop, n + 1)[i] == Queue(ring, pop, n)[i]
    {
    }
  }

  lemma WrapOnce(pop: nat, i: nat)
    ensures (pop + 1 + i) % SIZE == ((pop + 1) % SIZE + i) % SIZE
  {
  }

  lemma QueueTake(ring: seq<byte>, pop: nat, n: nat)
    requires |ring| == SIZE && n > 0
    ensures Queue(ring, pop, n) == [ring[pop % SIZE]] + Queue(ring, (pop + 1) % SIZE, n - 1)
  {
    var all, rest := Queue(ring, pop, n), Queue(ring, (pop + 1) % SIZE, n - 1);
    forall i: nat | i < |rest|
      ensures rest[i] == all[i + 1]
    {
      WrapOnce(pop, i);
    }
  }

  class Fifo {
    var push: nat
    var pop: nat
    const fifo: array<byte>

    ghost predicate Valid()
      reads this
    {
      fifo.Length == SIZE && push < SIZE && pop < SIZE
    }

    predicate Empty()
      reads this
    {
      pop == push
    }

    function Used(): (n: nat)
      reads this
      ensures n <= CAPACITY
    {
      (push - pop) % SIZE
    }

    function Free(): nat
      reads this
    {
      SIZE - Used() - 1
    }

    /** The queued bytes, oldest first. */
    ghost function Contents(): (s: seq<byte>)
      requires Valid()
      reads this, fifo
      ensures |s| <= CAPACITY
      ensures s == [] <==> Empty()
    {
      Queue(fifo[..], pop, Used())
    }

    constructor ()
      ensures Valid() && fresh(this) && fresh(fifo)
      ensures Contents() == []
    {
      fifo := new byte[SIZE](_ => 0);
      push, pop := 0, 0;
    }

    method Push(data: byte) returns (ok: bool)
      requires Valid()
      modifies this, fifo
      ensures Valid()
      ensures ok <==> |old(Contents())| < CAPACITY
      ensures Contents() == if ok then old(Contents()) + [data] else old(Contents())
    {
      if Free() < 1 {
        return false;
      }
      Store(data);
      return true;
    }

    /** The two statements common to Push and Push32. */
    method Store(data: byte)
      requires Valid() && |Contents()| < CAPACITY
      modifies this`push, fifo
      ensures Valid()
      ensures Contents() == old(Contents()) + [data]
    {
      QueuePut(fifo[..], pop, Used(), data);
      assert (pop + Used()) % SIZE == push;
      ghost var ring := fifo[..][push := data];
      fifo[push] := data;
      assert fifo[..] == ring;
      push := (push + 1) % SIZE;
    }

    /** Queues a 32-bit word given by its memory image, all of it or nothing. */
    method Push32(u8: seq<byte>) returns (ok: bool)
      requires Valid() && |u8| == 4
      modifies this, fifo
      ensures Valid()
      ensures ok <==> |old(Contents())| + 4 <= CAPACITY
      ensures Contents() == if ok then old(Contents()) + u8 else old(Contents())
    {
      if Free() < 4 {
        return false;
      }
      for i := 0 to 4
        invariant Valid()
        invariant Contents() == old(Contents()) + u8[..i]
      {
        assert |Contents()| < CAPACITY;
        Store(u8[i]);
        assert u8[..i + 1] == u8[..i] + [u8[i]];
      }
      return true;
    }

    method Pop() returns (ok: bool, data: byte)
      requires Valid()
      modifies this`pop
      ensures Valid()
      ensures ok <==> old(Contents()) != []
      ensures ok ==> old(Contents()) == [data] + Contents()
      ensures !ok ==> Contents() == []
    {
      if Empty() {
        return false, 0;
      }
      QueueTake(fifo[..], pop, Used());
      data := fifo[pop];
      pop := (pop + 1) % SIZE;
      return true, data;
    }

    method Pop16() returns (ok: bool, data: seq<byte>)
      requires Valid()
      modifies this`pop
      ensures Valid()
      ensures ok <==> |old(Contents())| >= 2
      ensures ok ==> |data| == 2 && old(Contents()) == data + Contents()
      ensures !ok ==> Contents() == old(Contents())
    {
      if Used() < 2 {
        return false, [];
      }
      var ok0, lo := Pop();
      var ok1, hi := Pop();
      return true, [lo, hi];
    }
  }
}
