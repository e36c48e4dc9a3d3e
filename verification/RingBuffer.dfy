/** `CircularBuffer`, a fixed array with two wrapping indices, and the bounded sequence it refines. */
module RingBuffer {
  import opened Prelude

  /** What `push` does to a buffer of capacity `size`: append, dropping the oldest when full. */
  function Pushed<T>(s: seq<T>, x: T, size: nat): seq<T>
    requires 0 < size
  {
    if |s| >= size then s[1..] + [x] else s + [x]
  }

  function PushedAll<T>(s: seq<T>, xs: seq<T>, size: nat): seq<T>
    requires 0 < size
    decreases |xs|
  {
    if xs == [] then s else PushedAll(Pushed(s, xs[0], size), xs[1..], size)
  }

  /** Whatever was there before, after any number of pushes the buffer holds the last `size`
      elements of everything that went in. */
  lemma {:induction false} PushesKeepLast<T>(s: seq<T>, xs: seq<T>, size: nat)
    requires 0 < size && |s| <= size
    ensures var all := s + xs;
      PushedAll(s, xs, size) == if |all| <= size then all else all[|all| - size..]
    decreases |xs|
  {
    if xs == [] {
      assert s + xs == s;
    } else {
      var s' := Pushed(s, xs[0], size);
      PushesKeepLast(s', xs[1..], size);
      if |s| < size {
        assert s' + xs[1..] == s + xs;
      } else {
        assert s' + xs[1..] == (s + xs)[1..];
      }
    }
  }

  /** An index moved on by one, first in `CounterType` arithmetic and then modulo the size. */
  function Successor(i: nat, size: nat, counterRange: nat): (j: nat)
    requires i < size < counterRange
    ensures j == if i + 1 == size then 0 else i + 1
  {
    SmallDivMod(i + 1, counterRange);
    DivModUnique(i + 1, size, if i + 1 == size then 1 else 0, if i + 1 == size then 0 else i + 1);
    ((i + 1) % counterRange) % size
  }

  /** `counterRange` is one more than the largest value of `CounterType`. */
  class CircularBuffer<T(0)> {
    const size: nat
    const counterRange: nat
    const pool: array<T>
    var head: nat
    var tail: nat
    var full: bool

    ghost predicate Valid()
      reads this
    {
      && 0 < size < counterRange && pool.Length == size
      && head < size && tail < size
      && (full ==> head == tail)
    }

    /** The stored elements, oldest first. */
    ghost function Contents(): (s: seq<T>)
      requires Valid()
      reads this, pool
      ensures |s| <= size
    {
      Slices(pool[..], head, tail, full)
    }

    constructor (size: nat, counterRange: nat)
      requires 0 < size < counterRange
      ensures Valid() && fresh(pool) && this.size == size && Contents() == []
    {
      this.size, this.counterRange := size, counterRange;
      pool := new T[size];
      head, tail, full := 0, 0, false;
    }

    method Push(data: T)
      requires Valid()
      modifies this, pool
      ensures Valid() && Contents() == Pushed(old(Contents()), data, size)
    {
      ghost var before, at := pool[..], head;
      if full {
        tail := Successor(tail, size, counterRange);
      }
      pool[head] := data;
      assert pool[..] == before[at := data];
      head := Successor(head, size, counterRange);
      if head == tail {
        full := true;
      }
      PushLayout(before, at, old(tail), old(full), data);
    }

    /** The slices before and after a push, as values. */
    static function Slices(pool: seq<T>, head: nat, tail: nat, full: bool): seq<T>
      requires head < |pool| && tail < |pool|
    {
      if !full && tail <= head then pool[tail..head] else pool[tail..] + pool[..head]
    }

    static lemma PushLayout(pool: seq<T>, head: nat, tail: nat, full: bool, data: T)
      requires head < |pool| && tail < |pool| && (full ==> head == tail)
      ensures var size := |pool|;
        var head' := if head + 1 == size then 0 else head + 1;
        var tail' := if full then head' else tail;
        Slices(pool[head := data], head', tail', full || head' == tail') ==
          Pushed(Slices(pool, head, tail, full), data, size)
    {
      if full {
        PushLayoutFull(pool, head, data);
      } else {
        PushLayoutFree(pool, head, tail, data);
      }
    }

    static lemma PushLayoutFree(pool: seq<T>, head: nat, tail: nat, data: T)
      requires head < |pool| && tail < |pool|
      ensures var head' := if head + 1 == |pool| then 0 else head + 1;
        Slices(pool[head := data], head', tail, head' == tail) == Slices(pool, head, tail, false) + [data]
      ensures |Slices(pool, head, tail, false)| < |pool|
    {
      var pool' := pool[head := data];
      if head + 1 == |pool| {
        assert pool'[tail..] == pool[tail..head] + [data];
      } else {
        assert pool'[..head + 1] == pool[..head] + [data];
      }
    }

    static lemma PushLayoutFull(pool: seq<T>, head: nat, data: T)
      requires head < |pool|
      ensures var head' := if head + 1 == |pool| then 0 else head + 1;
        Slices(pool[head := data], head', head', true) == Slices(pool, head, head, true)[1..] + [data]
      ensures |Slices(pool, head, head, true)| == |pool|
    {
      var pool' := pool[head := data];
      assert pool[head..] == [pool[head]] + pool[head + 1..];
      if head + 1 == |pool| {
        assert pool' == pool[..head] + [data];
      } else {
        assert pool'[..head + 1] == pool[..head] + [data];
        assert pool'[head + 1..] == pool[head + 1..];
      }
    }

    method Pop() returns (popped: bool, data: T)
      requires Valid()
      modifies this
      ensures Valid() && popped == (old(Contents()) != [])
      ensures if popped then [data] + Contents() == old(Contents()) else Contents() == old(Contents())
    {
      popped := false;
      data := *;
      if !(head == tail && !full) {
        data := pool[tail];
        tail := Successor(tail, size, counterRange);
        full := false;
        popped := true;
      }
    }

    function Empty(): (empty: bool)
      requires Valid()
      reads this, pool
      ensures empty <==> Contents() == []
    {
      head == tail && !full
    }

    function Full(): (isFull: bool)
      requires Valid()
      reads this, pool
      ensures isFull <==> |Contents()| == size
    {
      full
    }

    method Size() returns (elements: nat)
      requires Valid()
      ensures elements == |Contents()| <= size
    {
      if !full {
        if head < tail {
          SmallDivMod(size + head - tail, counterRange);
          elements := (size + head - tail) % counterRange;
        } else {
          SmallDivMod(head - tail, counterRange);
          elements := (head - tail) % counterRange;
        }
      } else {
        elements := size;
      }
    }

    method Reset()
      requires Valid()
      modifies this
      ensures Valid() && Contents() == []
    {
      head, tail, full := 0, 0, false;
    }
  }
}
