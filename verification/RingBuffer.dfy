/** The ring queue of `sg-ringbuffer.c`: the array operations of one locked section, in place and as
    functions, and the queue they stand for. */
module RingBuffers {

  /** The fields of a ring; the capacity is the length of the array. */
  datatype Ring<T> = Ring(buf: seq<T>, head: nat, tail: nat, cnt: nat)

  /** `head`, `tail` and `cnt` agree. An empty array has no positions. */
  ghost predicate Shaped<T>(r: Ring<T>) {
    && r.cnt <= |r.buf|
    && if |r.buf| == 0 then r.head == r.tail == 0
       else r.head < |r.buf| && r.tail == (r.head + r.cnt) % |r.buf|
  }

  /** The stored items, oldest first. */
  ghost function Contents<T>(r: Ring<T>): (q: seq<T>)
    requires Shaped(r)
    ensures |q| == r.cnt
  {
    seq(r.cnt, i requires 0 <= i < r.cnt => r.buf[(r.head + i) % |r.buf|])
  }

  function Put<T>(r: Ring<T>, x: T): Ring<T>
    requires r.tail < |r.buf|
  {
    Ring(r.buf[r.tail := x], r.head, (r.tail + 1) % |r.buf|, r.cnt + 1)
  }

  function Drop<T>(r: Ring<T>): Ring<T>
    requires r.cnt > 0 && |r.buf| > 0
  {
    Ring(r.buf, (r.head + 1) % |r.buf|, r.tail, r.cnt - 1)
  }

  lemma Wrap(a: nat, n: nat)
    requires 0 < n && a < 2 * n
    ensures a % n == if a < n then a else a - n
  {
    var q := a / n;
    assert a == q * n + a % n && 0 <= a % n < n;
    assert (q - 2) * n == q * n - 2 * n;
    Negative(q - 2, n);
    if q == 0 {
      assert q * n == 0;
    } else {
      assert q * n == n;
    }
  }

  lemma Negative(x: int, n: nat)
    requires x * n < 0
    ensures x < 0
  {
  }

  /** Storing at `tail` appends, and overwrites nothing that is stored. */
  lemma PutAppends<T>(r: Ring<T>, x: T)
    requires Shaped(r) && r.cnt < |r.buf|
    ensures r.tail < |r.buf| && Shaped(Put(r, x)) && |Put(r, x).buf| == |r.buf|
    ensures Contents(Put(r, x)) == Contents(r) + [x]
  {
    var n, p := |r.buf|, Put(r, x);
    Wrap(r.head + r.cnt, n);
    Wrap(r.tail + 1, n);
    Wrap(r.head + r.cnt + 1, n);
    forall i | 0 <= i < p.cnt ensures Contents(p)[i] == (Contents(r) + [x])[i] {
      Wrap(r.head + i, n);
    }
  }

  /** Advancing `head` removes the oldest item, which stood there. */
  lemma DropRemoves<T>(r: Ring<T>)
    requires Shaped(r) && r.cnt > 0
    ensures Shaped(Drop(r)) && |Drop(r).buf| == |r.buf|
    ensures Contents(r) == [r.buf[r.head]] + Contents(Drop(r))
  {
    var n, d := |r.buf|, Drop(r);
    Wrap(r.head, n);
    Wrap(r.head + 1, n);
    Wrap(r.head + r.cnt, n);
    Wrap(d.head + d.cnt, n);
    forall i | 0 <= i < d.cnt ensures Contents(d)[i] == Contents(r)[i + 1] {
      Wrap(r.head + i + 1, n);
      Wrap(d.head + i, n);
    }
  }

  class RingBuffer<T(0)> {
    const buf: array<T>
    const cap: nat
    var head: nat
    var tail: nat
    var cnt: nat

    ghost function State(): Ring<T>
      reads this, buf
    {
      Ring(buf[..], head, tail, cnt)
    }

    ghost predicate Valid()
      reads this, buf
    {
      buf.Length == cap && Shaped(State())
    }

    /** `rb_create`, where its two allocations succeed. */
    constructor (capacity: nat)
      ensures Valid() && fresh(buf) && cap == capacity && Contents(State()) == []
    {
      buf := new T[capacity];
      cap, head, tail, cnt := capacity, 0, 0, 0;
    }

    /** One turn of `rb_push` or `rb_timed_push` with the lock held: false where the loop waits. */
    method Push(item: T) returns (done: bool)
      requires Valid()
      modifies this, buf
      ensures Valid()
      ensures done <==> old(cnt) < cap
      ensures !done ==> State() == old(State())
      ensures done ==> old(tail) < cap && State() == Put(old(State()), item)
      ensures done ==> Contents(State()) == old(Contents(State())) + [item]
    {
      if cnt == cap {
        return false;
      }
      ghost var r := State();
      PutAppends(r, item);
      buf[tail] := item;
      tail := (tail + 1) % cap;
      cnt := cnt + 1;
      assert State() == Put(r, item);
      done := true;
    }

    /** One turn of `rb_pop` or `rb_timed_pop` with the lock held. */
    method Pop(absent: T) returns (done: bool, item: T)
      requires Valid()
      modifies this
      ensures Valid()
      ensures done <==> old(cnt) > 0
      ensures !done ==> State() == old(State()) && item == absent
      ensures done ==> State() == Drop(old(State())) && old(head) < cap && item == old(buf[head])
      ensures done ==> old(Contents(State())) == [item] + Contents(State())
    {
      if cnt == 0 {
        return false, absent;
      }
      ghost var r := State();
      DropRemoves(r);
      item := buf[head];
      head := (head + 1) % cap;
      cnt := cnt - 1;
      assert State() == Drop(r);
      done := true;
    }
  }
}
