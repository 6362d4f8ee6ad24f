/** The final RingBuffer<T>: a bounded FIFO queue over a fixed array, with
    value semantics (deep copy, copy-and-swap assignment). */
module RingBuf {
  import opened Outcomes
  import opened Ring

  class RingBuffer<T(0)> {
    var size: nat
    var buf: array<T>
    var head: nat
    var tail: nat
    var empty: bool
    /** The live elements, oldest first. */
    ghost var Contents: seq<T>

    ghost predicate Valid()
      reads this, buf
    {
      buf.Length == size && Inv(buf[..], head, tail, empty, Contents)
    }

    /** The C++ constructor, including its throw on a zero size. */
    static method Create(sz: nat) returns (r: Result<RingBuffer<T>>)
      ensures r.Err? <==> sz == 0
      ensures r.Err? ==> r.error == InvalidArgument
      ensures r.Ok? ==> var b := r.value;
        && fresh(b) && fresh(b.buf) && b.Valid()
        && b.size == sz && b.head == 0 && b.tail == 0 && b.empty && b.Contents == []
    {
      if sz == 0 {
        return Err(InvalidArgument);
      }
      var b := new RingBuffer(sz);
      return Ok(b);
    }

    /** Allocation part of the constructor, once the size is known to be non-zero. */
    constructor (sz: nat)
      requires sz >= 1
      ensures Valid() && fresh(buf)
      ensures size == sz && head == 0 && tail == 0 && empty && Contents == []
    {
      size := sz;
      buf := new T[sz];
      head, tail := 0, 0;
      empty := true;
      Contents := [];
      new;
      FreshInv(buf[..]);
    }

    /** Copy constructor: a slot-by-slot copy into fresh storage, with the same
        cursor offsets and flag. */
    constructor Copy(other: RingBuffer<T>)
      requires other.Valid()
      ensures Valid() && fresh(buf)
      ensures size == other.size && buf[..] == other.buf[..]
      ensures head == other.head && tail == other.tail && empty == other.empty
      ensures Contents == other.Contents
    {
      var a := new T[other.size];
      for i := 0 to other.size
        invariant a[..i] == other.buf[..i]
      {
        a[i] := other.buf[i];
      }
      assert a[..] == a[..other.size];
      size := other.size;
      buf := a;
      head, tail, empty := other.head, other.tail, other.empty;
      Contents := other.Contents;
    }

    function GetSize(): nat
      reads this
    {
      size
    }

    /** getCount(): the cursor formula, which is the number of live elements. */
    function Count(): (n: nat)
      reads this, buf
      requires Valid()
      ensures n == |Contents| && n <= size
    {
      CountIsLength(buf[..], head, tail, empty, Contents);
      CountOf(size, head, tail, empty)
    }

    function Free(): (n: nat)
      reads this, buf
      requires Valid()
      ensures n == size - |Contents|
    {
      size - Count()
    }

    function IsEmpty(): (b: bool)
      reads this, buf
      requires Valid()
      ensures b == empty
      ensures b <==> Contents == []
    {
      empty
    }

    function IsFull(): (b: bool)
      reads this, buf
      requires Valid()
      ensures b <==> |Contents| == size
    {
      Count() == size
    }

    /** push(value): fails on a full buffer; otherwise appends. */
    method Push(value: T) returns (r: Status)
      requires Valid()
      modifies this, buf
      ensures Valid() && size == old(size) && buf == old(buf) && head == old(head)
      ensures old(|Contents|) == size ==> r == Failed(OutOfRange) && unchanged(this) && unchanged(buf)
      ensures old(|Contents|) < size ==>
        && r == Done
        && tail == Norm(size, old(tail)) + 1 && tail >= 1
        && buf[..] == old(buf[..])[tail - 1 := value]
        && !empty
        && Contents == old(Contents) + [value]
        && Back() == Ok(value)
    {
      if IsFull() {
        return Failed(OutOfRange);
      }
      ghost var slots := buf[..];
      PushStep(slots, head, tail, empty, Contents, value);
      if tail == size {
        tail := 0;
      }
      buf[tail] := value;
      assert buf[..] == slots[tail := value];
      tail := tail + 1;
      if empty {
        empty := false;
      }
      Contents := Contents + [value];
      return Done;
    }

    /** front(): the oldest element; on success head may be reset from the
        end of storage to slot 0, which changes neither the queue nor the count. */
    method Front() returns (r: Result<T>)
      requires Valid()
      modifies this
      ensures Valid() && Contents == old(Contents) && Count() == old(Count())
      ensures size == old(size) && buf == old(buf) && tail == old(tail) && empty == old(empty)
      ensures old(empty) ==> r == Err(OutOfRange) && head == old(head)
      ensures !old(empty) ==> r == Ok(Contents[0]) && head == Norm(size, old(head))
    {
      if IsEmpty() {
        return Err(OutOfRange);
      }
      NormHeadStep(buf[..], head, tail, empty, Contents);
      if head == size {
        head := 0;
      }
      return Ok(buf[head]);
    }

    /** back(): the newest element, the slot just before tail. */
    function Back(): (r: Result<T>)
      reads this, buf
      requires Valid()
      ensures r.Err? <==> Contents == []
      ensures r.Err? ==> r.error == OutOfRange
      ensures r.Ok? ==> r.value == Contents[|Contents| - 1]
    {
      if empty then Err(OutOfRange)
      else
        BackIsNewest(buf[..], head, tail, empty, Contents);
        Ok(buf[Before(size, tail)])
    }

    /** pop(): removes and returns the oldest element. */
    method Pop() returns (r: Result<T>)
      requires Valid()
      modifies this
      ensures Valid() && size == old(size) && buf == old(buf) && tail == old(tail)
      ensures old(empty) ==> r == Err(OutOfRange) && unchanged(this)
      ensures !old(empty) ==>
        && r == Ok(old(Contents)[0])
        && Contents == old(Contents)[1..]
        && head == Norm(size, old(head)) + 1
        && (empty <==> head == tail)
    {
      if IsEmpty() {
        return Err(OutOfRange);
      }
      PopStep(buf[..], head, tail, empty, Contents);
      if head == size {
        head := 0;
      }
      var value := buf[head];
      head := head + 1;
      if head == tail {
        empty := true;
      }
      Contents := Contents[1..];
      return Ok(value);
    }

    /** operator=: no-op on self-assignment, otherwise copy-and-swap. */
    method Assign(rhv: RingBuffer<T>)
      requires Valid() && rhv.Valid()
      modifies this
      ensures Valid()
      ensures rhv == this ==> unchanged(this)
      ensures rhv != this ==>
        && fresh(buf) && unchanged(rhv) && unchanged(rhv.buf)
        && size == rhv.size && buf[..] == rhv.buf[..]
        && head == rhv.head && tail == rhv.tail && empty == rhv.empty
        && Contents == rhv.Contents
    {
      if this == rhv {
        return;
      }
      var temp := new RingBuffer.Copy(rhv);
      Swap(temp, this);
    }

    /** swap: exchanges all members of two buffers. */
    static method Swap(lhv: RingBuffer<T>, rhv: RingBuffer<T>)
      modifies lhv, rhv
      ensures lhv.size == old(rhv.size) && rhv.size == old(lhv.size)
      ensures lhv.buf == old(rhv.buf) && rhv.buf == old(lhv.buf)
      ensures lhv.head == old(rhv.head) && rhv.head == old(lhv.head)
      ensures lhv.tail == old(rhv.tail) && rhv.tail == old(lhv.tail)
      ensures lhv.empty == old(rhv.empty) && rhv.empty == old(lhv.empty)
      ensures lhv.Contents == old(rhv.Contents) && rhv.Contents == old(lhv.Contents)
    {
      var size, buf, head, tail, empty := lhv.size, lhv.buf, lhv.head, lhv.tail, lhv.empty;
      ghost var contents := lhv.Contents;
      lhv.size, lhv.buf, lhv.head, lhv.tail, lhv.empty := rhv.size, rhv.buf, rhv.head, rhv.tail, rhv.empty;
      lhv.Contents := rhv.Contents;
      rhv.size, rhv.buf, rhv.head, rhv.tail, rhv.empty := size, buf, head, tail, empty;
      rhv.Contents := contents;
    }
  }
}
