/** The first draft of RingBuffer<T>: the same cursors and push as the final
    class, but front() and back() check nothing and pop() returns a reference
    to the storage slot it read, modelled here as that slot's index. */
module RingBufDraft {
  import opened Outcomes
  import opened Ring

  class RingBuffer<T(0)> {
    var size: nat
    var buf: array<T>
    var head: nat
    var tail: nat
    var empty: bool
    ghost var Contents: seq<T>

    ghost predicate Valid()
      reads this, buf
    {
      buf.Length == size && Inv(buf[..], head, tail, empty, Contents)
    }

    /** The C++ constructor, including its throw on a zero size. */
    static method Create(sz: nat) returns (r: Result<RingBuffer<T>>)
      ensures r.Err? <==> sz == 0
      ensures r.Err? ==> r.error == InvalidArgument
      ensures r.Ok? ==> var b := r.value;
        && fresh(b) && fresh(b.buf) && b.Valid()
        && b.size == sz && b.head == 0 && b.tail == 0 && b.empty && b.Contents == []
    {
      if sz == 0 {
        return Err(InvalidArgument);
      }
      var b := new RingBuffer(sz);
      return Ok(b);
    }

    constructor (sz: nat)
      requires sz >= 1
      ensures Valid() && fresh(buf)
      ensures size == sz && head == 0 && tail == 0 && empty && Contents == []
    {
      size := sz;
      buf := new T[sz];
      head, tail := 0, 0;
      empty := true;
      Contents := [];
      new;
      FreshInv(buf[..]);
    }

    function GetSize(): nat
      reads this
    {
      size
    }

    function Count(): (n: nat)
      reads this, buf
      requires Valid()
      ensures n == |Contents| && n <= size
    {
      CountIsLength(buf[..], head, tail, empty, Contents);
      CountOf(size, head, tail, empty)
    }

    function Free(): (n: nat)
      reads this, buf
      requires Valid()
      ensures n == size - |Contents|
    {
      size - Count()
    }

    function IsEmpty(): (b: bool)
      reads this, buf
      requires Valid()
      ensures b == empty
      ensures b <==> Contents == []
    {
      empty
    }

    function IsFull(): (b: bool)
      reads this, buf
      requires Valid()
      ensures b <==> |Contents| == size
    {
      Count() == size
    }

    /** push(value): as in the final class, but clears the flag unconditionally. */
    method Push(value: T) returns (r: Status)
      requires Valid()
      modifies this, buf
      ensures Valid() && size == old(size) && buf == old(buf) && head == old(head)
      ensures old(|Contents|) == size ==> r == Failed(OutOfRange) && unchanged(this) && unchanged(buf)
      ensures old(|Contents|) < size ==>
        && r == Done
        && tail == Norm(size, old(tail)) + 1 && tail >= 1
        && buf[..] == old(buf[..])[tail - 1 := value]
        && !empty
        && Contents == old(Contents) + [value]
        && Back() == value
    {
      if IsFull() {
        return Failed(OutOfRange);
      }
      PushStep(buf[..], head, tail, empty, Contents, value);
      if tail == size {
        tail := 0;
      }
      buf[tail] := value;
      tail := tail + 1;
      empty := false;
      Contents := Contents + [value];
      return Done;
    }

    /** front(): reads the slot under head with no empty check and no wrap,
        so it stays inside the array only while head < size. */
    function Front(): (r: T)
      reads this, buf
      requires Valid()
      requires head < size
      ensures r == buf[head]
      ensures Contents != [] ==> r == Contents[0]
    {
      buf[head]
    }

    /** back(): no empty check; slot 0 before the first push, otherwise the
        slot before tail, which holds the newest element while there is one. */
    function Back(): (r: T)
      reads this, buf
      requires Valid()
      ensures tail == 0 ==> Contents == [] && r == buf[0]
      ensures tail != 0 ==> r == buf[tail - 1]
      ensures Contents != [] ==> r == Contents[|Contents| - 1]
    {
      BackIsNewest(buf[..], head, tail, empty, Contents);
      if tail == 0 then buf[0] else buf[tail - 1]
    }

    /** pop(): throws on empty; otherwise wraps head, steps past the oldest
        element and returns the index of the slot that holds it. */
    method Pop() returns (r: Result<nat>)
      requires Valid()
      modifies this
      ensures Valid() && size == old(size) && buf == old(buf) && tail == old(tail)
      ensures old(empty) ==> r == Err(OutOfRange) && unchanged(this)
      ensures !old(empty) ==>
        && r.Ok? && r.value < size
        && buf[r.value] == old(Contents)[0]
        && Contents == old(Contents)[1..]
        && r.value == Norm(size, old(head)) && head == r.value + 1
        && (empty <==> head == tail)
    {
      if IsEmpty() {
        return Err(OutOfRange);
      }
      PopStep(buf[..], head, tail, empty, Contents);
      if head == size {
        head := 0;
      }
      var slot := head;
      head := head + 1;
      if head == tail {
        empty := true;
      }
      Contents := Contents[1..];
      return Ok(slot);
    }
  }
}
