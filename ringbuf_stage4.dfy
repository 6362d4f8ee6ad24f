/** The Stage 4 snapshot of RingBuffer<T>: construction, the queries, push,
    and guarded front/back; no pop and no copy yet. */
module RingBufStage4 {
  import opened Outcomes
  import opened Ring

  class RingBuffer<T(0)> {
    var size: nat
    var buf: array<T>
    var head: nat
    var tail: nat
    var empty: bool
    ghost var Contents: seq<T>

    ghost predicate Valid()
      reads this, buf
    {
      buf.Length == size && Inv(buf[..], head, tail, empty, Contents)
    }

    /** The C++ constructor, including its throw on a zero size. */
    static method Create(sz: nat) returns (r: Result<RingBuffer<T>>)
      ensures r.Err? <==> sz == 0
      ensures r.Err? ==> r.error == InvalidArgument
      ensures r.Ok? ==> var b := r.value;
        && fresh(b) && fresh(b.buf) && b.Valid()
        && b.size == sz && b.head == 0 && b.tail == 0 && b.empty && b.Contents == []
    {
      if sz == 0 {
        return Err(InvalidArgument);
      }
      var b := new RingBuffer(sz);
      return Ok(b);
    }

    constructor (sz: nat)
      requires sz >= 1
      ensures Valid() && fresh(buf)
      ensures size == sz && head == 0 && tail == 0 && empty && Contents == []
    {
      size := sz;
      buf := new T[sz];
      head, tail := 0, 0;
      empty := true;
      Contents := [];
      new;
      FreshInv(buf[..]);
    }

    function GetSize(): nat
      reads this
    {
      size
    }

    function Count(): (n: nat)
      reads this, buf
      requires Valid()
      ensures n == |Contents| && n <= size
    {
      CountIsLength(buf[..], head, tail, empty, Contents);
      CountOf(size, head, tail, empty)
    }

    function Free(): (n: nat)
      reads this, buf
      requires Valid()
      ensures n == size - |Contents|
    {
      size - Count()
    }

    function IsEmpty(): (b: bool)
      reads this, buf
      requires Valid()
      ensures b == empty
      ensures b <==> Contents == []
    {
      empty
    }

    function IsFull(): (b: bool)
      reads this, buf
      requires Valid()
      ensures b <==> |Contents| == size
    {
      Count() == size
    }

    method Push(value: T) returns (r: Status)
      requires Valid()
      modifies this, buf
      ensures Valid() && size == old(size) && buf == old(buf) && head == old(head)
      ensures old(|Contents|) == size ==> r == Failed(OutOfRange) && unchanged(this) && unchanged(buf)
      ensures old(|Contents|) < size ==>
        && r == Done
        && tail == Norm(size, old(tail)) + 1 && tail >= 1
        && buf[..] == old(buf[..])[tail - 1 := value]
        && !empty
        && Contents == old(Contents) + [value]
    {
      if IsFull() {
        return Failed(OutOfRange);
      }
      PushStep(buf[..], head, tail, empty, Contents, value);
      if tail == size {
        tail := 0;
      }
      buf[tail] := value;
      tail := tail + 1;
      if empty {
        empty := false;
      }
      Contents := Contents + [value];
      return Done;
    }

    /** Non-const front(): throws on empty, otherwise resets head from the end
        of storage to slot 0 and returns the oldest element. */
    method Front() returns (r: Result<T>)
      requires Valid()
      modifies this
      ensures Valid() && Contents == old(Contents) && Count() == old(Count())
      ensures size == old(size) && buf == old(buf) && tail == old(tail) && empty == old(empty)
      ensures old(empty) ==> r == Err(OutOfRange) && head == old(head)
      ensures !old(empty) ==> r == Ok(Contents[0]) && head == Norm(size, old(head))
    {
      if IsEmpty() {
        return Err(OutOfRange);
      }
      NormHeadStep(buf[..], head, tail, empty, Contents);
      if head == size {
        head := 0;
      }
      return Ok(buf[head]);
    }

    /** Non-const back(): throws on empty, otherwise the slot before tail. */
    function Back(): (r: Result<T>)
      reads this, buf
      requires Valid()
      ensures r.Err? <==> Contents == []
      ensures r.Err? ==> r.error == OutOfRange
      ensures r.Ok? ==> r.value == Contents[|Contents| - 1]
    {
      if empty then Err(OutOfRange)
      else
        BackIsNewest(buf[..], head, tail, empty, Contents);
        Ok(buf[Before(size, tail)])
    }
  }

  /** Without pop, pushing xs one by one onto a fresh buffer succeeds while
      there is room, holds them in order, and throws once it is full. */
  method PushAll<T(0)>(b: RingBuffer<T>, xs: seq<T>) returns (rs: seq<Status>)
    requires b.Valid() && b.Contents == []
    modifies b, b.buf
    ensures b.Valid() && b.size == old(b.size) && b.buf == old(b.buf) && |rs| == |xs|
    ensures var k := if |xs| <= b.size then |xs| else b.size;
      && b.Contents == xs[..k]
      && b.Count() == k
      && (forall i :: 0 <= i < |xs| ==> (rs[i] == Done <==> i < b.size))
      && (forall i :: b.size <= i < |xs| ==> rs[i] == Failed(OutOfRange))
  {
    rs := [];
    for i := 0 to |xs|
      invariant b.Valid() && b.size == old(b.size) && b.buf == old(b.buf)
      invariant |rs| == i
      invariant b.Contents == xs[..if i <= b.size then i else b.size]
      invariant forall j :: 0 <= j < i ==> (rs[j] == Done <==> j < b.size)
      invariant forall j :: b.size <= j < i ==> rs[j] == Failed(OutOfRange)
    {
      var r := b.Push(xs[i]);
      rs := rs + [r];
    }
  }

  /** A fresh buffer filled with k <= size values: count k, front is the
      first value, back the last, and one more push throws. */
  method FillThenOverflow<T(0)>(sz: nat, xs: seq<T>, extra: T)
    returns (count: nat, front: Result<T>, back: Result<T>, overflow: Status)
    requires 1 <= |xs| <= sz
    ensures count == |xs|
    ensures front == Ok(xs[0]) && back == Ok(xs[|xs| - 1])
    ensures overflow == (if |xs| == sz then Failed(OutOfRange) else Done)
  {
    var b := new RingBuffer<T>(sz);
    var _ := PushAll(b, xs);
    assert xs[..|xs|] == xs;
    count := b.Count();
    back := b.Back();
    front := b.Front();
    overflow := b.Push(extra);
  }
}
