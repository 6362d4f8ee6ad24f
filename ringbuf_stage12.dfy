/** The Stage 1-2 snapshot of RingBuffer<T>: construction and the
    count/free/empty/full queries only. No member changes state after
    construction, so every field is a `const` and every query returns the
    same value for the object's whole lifetime. */
module RingBufStage12 {
  import opened Outcomes
  import opened Ring

  class RingBuffer<T(0)> {
    const size: nat
    const buf: array<T>
    const head: nat
    const tail: nat
    const empty: bool

    /** The invariant of the later snapshots, here with an empty queue. */
    ghost predicate Valid()
      reads buf
    {
      buf.Length == size && Inv(buf[..], head, tail, empty, [])
    }

    /** The C++ constructor, including its throw on a zero size. */
    static method Create(sz: nat) returns (r: Result<RingBuffer<T>>)
      ensures r.Err? <==> sz == 0
      ensures r.Err? ==> r.error == InvalidArgument
      ensures r.Ok? ==> var b := r.value;
        && fresh(b) && fresh(b.buf) && b.Valid()
        && b.size == sz && b.head == b.tail == 0 && b.empty
    {
      if sz == 0 {
        return Err(InvalidArgument);
      }
      var b := new RingBuffer(sz);
      return Ok(b);
    }

    constructor (sz: nat)
      requires sz >= 1
      ensures Valid() && fresh(buf)
      ensures size == sz && head == tail == 0 && empty
    {
      size := sz;
      buf := new T[sz];
      head, tail := 0, 0;
      empty := true;
      new;
      FreshInv(buf[..]);
    }

    function GetSize(): (n: nat)
    {
      size
    }

    /** getCount(): the cursor formula, which gives 0 on every reachable state. */
    function Count(): (n: nat)
      reads buf
      requires Valid()
      ensures n == 0
    {
      CountIsLength(buf[..], head, tail, empty, []);
      CountOf(size, head, tail, empty)
    }

    function Free(): (n: nat)
      reads buf
      requires Valid()
      ensures n == size
    {
      size - Count()
    }

    function IsEmpty(): (b: bool)
      reads buf
      requires Valid()
      ensures b
    {
      empty
    }

    function IsFull(): (b: bool)
      reads buf
      requires Valid()
      ensures !b
    {
      Count() == size
    }
  }

  /** The Stage 1-2 driver: a buffer of size 5 reports its size, empty,
      count 0, free 5 and not full. */
  method SizeFiveReport() returns (size: nat, empty: bool, count: nat, free: nat, full: bool)
    ensures size == 5 && empty && count == 0 && free == 5 && !full
  {
    var r := RingBuffer<int>.Create(5);
    var b := r.value;
    size, empty, count, free, full := b.GetSize(), b.IsEmpty(), b.Count(), b.Free(), b.IsFull();
  }
}
