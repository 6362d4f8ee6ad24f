/** The scenarios the test drivers exercise, as client code that can rely on
    nothing but the classes' contracts. */
module RingDrivers {
  import opened Outcomes
  import RingBuf
  import RingBufDraft

  /** `while (!rb.isEmpty()) out << rb.pop();` on the final class. */
  method Drain<T(0)>(b: RingBuf.RingBuffer<T>) returns (s: seq<T>)
    requires b.Valid()
    modifies b
    ensures b.Valid() && b.size == old(b.size) && b.buf == old(b.buf)
    ensures s == old(b.Contents) && b.Contents == []
  {
    s := [];
    while !b.IsEmpty()
      invariant b.Valid() && b.size == old(b.size) && b.buf == old(b.buf)
      invariant s + b.Contents == old(b.Contents)
      decreases |b.Contents|
    {
      ghost var c := b.Contents;
      var r := b.Pop();
      assert c == [r.value] + b.Contents;
      s := s + [r.value];
    }
  }

  /** push(0), push(1), ... push(n - 1) on an empty final buffer: the first
      `size` succeed, the rest fail with the buffer full. */
  method PushCounting(b: RingBuf.RingBuffer<int>, n: nat) returns (rs: seq<Status>)
    requires b.Valid() && b.Contents == []
    modifies b, b.buf
    ensures b.Valid() && b.size == old(b.size) && b.buf == old(b.buf)
    ensures b.Contents == seq(if n < b.size then n else b.size, j => j)
    ensures |rs| == n && forall j :: 0 <= j < n ==> rs[j] == if j < b.size then Done else Failed(OutOfRange)
  {
    rs := [];
    for i := 0 to n
      invariant b.Valid() && b.size == old(b.size) && b.buf == old(b.buf)
      invariant b.Contents == seq(if i < b.size then i else b.size, j => j)
      invariant |rs| == i && forall j :: 0 <= j < i ==> rs[j] == if j < b.size then Done else Failed(OutOfRange)
    {
      var r := b.Push(i);
      rs := rs + [r];
    }
  }

  /** n pops from the final buffer: the queued elements in order, then failures. */
  method PopTimes<T(0)>(b: RingBuf.RingBuffer<T>, n: nat) returns (rs: seq<Result<T>>)
    requires b.Valid()
    modifies b
    ensures b.Valid() && b.size == old(b.size) && b.buf == old(b.buf)
    ensures |rs| == n
    ensures forall j :: 0 <= j < n ==> rs[j] == if j < |old(b.Contents)| then Ok(old(b.Contents)[j]) else Err(OutOfRange)
  {
    ghost var c := b.Contents;
    rs := [];
    for i := 0 to n
      invariant b.Valid() && b.size == old(b.size) && b.buf == old(b.buf)
      invariant i <= |c| ==> b.Contents == c[i..]
      invariant i >= |c| ==> b.Contents == []
      invariant |rs| == i
      invariant forall j :: 0 <= j < i ==> rs[j] == if j < |c| then Ok(c[j]) else Err(OutOfRange)
    {
      var r := b.Pop();
      if i < |c| {
        assert r == Ok(c[i]) && b.Contents == c[i + 1..];
      } else {
        assert r == Err(OutOfRange);
      }
      rs := rs + [r];
    }
  }

  /** Stage 6 driver, first part: size 5; pushing 0..5 fails on 5, then six
      pops give 0, 1, 2, 3, 4 and a final BufferEmpty. */
  method FifoOfFive() returns (pushes: seq<Status>, pops: seq<Result<int>>)
    ensures pushes == [Done, Done, Done, Done, Done, Failed(OutOfRange)]
    ensures pops == [Ok(0), Ok(1), Ok(2), Ok(3), Ok(4), Err(OutOfRange)]
  {
    var b := new RingBuf.RingBuffer<int>(5);
    pushes := PushCounting(b, 6);
    pops := PopTimes(b, 6);
  }

  /** Stage 6 driver, second part: a copy of a buffer holding A, B, C drains
      to "ABC", and so does the original afterwards. */
  method CopyIsIndependent() returns (fromCopy: seq<char>, fromOriginal: seq<char>)
    ensures fromCopy == "ABC" && fromOriginal == "ABC"
  {
    var rb3 := new RingBuf.RingBuffer<char>(3);
    var _ := rb3.Push('A');
    var _ := rb3.Push('B');
    var _ := rb3.Push('C');
    var rb4 := new RingBuf.RingBuffer.Copy(rb3);
    fromCopy := Drain(rb4);
    fromOriginal := Drain(rb3);
  }

  /** The copy owns its storage: after draining the copy and pushing x onto
      it, the copy holds just x while the original is untouched and valid. */
  method CopyWritesStayLocal<T(0)>(b: RingBuf.RingBuffer<T>, x: T) returns (c: RingBuf.RingBuffer<T>)
    requires b.Valid()
    ensures fresh(c) && c.Valid() && c.Contents == [x]
    ensures b.Valid() && unchanged(b) && unchanged(b.buf)
  {
    c := new RingBuf.RingBuffer.Copy(b);
    var _ := Drain(c);
    var _ := c.Push(x);
  }

  /** The same drain loop on the draft class, whose pop() yields a slot. */
  method DrainDraft<T(0)>(b: RingBufDraft.RingBuffer<T>) returns (s: seq<T>)
    requires b.Valid()
    modifies b
    ensures b.Valid() && b.size == old(b.size) && b.buf == old(b.buf)
    ensures s == old(b.Contents) && b.Contents == []
  {
    s := [];
    while !b.IsEmpty()
      invariant b.Valid() && b.size == old(b.size) && b.buf == old(b.buf)
      invariant s + b.Contents == old(b.Contents)
      decreases |b.Contents|
    {
      ghost var c := b.Contents;
      var r := b.Pop();
      assert c == [b.buf[r.value]] + b.Contents;
      s := s + [b.buf[r.value]];
    }
  }

  /** n pushes of v onto the draft class, none of which may fail. */
  method PushTimesDraft<T(0)>(b: RingBufDraft.RingBuffer<T>, n: nat, v: T)
    requires b.Valid() && |b.Contents| + n <= b.size
    modifies b, b.buf
    ensures b.Valid() && b.size == old(b.size) && b.buf == old(b.buf)
    ensures b.Contents == old(b.Contents) + seq(n, _ => v)
  {
    for i := 0 to n
      invariant b.Valid() && b.size == old(b.size) && b.buf == old(b.buf)
      invariant b.Contents == old(b.Contents) + seq(i, _ => v)
    {
      var _ := b.Push(v);
    }
  }

  /** n pops from the draft class, none of which may fail. */
  method PopTimesDraft<T(0)>(b: RingBufDraft.RingBuffer<T>, n: nat)
    requires b.Valid() && n <= |b.Contents|
    modifies b
    ensures b.Valid() && b.size == old(b.size) && b.buf == old(b.buf)
    ensures b.Contents == old(b.Contents)[n..]
  {
    for i := 0 to n
      invariant b.Valid() && b.size == old(b.size) && b.buf == old(b.buf)
      invariant b.Contents == old(b.Contents)[i..]
    {
      var _ := b.Pop();
    }
  }

  /** Cpp/main.cpp, part 1: size 5, push 0..4 and pop five times. The loop's
      sixth front() then finds head at the end of storage: the draft front()
      needs head < size, so that call reads one slot past the array. */
  method DraftDrainLeavesHeadAtEnd() returns (popped: seq<int>, head: nat, size: nat)
    ensures popped == [0, 1, 2, 3, 4]
    ensures head == size == 5
  {
    var b := new RingBufDraft.RingBuffer<int>(5);
    for i := 0 to 5
      invariant b.Valid() && b.size == 5 && fresh(b.buf) && b.head == 0
      invariant b.Contents == seq(i, j => j)
    {
      var _ := b.Push(i);
    }
    popped := [];
    for i := 0 to 5
      invariant b.Valid() && b.size == 5
      invariant popped == seq(i, j => j)
      invariant b.Contents == seq(5 - i, j => j + i)
      invariant b.head == i
    {
      var r := b.Pop();
      popped := popped + [b.buf[r.value]];
    }
    head, size := b.head, b.size;
  }

  /** Cpp/main.cpp, part 2: size 3, push A, B, C, pop until empty. */
  method DraftCharsInOrder() returns (out: seq<char>)
    ensures out == "ABC"
  {
    var b := new RingBufDraft.RingBuffer<char>(3);
    var _ := b.Push('A');
    var _ := b.Push('B');
    var _ := b.Push('C');
    out := DrainDraft(b);
  }

  /** Cpp/main.cpp, part 3: size 10; push 8, pop 5, push 5, pop 8, push 2,
      pop 2, push 9 crosses the end of storage twice and ends with count 9,
      free 1 and not full. */
  method DraftWrapAround() returns (count: nat, free: nat, full: bool)
    ensures count == 9 && free == 1 && !full
  {
    var b := new RingBufDraft.RingBuffer<int>(10);
    PushTimesDraft(b, 8, 3);
    PopTimesDraft(b, 5);
    PushTimesDraft(b, 5, 3);
    PopTimesDraft(b, 8);
    PushTimesDraft(b, 2, 3);
    PopTimesDraft(b, 2);
    PushTimesDraft(b, 9, 3);
    count, free, full := b.Count(), b.Free(), b.IsFull();
  }
}
