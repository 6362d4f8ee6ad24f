/** Cursor arithmetic of the ring buffer, shared by every snapshot of the class.

    The buffer is an array of `size` slots with a read cursor `head`, a write
    cursor `tail` and an `empty` flag. Cursors are offsets into the array that
    wrap lazily: `push` resets `tail` to slot 0 only just before writing, and
    `front`/`pop` reset `head` only just before reading, so both range over
    [0, size], and a cursor equal to `size` designates slot 0. */
module Ring {

  /** The slot a cursor designates. */
  function Norm(size: nat, c: nat): (s: nat)
    requires 1 <= size && c <= size
    ensures s < size
  {
    if c == size then 0 else c
  }

  /** The slot `k` places after the one cursor `c` designates, wrapping at the end. */
  function Offset(size: nat, c: nat, k: nat): (s: nat)
    requires 1 <= size && c <= size && k <= size
    ensures s < size
    ensures s == Norm(size, c) + k || s == Norm(size, c) + k - size
  {
    var p := Norm(size, c) + k;
    if p < size then p else p - size
  }

  /** The slot just before the write cursor: the newest element (back()). */
  function Before(size: nat, tail: nat): (s: nat)
    requires 1 <= size && tail <= size
    ensures s < size
  {
    if tail == 0 then size - 1 else tail - 1
  }

  /** The element count getCount() computes from the cursors and the flag. */
  function CountOf(size: nat, head: nat, tail: nat, empty: bool): (n: nat)
    requires head <= size && tail <= size
    ensures n <= size
  {
    if tail == head && empty then 0
    else if tail == head && !empty then size
    else if tail > head then tail - head
    else size - (head - tail)
  }

  /** Representation invariant: `slots` with cursors `head`, `tail` and the
      flag `empty` hold the queue `contents`, oldest first. */
  ghost predicate Inv<T>(slots: seq<T>, head: nat, tail: nat, empty: bool, contents: seq<T>)
  {
    var size := |slots|;
    && 1 <= size && head <= size && tail <= size && |contents| <= size
    // tail is 0 only before the first push
    && (tail == 0 ==> head == 0 && empty)
    && (empty ==> head == tail)
    && (empty <==> contents == [])
    && Offset(size, head, |contents|) == Norm(size, tail)
    && forall i :: 0 <= i < |contents| ==> contents[i] == slots[Offset(size, head, i)]
  }

  /** Slots `i` and `j` places after one cursor differ when `i` and `j` do. */
  lemma OffsetInjective(size: nat, c: nat, i: nat, j: nat)
    requires 1 <= size && c <= size && i < j <= size
    requires j - i < size
    ensures Offset(size, c, i) != Offset(size, c, j)
  {
  }

  /** A freshly constructed buffer: both cursors at slot 0, flag set, nothing held. */
  lemma FreshInv<T>(slots: seq<T>)
    requires 1 <= |slots|
    ensures Inv(slots, 0, 0, true, [])
    ensures CountOf(|slots|, 0, 0, true) == 0
  {
  }

  /** getCount() is the number of live elements, whatever the cursors' wrap state. */
  lemma CountIsLength<T>(slots: seq<T>, head: nat, tail: nat, empty: bool, contents: seq<T>)
    requires Inv(slots, head, tail, empty, contents)
    ensures CountOf(|slots|, head, tail, empty) == |contents|
  {
  }

  /** push on a non-full buffer: normalise tail, write there, advance it. */
  lemma {:induction false} PushStep<T>(slots: seq<T>, head: nat, tail: nat, empty: bool, contents: seq<T>, x: T)
    requires Inv(slots, head, tail, empty, contents)
    requires |contents| < |slots|
    ensures var t := Norm(|slots|, tail);
      Inv(slots[t := x], head, t + 1, false, contents + [x])
  {
    var size, n, t := |slots|, |contents|, Norm(|slots|, tail);
    var slots', contents' := slots[t := x], contents + [x];
    forall i | 0 <= i < n
      ensures contents'[i] == slots'[Offset(size, head, i)]
    {
      OffsetInjective(size, head, i, n);
    }
    assert Offset(size, head, n + 1) == Norm(size, t + 1);
  }

  /** pop on a non-empty buffer: normalise head, read there, advance it, and set
      the flag exactly when head meets tail. */
  lemma {:induction false} PopStep<T>(slots: seq<T>, head: nat, tail: nat, empty: bool, contents: seq<T>)
    requires Inv(slots, head, tail, empty, contents)
    requires !empty
    ensures var h := Norm(|slots|, head);
      && slots[h] == contents[0]
      && Inv(slots, h + 1, tail, h + 1 == tail, contents[1..])
  {
    var size, n, h := |slots|, |contents|, Norm(|slots|, head);
    var rest := contents[1..];
    forall i | 0 <= i < n - 1
      ensures rest[i] == slots[Offset(size, h + 1, i)]
    {
      assert Offset(size, h + 1, i) == Offset(size, head, i + 1);
    }
    assert Offset(size, h + 1, n - 1) == Offset(size, head, n);
    if n >= 2 {
      OffsetInjective(size, head, 1, n);
    }
  }

  /** front() resetting head from the end of storage to slot 0 keeps the queue. */
  lemma NormHeadStep<T>(slots: seq<T>, head: nat, tail: nat, empty: bool, contents: seq<T>)
    requires Inv(slots, head, tail, empty, contents)
    requires !empty
    ensures Inv(slots, Norm(|slots|, head), tail, empty, contents)
  {
  }

  /** ... and therefore keeps getCount(), although the formula reads head. */
  lemma {:induction false} NormHeadKeepsCount<T>(slots: seq<T>, head: nat, tail: nat, empty: bool, contents: seq<T>)
    requires Inv(slots, head, tail, empty, contents)
    requires !empty
    ensures CountOf(|slots|, Norm(|slots|, head), tail, empty) == CountOf(|slots|, head, tail, empty)
  {
    NormHeadStep(slots, head, tail, empty, contents);
    CountIsLength(slots, head, tail, empty, contents);
    CountIsLength(slots, Norm(|slots|, head), tail, empty, contents);
  }

  /** back(): the slot before tail holds the newest element. */
  lemma {:induction false} BackIsNewest<T>(slots: seq<T>, head: nat, tail: nat, empty: bool, contents: seq<T>)
    requires Inv(slots, head, tail, empty, contents)
    ensures !empty ==> 1 <= tail && slots[Before(|slots|, tail)] == contents[|contents| - 1]
  {
    var size, n := |slots|, |contents|;
    if !empty {
      assert Offset(size, head, n - 1) == Before(size, tail);
    }
  }
}
