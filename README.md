# Ring buffer and employee register, modelled in Dafny

This project models two small C++ components and proves what their code
promises.

**`RingBuffer<T>`** is a bounded FIFO queue over a fixed C array. It has a
read cursor, a write cursor and an `empty` flag that tells an empty buffer
from a full one when the cursors meet. Four versions of the class exist,
and each is a Dafny class over an `array<T>`. The three that can change
their queue carry a ghost `Contents` sequence (the live elements, oldest
first); the Stage 1-2 snapshot, which has no mutator, fixes its contents
to the empty sequence instead of tracking them:

- `RingBuf` (file `ringbuf.dfy`) is the final class. It has construction,
  the count, free, empty and full queries, `push`, `front`, `back`, `pop`,
  the deep-copy constructor, copy-and-swap assignment and `swap`.
- `RingBufStage4` is the snapshot without `pop`. Its `front` and `back` are
  guarded.
- `RingBufStage12` is the snapshot with construction and the queries only.
  Its fields are `const`, so every query gives the same answer for the
  object's whole lifetime.
- `RingBufDraft` is the first draft. Its `front` and `back` check nothing,
  and its `pop` returns a reference to a storage slot, modelled as the
  slot's index.

The cursors are offsets in `[0, size]`. They wrap lazily: a cursor equal to
`size` designates slot 0 and is reset only just before the next write
(tail) or read (head). Module `Ring` holds this arithmetic and the
representation invariant `Inv` once, as functions and lemmas over a
`seq` of slots. Each class's `Valid()` is `Inv` over its own array.
`RingDrivers` replays the drivers' scenarios as client code. That code
relies only on the classes' contracts.

**`Register`** holds a vector of pointers to employee `Record`s and four
`std::map` indices:

- name → record
- department → records
- position → records
- boss → names of direct subordinates

`Register::add` updates all four in place. Records are Dafny objects, so a
record keeps its pointer identity. The register is a class with
`seq`/`map` fields.

Module `RegisterIndex` defines, as pure functions of the staff, the index
that adding the records one by one builds. The staff is each record paired
with the six fields it holds (`StaffOf`). Each index is tied to an
independent description of the staff: the department and position indices
to the insertion-order filter `Having`, the boss index to `NamesUnder`, and
the name index to `LastNamed` (the last entry carrying the name). The age
query `getStorage(age_l, age_h)` is tied to the filter `AgedWithin`.
`Register.Valid()` states that every index field equals its function of
the current staff. The constructors, `Clear`, `Add` and `Assign` state it
of the register they leave behind. `Swap` states only the exchange of the
five members; since `Valid()` reads nothing but those members and the
records, `Assign` proves it of the target right after its swap.

`Cpp/Final/src/register.cpp` and `Cpp/Final/src/record.cpp` are the same
code with `_`-prefixed member names, at the same line numbers. The rows
below cite the `Cpp/ConsoleApp` copies and stand for both.

Errors the C++ code throws appear as results. `Result.Err(InvalidArgument)`
stands for `std::invalid_argument`, and `Err(OutOfRange)` or
`Status.Failed(OutOfRange)` stands for `std::out_of_range`. A size-0
construction is `static method Create`, which returns `Err`. The Dafny
constructor is the part that runs once the size is known to be non-zero.

## Model

| member | source | states |
|---|---|---|
| Ring.Norm | Cpp/RingBuffer/include/ringbuf.hpp:155-156 | the slot a cursor in [0, size] designates (slot 0 for a cursor at the end of storage) lies inside the array |
| Ring.CountOf | Cpp/RingBuffer/include/ringbuf.hpp:94-111 | the getCount() formula over the cursors and the flag lies in [0, size]; Ring.CountIsLength ties it to the queue length |
| Ring.Before | Cpp/RingBuffer/include/ringbuf.hpp:199-202 | back()'s slot choice (the last slot when tail is at slot 0, otherwise the slot before tail) lies inside the array |
| Ring.FreshInv | Cpp/RingBuffer/include/ringbuf.hpp:32-42 | both cursors at slot 0 with the flag set is a valid empty buffer whose count is 0 |
| Ring.CountIsLength | Cpp/RingBuffer/include/ringbuf.hpp:94-111 | on every valid state, the four-branch getCount() formula equals the number of live elements |
| Ring.PushStep | Cpp/RingBuffer/include/ringbuf.hpp:148-167 | on a non-full buffer, wrapping tail, writing there and stepping tail past it, with the flag cleared, appends the value to the queue and keeps the invariant |
| Ring.PopStep | Cpp/RingBuffer/include/ringbuf.hpp:210-231 | on a non-empty buffer, the slot under the wrapped head holds the oldest element; stepping past it drops that element, with the flag set exactly when head meets tail |
| Ring.NormHeadStep | Cpp/RingBuffer/include/ringbuf.hpp:181-182 | resetting head from the end of storage to slot 0 on a non-empty buffer keeps the invariant and the queue |
| Ring.NormHeadKeepsCount | Cpp/RingBuffer/include/ringbuf.hpp:174-185 | that reset leaves getCount() unchanged, although the formula reads head |
| Ring.BackIsNewest | Cpp/RingBuffer/include/ringbuf.hpp:192-203 | on a non-empty buffer tail is at least 1, and the slot before tail (the last slot when tail is 0) holds the newest element |
| RingBuf.RingBuffer.Create | Cpp/RingBuffer/include/ringbuf.hpp:32-42 | size 0 fails with invalid_argument and nothing else does; otherwise a fresh array of sz slots, both cursors at slot 0, empty |
| RingBuf.RingBuffer.constructor | Cpp/RingBuffer/include/ringbuf.hpp:37-41 | fresh storage of sz slots, cursors at 0, flag set, no elements |
| RingBuf.RingBuffer.Copy | Cpp/RingBuffer/include/ringbuf.hpp:49-67 | fresh storage with the same size and slot contents, the same cursor offsets and flag, hence the same queue |
| RingBuf.RingBuffer.Count | Cpp/RingBuffer/include/ringbuf.hpp:94-111 | getCount() is the number of live elements and at most size |
| RingBuf.RingBuffer.Free | Cpp/RingBuffer/include/ringbuf.hpp:118-121 | getFree() is size minus the number of live elements |
| RingBuf.RingBuffer.IsEmpty | Cpp/RingBuffer/include/ringbuf.hpp:128-131 | isEmpty() is the flag, which holds exactly when no element is live |
| RingBuf.RingBuffer.IsFull | Cpp/RingBuffer/include/ringbuf.hpp:138-141 | isFull() holds exactly when size elements are live |
| RingBuf.RingBuffer.Push | Cpp/RingBuffer/include/ringbuf.hpp:148-167 | full: out_of_range and nothing changes; otherwise the value lands in the wrapped tail slot, tail is past it and at least 1, the flag is clear, the queue gains the value at its end, and back() returns it |
| RingBuf.RingBuffer.Front | Cpp/RingBuffer/include/ringbuf.hpp:174-185 | empty: out_of_range with head kept; otherwise the oldest element, with head normalised and the queue and count unchanged |
| RingBuf.RingBuffer.Back | Cpp/RingBuffer/include/ringbuf.hpp:192-203 | out_of_range exactly when empty; otherwise the newest element |
| RingBuf.RingBuffer.Pop | Cpp/RingBuffer/include/ringbuf.hpp:210-231 | empty: out_of_range and nothing changes; otherwise returns the oldest element and removes it, head steps past the wrapped slot, and the flag is set exactly when head meets tail |
| RingBuf.RingBuffer.Assign | Cpp/RingBuffer/include/ringbuf.hpp:239-251 | self-assignment changes nothing; otherwise the target gets fresh storage equal slot by slot to rhv's, the same cursors, flag and queue, and rhv is untouched |
| RingBuf.RingBuffer.Swap | Cpp/RingBuffer/include/ringbuf.hpp:259-267 | all five members (and the queues they hold) are exchanged |
| RingBufStage4.RingBuffer.Create | Cpp/Stage4/include/ringbuf.hpp:32-42 | size 0 fails with invalid_argument and nothing else does; otherwise a fresh empty buffer with both cursors at slot 0 |
| RingBufStage4.RingBuffer.constructor | Cpp/Stage4/include/ringbuf.hpp:37-41 | fresh storage of sz slots, cursors at 0, flag set, no elements |
| RingBufStage4.RingBuffer.Count | Cpp/Stage4/include/ringbuf.hpp:68-85 | the same formula is the number of live elements and at most size |
| RingBufStage4.RingBuffer.Free | Cpp/Stage4/include/ringbuf.hpp:92-95 | size minus the number of live elements |
| RingBufStage4.RingBuffer.IsEmpty | Cpp/Stage4/include/ringbuf.hpp:102-105 | the flag, which holds exactly when no element is live |
| RingBufStage4.RingBuffer.IsFull | Cpp/Stage4/include/ringbuf.hpp:112-115 | holds exactly when size elements are live |
| RingBufStage4.RingBuffer.Push | Cpp/Stage4/include/ringbuf.hpp:122-141 | full: out_of_range and nothing changes; otherwise writes at the wrapped tail, advances tail, clears the flag and appends the value |
| RingBufStage4.RingBuffer.Front | Cpp/Stage4/include/ringbuf.hpp:148-159 | empty: out_of_range; otherwise the oldest element, with head normalised and the queue and count unchanged |
| RingBufStage4.RingBuffer.Back | Cpp/Stage4/include/ringbuf.hpp:184-195 | out_of_range exactly when empty; otherwise the newest element |
| RingBufStage4.PushAll | Cpp/Stage4/include/ringbuf.hpp:122-141 | pushing xs onto an empty buffer: the first size pushes succeed and all later ones fail with out_of_range, and the buffer holds the first min(size, length of xs) values in order |
| RingBufStage4.FillThenOverflow | Cpp/Stage4/include/ringbuf.hpp:122-195 | with no pop, 1 <= k <= size pushes on a fresh buffer give count k, front the first value and back the last; one more push fails exactly when k == size |
| RingBufStage12.RingBuffer.Create | Cpp/Stage1_2/include/ringbuf.hpp:32-42 | size 0 fails with invalid_argument and nothing else does; otherwise size sz, head == tail == 0, empty |
| RingBufStage12.RingBuffer.constructor | Cpp/Stage1_2/include/ringbuf.hpp:37-41 | size sz, both cursors at slot 0, flag set |
| RingBufStage12.RingBuffer.Count | Cpp/Stage1_2/include/ringbuf.hpp:68-85 | the formula gives 0 on every state this snapshot can reach |
| RingBufStage12.RingBuffer.Free | Cpp/Stage1_2/include/ringbuf.hpp:92-95 | always the whole size |
| RingBufStage12.RingBuffer.IsEmpty | Cpp/Stage1_2/include/ringbuf.hpp:102-105 | always true |
| RingBufStage12.RingBuffer.IsFull | Cpp/Stage1_2/include/ringbuf.hpp:112-115 | never true |
| RingBufStage12.SizeFiveReport | Cpp/Stage1_2/src/main.cpp:24-31 | a buffer of size 5 reports size 5, empty, count 0, free 5, not full |
| RingBufDraft.RingBuffer.Create | Cpp/ringbuf.hpp:34-44 | size 0 fails with invalid_argument and nothing else does; otherwise a fresh empty buffer with both cursors at slot 0 |
| RingBufDraft.RingBuffer.constructor | Cpp/ringbuf.hpp:39-43 | fresh storage of sz slots, cursors at 0, flag set, no elements |
| RingBufDraft.RingBuffer.Count | Cpp/ringbuf.hpp:70-87 | the same formula as the final class: the number of live elements, at most size |
| RingBufDraft.RingBuffer.Free | Cpp/ringbuf.hpp:94-97 | size minus the number of live elements |
| RingBufDraft.RingBuffer.IsEmpty | Cpp/ringbuf.hpp:104-107 | the flag, which holds exactly when no element is live |
| RingBufDraft.RingBuffer.IsFull | Cpp/ringbuf.hpp:114-117 | holds exactly when size elements are live |
| RingBufDraft.RingBuffer.Push | Cpp/ringbuf.hpp:124-142 | full: out_of_range and nothing changes; otherwise writes at the wrapped tail, advances tail, clears the flag unconditionally, appends the value; back() is then that value |
| RingBufDraft.RingBuffer.Front | Cpp/ringbuf.hpp:149-162 | defined only while head < size (no wrap, no empty check); returns the slot under head, which is the oldest element on a non-empty buffer |
| RingBufDraft.RingBuffer.Back | Cpp/ringbuf.hpp:169-188 | no empty check: slot 0 before the first push, otherwise the slot before tail, which is the newest element on a non-empty buffer |
| RingBufDraft.RingBuffer.Pop | Cpp/ringbuf.hpp:195-216 | empty: out_of_range and nothing changes; otherwise the index of the wrapped head slot, which holds the oldest element, now removed; head steps past it and the flag is set exactly when head meets tail |
| RingDrivers.Drain | Cpp/Stage6/src/main.cpp:117-118 | popping until isEmpty() yields the queue in order and leaves the buffer empty |
| RingDrivers.PushCounting | Cpp/Stage6/src/main.cpp:54-72 | pushing 0..n-1 onto an empty buffer succeeds for the first size values, fails with out_of_range afterwards, and holds 0..min(n, size)-1 |
| RingDrivers.PopTimes | Cpp/Stage6/src/main.cpp:75-91 | n pops return the queued elements in order, then out_of_range |
| RingDrivers.FifoOfFive | Cpp/Stage6/src/main.cpp:54-91 | size 5: pushing 0..5 fails only on 5; six pops give 0, 1, 2, 3, 4 and then out_of_range |
| RingDrivers.CopyIsIndependent | Cpp/Stage6/src/main.cpp:96-127 | draining a copy of a buffer holding A, B, C yields "ABC", and the original still yields "ABC" afterwards |
| RingDrivers.CopyWritesStayLocal | Cpp/RingBuffer/include/ringbuf.hpp:49-67 | a copy has its own storage: draining it and pushing onto it leaves it holding just that value, while the original buffer and its array are untouched and still valid |
| RingDrivers.DrainDraft | Cpp/main.cpp:81-82 | the drain loop on the draft class yields the queue in order and leaves it empty |
| RingDrivers.PushTimesDraft | Cpp/main.cpp:88-96 | n pushes with room for them append n copies of the value |
| RingDrivers.PopTimesDraft | Cpp/main.cpp:101-105 | n pops from a buffer holding at least n elements drop its first n |
| RingDrivers.DraftDrainLeavesHeadAtEnd | Cpp/main.cpp:29-65 | after pushing 0..4 into size 5 and five pops, which yield 0..4, head equals size, outside the draft front()'s precondition |
| RingDrivers.DraftCharsInOrder | Cpp/main.cpp:68-83 | size 3: push A, B, C and pop until empty yields "ABC" |
| RingDrivers.DraftWrapAround | Cpp/main.cpp:88-139 | size 10: push 8, pop 5, push 5, pop 8, push 2, pop 2, push 9 ends with count 9, free 1, not full |
| Records.Record.constructor | Cpp/ConsoleApp/src/record.cpp:14-29 | name, age, dep, pos and days are stored as given; an empty boss becomes "n/a", any other is kept; the stored boss is never empty |
| Records.Record.Copy | Cpp/ConsoleApp/src/record.cpp:31-40 | the new record's six fields equal the original's |
| Records.Record.Assign | Cpp/ConsoleApp/src/record.cpp:48-60 | the six fields become rhv's former fields; rhv is untouched unless it is the target |
| Records.Record.Swap | Cpp/ConsoleApp/src/record.cpp:62-71 | the six fields are exchanged |
| RegisterIndex.NameIndexSpec | Cpp/ConsoleApp/src/register.cpp:104-105 | the name index holds exactly the names present, each mapped to the record added last under it |
| RegisterIndex.GroupIndexSpec | Cpp/ConsoleApp/src/register.cpp:107-113 | a department or position key is present exactly when some record has it, and maps to exactly those records in insertion order |
| RegisterIndex.HavingSpec | Cpp/ConsoleApp/src/register.cpp:107-113 | that list holds a record exactly when some entry of the staff pairs it with the key |
| RegisterIndex.SubordIndexSpec | Cpp/ConsoleApp/src/register.cpp:115-117 | a boss is present exactly when someone reports to them, and maps to their subordinates' names in insertion order |
| RegisterIndex.NamesUnderSpec | Cpp/ConsoleApp/src/register.cpp:115-117 | that list holds a name exactly when some entry with that name has the boss |
| RegisterIndex.AgedWithinSpec | Cpp/ConsoleApp/src/register.cpp:125-136 | the age filter keeps exactly the records with lo <= age <= hi, and is empty when lo > hi |
| RegisterIndex.SameDataSameFields | Cpp/ConsoleApp/src/register.cpp:36-42 | records holding equal fields position by position give staff entries with equal fields |
| RegisterIndex.SameFieldsSameShape | Cpp/ConsoleApp/src/register.cpp:27-43 | indices built from such staff have the same name, department and position keys, the same list lengths, and an equal boss index |
| Registers.Register.constructor | Cpp/ConsoleApp/src/register.cpp:16-25 | no records and all four indices empty, which is a consistent register |
| Registers.Register.Copy | Cpp/ConsoleApp/src/register.cpp:27-43 | a consistent register of fresh records, as many as the original, each with the fields of the original's record at the same position |
| Registers.Register.AddCopyOf | Cpp/ConsoleApp/src/register.cpp:36-42 | one loop step: a fresh copy of the next record is added, consistency and the field equality so far are kept |
| Registers.Register.Clear | Cpp/ConsoleApp/src/register.cpp:74-91 | no records and all four indices empty |
| Registers.Register.Add | Cpp/ConsoleApp/src/register.cpp:98-118 | the record is appended (size grows by 1); the name entry is overwritten, the record appended under its department and position, its name under its boss; no other key changes; consistency is kept |
| Registers.Register.StorageByAge | Cpp/ConsoleApp/src/register.cpp:125-136 | exactly the records with lo <= age <= hi, in insertion order; empty when lo > hi |
| Registers.Register.EmpByWorkDays | Cpp/ConsoleApp/src/register.cpp:138-159 | exactly the records whose days include at least one given day; empty for no days |
| Registers.Register.RecByName | Cpp/ConsoleApp/src/register.cpp:161-168 | invalid_argument exactly when no record has the name; otherwise the last record added under it |
| Registers.Register.EmpByDep | Cpp/ConsoleApp/src/register.cpp:170-177 | invalid_argument exactly when no record has the department; otherwise exactly its records, in insertion order |
| Registers.Register.EmpByPos | Cpp/ConsoleApp/src/register.cpp:179-186 | invalid_argument exactly when no record has the position; otherwise exactly its records, in insertion order |
| Registers.Register.SubordsByBoss | Cpp/ConsoleApp/src/register.cpp:188-195 | invalid_argument exactly when nobody has that boss; otherwise exactly the subordinates' names, in insertion order |
| Registers.Register.Assign | Cpp/ConsoleApp/src/register.cpp:50-62 | self-assignment changes nothing; otherwise the target is consistent and holds fresh records with rhv's fields position by position, and rhv is untouched |
| Registers.Register.Swap | Cpp/ConsoleApp/src/register.cpp:64-72 | all five members are exchanged |

## Left out

- Memory management is not modelled: `delete[]`, the destructors, and the deletion of records in `clearRegister`. Dafny allocation is fresh and never freed.
- Age parsing is not modelled. `std::stoi` on the age string is a library call, so the record constructor takes the age as a `nat`, and its parse errors and negative values do not arise.
- Exception message texts and their ANSI colour codes are left out. Only the exception kind is kept.
- The `const` overloads of `front()`/`back()` in Cpp/Stage4/include/ringbuf.hpp are not modelled. The `const front()` assigns to head inside a `const` member and is never instantiated. The non-const pair is modelled, and the `const back()` has the same body.
- The `T&` results of the draft's `front`, `back` and `pop` and of the Stage 4 non-const `front` and `back` (Cpp/Stage4/include/ringbuf.hpp:148, 184) are modelled as values, and the draft `pop` as a slot index. Writes through the returned reference are not modelled.
- `GetSize` (all four versions), `Registers.Register.Size` and `Registers.Register.Storage` carry no contract. Each returns a field that the other members' contracts already describe.
- `Register::getNameIdx`, `getDepIdx`, `getPosIdx` and `getSubordIdx` are not separate members. They return the index fields, which are fields of the Dafny class.
- The `Record` getters are not separate members. They are the class's fields, read directly, and reading them changes nothing.
- `EmpSet` orders records by pointer address. It is modelled as a `set<Record>`, so its iteration order is not captured.
- Registers.Register.Copy: its contract states field equality position by position, not index equality. The indices hold different, fresh records. That the copy's indices have the same keys and list lengths follows from `RegisterIndex.SameDataSameFields` and `RegisterIndex.SameFieldsSameShape`; the copy constructor's own contract does not state it.
- Registers.Register.Assign: the same holds for the target after a non-self assignment.
- A record reached through a register and then changed with `Records.Record.Assign` or `Swap` would leave that register's indices stale. The source stores `const Record*` and never does this. The model does not track which records a register owns.
- The console menu, the file load and save code, and the printers are not part of this model. They are I/O and text formatting.

## Findings

| source | as written | input that shows it | evidently intended | confidence | as-written member | corrected member |
|---|---|---|---|---|---|---|
| Cpp/ringbuf.hpp:149-162 | `front()` dereferences the head cursor without wrapping it and without an empty check, so once head sits at the end of storage it reads one slot past the array | size 5, push 0..4, pop five times, then `front()`; Cpp/main.cpp:49-55 does exactly this on its sixth iteration | wrap head from the end to slot 0 and throw `out_of_range` on an empty buffer, as the final class does | not executed | RingBufDraft.RingBuffer.Front (precondition head < size), RingDrivers.DraftDrainLeavesHeadAtEnd (head == size after the drain) | RingBuf.RingBuffer.Front |
