/** The fixed-capacity circular undo/redo history of action/action.go.

    A `Ring` is the `historyStack` record: the slot buffer, the cursors
    `head` (oldest undoable slot), `tail` (one past the newest recorded
    slot) and `cur` (the undo/redo pointer), and the flags `ud` ("something
    to undo") and `rd` ("something to redo"). Every cursor step wraps with
    an explicit comparison, as the Go code does, rather than with `%`.

    The contracts are stated against an abstract reading of the ring: the
    list `Undos` of actions Undo would return (oldest first) and the list
    `Redos` of actions Redo would return (next first).
 */
module History {
  import opened Wrappers
  import opened Seqs

  datatype Ring<A> = Ring(buffer: seq<Option<A>>, head: int, tail: int, cur: int, ud: bool, rd: bool)

  /** `i++` followed by the wrap to 0 at the end of the buffer. */
  function Next(i: int, n: int): int { if i + 1 >= n then 0 else i + 1 }

  /** `i--` followed by the wrap to `n - 1` below 0. */
  function Prev(i: int, n: int): int { if i - 1 < 0 then n - 1 else i - 1 }

  /** Reduction of a position in `[0, 2n)` into `[0, n)`. */
  function Wrap(x: int, n: int): int { if x >= n then x - n else x }

  /** The slot `k` places after `head`. */
  function Slot<A>(h: Ring<A>, k: int): Option<A>
  {
    var i := Wrap(h.head + k, |h.buffer|);
    if 0 <= i < |h.buffer| then h.buffer[i] else None
  }

  /** How many actions Undo can still return: the distance from `head` to
      `cur`, a whole turn when the two meet while `ud` is set. */
  function UndoCount<A>(h: Ring<A>): int
  {
    if !h.ud then 0
    else if h.cur > h.head then h.cur - h.head
    else h.cur + |h.buffer| - h.head
  }

  /** How many actions Redo can still return: the distance from `cur` to `tail`. */
  function RedoCount<A>(h: Ring<A>): int
  {
    if !h.rd then 0
    else if h.tail > h.cur then h.tail - h.cur
    else h.tail + |h.buffer| - h.cur
  }

  /** The representation invariant: cursors inside the buffer, the undo and
      redo ranges together no longer than the buffer, and every slot in them
      occupied. An empty buffer (history size 0) can only hold the initial state. */
  predicate Valid<A>(h: Ring<A>)
  {
    var n := |h.buffer|;
    if n == 0 then h.head == 0 && h.tail == 0 && h.cur == 0 && !h.ud && !h.rd
    else
      && 0 <= h.head < n && 0 <= h.tail < n && 0 <= h.cur < n
      && (!h.ud ==> h.cur == h.head)
      && (!h.rd ==> h.tail == h.cur)
      && UndoCount(h) + RedoCount(h) <= n
      && forall k :: 0 <= k < UndoCount(h) + RedoCount(h) ==> Slot(h, k).Some?
  }

  /** The `count` slots starting `from` places after `head`. */
  function Window<A>(h: Ring<A>, from: int, count: int): (r: seq<Option<A>>)
    requires count >= 0
    ensures |r| == count
  {
    seq(count, k => Slot(h, from + k))
  }

  /** Actions Undo would return, oldest first (the last one is undone first). */
  function Undos<A>(h: Ring<A>): seq<Option<A>>
    requires Valid(h)
  {
    Window(h, 0, UndoCount(h))
  }

  /** Actions Redo would return, in the order it would return them. */
  function Redos<A>(h: Ring<A>): seq<Option<A>>
    requires Valid(h)
  {
    Window(h, UndoCount(h), RedoCount(h))
  }

  /** A window one slot longer ends with the slot after it. */
  lemma WindowSnoc<A>(h: Ring<A>, from: int, count: nat)
    ensures Window(h, from, count + 1) == Window(h, from, count) + [Slot(h, from + count)]
  {
  }

  /** A window one slot longer starts with its first slot. */
  lemma WindowCons<A>(h: Ring<A>, from: int, count: nat)
    ensures Window(h, from, count + 1) == [Slot(h, from)] + Window(h, from + 1, count)
  {
  }

  /** Rings with the same buffer and `head` have the same windows. */
  lemma WindowSameSlots<A>(h: Ring<A>, r: Ring<A>, from: int, count: nat)
    requires r.buffer == h.buffer && r.head == h.head
    ensures Window(r, from, count) == Window(h, from, count)
  {
    forall i | 0 <= i < count
      ensures Window(r, from, count)[i] == Window(h, from, count)[i]
    {
      assert Slot(r, from + i) == Slot(h, from + i);
    }
  }

  /** True when the ring holds as many live entries as it has slots. */
  predicate Full<A>(h: Ring<A>)
  {
    UndoCount(h) > 0 && UndoCount(h) + RedoCount(h) == |h.buffer|
  }

  /** The state `make([]Action, historySize)` gives: every slot empty, all
      cursors 0, both flags false. `make` panics on a negative size. */
  function Create<A>(n: int): (h: Ring<A>)
    requires n >= 0
    ensures Valid(h) && |h.buffer| == n
    ensures Undos(h) == [] && Redos(h) == []
  {
    Ring(seq(n, _ => None), 0, 0, 0, false, false)
  }

  /** Whether `Do` wipes slot `i` while discarding pending redo entries: the
      slots from `cur` round to `tail` (including `tail` itself when the
      range does not wrap). */
  predicate Discarded(i: int, cur: int, tail: int)
  {
    if tail <= cur then i >= cur || i < tail else cur <= i <= tail
  }

  function Discard<A>(buffer: seq<Option<A>>, cur: int, tail: int): (b: seq<Option<A>>)
    ensures |b| == |buffer|
    ensures forall i :: 0 <= i < |b| ==> b[i] == (if Discarded(i, cur, tail) then None else buffer[i])
  {
    seq(|buffer|, i requires 0 <= i < |buffer| => if Discarded(i, cur, tail) then None else buffer[i])
  }

  /** `historyStack.Do`: evict the oldest entry when the ring is full, then
      drop pending redo entries, then record `a` at `cur` and advance `cur`
      and `tail`. Indexing slot `cur` of an empty buffer panics in Go. */
  function Do<A>(h: Ring<A>, a: A): (r: Ring<A>)
    requires Valid(h) && |h.buffer| > 0
    ensures Valid(r) && |r.buffer| == |h.buffer|
    ensures r.buffer[h.cur] == Some(a) && r.ud && !r.rd
    ensures r.cur == (h.cur + 1) % |h.buffer|
    ensures r.tail == ((if h.rd then h.cur else h.tail) + 1) % |h.buffer|
    ensures r.head == if h.head == h.tail && h.ud then (h.head + 1) % |h.buffer| else h.head
  {
    var n := |h.buffer|;
    var head := if h.head == h.tail && h.ud then Next(h.head, n) else h.head;
    var buffer := if h.rd then Discard(h.buffer, h.cur, h.tail) else h.buffer;
    var tail := if h.rd then h.cur else h.tail;
    var r := Ring(buffer[h.cur := Some(a)], head, Next(tail, n), Next(h.cur, n), true, false);
    assert DoResult(h, a, r);
    DoKeepsValid(h, a, r);
    NextIsSuccessorMod(h.cur, n);
    NextIsSuccessorMod(h.head, n);
    NextIsSuccessorMod(tail, n);
    r
  }

  /** `historyStack.Undo`: nothing when `ud` is clear; otherwise step `cur`
      back, return that slot, clear `ud` on reaching `head`, and set `rd`. */
  function Undo<A>(h: Ring<A>): (r: (Ring<A>, Option<A>))
    requires Valid(h)
    ensures Valid(r.0) && r.0.buffer == h.buffer && r.0.head == h.head
    ensures h.ud ==> UndoCount(r.0) == UndoCount(h) - 1 && RedoCount(r.0) == RedoCount(h) + 1
    ensures !h.ud ==> r == (h, None)
  {
    if h.ud then
      var n := |h.buffer|;
      var cur := Prev(h.cur, n);
      var r := (h.(cur := cur, ud := cur != h.head, rd := true), h.buffer[cur]);
      UndoKeepsValid(h, r.0);
      r
    else (h, None)
  }

  /** `historyStack.Redo`: nothing when `rd` is clear; otherwise return slot
      `cur`, step `cur` forward, clear `rd` on reaching `tail`, and set `ud`. */
  function Redo<A>(h: Ring<A>): (r: (Ring<A>, Option<A>))
    requires Valid(h)
    ensures Valid(r.0) && r.0.buffer == h.buffer && r.0.head == h.head
    ensures h.rd ==> UndoCount(r.0) == UndoCount(h) + 1 && RedoCount(r.0) == RedoCount(h) - 1
    ensures !h.rd ==> r == (h, None)
  {
    if h.rd then
      var n := |h.buffer|;
      var cur := Next(h.cur, n);
      var r := (h.(cur := cur, ud := true, rd := cur != h.tail), h.buffer[h.cur]);
      RedoKeepsValid(h, r.0);
      r
    else (h, None)
  }

  // ---------------------------------------------------------------------
  // Cursor arithmetic

  /** The compare-and-reset step of the Go code is the successor modulo `n`. */
  lemma NextIsSuccessorMod(i: int, n: int)
    requires 0 <= i < n
    ensures Next(i, n) == (i + 1) % n
  {
  }

  /** `cur` sits `UndoCount` slots after `head`, and `tail` `RedoCount` slots after `cur`. */
  lemma CursorPositions<A>(h: Ring<A>)
    requires Valid(h) && |h.buffer| > 0
    ensures h.cur == Wrap(h.head + UndoCount(h), |h.buffer|)
    ensures h.tail == Wrap(h.cur + RedoCount(h), |h.buffer|)
    ensures h.ud <==> UndoCount(h) > 0
    ensures h.rd <==> RedoCount(h) > 0
  {
  }

  /** The arithmetic of one `Do`, on plain integers: with `u` undoable and
      `rc` redoable entries, and `e` the eviction (1 exactly when the ring is
      full), the new `cur` lies `u + 1 - e` slots after the new `head`. */
  lemma DoArithmetic(n: int, head: int, u: int, rc: int, e: int)
    requires n >= 1 && 0 <= head < n && 0 <= u && 0 <= rc && u + rc <= n
    requires e == if u > 0 && u + rc == n then 1 else 0
    ensures var cur := Wrap(head + u, n);
            var head' := Wrap(head + e, n);
            var cur' := Next(cur, n);
            && 1 <= u + 1 - e <= n
            && (if cur' > head' then cur' - head' else cur' + n - head') == u + 1 - e
            && Wrap(head' + (u - e), n) == cur
  {
  }

  /** A slot still undoable after the eviction is neither the slot `Do`
      writes nor one it discards. */
  lemma KeptSlotUntouched(n: int, head: int, u: int, rc: int, e: int, k: int)
    requires n >= 1 && 0 <= head < n && 0 <= u && 0 <= rc && u + rc <= n
    requires e == if u > 0 && u + rc == n then 1 else 0
    requires 0 <= k < u - e
    ensures var cur := Wrap(head + u, n);
            var tail := Wrap(cur + rc, n);
            var p := Wrap(head + k + e, n);
            && Wrap(Wrap(head + e, n) + k, n) == p
            && 0 <= p < n && p != cur
            && (rc > 0 ==> !Discarded(p, cur, tail))
  {
  }

  /** The ring `Do` builds from `h`, spelled out for the lemmas below. */
  ghost predicate DoResult<A>(h: Ring<A>, a: A, r: Ring<A>)
    requires Valid(h) && |h.buffer| > 0
  {
    var n := |h.buffer|;
    r == Ring((if h.rd then Discard(h.buffer, h.cur, h.tail) else h.buffer)[h.cur := Some(a)],
              if h.head == h.tail && h.ud then Next(h.head, n) else h.head,
              Next(if h.rd then h.cur else h.tail, n), Next(h.cur, n), true, false)
  }

  lemma DoCounts<A>(h: Ring<A>, a: A, r: Ring<A>)
    requires Valid(h) && |h.buffer| > 0 && DoResult(h, a, r)
    ensures |r.buffer| == |h.buffer| && 0 <= r.head < |h.buffer| && 0 <= r.tail < |h.buffer| && 0 <= r.cur < |h.buffer|
    ensures r.head == Wrap(h.head + (if Full(h) then 1 else 0), |h.buffer|)
    ensures UndoCount(r) == UndoCount(h) + 1 - (if Full(h) then 1 else 0) <= |h.buffer|
    ensures RedoCount(r) == 0 && r.tail == r.cur
    ensures Wrap(r.head + UndoCount(r) - 1, |h.buffer|) == h.cur
  {
    var n := |h.buffer|;
    var u, rc := UndoCount(h), RedoCount(h);
    var e := if Full(h) then 1 else 0;
    CursorPositions(h);
    assert h.head == h.tail && h.ud <==> Full(h);
    DoArithmetic(n, h.head, u, rc, e);
  }

  lemma DoKeepsSlot<A>(h: Ring<A>, a: A, r: Ring<A>, k: int)
    requires Valid(h) && |h.buffer| > 0 && DoResult(h, a, r)
    requires 0 <= k < UndoCount(h) - (if Full(h) then 1 else 0)
    ensures Slot(r, k) == Slot(h, k + (if Full(h) then 1 else 0))
  {
    var n := |h.buffer|;
    var e := if Full(h) then 1 else 0;
    var p := Wrap(h.head + k + e, n);
    CursorPositions(h);
    DoCounts(h, a, r);
    KeptSlotUntouched(n, h.head, UndoCount(h), RedoCount(h), e, k);
    SlotAt(h, k + e, p);
    SlotAt(r, k, p);
    BufferKeepsSlot(h.buffer, h.cur, h.tail, h.rd, a, p);
  }

  /** Slot `k` is the buffer entry its wrapped position names. */
  lemma SlotAt<A>(h: Ring<A>, k: int, p: int)
    requires 0 <= p < |h.buffer| && Wrap(h.head + k, |h.buffer|) == p
    ensures Slot(h, k) == h.buffer[p]
  {
  }

  /** The write and the discarding of `Do` leave a slot alone that is
      neither written nor discarded. */
  lemma BufferKeepsSlot<A>(buffer: seq<Option<A>>, cur: int, tail: int, rd: bool, a: A, p: int)
    requires 0 <= cur < |buffer| && 0 <= p < |buffer| && p != cur
    requires rd ==> !Discarded(p, cur, tail)
    ensures (if rd then Discard(buffer, cur, tail) else buffer)[cur := Some(a)][p] == buffer[p]
  {
  }

  lemma DoKeepsValid<A>(h: Ring<A>, a: A, r: Ring<A>)
    requires Valid(h) && |h.buffer| > 0 && DoResult(h, a, r)
    ensures Valid(r) && |r.buffer| == |h.buffer|
    ensures UndoCount(r) == UndoCount(h) + 1 - (if Full(h) then 1 else 0)
    ensures forall k :: 0 <= k < UndoCount(r) - 1 ==> Slot(r, k) == Slot(h, k + (if Full(h) then 1 else 0))
    ensures Slot(r, UndoCount(r) - 1) == Some(a)
  {
    var e := if Full(h) then 1 else 0;
    DoCounts(h, a, r);
    forall k | 0 <= k < UndoCount(r) - 1
      ensures Slot(r, k) == Slot(h, k + e)
    {
      DoKeepsSlot(h, a, r, k);
    }
    assert Slot(r, UndoCount(r) - 1) == Some(a);
    forall k | 0 <= k < UndoCount(r)
      ensures Slot(r, k).Some?
    {
      if k < UndoCount(r) - 1 {
        assert Slot(h, k + e).Some?;
      }
    }
    UndoOnlyValid(r);
  }

  /** A ring with something to undo and nothing to redo is valid when its
      cursors are in range and its undo slots are occupied. */
  lemma UndoOnlyValid<A>(r: Ring<A>)
    requires |r.buffer| > 0 && 0 <= r.head < |r.buffer| && 0 <= r.cur < |r.buffer|
    requires r.ud && !r.rd && r.tail == r.cur && UndoCount(r) <= |r.buffer|
    requires forall k :: 0 <= k < UndoCount(r) ==> Slot(r, k).Some?
    ensures Valid(r)
  {
  }

  lemma UndoKeepsValid<A>(h: Ring<A>, r: Ring<A>)
    requires Valid(h) && h.ud
    requires r == h.(cur := Prev(h.cur, |h.buffer|), ud := Prev(h.cur, |h.buffer|) != h.head, rd := true)
    ensures Valid(r)
    ensures UndoCount(r) == UndoCount(h) - 1 && RedoCount(r) == RedoCount(h) + 1
    ensures r.cur == Wrap(h.head + UndoCount(h) - 1, |h.buffer|)
  {
    CursorPositions(h);
    assert forall k :: Slot(r, k) == Slot(h, k);
  }

  lemma RedoKeepsValid<A>(h: Ring<A>, r: Ring<A>)
    requires Valid(h) && h.rd
    requires r == h.(cur := Next(h.cur, |h.buffer|), ud := true, rd := Next(h.cur, |h.buffer|) != h.tail)
    ensures Valid(r)
    ensures UndoCount(r) == UndoCount(h) + 1 && RedoCount(r) == RedoCount(h) - 1
  {
    CursorPositions(h);
    assert forall k :: Slot(r, k) == Slot(h, k);
  }
  // ---------------------------------------------------------------------
  // The ring against its abstract undo and redo lists

  /** `Do` appends `a` to the undo list and empties the redo list. When the
      ring is full the oldest undo entry is evicted first; fullness counts
      pending redo entries too, because eviction is decided before they are
      discarded. */
  lemma DoRefines<A>(h: Ring<A>, a: A)
    requires Valid(h) && |h.buffer| > 0
    ensures Undos(Do(h, a)) == (if Full(h) then Undos(h)[1..] else Undos(h)) + [Some(a)]
    ensures Redos(Do(h, a)) == []
  {
    var r := Do(h, a);
    var e := if Full(h) then 1 else 0;
    assert DoResult(h, a, r);
    DoKeepsValid(h, a, r);
    DoCounts(h, a, r);
    UndosShifted(h, r, a, e);
  }

  /** The undo list of a ring whose live slots are those of `h` shifted by
      `e`, followed by `a`. */
  lemma UndosShifted<A>(h: Ring<A>, r: Ring<A>, a: A, e: int)
    requires Valid(h) && Valid(r) && 0 <= e <= 1 && e <= UndoCount(h)
    requires UndoCount(r) == UndoCount(h) + 1 - e
    requires forall k :: 0 <= k < UndoCount(r) - 1 ==> Slot(r, k) == Slot(h, k + e)
    requires Slot(r, UndoCount(r) - 1) == Some(a)
    ensures Undos(r) == Undos(h)[e..] + [Some(a)]
  {
    var want := Undos(h)[e..] + [Some(a)];
    forall k | 0 <= k < |want|
      ensures Undos(r)[k] == want[k]
    {
      if k < |want| - 1 {
        assert Undos(r)[k] == Slot(r, k) == Slot(h, k + e) == Undos(h)[k + e];
      }
    }
  }

  /** `Undo` returns nothing when the undo list is empty; otherwise it moves
      the newest undo entry to the front of the redo list and returns it. */
  lemma UndoRefines<A>(h: Ring<A>)
    requires Valid(h)
    ensures var (r, x) := Undo(h);
            if Undos(h) == [] then r == h && x == None
            else && x.Some? && x == Undos(h)[|Undos(h)| - 1]
                 && Undos(r) == Undos(h)[..|Undos(h)| - 1]
                 && Redos(r) == [x] + Redos(h)
  {
    if h.ud {
      UndoStep(h);
      ListsAfterUndo(h, Undo(h).0);
    }
  }

  /** `Redo` returns nothing when the redo list is empty; otherwise it moves
      the front redo entry to the end of the undo list and returns it. */
  lemma RedoRefines<A>(h: Ring<A>)
    requires Valid(h)
    ensures var (r, x) := Redo(h);
            if Redos(h) == [] then r == h && x == None
            else && x.Some? && x == Redos(h)[0]
                 && Undos(r) == Undos(h) + [x]
                 && Redos(r) == Redos(h)[1..]
  {
    if h.rd {
      RedoStep(h);
      ListsAfterRedo(h, Redo(h).0);
    }
  }

  /** One Undo on the concrete ring: same slots, one fewer undoable entry,
      one more redoable, and the returned slot is the newest undoable one. */
  lemma UndoStep<A>(h: Ring<A>)
    requires Valid(h) && h.ud
    ensures var p := Undo(h);
            && p.0.buffer == h.buffer && p.0.head == h.head
            && UndoCount(h) >= 1
            && UndoCount(p.0) == UndoCount(h) - 1 && RedoCount(p.0) == RedoCount(h) + 1
            && p.1 == Slot(h, UndoCount(h) - 1)
  {
    UndoKeepsValid(h, Undo(h).0);
  }

  /** One Redo on the concrete ring: same slots, one more undoable entry,
      one fewer redoable, and the returned slot is the first redoable one. */
  lemma RedoStep<A>(h: Ring<A>)
    requires Valid(h) && h.rd
    ensures var p := Redo(h);
            && p.0.buffer == h.buffer && p.0.head == h.head
            && RedoCount(h) >= 1
            && UndoCount(p.0) == UndoCount(h) + 1 && RedoCount(p.0) == RedoCount(h) - 1
            && p.1 == Slot(h, UndoCount(h))
  {
    RedoKeepsValid(h, Redo(h).0);
    CursorPositions(h);
  }

  /** Moving the boundary between the two lists one slot back. */
  lemma ListsAfterUndo<A>(h: Ring<A>, r: Ring<A>)
    requires Valid(h) && Valid(r) && r.buffer == h.buffer && r.head == h.head
    requires UndoCount(h) >= 1 && UndoCount(r) == UndoCount(h) - 1 && RedoCount(r) == RedoCount(h) + 1
    ensures Undos(h) != []
    ensures Undos(r) == Undos(h)[..|Undos(h)| - 1]
    ensures Redos(r) == [Slot(h, UndoCount(h) - 1)] + Redos(h)
  {
    WindowsAfterUndo(h, r, UndoCount(h), RedoCount(h));
  }

  lemma WindowsAfterUndo<A>(h: Ring<A>, r: Ring<A>, u: int, rc: int)
    requires r.buffer == h.buffer && r.head == h.head && u >= 1 && rc >= 0
    ensures Window(r, 0, u - 1) == Window(h, 0, u)[..u - 1]
    ensures Window(r, u - 1, rc + 1) == [Slot(h, u - 1)] + Window(h, u, rc)
  {
    WindowSameSlots(h, r, 0, u - 1);
    WindowSameSlots(h, r, u - 1, rc + 1);
    WindowSnoc(h, 0, u - 1);
    WindowCons(h, u - 1, rc);
  }

  /** Moving the boundary between the two lists one slot forward. */
  lemma ListsAfterRedo<A>(h: Ring<A>, r: Ring<A>)
    requires Valid(h) && Valid(r) && r.buffer == h.buffer && r.head == h.head
    requires RedoCount(h) >= 1 && UndoCount(r) == UndoCount(h) + 1 && RedoCount(r) == RedoCount(h) - 1
    ensures Redos(h) != [] && Redos(h)[0] == Slot(h, UndoCount(h))
    ensures Undos(r) == Undos(h) + [Slot(h, UndoCount(h))]
    ensures Redos(r) == Redos(h)[1..]
  {
    WindowsAfterRedo(h, r, UndoCount(h), RedoCount(h));
  }

  lemma WindowsAfterRedo<A>(h: Ring<A>, r: Ring<A>, u: int, rc: int)
    requires r.buffer == h.buffer && r.head == h.head && u >= 0 && rc >= 1
    ensures Window(h, u, rc)[0] == Slot(h, u)
    ensures Window(r, 0, u + 1) == Window(h, 0, u) + [Slot(h, u)]
    ensures Window(r, u + 1, rc - 1) == Window(h, u, rc)[1..]
  {
    WindowSameSlots(h, r, 0, u + 1);
    WindowSameSlots(h, r, u + 1, rc - 1);
    WindowSnoc(h, 0, u);
    WindowCons(h, u, rc - 1);
  }

  // ---------------------------------------------------------------------
  // Properties of the history

  /** A new history has nothing to undo and nothing to redo. */
  lemma FreshHasNothing<A>(n: int)
    requires n >= 0
    ensures Undo(Create<A>(n)).1 == None && Redo(Create<A>(n)).1 == None
  {
  }

  /** Undo followed by Redo returns the same action twice and puts the ring
      back exactly as it was, cursor and flags included. */
  lemma {:induction false} UndoThenRedoRestores<A>(h: Ring<A>)
    requires Valid(h) && h.ud
    ensures var (h1, x) := Undo(h);
            var (h2, y) := Redo(h1);
            x.Some? && y == x && h2 == h
  {
    var (h1, x) := Undo(h);
    UndoKeepsValid(h, h1);
    CursorPositions(h);
    UndoRefines(h);
  }

  /** Redo followed by Undo returns the same action twice and puts the ring
      back exactly as it was. */
  lemma {:induction false} RedoThenUndoRestores<A>(h: Ring<A>)
    requires Valid(h) && h.rd
    ensures var (h1, x) := Redo(h);
            var (h2, y) := Undo(h1);
            x.Some? && y == x && h2 == h
  {
    var (h1, x) := Redo(h);
    RedoKeepsValid(h, h1);
    CursorPositions(h);
    RedoRefines(h);
  }

  /** Recording after an Undo discards what could have been redone: the
      following Redo returns nothing. */
  lemma DoInvalidatesRedo<A>(h: Ring<A>, a: A, b: A)
    requires Valid(h) && |h.buffer| > 0
    ensures var (h1, _) := Undo(Do(h, b));
            Redo(Do(h1, a)).1 == None
  {
  }

  /** The eviction test runs before pending redo entries are dropped, so on
      a ring that is completely full, an Undo followed by a Do still evicts
      the oldest entry: the undo list shrinks to `n - 1` entries although the
      slot freed by the Undo is reused. */
  lemma DoAfterUndoOnFullRingEvicts<A>(h: Ring<A>, a: A)
    requires Valid(h) && |h.buffer| >= 2 && |Undos(h)| == |h.buffer|
    ensures var h2 := Do(Undo(h).0, a);
            && |Undos(h2)| == |h.buffer| - 1
            && Undos(h2) == Undos(h)[1..|h.buffer| - 1] + [Some(a)]
  {
    var n := |h.buffer|;
    var (h1, x) := Undo(h);
    UndoRefines(h);
    assert |Undos(h1)| == n - 1 && |Redos(h1)| == 1;
    assert Full(h1);
    DoRefines(h1, a);
  }

  /** Records each action of `acts` in turn. */
  function DoAll<A>(h: Ring<A>, acts: seq<A>): (r: Ring<A>)
    requires Valid(h) && |h.buffer| > 0
    ensures Valid(r) && |r.buffer| == |h.buffer|
    decreases |acts|
  {
    if acts == [] then h else DoAll(Do(h, acts[0]), acts[1..])
  }

  /** The history after `k` calls of Undo. */
  function Undone<A>(h: Ring<A>, k: nat): (r: Ring<A>)
    requires Valid(h)
    ensures Valid(r) && |r.buffer| == |h.buffer|
    decreases k
  {
    if k == 0 then h else Undone(Undo(h).0, k - 1)
  }

  /** What `k` calls of Undo return, in call order. */
  function UndoResults<A>(h: Ring<A>, k: nat): (r: seq<Option<A>>)
    requires Valid(h)
    ensures |r| == k
    decreases k
  {
    if k == 0 then [] else [Undo(h).1] + UndoResults(Undo(h).0, k - 1)
  }

  /** The actions as the slot values that record them. */
  function Somes<A>(acts: seq<A>): (r: seq<Option<A>>)
    ensures |r| == |acts| && forall i :: 0 <= i < |acts| ==> r[i] == Some(acts[i])
  {
    seq(|acts|, i requires 0 <= i < |acts| => Some(acts[i]))
  }

  /** While the ring has room, recording appends to the undo list. */
  lemma {:induction false} DoAllAppends<A>(h: Ring<A>, acts: seq<A>)
    requires Valid(h) && |h.buffer| > 0 && Redos(h) == []
    requires |Undos(h)| + |acts| <= |h.buffer|
    ensures Undos(DoAll(h, acts)) == Undos(h) + Somes(acts)
    ensures Redos(DoAll(h, acts)) == []
    decreases |acts|
  {
    if acts != [] {
      var h1 := Do(h, acts[0]);
      DoAppends(h, acts[0]);
      DoAllAppends(h1, acts[1..]);
      SomesCons(acts);
      AppendRegroup(Undos(h), Undos(h1), Some(acts[0]), Somes(acts[1..]), Somes(acts));
    }
  }

  /** While the ring has room and nothing to redo, one `Do` appends. */
  lemma DoAppends<A>(h: Ring<A>, a: A)
    requires Valid(h) && |h.buffer| > 0 && Redos(h) == [] && |Undos(h)| < |h.buffer|
    ensures Undos(Do(h, a)) == Undos(h) + [Some(a)] && Redos(Do(h, a)) == []
  {
    DoRefines(h, a);
    assert !Full(h);
  }

  /** `Somes` of a non-empty list starts with its first action. */
  lemma SomesCons<A>(acts: seq<A>)
    requires acts != []
    ensures Somes(acts) == [Some(acts[0])] + Somes(acts[1..])
  {
  }

  /** Appending `x` and then `rest` is appending `[x] + rest`. */
  lemma AppendRegroup<T>(u: seq<T>, u1: seq<T>, x: T, rest: seq<T>, all: seq<T>)
    requires u1 == u + [x] && all == [x] + rest
    ensures u1 + rest == u + all
  {
  }

  /** `k` Undo calls leave the older entries undoable. */
  lemma {:induction false} UndonePops<A>(h: Ring<A>, k: nat)
    requires Valid(h) && k <= |Undos(h)|
    ensures Undos(Undone(h, k)) == Undos(h)[..|Undos(h)| - k]
    decreases k
  {
    if k > 0 {
      var h1 := Undo(h).0;
      UndoStep(h);
      ListsAfterUndo(h, h1);
      UndonePops(h1, k - 1);
      assert Undos(h1)[..|Undos(h1)| - (k - 1)] == Undos(h)[..|Undos(h)| - k];
    }
  }

  /** `k` Undo calls return the newest `k` undo entries, newest first. */
  lemma {:induction false} UndoResultsPop<A>(h: Ring<A>, k: nat)
    requires Valid(h) && k <= |Undos(h)|
    ensures UndoResults(h, k) == Reverse(Undos(h)[|Undos(h)| - k..])
    decreases k
  {
    if k == 0 {
      assert Undos(h)[|Undos(h)|..] == [];
    } else {
      var h1 := Undo(h).0;
      assert |Undos(h1)| == |Undos(h)| - 1 by {
        UndoRefines(h);
      }
      UndoResultsPop(h1, k - 1);
      UndoResultsStep(h, k);
    }
  }

  /** The inductive step of `UndoResultsPop`: one Undo returns the newest
      entry, and the rest comes from the ring it leaves. */
  lemma UndoResultsStep<A>(h: Ring<A>, k: nat)
    requires Valid(h) && 0 < k <= |Undos(h)|
    requires UndoResults(Undo(h).0, k - 1) == Reverse(Undos(Undo(h).0)[|Undos(h)| - k..])
    ensures UndoResults(h, k) == Reverse(Undos(h)[|Undos(h)| - k..])
  {
    UndoPop(h);
    ReversePop(Undos(h), Undos(Undo(h).0), Undo(h).1, UndoResults(Undo(h).0, k - 1), k);
  }

  /** `UndoRefines` for a non-empty undo list, without the tuple. */
  lemma UndoPop<A>(h: Ring<A>)
    requires Valid(h) && Undos(h) != []
    ensures Undos(Undo(h).0) == Undos(h)[..|Undos(h)| - 1]
    ensures Undo(h).1 == Undos(h)[|Undos(h)| - 1]
  {
    UndoRefines(h);
  }

  /** On a new history of capacity `n`, recording `k <= n` actions and then
      undoing `k` times returns the actions in reverse order and leaves
      nothing to undo. */
  lemma DoThenUndoReversed<A>(n: int, acts: seq<A>)
    requires 1 <= n && |acts| <= n
    ensures var h := DoAll(Create<A>(n), acts);
            UndoResults(h, |acts|) == Reverse(Somes(acts)) && !Undone(h, |acts|).ud
  {
    var h := DoAll(Create<A>(n), acts);
    assert Undos(h) == Somes(acts) by {
      DoAllAppends(Create<A>(n), acts);
    }
    UndoAllReversed(h, Somes(acts));
  }

  /** Undoing every entry of the undo list `u` returns `u` reversed and
      leaves nothing to undo. */
  lemma UndoAllReversed<A>(h: Ring<A>, u: seq<Option<A>>)
    requires Valid(h) && Undos(h) == u
    ensures UndoResults(h, |u|) == Reverse(u) && !Undone(h, |u|).ud
  {
    var k := |u|;
    assert UndoResults(h, k) == Reverse(u) by {
      UndoResultsPop(h, k);
      assert u[|u| - k..] == u;
    }
    assert !Undone(h, k).ud by {
      UndonePops(h, k);
      EmptiedClearsUd(Undone(h, k));
    }
  }

  /** With nothing left to undo, `ud` is clear. */
  lemma EmptiedClearsUd<A>(r: Ring<A>)
    requires Valid(r) && Undos(r) == []
    ensures !r.ud
  {
    if |r.buffer| > 0 { CursorPositions(r); }
  }


}
