/** The ring-buffer family of util/typed_ring_buffer.hh.

    `TypedRingBuffer` is a FIFO over the ring storage with cumulative
    pushed/popped counters. `EndlessBuffer` is a window of C absolute
    positions `[popped, popped + C)` with random access inside it and
    eviction that resets slots to the default value. `SafeEndlessBuffer`
    tolerates positions outside the window. */
module RingBuffers {
  import opened Results
  import opened RingStorage

  // ---------------------------------------------------------------------
  // TypedRingBuffer
  // ---------------------------------------------------------------------

  datatype TypedRingBuffer<T> = TypedRingBuffer(slots: seq<T>, pushed: nat, popped: nat)

  /** `0 <= num_stored <= capacity` over a non-empty storage. */
  predicate Valid<T>(b: TypedRingBuffer<T>) {
    && |b.slots| > 0
    && b.popped <= b.pushed
    && b.pushed - b.popped <= |b.slots|
  }

  /** `TypedRingStorage::capacity`: the number of element slots. */
  function Capacity<T>(b: TypedRingBuffer<T>): nat {
    |b.slots|
  }

  function NumStored<T>(b: TypedRingBuffer<T>): nat
    requires b.popped <= b.pushed
  {
    b.pushed - b.popped
  }

  /** `writable_region`: from the slot after the last pushed element, as
      many slots as are free. */
  function WritableRegion<T>(b: TypedRingBuffer<T>): (r: seq<T>)
    requires Valid(b)
    ensures |r| == Capacity(b) - NumStored(b)
    ensures forall k :: 0 <= k < |r| ==> r[k] == Cell(b.slots, b.pushed + k)
  {
    StorageAt(b.slots, b.pushed);
    Storage(b.slots, b.pushed % Capacity(b))[..Capacity(b) - NumStored(b)]
  }

  /** `readable_region`: from the next unread element, as many slots as
      are stored. */
  function ReadableRegion<T>(b: TypedRingBuffer<T>): (r: seq<T>)
    requires Valid(b)
    ensures |r| == NumStored(b)
    ensures forall k :: 0 <= k < |r| ==> r[k] == Cell(b.slots, b.popped + k)
  {
    StorageAt(b.slots, b.popped);
    Storage(b.slots, b.popped % Capacity(b))[..NumStored(b)]
  }

  /** `push`: commit `n` elements written through the writable region;
      throws when that is more than the region holds. */
  function Push<T>(b: TypedRingBuffer<T>, n: nat): (r: Result<TypedRingBuffer<T>>)
    requires Valid(b)
    ensures r.Success? <==> n <= Capacity(b) - NumStored(b)
    ensures r.Failure? ==> r.fault == PushTooLarge
    ensures r.Success? ==>
      && Valid(r.value)
      && r.value.slots == b.slots
      && r.value.popped == b.popped
      && r.value.pushed == b.pushed + n
      && NumStored(r.value) == NumStored(b) + n
  {
    if n > |WritableRegion(b)| then Failure(PushTooLarge)
    else Success(b.(pushed := b.pushed + n))
  }

  /** `pop`: release `n` elements of the readable region; throws when that
      is more than the region holds. */
  function Pop<T>(b: TypedRingBuffer<T>, n: nat): (r: Result<TypedRingBuffer<T>>)
    requires Valid(b)
    ensures r.Success? <==> n <= NumStored(b)
    ensures r.Failure? ==> r.fault == PopTooLarge
    ensures r.Success? ==>
      && Valid(r.value)
      && r.value.slots == b.slots
      && r.value.pushed == b.pushed
      && r.value.popped == b.popped + n
      && NumStored(r.value) == NumStored(b) - n
  {
    if n > |ReadableRegion(b)| then Failure(PopTooLarge)
    else Success(b.(popped := b.popped + n))
  }

  /** A caller writing `vals` into the front of the writable region. */
  function FillWritable<T>(b: TypedRingBuffer<T>, vals: seq<T>): (r: TypedRingBuffer<T>)
    requires Valid(b) && |vals| <= Capacity(b) - NumStored(b)
    ensures Valid(r) && Capacity(r) == Capacity(b) && r.pushed == b.pushed && r.popped == b.popped
    ensures ReadableRegion(r) == ReadableRegion(b)
    ensures WritableRegion(r)[..|vals|] == vals
  {
    var r := b.(slots := WriteRun(b.slots, b.pushed, vals));
    assert forall k :: 0 <= k < NumStored(b) ==> ReadableRegion(r)[k] == ReadableRegion(b)[k] by {
      forall k | 0 <= k < NumStored(b)
        ensures ReadableRegion(r)[k] == ReadableRegion(b)[k]
      {
        assert b.popped + k + Capacity(b) >= b.pushed + |vals|;
        ModShift(b.popped + k, Capacity(b));
        assert Cell(r.slots, b.popped + k + Capacity(b)) == Cell(b.slots, b.popped + k + Capacity(b));
      }
    }
    r
  }

  /** FIFO: elements written into the writable region and then pushed
      are appended, in order, to the readable region. */
  lemma PushAppends<T>(b: TypedRingBuffer<T>, vals: seq<T>)
    requires Valid(b) && |vals| <= Capacity(b) - NumStored(b)
    ensures Push(FillWritable(b, vals), |vals|).Success?
    ensures ReadableRegion(Push(FillWritable(b, vals), |vals|).value) == ReadableRegion(b) + vals
  {
    var f := FillWritable(b, vals);
    var r := Push(f, |vals|).value;
    var old_ := ReadableRegion(b);
    forall k | 0 <= k < NumStored(r)
      ensures ReadableRegion(r)[k] == (old_ + vals)[k]
    {
      if k < NumStored(b) {
        assert ReadableRegion(r)[k] == ReadableRegion(f)[k];
      } else {
        var j := k - NumStored(b);
        assert b.popped + k == b.pushed + j;
        assert WritableRegion(f)[j] == vals[j];
      }
    }
  }

  /** Popping drops exactly the `n` oldest elements. */
  lemma PopDrops<T>(b: TypedRingBuffer<T>, n: nat)
    requires Valid(b) && n <= NumStored(b)
    ensures ReadableRegion(Pop(b, n).value) == ReadableRegion(b)[n..]
  {
    var r := Pop(b, n).value;
    forall k | 0 <= k < NumStored(r)
      ensures ReadableRegion(r)[k] == ReadableRegion(b)[n..][k]
    {
      assert r.popped + k == b.popped + (n + k);
    }
  }

  // ---------------------------------------------------------------------
  // EndlessBuffer
  // ---------------------------------------------------------------------

  /** `blank` is the element type's default value `T{}`. */
  datatype EndlessBuffer<T> = EndlessBuffer(slots: seq<T>, popped: nat, blank: T)

  predicate Ready<T>(b: EndlessBuffer<T>) {
    |b.slots| > 0
  }

  function RangeBegin<T>(b: EndlessBuffer<T>): nat {
    b.popped
  }

  function RangeEnd<T>(b: EndlessBuffer<T>): (e: nat)
    ensures e == RangeBegin(b) + |b.slots|
  {
    RangeBegin(b) + |b.slots|
  }

  /** `check_bounds`: the positions `[pos, pos + count)` lie inside the
      window. The source aborts otherwise; callers must establish it. */
  predicate CheckBounds<T>(b: EndlessBuffer<T>, pos: nat, count: nat) {
    RangeBegin(b) <= pos && pos + count <= RangeEnd(b)
  }

  /** `readable_region`: the whole window, from the slot of `range_begin`. */
  function WindowView<T>(b: EndlessBuffer<T>): (r: seq<T>)
    requires Ready(b)
    ensures |r| == |b.slots|
    ensures forall k :: 0 <= k < |r| ==> r[k] == Cell(b.slots, b.popped + k)
  {
    StorageAt(b.slots, b.popped);
    Storage(b.slots, b.popped % |b.slots|)
  }

  /** `region(pos, count)`: the elements at positions `pos` ... */
  function Region<T>(b: EndlessBuffer<T>, pos: nat, count: nat): (r: seq<T>)
    requires Ready(b) && CheckBounds(b, pos, count)
    ensures |r| == count
    ensures forall k :: 0 <= k < count ==> r[k] == Cell(b.slots, pos + k)
  {
    WindowView(b)[pos - RangeBegin(b)..pos - RangeBegin(b) + count]
  }

  /** `at(pos)`: the element at `pos`, kept in slot `pos mod C`. */
  function At<T>(b: EndlessBuffer<T>, pos: nat): (v: T)
    requires Ready(b) && CheckBounds(b, pos, 1)
    ensures v == b.slots[pos % |b.slots|]
  {
    Region(b, pos, 1)[0]
  }

  /** `at(pos) = v` through the mutable region. */
  function SetAt<T>(b: EndlessBuffer<T>, pos: nat, v: T): (r: EndlessBuffer<T>)
    requires Ready(b) && CheckBounds(b, pos, 1)
    ensures Ready(r) && |r.slots| == |b.slots| && r.blank == b.blank
    ensures RangeBegin(r) == RangeBegin(b) && RangeEnd(r) == RangeEnd(b)
  {
    b.(slots := WriteRun(b.slots, pos, [v]))
  }

  /** Writing then reading a position gives the value written, and no
      other position of the window changes. */
  lemma SetThenGet<T>(b: EndlessBuffer<T>, pos: nat, v: T)
    requires Ready(b) && CheckBounds(b, pos, 1)
    ensures At(SetAt(b, pos, v), pos) == v
    ensures forall q :: CheckBounds(b, q, 1) && q != pos ==> At(SetAt(b, pos, v), q) == At(b, q)
  {
    var r := SetAt(b, pos, v);
    var c := |b.slots|;
    assert Cell(r.slots, pos) == v;
    forall q: nat | CheckBounds(b, q, 1) && q != pos
      ensures At(r, q) == At(b, q)
    {
      if q > pos {
        assert Cell(r.slots, q) == Cell(b.slots, q);
      } else {
        ModShift(q, c);
        assert Cell(r.slots, q + c) == Cell(b.slots, q + c);
      }
    }
  }

  /** `pop(n)`: reset the `n` oldest slots of the window to `T{}` and
      advance the window by `n`. Beyond C the source's `subspan` is out of
      range, so `n <= C` is required. */
  function PopEndless<T>(b: EndlessBuffer<T>, n: nat): (r: EndlessBuffer<T>)
    requires Ready(b) && n <= |b.slots|
    ensures Ready(r) && |r.slots| == |b.slots| && r.blank == b.blank
    ensures RangeBegin(r) == RangeBegin(b) + n
  {
    b.(slots := WriteRun(b.slots, b.popped, Blanks(b.blank, n)), popped := b.popped + n)
  }

  /** `pop_before(i)`: advance the window's start to `i`; a no-op when
      `i` is not ahead of it. */
  function PopBefore<T>(b: EndlessBuffer<T>, i: nat): (r: EndlessBuffer<T>)
    requires Ready(b) && i <= RangeEnd(b)
    ensures Ready(r) && |r.slots| == |b.slots| && r.blank == b.blank
    ensures RangeBegin(r) == if i <= RangeBegin(b) then RangeBegin(b) else i
    ensures RangeBegin(r) >= RangeBegin(b)
  {
    if i <= RangeBegin(b) then b else PopEndless(b, i - RangeBegin(b))
  }

  /** `pop(n)` evicts the n oldest positions: the positions that stay in
      the window keep their elements, and the n positions the window newly
      covers, whose slots were reset, read as `T{}`. */
  lemma PopEndlessEvicts<T>(b: EndlessBuffer<T>, n: nat)
    requires Ready(b) && n <= |b.slots|
    ensures var r := PopEndless(b, n);
      && (forall q :: RangeBegin(r) <= q < RangeEnd(b) ==> At(r, q) == At(b, q))
      && (forall q :: RangeEnd(b) <= q < RangeEnd(r) ==> At(r, q) == b.blank)
  {
    var r := PopEndless(b, n);
    var c := |b.slots|;
    forall q | RangeBegin(r) <= q < RangeEnd(b)
      ensures At(r, q) == At(b, q)
    {
      assert Cell(r.slots, q) == Cell(b.slots, q);
    }
    forall q | RangeEnd(b) <= q < RangeEnd(r)
      ensures At(r, q) == b.blank
    {
      ModShift(q - c, c);
      assert Cell(r.slots, q - c) == Blanks(b.blank, n)[q - c - b.popped];
    }
  }

  /** Eviction through `pop_before`: positions still in the window keep
      their elements, and the positions the window newly covers read as
      `T{}`. */
  lemma PopBeforeEvicts<T>(b: EndlessBuffer<T>, i: nat)
    requires Ready(b) && i <= RangeEnd(b)
    ensures var r := PopBefore(b, i);
      && (forall q :: RangeBegin(r) <= q < RangeEnd(b) ==> At(r, q) == At(b, q))
      && (i > RangeBegin(b) ==> forall q :: RangeEnd(b) <= q < RangeEnd(r) ==> At(r, q) == b.blank)
  {
    if i > RangeBegin(b) {
      PopEndlessEvicts(b, i - RangeBegin(b));
    }
  }

  // ---------------------------------------------------------------------
  // SafeEndlessBuffer
  // ---------------------------------------------------------------------

  /** `safe_get`: `T{}` outside the window, the element inside it. */
  function SafeGet<T>(b: EndlessBuffer<T>, pos: nat): (v: T)
    requires Ready(b)
    ensures pos < RangeBegin(b) || pos >= RangeEnd(b) ==> v == b.blank
    ensures RangeBegin(b) <= pos < RangeEnd(b) ==> v == At(b, pos)
  {
    if pos < RangeBegin(b) || pos >= RangeEnd(b) then b.blank
    else Region(b, pos, 1)[0]
  }

  /** `safe_set`: nothing happens outside the window, `at(pos) = v`
      inside it. */
  function SafeSet<T>(b: EndlessBuffer<T>, pos: nat, v: T): (r: EndlessBuffer<T>)
    requires Ready(b)
    ensures pos < RangeBegin(b) || pos >= RangeEnd(b) ==> r == b
    ensures RangeBegin(b) <= pos < RangeEnd(b) ==> r == SetAt(b, pos, v)
  {
    if pos < RangeBegin(b) || pos >= RangeEnd(b) then b
    else SetAt(b, pos, v)
  }

  /** `pop_before` as seen through the safe accessor: a position that
      stays in the window reads what it read before, and every other
      position (one the window moved past, or one it newly covers) reads
      `T{}`. Writing a position the window moved past changes nothing. */
  lemma EvictedReadsBlank<T>(b: EndlessBuffer<T>, i: nat, q: nat, v: T)
    requires Ready(b) && i <= RangeEnd(b)
    ensures var r := PopBefore(b, i);
      && (RangeBegin(r) <= q < RangeEnd(b) ==> SafeGet(r, q) == SafeGet(b, q))
      && (q < RangeBegin(r) || RangeEnd(b) <= q ==> SafeGet(r, q) == b.blank)
      && (q < RangeBegin(r) ==> SafeSet(r, q, v) == r)
  {
    PopBeforeEvicts(b, i);
  }

  /** A four-slot buffer of integers, with 10, 11, 12, 13 written at
      positions 0..3 through `at`. */
  function FilledWindow(): (b: EndlessBuffer<int>)
    ensures b == EndlessBuffer([10, 11, 12, 13], 0, 0)
  {
    var b0 := EndlessBuffer([0, 0, 0, 0], 0, 0);
    var w0 := SetAt(b0, 0, 10);
    WriteOne(b0.slots, 0, 10);
    assert w0.slots == [10, 0, 0, 0];
    var w1 := SetAt(w0, 1, 11);
    WriteOne(w0.slots, 1, 11);
    assert w1.slots == [10, 11, 0, 0];
    var w2 := SetAt(w1, 2, 12);
    WriteOne(w1.slots, 2, 12);
    assert w2.slots == [10, 11, 12, 0];
    WriteOne(w2.slots, 3, 13);
    SetAt(w2, 3, 13)
  }

  /** `pop_before(2)` on the window `FilledWindow` builds blanks the slots
      of positions 0 and 1, which now stand for positions 4 and 5, and
      starts the window at 2. */
  lemma PoppedWindow(w: EndlessBuffer<int>)
    requires |w.slots| == 4 && w.slots[2] == 12 && w.slots[3] == 13
    requires w.popped == 0 && w.blank == 0
    ensures PopBefore(w, 2) == EndlessBuffer([0, 0, 12, 13], 2, 0)
  {
    var r := WriteRun(w.slots, 0, Blanks(0, 2));
    assert PopBefore(w, 2) == EndlessBuffer(r, 2, 0);
    assert 2 % 4 == 2 && 3 % 4 == 3;
    assert Cell(r, 0) == 0 && Cell(r, 1) == 0;
    assert Cell(r, 2) == Cell(w.slots, 2) && Cell(r, 3) == Cell(w.slots, 3);
    assert r == [0, 0, 12, 13];
  }

  /** Reading the popped window: [2, 6), with 12 and 13 at positions 2
      and 3 and the default in the recycled slots of 4 and 5. */
  lemma PoppedWindowReads(b: EndlessBuffer<int>)
    requires b == EndlessBuffer([0, 0, 12, 13], 2, 0)
    ensures RangeBegin(b) == 2 && RangeEnd(b) == 6
    ensures !CheckBounds(b, 0, 1) && SafeGet(b, 0) == 0
    ensures At(b, 2) == 12 && At(b, 3) == 13
    ensures At(b, 4) == 0 && At(b, 5) == 0
  {
    assert 2 % 4 == 2 && 3 % 4 == 3 && 4 % 4 == 0 && 5 % 4 == 1;
  }

  /** The concrete window case: after `pop_before(2)` on the window
      `FilledWindow` builds, the window is [2, 6); position 0 is gone and
      reads the default through `safe_get`; 2 and 3 keep their values; 4
      and 5 are the recycled slots and read the default. */
  lemma WindowScenario(w: EndlessBuffer<int>)
    requires w == FilledWindow()
    ensures var b := PopBefore(w, 2);
      && RangeBegin(b) == 2 && RangeEnd(b) == 6
      && !CheckBounds(b, 0, 1)
      && SafeGet(b, 0) == 0
      && At(b, 2) == 12 && At(b, 3) == 13
      && At(b, 4) == 0 && At(b, 5) == 0
  {
    PoppedWindow(w);
    PoppedWindowReads(PopBefore(w, 2));
  }
}
