/** The untyped `RingStorage` underneath the typed ring buffers of
    util/typed_ring_buffer.hh, as seen through `TypedRingStorage`: a
    fixed number C of element slots, where absolute position `pos` lives
    in slot `pos % C`. `storage(index)` is a view of C consecutive
    elements starting at slot `index` that wraps around the end (the
    source gets this by mapping the same memory twice). */
module RingStorage {
  import opened BigEndian

  /** Moving C positions along lands on the same slot. */
  lemma ModShift(a: nat, c: nat)
    requires c > 0
    ensures (a + c) % c == a % c
  {
    DivModUnique(a + c, c, a / c + 1, a % c);
  }

  /** Fewer than C positions apart means different slots. */
  lemma ModDistinct(a: nat, d: nat, c: nat)
    requires 0 < d < c
    ensures a % c != (a + d) % c
  {
    var q, r := a / c, a % c;
    if r + d < c {
      DivModUnique(a + d, c, q, r + d);
    } else {
      DivModUnique(a + d, c, q + 1, r + d - c);
    }
  }

  /** Reducing the start first does not change the slot. */
  lemma ModAdd(a: nat, k: nat, c: nat)
    requires c > 0
    ensures (a % c + k) % c == (a + k) % c
  {
    var q, r := a / c, a % c;
    var m := r + k;
    var mq, mr := m / c, m % c;
    assert a + k == (q + mq) * c + mr by {
      Distribute(c, 1, q, mq);
    }
    DivModUnique(a + k, c, q + mq, mr);
  }

  /** The element at absolute position `pos`. */
  function Cell<T>(slots: seq<T>, pos: nat): T
    requires |slots| > 0
  {
    slots[pos % |slots|]
  }

  /** `count` consecutive elements from absolute position `start`. */
  function ReadRun<T>(slots: seq<T>, start: nat, count: nat): (r: seq<T>)
    requires |slots| > 0
    ensures |r| == count
    ensures forall k :: 0 <= k < count ==> r[k] == Cell(slots, start + k)
  {
    seq(count, k requires 0 <= k < count => Cell(slots, start + k))
  }

  /** `storage(index)`: the wrapped view of all C slots from `index`. */
  function Storage<T>(slots: seq<T>, index: nat): (r: seq<T>)
    requires 0 <= index < |slots|
    ensures |r| == |slots|
  {
    ReadRun(slots, index, |slots|)
  }

  /** The view from the slot of absolute position `pos` lists the
      positions `pos`, `pos + 1`, ... */
  lemma StorageAt<T>(slots: seq<T>, pos: nat)
    requires |slots| > 0
    ensures forall k :: 0 <= k < |slots| ==> Storage(slots, pos % |slots|)[k] == Cell(slots, pos + k)
  {
    var c := |slots|;
    forall k | 0 <= k < c
      ensures Storage(slots, pos % c)[k] == Cell(slots, pos + k)
    {
      ModAdd(pos, k, c);
      assert Storage(slots, pos % c)[k] == Cell(slots, pos % c + k);
    }
  }

  /** Writing `vals` through a view starting at absolute position
      `start`: element k lands at position `start + k`, and the other
      positions of the same lap keep their contents. */
  function WriteRun<T>(slots: seq<T>, start: nat, vals: seq<T>): (r: seq<T>)
    requires 0 < |slots| && |vals| <= |slots|
    ensures |r| == |slots|
    ensures forall pos :: start <= pos < start + |vals| ==> Cell(r, pos) == vals[pos - start]
    ensures forall pos :: start + |vals| <= pos < start + |slots| ==> Cell(r, pos) == Cell(slots, pos)
    decreases |vals|
  {
    if |vals| == 0 then slots
    else
      var c := |slots|;
      var slots' := slots[start % c := vals[0]];
      var r := WriteRun(slots', start + 1, vals[1..]);
      assert Cell(r, start) == vals[0] by {
        ModShift(start, c);
        assert Cell(r, start + c) == Cell(slots', start + c);
      }
      assert forall pos :: start + |vals| <= pos < start + c ==> Cell(r, pos) == Cell(slots, pos) by {
        forall pos | start + |vals| <= pos < start + c
          ensures Cell(r, pos) == Cell(slots, pos)
        {
          ModDistinct(start, pos - start, c);
        }
      }
      r
  }

  /** Writing a single element is a plain update of its slot. */
  lemma WriteOne<T>(slots: seq<T>, start: nat, v: T)
    requires 0 < |slots|
    ensures WriteRun(slots, start, [v]) == slots[start % |slots| := v]
  {
    assert [v][1..] == [];
  }

  /** `n` copies of the element type's default value `T{}`. */
  function Blanks<T>(blank: T, n: nat): (r: seq<T>)
    ensures |r| == n
    ensures forall k :: 0 <= k < n ==> r[k] == blank
  {
    seq(n, _ => blank)
  }
}
