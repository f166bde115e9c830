/** The bounded wire types of network/formats.hh: `NetInteger`,
    `NetArray` and the length-prefixed byte buffers (`StackBuffer`, of
    which `NetString` is the 255-byte instance).

    Every wire type offers the triad `serialized_length` / `serialize` /
    `parse`. A `Triad<T>` bundles the three for an element type, together
    with `encode`, the bytes its `serialize` is meant to produce. */
module WireTypes {
  import opened BigEndian
  import opened Results
  import opened Codec

  datatype Triad<!T> = Triad(
    length: T -> nat,
    serialize: (Serializer, T) -> Result<Serializer>,
    parse: (Parser, T) -> (Parser, T),
    encode: T -> seq<byte>)

  /** `x`'s `serialized_length` is the size of its encoding, and its
      `serialize` behaves exactly like writing that encoding in one go. */
  ghost predicate Writes<T>(t: Triad<T>, x: T) {
    && t.length(x) == |t.encode(x)|
    && forall s: Serializer :: t.serialize(s, x) == WriteString(s, t.encode(x))
  }

  /** Parsing `x`'s encoding, into any old value, yields `x` and consumes
      exactly the encoding. */
  ghost predicate ReadsBack<T(!new)>(t: Triad<T>, x: T) {
    forall rest: seq<byte>, slot: T ::
      t.parse(NewParser(t.encode(x) + rest), slot) == (NewParser(rest), x)
  }

  /** A truncated frame is rejected: parsing any strict prefix of `x`'s
      encoding, into any old value, ends with the error flag set. */
  ghost predicate RejectsTruncated<T(!new)>(t: Triad<T>, x: T) {
    forall k: nat, slot: T :: k < |t.encode(x)| ==> t.parse(NewParser(t.encode(x)[..k]), slot).0.error
  }

  // ---------------------------------------------------------------------
  // NetInteger
  // ---------------------------------------------------------------------

  /** `NetInteger<uint32_t>`, the element of the sequence-number and
      frame-index arrays. */
  function ReadU32(p: Parser, out: u32): (r: (Parser, u32))
    ensures Follows(p, r.0)
    ensures p.error ==> r == (p, out)
    ensures !p.error && |p.input| < 4 ==> r == (SetError(p), out)
    ensures !p.error && 4 <= |p.input| ==>
      && r.0 == Parser(p.input[4..], false)
      && r.1 == Value(p.input[..4])
  {
    Pow256Widths();
    ReadIntegerFits(p, 4, out);
    ReadInteger(p, 4, out)
  }

  function NetU32(): Triad<u32> {
    Triad(
      x => 4,
      (s, x) => WriteInteger(s, 4, x),
      (p, x) => ReadU32(p, x),
      x => Bytes(x, 4))
  }

  /** `NetInteger<T>` has `serialized_length() == sizeof(T)` and
      delegates to the codec's integer reads and writes, so it round
      trips. */
  lemma NetU32Consumes()
    ensures Consumes(NetU32())
  {
  }

  lemma NetU32Lawful(x: u32)
    ensures Writes(NetU32(), x) && ReadsBack(NetU32(), x)
  {
    forall s: Serializer ensures NetU32().serialize(s, x) == WriteString(s, NetU32().encode(x)) {
      WriteIntegerIsWriteString(s, 4, x);
    }
    forall rest: seq<byte>, slot: u32
      ensures NetU32().parse(NewParser(NetU32().encode(x) + rest), slot) == (NewParser(rest), x)
    {
      Pow256Widths();
      ReadIntegerOfBytes(x, 4, rest, slot);
    }
  }

  lemma NetU32RejectsTruncated(x: u32)
    ensures RejectsTruncated(NetU32(), x)
  {
    forall k: nat, slot: u32 | k < |NetU32().encode(x)|
      ensures NetU32().parse(NewParser(NetU32().encode(x)[..k]), slot).0.error
    {
      assert |Bytes(x, 4)[..k]| < 4;
    }
  }

  // ---------------------------------------------------------------------
  // NetArray
  // ---------------------------------------------------------------------

  /** `NetArray<T, capacity>`: fixed storage of `capacity` elements and a
      one-byte `length`. Nothing ties `length` to the capacity in memory:
      a rejected parse leaves the oversized length behind. */
  datatype NetArray<T> = NetArray(elements: seq<T>, length: byte)

  function Capacity<T>(a: NetArray<T>): nat {
    |a.elements|
  }

  /** The template parameter `capacity_` is a `uint8_t`. */
  predicate CapacityFits<T>(a: NetArray<T>) {
    Capacity(a) <= 255
  }

  /** The in-memory invariant that serialization relies on. */
  predicate InBounds<T>(a: NetArray<T>) {
    a.length as int <= Capacity(a)
  }

  /** `as_span_view`: the first `length` elements. */
  function View<T>(a: NetArray<T>): (v: seq<T>)
    requires InBounds(a)
    ensures |v| == a.length as int
    ensures forall i :: 0 <= i < |v| ==> v[i] == a.elements[i]
  {
    a.elements[..a.length]
  }

  /** Two arrays carry the same data when their views agree; storage past
      `length` is not part of the value. */
  ghost predicate SameView<T>(a: NetArray<T>, b: NetArray<T>) {
    InBounds(a) && InBounds(b) && View(a) == View(b)
  }

  /** The sum of `serialized_length` over `xs`. */
  function SumLengths<T>(xs: seq<T>, t: Triad<T>): nat {
    if |xs| == 0 then 0 else t.length(xs[0]) + SumLengths(xs[1..], t)
  }

  /** The bytes of `xs`, one element after the other. */
  function EncodeAll<T>(xs: seq<T>, t: Triad<T>): seq<byte> {
    if |xs| == 0 then [] else t.encode(xs[0]) + EncodeAll(xs[1..], t)
  }

  lemma {:induction false} SumLengthsIsSize<T>(xs: seq<T>, t: Triad<T>)
    requires forall i :: 0 <= i < |xs| ==> Writes(t, xs[i])
    ensures SumLengths(xs, t) == |EncodeAll(xs, t)|
    decreases |xs|
  {
    if |xs| > 0 {
      assert Writes(t, xs[0]);
      SumLengthsIsSize(xs[1..], t);
    }
  }

  /** Wire form: the length byte, then the first `length` elements in
      index order. */
  function EncodeArray<T>(a: NetArray<T>, t: Triad<T>): seq<byte>
    requires InBounds(a)
  {
    Bytes(a.length, 1) + EncodeAll(View(a), t)
  }

  /** `NetArray::serialized_length`: throws on an oversized length,
      otherwise one byte plus the elements' lengths. */
  function ArrayLength<T>(a: NetArray<T>, t: Triad<T>): (r: Result<nat>)
    ensures r.Failure? <==> !InBounds(a)
    ensures r.Failure? ==> r.fault == InvalidArray
  {
    if a.length as int > Capacity(a) then Failure(InvalidArray)
    else Success(1 + SumLengths(View(a), t))
  }

  /** For elements whose lengths are right, `serialized_length` is the
      size of the wire form. */
  lemma ArrayLengthIsSize<T>(a: NetArray<T>, t: Triad<T>)
    requires InBounds(a)
    requires forall i :: 0 <= i < a.length as int ==> Writes(t, a.elements[i])
    ensures ArrayLength(a, t) == Success(|EncodeArray(a, t)|)
  {
    SumLengthsIsSize(View(a), t);
  }

  /** The element loop of `NetArray::serialize`: `s.object(elements[i])`
      for i in [i, n). */
  function WriteElements<T>(s: Serializer, xs: seq<T>, i: nat, n: nat, t: Triad<T>): Result<Serializer>
    requires i <= n <= |xs|
    decreases n - i
  {
    if i == n then Success(s)
    else
      var s1 :- WriteObject(s, xs[i], Success(t.length(xs[i])), t.serialize);
      WriteElements(s1, xs, i + 1, n, t)
  }

  /** `NetArray::serialize`: the length, then the first `length`
      elements. Called directly on an oversized array the source would
      read past its storage; the model reports `InvalidArray` there, which
      is what `Serializer::object` reports first through
      `serialized_length`. */
  function SerializeArray<T>(s: Serializer, a: NetArray<T>, t: Triad<T>): Result<Serializer> {
    if !InBounds(a) then Failure(InvalidArray)
    else
      var s1 :- WriteInteger(s, 1, a.length);
      WriteElements(s1, a.elements, 0, a.length as int, t)
  }

  lemma {:induction false} WriteElementsWrites<T>(s: Serializer, xs: seq<T>, i: nat, n: nat, t: Triad<T>)
    requires i <= n <= |xs|
    requires forall k :: i <= k < n ==> Writes(t, xs[k])
    ensures WriteElements(s, xs, i, n, t) == WriteString(s, EncodeAll(xs[i..n], t))
    decreases n - i
  {
    if i == n {
      assert xs[i..n] == [];
      assert s.written + [] == s.written && s.output[0..] == s.output;
    } else {
      var x := xs[i];
      assert Writes(t, x);
      assert xs[i..n][1..] == xs[i + 1..n];
      assert EncodeAll(xs[i..n], t) == t.encode(x) + EncodeAll(xs[i + 1..n], t);
      WriteStringConcat(s, t.encode(x), EncodeAll(xs[i + 1..n], t));
      assert t.serialize(s, x) == WriteString(s, t.encode(x));
      match WriteString(s, t.encode(x))
      case Failure(f) =>
      case Success(s1) =>
        WriteElementsWrites(s1, xs, i + 1, n, t);
    }
  }

  /** `NetArray::serialize` emits exactly the reference wire form, and
      fails (as `NoRoom`) exactly when it does not fit. */
  lemma SerializeArrayWrites<T>(s: Serializer, a: NetArray<T>, t: Triad<T>)
    requires InBounds(a)
    requires forall i :: 0 <= i < a.length as int ==> Writes(t, a.elements[i])
    ensures SerializeArray(s, a, t) == WriteString(s, EncodeArray(a, t))
  {
    var n := a.length as int;
    WriteIntegerIsWriteString(s, 1, a.length);
    WriteStringConcat(s, Bytes(a.length, 1), EncodeAll(View(a), t));
    assert a.elements[0..n] == View(a);
    match WriteInteger(s, 1, a.length)
    case Failure(f) =>
    case Success(s1) =>
      WriteElementsWrites(s1, a.elements, 0, n, t);
  }

  /** `NetArray` as the argument of `Serializer::object`. */
  function WriteArrayObject<T>(s: Serializer, a: NetArray<T>, t: Triad<T>): (r: Result<Serializer>)
    ensures !InBounds(a) ==> r == Failure(InvalidArray)
  {
    WriteObject(s, a, ArrayLength(a, t), (s', a') => SerializeArray(s', a', t))
  }

  /** Through `Serializer::object`, an in-bounds array writes its wire
      form or fails with `NoRoom`, and never writes part of it. */
  lemma WriteArrayObjectWrites<T>(s: Serializer, a: NetArray<T>, t: Triad<T>)
    requires InBounds(a)
    requires forall i :: 0 <= i < a.length as int ==> Writes(t, a.elements[i])
    ensures WriteArrayObject(s, a, t) == WriteString(s, EncodeArray(a, t))
  {
    ArrayLengthIsSize(a, t);
    SerializeArrayWrites(s, a, t);
  }

  /** The element loop of `NetArray::parse`: `p.object(elements[i])` for
      i in [i, n). */
  function ReadElements<T>(p: Parser, xs: seq<T>, i: nat, n: nat, t: Triad<T>): (r: (Parser, seq<T>))
    requires i <= n <= |xs|
    ensures |r.1| == |xs|
    ensures forall k :: 0 <= k < i || n <= k < |xs| ==> r.1[k] == xs[k]
    ensures p.error ==> r == (p, xs)
    decreases n - i
  {
    if i == n then (p, xs)
    else
      var (p1, x) := ReadObject(p, xs[i], t.parse);
      assert p.error ==> xs[i := x] == xs;
      ReadElements(p1, xs[i := x], i + 1, n, t)
  }

  /** `NetArray::parse`: read the length byte into `length`; above the
      capacity, set the error and stop; otherwise parse that many
      elements into the storage in index order. */
  function ParseArray<T>(p: Parser, a: NetArray<T>, t: Triad<T>): (r: (Parser, NetArray<T>))
    ensures Capacity(r.1) == Capacity(a)
    ensures p.error ==> r == (p, a)
    ensures !InBounds(r.1) ==> r.0.error && r.1.elements == a.elements
    ensures InBounds(r.1) ==>
      forall k :: r.1.length as int <= k < Capacity(a) ==> r.1.elements[k] == a.elements[k]
    ensures !p.error && |p.input| >= 1 && p.input[0] as int > Capacity(a) ==>
      r == (Parser(p.input[1..], true), a.(length := p.input[0]))
  {
    Pow256Widths();
    ReadIntegerFits(p, 1, a.length);
    var (p1, len) := ReadInteger(p, 1, a.length);
    var length: byte := len;
    if length as int > Capacity(a) then (SetError(p1), a.(length := length))
    else
      var (p2, xs) := ReadElements(p1, a.elements, 0, length as int, t);
      (p2, NetArray(xs, length))
  }

  /** The element parse only ever drops a prefix of the input and never
      clears the error. */
  ghost predicate Consumes<T(!new)>(t: Triad<T>) {
    forall p: Parser, slot: T :: Follows(p, t.parse(p, slot).0)
  }

  lemma {:induction false} ReadElementsFollows<T(!new)>(p: Parser, xs: seq<T>, i: nat, n: nat, t: Triad<T>)
    requires i <= n <= |xs| && Consumes(t)
    ensures Follows(p, ReadElements(p, xs, i, n, t).0)
    decreases n - i
  {
    if i < n {
      var (p1, x) := ReadObject(p, xs[i], t.parse);
      assert Follows(p, p1);
      ReadElementsFollows(p1, xs[i := x], i + 1, n, t);
      FollowsTransitive(p, p1, ReadElements(p1, xs[i := x], i + 1, n, t).0);
    }
  }

  /** `NetArray::parse` never reads past its input: whatever the bytes,
      it only drops a prefix, and a set error stays set. */
  lemma ParseArrayFollows<T(!new)>(p: Parser, a: NetArray<T>, t: Triad<T>)
    requires Consumes(t)
    ensures Follows(p, ParseArray(p, a, t).0)
  {
    var (p1, len) := ReadInteger(p, 1, a.length);
    if len <= Capacity(a) {
      ReadElementsFollows(p1, a.elements, 0, len, t);
    }
  }

  lemma {:induction false} ReadElementsOfEncoding<T(!new)>(xs: seq<T>, src: seq<T>, i: nat, n: nat,
                                                     t: Triad<T>, rest: seq<byte>)
    requires i <= n <= |xs| == |src|
    requires forall k :: i <= k < n ==> ReadsBack(t, src[k])
    ensures ReadElements(NewParser(EncodeAll(src[i..n], t) + rest), xs, i, n, t).0 == NewParser(rest)
    ensures forall k :: i <= k < n ==>
      ReadElements(NewParser(EncodeAll(src[i..n], t) + rest), xs, i, n, t).1[k] == src[k]
    decreases n - i
  {
    if i == n {
      assert src[i..n] == [];
    } else {
      var x := src[i];
      var tail := EncodeAll(src[i + 1..n], t) + rest;
      assert src[i..n][1..] == src[i + 1..n];
      assert EncodeAll(src[i..n], t) + rest == t.encode(x) + tail;
      assert ReadsBack(t, x);
      assert t.parse(NewParser(t.encode(x) + tail), xs[i]) == (NewParser(tail), x);
      assert ReadObject(NewParser(EncodeAll(src[i..n], t) + rest), xs[i], t.parse) == (NewParser(tail), x);
      ReadElementsOfEncoding(xs[i := x], src, i + 1, n, t, rest);
      var r := ReadElements(NewParser(tail), xs[i := x], i + 1, n, t);
      assert ReadElements(NewParser(EncodeAll(src[i..n], t) + rest), xs, i, n, t) == r;
      assert r.1[i] == x;
    }
  }

  /** The element loop on a truncation of the elements' encodings: the
      element that is cut short sets the error, and it stays set. */
  lemma {:induction false} ReadElementsTruncated<T(!new)>(xs: seq<T>, src: seq<T>, i: nat, n: nat,
                                                    t: Triad<T>, k: nat)
    requires i <= n <= |xs| == |src|
    requires forall j :: i <= j < n ==> ReadsBack(t, src[j]) && RejectsTruncated(t, src[j])
    requires k < |EncodeAll(src[i..n], t)|
    ensures ReadElements(NewParser(EncodeAll(src[i..n], t)[..k]), xs, i, n, t).0.error
    decreases n - i
  {
    if i == n {
      assert false;
    } else {
      var x := src[i];
      var head := t.encode(x);
      var tail := EncodeAll(src[i + 1..n], t);
      assert src[i..n][1..] == src[i + 1..n];
      assert EncodeAll(src[i..n], t) == head + tail;
      var input := (head + tail)[..k];
      if k < |head| {
        assert input == head[..k];
        assert RejectsTruncated(t, x);
        var (p1, y) := ReadObject(NewParser(input), xs[i], t.parse);
        assert p1.error;
        assert ReadElements(NewParser(input), xs, i, n, t) == ReadElements(p1, xs[i := y], i + 1, n, t);
      } else {
        CutAfter(head, tail, k);
        assert ReadsBack(t, x);
        assert t.parse(NewParser(head + tail[..k - |head|]), xs[i]) == (NewParser(tail[..k - |head|]), x);
        ReadElementsTruncated(xs[i := x], src, i + 1, n, t, k - |head|);
      }
    }
  }

  /** A truncated array is rejected: parsing any strict prefix of an
      in-bounds array's wire form sets the error. */
  lemma ArrayRejectsTruncated<T(!new)>(a: NetArray<T>, slot: NetArray<T>, t: Triad<T>, k: nat)
    requires InBounds(a) && Capacity(slot) == Capacity(a)
    requires forall i :: 0 <= i < a.length as int ==> ReadsBack(t, a.elements[i]) && RejectsTruncated(t, a.elements[i])
    requires k < |EncodeArray(a, t)|
    ensures ParseArray(NewParser(EncodeArray(a, t)[..k]), slot, t).0.error
  {
    if 1 <= k {
      var n := a.length as int;
      var body := EncodeAll(View(a), t);
      CutAfter(Bytes(a.length, 1), body, k);
      ReadIntegerOfBytes(a.length, 1, body[..k - 1], slot.length);
      assert a.elements[0..n] == View(a);
      ReadElementsTruncated(slot.elements, a.elements, 0, n, t, k - 1);
    }
  }

  /** Round trip: parsing the wire form of an in-bounds array into any
      array of the same capacity restores `length` and the viewed
      elements, and consumes exactly the wire form. */
  lemma ArrayRoundTrip<T(!new)>(a: NetArray<T>, slot: NetArray<T>, t: Triad<T>, rest: seq<byte>)
    requires InBounds(a) && Capacity(slot) == Capacity(a)
    requires forall i :: 0 <= i < a.length as int ==> ReadsBack(t, a.elements[i])
    ensures ParseArray(NewParser(EncodeArray(a, t) + rest), slot, t).0 == NewParser(rest)
    ensures SameView(ParseArray(NewParser(EncodeArray(a, t) + rest), slot, t).1, a)
  {
    var n := a.length as int;
    var body := EncodeAll(View(a), t) + rest;
    assert EncodeArray(a, t) + rest == Bytes(a.length, 1) + body;
    ReadIntegerOfBytes(a.length, 1, body, slot.length);
    assert a.elements[0..n] == View(a);
    ReadElementsOfEncoding(slot.elements, a.elements, 0, n, t, rest);
  }

  /** `NetArray::push_back`: throws when full; otherwise stores at the old
      `length` and grows the view by that one element. */
  function PushBack<T>(a: NetArray<T>, x: T): (r: Result<NetArray<T>>)
    requires CapacityFits(a)
    ensures r.Success? <==> (a.length as int) < Capacity(a)
    ensures r.Failure? ==> r.fault == ArrayFull
    ensures r.Success? ==>
      && Capacity(r.value) == Capacity(a)
      && InBounds(r.value)
      && View(r.value) == View(a) + [x]
      && forall k :: a.length as int < k < Capacity(a) ==> r.value.elements[k] == a.elements[k]
  {
    if a.length as int >= Capacity(a) then Failure(ArrayFull)
    else Success(NetArray(a.elements[a.length := x], a.length + 1))
  }

  // ---------------------------------------------------------------------
  // Length-prefixed byte buffers
  // ---------------------------------------------------------------------

  /** A `StackBuffer<0, LenT, capacity>` holds at most `capacity` bytes;
      on the wire, its length as a `lenWidth`-byte integer, then the
      bytes. */
  function BufferLength(lenWidth: nat, data: seq<byte>): nat {
    lenWidth + |data|
  }

  function EncodeBuffer(lenWidth: nat, data: seq<byte>): seq<byte> {
    Bytes(|data|, lenWidth) + data
  }

  function SerializeBuffer(s: Serializer, lenWidth: nat, data: seq<byte>): Result<Serializer> {
    var s1 :- WriteInteger(s, lenWidth, |data|);
    WriteString(s1, data)
  }

  /** `resize`: keep the front, pad with zero bytes. */
  function Resize(data: seq<byte>, n: nat): (r: seq<byte>)
    ensures |r| == n
    ensures forall i :: 0 <= i < n && i < |data| ==> r[i] == data[i]
    ensures n == |data| ==> r == data
  {
    if n <= |data| then data[..n] else data + seq(n - |data|, _ => 0)
  }

  /** Parse a buffer: read the length, reject one above `capacity` with
      the error flag, otherwise resize and fill with that many bytes. */
  function ParseBuffer(p: Parser, lenWidth: nat, capacity: nat, out: seq<byte>): (r: (Parser, seq<byte>))
    ensures Follows(p, r.0)
    ensures p.error ==> r == (p, out)
    ensures |out| <= capacity ==> |r.1| <= capacity
    ensures !p.error && |p.input| < lenWidth ==> r.0.error
    ensures !p.error && lenWidth <= |p.input| ==>
      var len := Value(p.input[..lenWidth]);
      && (len > capacity ==> r == (Parser(p.input[lenWidth..], true), out))
      && (len <= capacity && |p.input| < lenWidth + len ==> r.0.error)
      && (len <= capacity && lenWidth + len <= |p.input| ==>
            r == (Parser(p.input[lenWidth + len..], false), p.input[lenWidth..lenWidth + len]))
  {
    var (p1, len) := ReadInteger(p, lenWidth, |out|);
    if len > capacity then (SetError(p1), out)
    else if p1.error then ReadString(p1, Resize(out, len))
    else
      var body := p.input[lenWidth..];
      assert p1 == Parser(body, false) && len == Value(p.input[..lenWidth]);
      assert len <= |body| ==>
        body[len..] == p.input[lenWidth + len..] && body[..len] == p.input[lenWidth..lenWidth + len];
      ReadString(p1, Resize(out, len))
  }

  lemma SerializeBufferWrites(s: Serializer, lenWidth: nat, data: seq<byte>)
    ensures SerializeBuffer(s, lenWidth, data) == WriteString(s, EncodeBuffer(lenWidth, data))
  {
    WriteIntegerIsWriteString(s, lenWidth, |data|);
    WriteStringConcat(s, Bytes(|data|, lenWidth), data);
  }

  lemma BufferRoundTrip(lenWidth: nat, capacity: nat, data: seq<byte>, out: seq<byte>, rest: seq<byte>)
    requires |data| <= capacity < Pow256(lenWidth)
    ensures ParseBuffer(NewParser(EncodeBuffer(lenWidth, data) + rest), lenWidth, capacity, out)
      == (NewParser(rest), data)
  {
    var body := data + rest;
    assert EncodeBuffer(lenWidth, data) + rest == Bytes(|data|, lenWidth) + body;
    ReadIntegerOfBytes(|data|, lenWidth, body, |out|);
    ReadStringOfBytes(data, rest, Resize(out, |data|));
  }

  /** A truncated buffer is rejected: a strict prefix of its wire form
      lacks part of the length field or part of the bytes it counts. */
  lemma BufferRejectsTruncated(lenWidth: nat, capacity: nat, data: seq<byte>, out: seq<byte>, k: nat)
    requires |data| <= capacity < Pow256(lenWidth)
    requires k < |EncodeBuffer(lenWidth, data)|
    ensures ParseBuffer(NewParser(EncodeBuffer(lenWidth, data)[..k]), lenWidth, capacity, out).0.error
  {
    if lenWidth <= k {
      var len := Bytes(|data|, lenWidth);
      CutAfter(len, data, k);
      assert EncodeBuffer(lenWidth, data)[..k][..lenWidth] == len;
      ValueOfBytes(|data|, lenWidth);
    }
  }

  /** `NetString`: a `StackBuffer` of at most 255 bytes, one length byte. */
  const NetStringCapacity: nat := 255

  type NetString = s: seq<byte> | |s| <= NetStringCapacity

  /** A one-byte length never exceeds 255, so a `NetString` parse fails
      only on input too short for the length byte or the bytes it counts. */
  function ParseNetString(p: Parser, out: NetString): (r: (Parser, NetString))
    ensures Follows(p, r.0)
    ensures p.error ==> r == (p, out)
    ensures !p.error && (|p.input| == 0 || |p.input| < 1 + p.input[0] as int) ==> r.0.error
    ensures !p.error && 1 <= |p.input| && 1 + p.input[0] as int <= |p.input| ==>
      r == (Parser(p.input[1 + p.input[0] as int..], false), p.input[1..1 + p.input[0] as int])
  {
    assert 1 <= |p.input| ==> Value(p.input[..1]) == p.input[0] by {
      if 1 <= |p.input| {
        assert p.input[..1][1..] == [];
      }
    }
    ParseBuffer(p, 1, NetStringCapacity, out)
  }

  lemma NetStringRoundTrip(x: NetString, out: NetString, rest: seq<byte>)
    ensures ParseNetString(NewParser(EncodeBuffer(1, x) + rest), out) == (NewParser(rest), x)
  {
    Pow256Widths();
    BufferRoundTrip(1, NetStringCapacity, x, out, rest);
  }
}
