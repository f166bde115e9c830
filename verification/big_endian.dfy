/** Fixed-width unsigned integers and their most-significant-byte-first
    wire form, as read by `Parser::integer` and written by
    `Serializer::integer` (util/parser.hh). */
module BigEndian {

  type byte = x: int | 0 <= x < 0x100
  type u16 = x: int | 0 <= x < 0x1_0000
  type u32 = x: int | 0 <= x < 0x1_0000_0000

  /** 256 to the power n: one more than the largest value of an n-byte integer. */
  function Pow256(n: nat): (r: nat)
    ensures r > 0
  {
    if n == 0 then 1 else 256 * Pow256(n - 1)
  }

  lemma Pow256Widths()
    ensures Pow256(1) == 0x100
    ensures Pow256(2) == 0x1_0000
    ensures Pow256(4) == 0x1_0000_0000
  {
  }

  /** Reference meaning of a byte string read most-significant byte first:
      byte k carries weight 256^(n-1-k). */
  function Value(bs: seq<byte>): nat
  {
    if |bs| == 0 then 0 else bs[0] * Pow256(|bs| - 1) + Value(bs[1..])
  }

  /** The parser's loop (util/parser.hh:47-51): start from `acc`, and for
      each byte shift left by eight bits and add the byte. */
  function ShiftIn(acc: nat, bs: seq<byte>): (r: nat)
    ensures r == acc * Pow256(|bs|) + Value(bs)
    decreases |bs|
  {
    if |bs| == 0 then acc
    else
      var r := ShiftIn(acc * 256 + bs[0], bs[1..]);
      ShiftStep(acc, bs[0], Pow256(|bs| - 1));
      r
  }

  /** The serializer's loop (util/parser.hh:110-113): byte i of the output
      is `(v >> ((len - i - 1) * 8)) & 0xff`. */
  function Bytes(v: nat, width: nat): (r: seq<byte>)
    ensures |r| == width
  {
    seq(width, i requires 0 <= i < width => (v / Pow256(width - i - 1)) % 256)
  }

  /** One step of the shift-add loop, as an identity on products. */
  lemma ShiftStep(acc: nat, b: nat, p: nat)
    ensures (acc * 256 + b) * p == acc * (256 * p) + b * p
  {
  }

  lemma MulMonotone(a: nat, b: nat, c: nat)
    requires b <= c
    ensures a * b <= a * c
  {
  }

  lemma Distribute(a: nat, b: nat, q: nat, r: nat)
    ensures a * (b * q + r) == (a * b) * q + a * r
  {
  }

  /** Division is determined by the quotient and remainder it must produce. */
  lemma DivModUnique(x: nat, d: nat, q: nat, r: nat)
    requires d > 0 && r < d && x == q * d + r
    ensures x / d == q && x % d == r
  {
    var q', r' := x / d, x % d;
    assert q' * d + r' == q * d + r;
    if q' > q {
      MulMonotone(d, q + 1, q');
    } else if q' < q {
      MulMonotone(d, q' + 1, q);
    }
  }

  /** A remainder of a remainder stays below the product of the divisors. */
  lemma BelowProduct(a: nat, b: nat, r2: nat, r1: nat)
    requires r2 < b && r1 < a
    ensures a * r2 + r1 < a * b
  {
    MulMonotone(a, r2 + 1, b);
    assert a * (r2 + 1) == a * r2 + a;
  }

  /** Two successive quotient/remainder splits combine into one split
      by the product of the divisors. */
  lemma SplitTwice(v: nat, a: nat, b: nat, q1: nat, r1: nat, q2: nat, r2: nat)
    requires v == a * q1 + r1 && r1 < a
    requires q1 == b * q2 + r2 && r2 < b
    ensures v == (a * b) * q2 + (a * r2 + r1)
    ensures a * r2 + r1 < a * b
  {
    Distribute(a, b, q2, r2);
    BelowProduct(a, b, r2, r1);
  }

  lemma DivDiv(v: nat, a: nat, b: nat)
    requires a > 0 && b > 0
    ensures v / (a * b) == (v / a) / b
  {
    var q1, r1 := v / a, v % a;
    var q2, r2 := q1 / b, q1 % b;
    SplitTwice(v, a, b, q1, r1, q2, r2);
    DivModUnique(v, a * b, q2, a * r2 + r1);
  }

  /** The arithmetic step of `ValueSnoc`: a leading byte's weight grows
      by 256 exactly when the whole value shifts up by one byte. */
  lemma Regroup(t: nat, p: nat, w: nat, b: nat)
    ensures t * (256 * p) + w * 256 + b == (t * p + w) * 256 + b
  {
  }

  /** The arithmetic step of `ValueBound`: a byte at weight p above a
      remainder below p stays below 256 p. */
  lemma TopByteBound(t: nat, p: nat, w: nat)
    requires t < 256 && w < p
    ensures t * p + w < 256 * p
  {
    MulMonotone(p, t + 1, 256);
    assert p * (t + 1) == p * t + p;
  }

  /** Appending a byte at the low end shifts the value up by one byte. */
  lemma {:induction false} ValueSnoc(bs: seq<byte>, b: byte)
    ensures Value(bs + [b]) == Value(bs) * 256 + b
    decreases |bs|
  {
    if |bs| == 0 {
      assert [b][1..] == [];
    } else {
      assert (bs + [b])[1..] == bs[1..] + [b];
      ValueSnoc(bs[1..], b);
      assert Value(bs + [b]) == bs[0] * Pow256(|bs|) + Value(bs[1..] + [b]);
      Regroup(bs[0], Pow256(|bs| - 1), Value(bs[1..]), b);
    }
  }

  /** An n-byte string always denotes a value below 256^n. */
  lemma {:induction false} ValueBound(bs: seq<byte>)
    ensures Value(bs) < Pow256(|bs|)
    decreases |bs|
  {
    if |bs| > 0 {
      ValueBound(bs[1..]);
      TopByteBound(bs[0], Pow256(|bs| - 1), Value(bs[1..]));
    }
  }

  /** The serializer's bytes split into the bytes of the value shifted
      right by eight bits, then the low byte. */
  lemma BytesSnoc(v: nat, width: nat)
    requires width > 0
    ensures Bytes(v, width) == Bytes(v / 256, width - 1) + [v % 256]
  {
    var l, r := Bytes(v, width), Bytes(v / 256, width - 1) + [v % 256];
    forall i | 0 <= i < width
      ensures l[i] == r[i]
    {
      if i < width - 1 {
        DivDiv(v, 256, Pow256(width - 1 - i - 1));
        assert Pow256(width - i - 1) == 256 * Pow256(width - 1 - i - 1);
      }
    }
  }

  /** Round trip: reading back the bytes the serializer writes for a value
      that fits in `width` bytes yields the value. */
  lemma {:induction false} ValueOfBytes(v: nat, width: nat)
    requires v < Pow256(width)
    ensures Value(Bytes(v, width)) == v
    decreases width
  {
    if width == 0 {
    } else {
      BytesSnoc(v, width);
      assert v / 256 < Pow256(width - 1);
      ValueOfBytes(v / 256, width - 1);
      ValueSnoc(Bytes(v / 256, width - 1), v % 256);
    }
  }

  /** Round trip the other way: every byte string is the serializer's
      output for the value it denotes, so the wire form is canonical. */
  lemma {:induction false} BytesOfValue(bs: seq<byte>)
    ensures Bytes(Value(bs), |bs|) == bs
    decreases |bs|
  {
    if |bs| > 0 {
      var init, last := bs[..|bs| - 1], bs[|bs| - 1];
      assert bs == init + [last];
      ValueSnoc(init, last);
      var v := Value(bs);
      DivModUnique(v, 256, Value(init), last);
      BytesSnoc(v, |bs|);
      BytesOfValue(init);
    }
  }
}
