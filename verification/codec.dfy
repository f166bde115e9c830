/** The byte codec of util/parser.hh.

    `Parser` reads untrusted input: it keeps a sticky error flag, and once
    the flag is set every read leaves both the input and its output slot
    alone. `Serializer` writes trusted data into a fixed output span and
    fails hard (a `Failure(NoRoom)`) when a write does not fit. */
module Codec {
  import opened BigEndian
  import opened Results

  // ---------------------------------------------------------------------
  // Decoding
  // ---------------------------------------------------------------------

  /** The unread rest of the input and the error flag. */
  datatype Parser = Parser(input: seq<byte>, error: bool)

  function NewParser(input: seq<byte>): Parser {
    Parser(input, false)
  }

  function SetError(p: Parser): Parser {
    p.(error := true)
  }

  function ClearError(p: Parser): (r: Parser)
    ensures !r.error && r.input == p.input
  {
    p.(error := false)
  }

  /** The destructor aborts when the flag is still set: a parser may only
      be dropped once its caller has looked at the error and cleared it. */
  predicate MayBeDestroyed(p: Parser) {
    !p.error
  }

  /** `q` is a later state of `p`: reads only ever drop a prefix of the
      input, and nothing but `ClearError` resets the flag. */
  predicate Follows(p: Parser, q: Parser) {
    && |q.input| <= |p.input|
    && q.input == p.input[|p.input| - |q.input|..]
    && (p.error ==> q.error)
  }

  lemma FollowsTransitive(p: Parser, q: Parser, r: Parser)
    requires Follows(p, q) && Follows(q, r)
    ensures Follows(p, r)
  {
  }

  /** Cutting `a + b` short at or past the end of `a` keeps `a` whole and
      cuts `b` instead: how a truncated frame looks to the field after
      `a`. */
  lemma CutAfter(a: seq<byte>, b: seq<byte>, k: nat)
    requires |a| <= k <= |a| + |b|
    ensures (a + b)[..k] == a + b[..k - |a|]
  {
    assert forall i :: 0 <= i < k ==> (a + b)[..k][i] == (a + b[..k - |a|])[i];
  }

  /** `Parser::check_size`: too few bytes left sets the error flag. */
  function CheckSize(p: Parser, size: nat): (r: Parser)
    ensures r.input == p.input
    ensures r.error <==> p.error || size > |p.input|
  {
    if size > |p.input| then SetError(p) else p
  }

  /** `Parser::integer` for a `width`-byte unsigned type. `out` is the old
      value of the destination, returned unchanged when nothing is read. */
  function ReadInteger(p: Parser, width: nat, out: nat): (r: (Parser, nat))
    ensures Follows(p, r.0)
    ensures p.error ==> r == (p, out)
    ensures !p.error && width > |p.input| ==> r == (SetError(p), out)
    ensures !p.error && width <= |p.input| ==>
      && r.0 == Parser(p.input[width..], false)
      && r.1 == Value(p.input[..width])
  {
    var p1 := CheckSize(p, width);
    if p1.error then (p1, out)
    else
      var bs := p1.input[..width];
      ValueBound(bs);
      (p1.(input := p1.input[width..]), ShiftIn(0, bs))
  }

  /** The value read always fits the destination type: a `width`-byte
      destination keeps its old value or receives a `width`-byte value. */
  lemma ReadIntegerFits(p: Parser, width: nat, out: nat)
    requires out < Pow256(width)
    ensures ReadInteger(p, width, out).1 < Pow256(width)
  {
    if !p.error && width <= |p.input| {
      ValueBound(p.input[..width]);
    }
  }

  /** `Parser::string`: fill the whole output span from the front of the
      input. */
  function ReadString(p: Parser, out: seq<byte>): (r: (Parser, seq<byte>))
    ensures Follows(p, r.0)
    ensures |r.1| == |out|
    ensures p.error || |out| > |p.input| ==> r == (SetError(p), out)
    ensures !p.error && |out| <= |p.input| ==>
      && r.0 == Parser(p.input[|out|..], false)
      && r.1 == p.input[..|out|]
  {
    var p1 := CheckSize(p, |out|);
    if p1.error then (p1, out)
    else (p1.(input := p1.input[|out|..]), p1.input[..|out|])
  }

  /** `Parser::object`: hand the parser to the nested type's own parse,
      unless the error flag is already set. */
  function ReadObject<T>(p: Parser, out: T, parse: (Parser, T) -> (Parser, T)): (r: (Parser, T))
    ensures p.error ==> r == (p, out)
    ensures !p.error ==> r == parse(p, out)
  {
    if !p.error then parse(p, out) else (p, out)
  }

  /** Sticky error: whatever the reads, a parser in error stays put. */
  lemma ReadsAreNoOpsAfterError(p: Parser, width: nat, n: nat, bytes: seq<byte>)
    requires p.error
    ensures ReadInteger(p, width, n) == (p, n)
    ensures ReadString(p, bytes) == (p, bytes)
    ensures MayBeDestroyed(ClearError(p))
  {
  }

  /** Round trip of an integer field: the bytes the serializer writes for
      `v` read back as `v`, consuming exactly `width` bytes. */
  lemma ReadIntegerOfBytes(v: nat, width: nat, rest: seq<byte>, out: nat)
    requires v < Pow256(width)
    ensures ReadInteger(NewParser(Bytes(v, width) + rest), width, out) == (NewParser(rest), v)
  {
    var input := Bytes(v, width) + rest;
    assert input[..width] == Bytes(v, width);
    assert input[width..] == rest;
    ValueOfBytes(v, width);
  }

  /** Round trip of a string field. */
  lemma ReadStringOfBytes(bytes: seq<byte>, rest: seq<byte>, out: seq<byte>)
    requires |out| == |bytes|
    ensures ReadString(NewParser(bytes + rest), out) == (NewParser(rest), bytes)
  {
    assert (bytes + rest)[..|bytes|] == bytes;
    assert (bytes + rest)[|bytes|..] == rest;
  }

  // ---------------------------------------------------------------------
  // Encoding
  // ---------------------------------------------------------------------

  /** `written` is the front of the original output span already filled,
      `output` the span still free; `originalSize` is recorded at
      construction. */
  datatype Serializer = Serializer(written: seq<byte>, output: seq<byte>, originalSize: nat) {
    predicate Valid() {
      originalSize == |written| + |output|
    }
  }

  function NewSerializer(buffer: seq<byte>): (s: Serializer)
    ensures s.Valid() && s.output == buffer && s.written == []
  {
    Serializer([], buffer, |buffer|)
  }

  /** `Serializer::bytes_written`: original size minus what is left. */
  function BytesWritten(s: Serializer): (n: nat)
    requires s.Valid()
    ensures n == |s.written|
  {
    s.originalSize - |s.output|
  }

  /** Fill the front of the free span with `bytes`. */
  function Emit(s: Serializer, bytes: seq<byte>): (r: Serializer)
    requires |bytes| <= |s.output|
    ensures s.Valid() ==> r.Valid()
    ensures r.written == s.written + bytes
  {
    Serializer(s.written + bytes, s.output[|bytes|..], s.originalSize)
  }

  /** `Serializer::check_size`: a write larger than the free span throws. */
  function CheckRoom(s: Serializer, size: nat): Check {
    Need(size <= |s.output|, NoRoom)
  }

  /** `Serializer::integer`: `width` bytes, most significant first. */
  function WriteInteger(s: Serializer, width: nat, v: nat): (r: Result<Serializer>)
    ensures r.Success? <==> width <= |s.output|
    ensures r.Success? ==> r.value == Emit(s, Bytes(v, width))
    ensures r.Failure? ==> r.fault == NoRoom
  {
    if CheckRoom(s, width).Fail? then Failure(NoRoom)
    else Success(Emit(s, Bytes(v, width)))
  }

  /** `Serializer::string`: the raw bytes. */
  function WriteString(s: Serializer, str: seq<byte>): (r: Result<Serializer>)
    ensures r.Success? <==> |str| <= |s.output|
    ensures r.Failure? ==> r.fault == NoRoom
  {
    if CheckRoom(s, |str|).Fail? then Failure(NoRoom)
    else Success(Emit(s, str))
  }

  /** `Serializer::object`: check the object's whole `serialized_length`
      up front, then let it serialize itself. A `serialized_length` that
      throws is propagated. */
  function WriteObject<T>(s: Serializer, obj: T, length: Result<nat>,
                          serialize: (Serializer, T) -> Result<Serializer>): (r: Result<Serializer>)
    ensures length.Failure? ==> r == Failure(length.fault)
    ensures length.Success? && length.value > |s.output| ==> r == Failure(NoRoom)
    ensures length.Success? && length.value <= |s.output| ==> r == serialize(s, obj)
  {
    var n :- length;
    :- CheckRoom(s, n);
    serialize(s, obj)
  }

  /** Every successful write grows `bytes_written` by exactly its size and
      leaves what was written before untouched. */
  lemma WritesAccount(s: Serializer, width: nat, v: nat, str: seq<byte>)
    requires s.Valid()
    ensures WriteInteger(s, width, v).Success? ==>
      var t := WriteInteger(s, width, v).value;
      t.Valid() && BytesWritten(t) == BytesWritten(s) + width && t.written[..BytesWritten(s)] == s.written
    ensures WriteString(s, str).Success? ==>
      var t := WriteString(s, str).value;
      t.Valid() && BytesWritten(t) == BytesWritten(s) + |str| && t.written == s.written + str
  {
    if WriteInteger(s, width, v).Success? {
      var t := WriteInteger(s, width, v).value;
      assert t.written == s.written + Bytes(v, width);
      assert t.written[..|s.written|] == s.written;
    }
  }

  /** Two writes in a row are one write of the concatenation: same
      outcome, same bytes. This is what lets a composite type serialize
      field by field while `Serializer::object` checked its total up
      front. */
  lemma WriteStringConcat(s: Serializer, a: seq<byte>, b: seq<byte>)
    ensures WriteString(s, a + b) ==
      (match WriteString(s, a)
       case Failure(f) => Failure(f)
       case Success(s1) => WriteString(s1, b))
  {
    if |a| <= |s.output| {
      var s1 := Emit(s, a);
      assert s1.output == s.output[|a|..];
      if |a + b| <= |s.output| {
        assert s1.output[|b|..] == s.output[|a + b|..];
        assert s1.written + b == s.written + (a + b);
      }
    }
  }

  /** Serializing an integer is writing its big-endian bytes. */
  lemma WriteIntegerIsWriteString(s: Serializer, width: nat, v: nat)
    ensures WriteInteger(s, width, v) == WriteString(s, Bytes(v, width))
  {
  }
}
