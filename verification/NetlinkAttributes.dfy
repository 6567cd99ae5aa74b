/**
 Nested netlink attributes (fabric/src/netlink_manager.cpp, fabric/src/interface_manager.cpp):
 requests are built in one flat buffer, a nested attribute's length being patched when it is
 closed, and messages are read by walking attributes and the attributes inside them.

 An attribute is a 16-bit length that counts its 4-byte header, a 16-bit type, the payload, and
 padding to a multiple of 4 that the length does not count.  Words are little-endian.
 */
module NetlinkAttributes {

  type byte = b: int | 0 <= b < 256

  const HEADER: nat := 4
  const BUFFER_SIZE: nat := 16384

  datatype Attr = Leaf(kind: nat, data: seq<byte>) | Nested(kind: nat, children: seq<Attr>)

  /** Up to the next multiple of 4.  By recursion, so that only `AlignIs` brings division into a proof. */
  function Align(n: nat): (r: nat)
    ensures n <= r < n + 4
  {
    if n == 0 then 0 else if n <= 4 then 4 else 4 + Align(n - 4)
  }

  lemma {:induction false} AlignIs(n: nat)
    ensures Align(n) == (n + 3) / 4 * 4
    ensures Align(n) == n <==> n % 4 == 0
  {
    if n > 4 { AlignIs(n - 4); }
  }

  lemma AlignSum(m: nat, n: nat)
    requires Align(m) == m && Align(n) == n
    ensures Align(m + n) == m + n
  {
    AlignIs(m);
    AlignIs(n);
    AlignIs(m + n);
  }

  lemma AlignTwice(n: nat)
    ensures Align(Align(n)) == Align(n)
  {
    AlignIs(n);
    AlignIs(Align(n));
  }

  /** The little-endian 16-bit word at `i`. */
  function WordAt(b: seq<byte>, i: nat): nat
    requires i + 2 <= |b|
  {
    b[i] as nat + 256 * b[i + 1] as nat
  }

  function PayloadSize(a: Attr): nat
    decreases a, 0
  {
    match a
    case Leaf(_, data) => |data|
    case Nested(_, children) => Size(children)
  }

  /** Bytes one attribute takes, padding included. */
  function Span(a: Attr): nat
    decreases a, 1
  {
    Align(HEADER + PayloadSize(a))
  }

  function Size(attrs: seq<Attr>): nat
    decreases attrs, 2
  {
    if attrs == [] then 0 else Span(attrs[0]) + Size(attrs[1..])
  }

  lemma {:induction false} SizeIsWhole(attrs: seq<Attr>)
    ensures Align(Size(attrs)) == Size(attrs)
    decreases |attrs|
  {
    if attrs != [] {
      SizeIsWhole(attrs[1..]);
      AlignTwice(HEADER + PayloadSize(attrs[0]));
      AlignSum(Span(attrs[0]), Size(attrs[1..]));
    }
  }

  // ----- what it means for a stretch of bytes to encode attributes; padding may hold anything

  predicate Encodes(b: seq<byte>, at: nat, end: nat, attrs: seq<Attr>)
    decreases attrs, 1
  {
    at <= end <= |b|
    && if attrs == [] then at == end
       else EncodesOne(b, at, attrs[0]) && Encodes(b, at + Span(attrs[0]), end, attrs[1..])
  }

  predicate EncodesOne(b: seq<byte>, at: nat, a: Attr)
    decreases a, 2
  {
    var n := HEADER + PayloadSize(a);
    && at + Span(a) <= |b|
    && WordAt(b, at) == n
    && WordAt(b, at + 2) == a.kind
    && match a
       case Leaf(_, data) => b[at + HEADER..at + n] == data
       case Nested(_, children) => Encodes(b, at + HEADER, at + n, children)
  }

  /** One byte in an attribute of type 1, inside one of type 18, as it lies in the buffer. */
  lemma BytesOnTheWire(b: seq<byte>)
    requires b == [12, 0, 18, 0, 5, 0, 1, 0, 7, 0, 0, 0]
    ensures Encodes(b, 0, 12, [Nested(18, [Leaf(1, [7])])])
  {
    var inner := Leaf(1, [7]);
    var outer := Nested(18, [inner]);
    assert Span(inner) == 8 && Size([inner]) == 8 by { assert [inner][1..] == []; }
    assert EncodesOne(b, 4, inner);
    assert Encodes(b, 4, 12, [inner]) by { assert [inner][1..] == []; }
    assert Span(outer) == 12 && EncodesOne(b, 0, outer) by { NestedSpan(outer); }
    assert [outer][1..] == [];
  }

  predicate Same(b: seq<byte>, c: seq<byte>, at: nat, end: nat)
    requires end <= |b| && end <= |c|
  {
    forall k :: at <= k < end ==> b[k] == c[k]
  }

  /** What bytes encode depends on no other bytes. */
  lemma {:induction false} EncodesFrame(b: seq<byte>, c: seq<byte>, at: nat, end: nat, attrs: seq<Attr>)
    requires Encodes(b, at, end, attrs) && end <= |c| && Same(b, c, at, end)
    ensures Encodes(c, at, end, attrs)
    decreases attrs, 1
  {
    if attrs != [] {
      EncodesOneFrame(b, c, at, attrs[0]);
      EncodesFrame(b, c, at + Span(attrs[0]), end, attrs[1..]);
    }
  }

  lemma {:induction false} EncodesOneFrame(b: seq<byte>, c: seq<byte>, at: nat, a: Attr)
    requires EncodesOne(b, at, a) && at + Span(a) <= |c| && Same(b, c, at, at + Span(a))
    ensures EncodesOne(c, at, a)
    decreases a, 2
  {
    if a.Nested? { EncodesFrame(b, c, at + HEADER, at + HEADER + PayloadSize(a), a.children); }
  }

  lemma NestedSpan(a: Attr)
    requires a.Nested?
    ensures Span(a) == HEADER + Size(a.children)
  {
    SizeIsWhole(a.children);
    AlignSum(HEADER, Size(a.children));
  }

  /** Patching the length in the header that stands in front of encoded children. */
  lemma PatchedEncodes(opening: seq<byte>, full: seq<byte>, patched: seq<byte>, at: nat, a: Attr)
    requires a.Nested? && Span(a) == HEADER + Size(a.children)
    requires |opening| == |full| == |patched| && at + Span(a) <= |full|
    requires WordAt(opening, at + 2) == a.kind && Same(opening, full, 0, at + HEADER)
    requires Encodes(full, at + HEADER, at + Span(a), a.children)
    requires Same(full, patched, at + 2, |full|) && WordAt(patched, at) == Span(a)
    ensures EncodesOne(patched, at, a)
  {
    EncodesFrame(full, patched, at + HEADER, at + Span(a), a.children);
  }

  /** Types fit their 16 bits, at every depth. */
  predicate Kinds(attrs: seq<Attr>)
    decreases attrs, 0
  {
    forall i :: 0 <= i < |attrs| ==> KindFits(attrs[i])
  }

  predicate KindFits(a: Attr)
    decreases a, 1
  {
    a.kind < 65536 && (a.Nested? ==> Kinds(a.children))
  }

  // ----- building

  class Message {
    const buffer: array<byte>
    var len: nat               // nlmsg_len

    ghost predicate Valid()
      reads this
    {
      Align(len) <= buffer.Length <= BUFFER_SIZE
    }

    /** A zeroed buffer with a header of `len` bytes already accounted for. */
    constructor (len: nat)
      requires Align(len) <= BUFFER_SIZE
      ensures Valid() && this.len == len && buffer.Length == BUFFER_SIZE && fresh(buffer)
    {
      this.len := len;
      buffer := new byte[BUFFER_SIZE](_ => 0);
    }

    method PutWord(at: nat, n: nat)
      requires at + 2 <= buffer.Length && n < 65536
      modifies buffer
      ensures WordAt(buffer[..], at) == n
      ensures forall k :: 0 <= k < buffer.Length && k != at && k != at + 1 ==> buffer[k] == old(buffer[k])
    {
      buffer[at] := n % 256;
      buffer[at + 1] := n / 256;
    }

    method PutBytes(at: nat, data: seq<byte>)
      requires at + |data| <= buffer.Length
      modifies buffer
      ensures buffer[..][at..at + |data|] == data
      ensures forall k :: 0 <= k < buffer.Length && !(at <= k < at + |data|) ==> buffer[k] == old(buffer[k])
    {
      var i := 0;
      while i < |data|
        invariant 0 <= i <= |data|
        invariant buffer[..][at..at + i] == data[..i]
        invariant forall k :: 0 <= k < buffer.Length && !(at <= k < at + i) ==> buffer[k] == old(buffer[k])
      {
        buffer[at + i] := data[i];
        i := i + 1;
      }
    }

    /** Append one attribute.  What lies before it is not touched. */
    method AddAttributes(kind: nat, data: seq<byte>)
      requires Valid() && kind < 65536
      requires Align(len) + Align(HEADER + |data|) <= buffer.Length
      modifies this, buffer
      ensures Valid() && Align(len) == len
      ensures len == Align(old(len)) + Align(HEADER + |data|)
      ensures Same(old(buffer[..]), buffer[..], 0, Align(old(len)))
      ensures EncodesOne(buffer[..], Align(old(len)), Leaf(kind, data))
    {
      var at := Align(len);
      var n := HEADER + |data|;
      PutWord(at + 2, kind);
      PutWord(at, n);
      PutBytes(at + HEADER, data);
      len := at + Align(n);
      AlignTwice(old(len));
      AlignTwice(n);
      AlignSum(at, Align(n));
    }

    /** Open a nested attribute: an empty one for now. */
    method StartNestedAttributes(kind: nat) returns (nested: nat)
      requires Valid() && kind < 65536
      requires Align(len) + HEADER <= buffer.Length
      modifies this, buffer
      ensures Valid() && Align(len) == len
      ensures nested == Align(old(len)) && len == nested + HEADER
      ensures Same(old(buffer[..]), buffer[..], 0, nested)
      ensures EncodesOne(buffer[..], nested, Leaf(kind, []))
    {
      nested := Align(len);
      AddAttributes(kind, []);
    }

    /** Close it: its length now covers everything added since. */
    method StopNestedAttributes(nested: nat) returns (total: nat)
      requires Valid() && nested + HEADER <= len
      modifies buffer
      ensures Valid() && total == len
      ensures WordAt(buffer[..], nested) == Align(len) - nested
      ensures Same(old(buffer[..]), buffer[..], 0, nested)
      ensures Same(old(buffer[..]), buffer[..], nested + 2, buffer.Length)
    {
      PutWord(nested, Align(len) - nested);
      total := len;
    }

    /** Write a list of attributes, each with everything inside it. */
    method Build(attrs: seq<Attr>)
      requires Valid() && Kinds(attrs)
      requires Align(len) + Size(attrs) <= buffer.Length
      modifies this, buffer
      ensures Valid() && Align(len) == Align(old(len)) + Size(attrs)
      ensures Align(old(len)) == old(len) ==> Align(len) == len
      ensures Same(old(buffer[..]), buffer[..], 0, Align(old(len)))
      ensures Encodes(buffer[..], Align(old(len)), Align(len), attrs)
      decreases attrs, 0
    {
      if attrs != [] {
        BuildOne(attrs[0]);
        ghost var first := buffer[..];
        Build(attrs[1..]);
        EncodesOneFrame(first, buffer[..], Align(old(len)), attrs[0]);
      }
    }

    method BuildOne(a: Attr)
      requires Valid() && KindFits(a)
      requires Align(len) + Span(a) <= buffer.Length
      modifies this, buffer
      ensures Valid() && len == Align(old(len)) + Span(a) == Align(len)
      ensures Same(old(buffer[..]), buffer[..], 0, Align(old(len)))
      ensures EncodesOne(buffer[..], Align(old(len)), a)
      decreases a, 1
    {
      match a
      case Leaf(kind, data) =>
        AddAttributes(kind, data);
      case Nested(kind, children) =>
        NestedSpan(a);
        var nested := StartNestedAttributes(kind);
        ghost var opening := buffer[..];
        Build(children);
        ghost var full := buffer[..];
        var _ := StopNestedAttributes(nested);
        PatchedEncodes(opening, full, buffer[..], nested, a);
    }
  }

  // ----- walking

  /** RTA_OK: a whole attribute is there. */
  predicate RtaOk(b: seq<byte>, at: nat, end: nat)
    requires end <= |b|
  {
    at + HEADER <= end && HEADER <= WordAt(b, at) <= end - at
  }

  /** An attribute seen by a receive loop: its type and where its payload lies. */
  datatype Raw = Raw(kind: nat, start: nat, stop: nat)

  /** The attributes a receive loop visits from `at` on; the last one's padding may be missing. */
  function Walk(b: seq<byte>, at: nat, end: nat): seq<Raw>
    requires end <= |b|
    decreases if at < end then end - at else 0
  {
    if !RtaOk(b, at, end) then []
    else
      [Raw(WordAt(b, at + 2), at + HEADER, at + WordAt(b, at))] + Walk(b, at + Align(WordAt(b, at)), end)
  }

  lemma WalkStep(visited: seq<Raw>, b: seq<byte>, at: nat, end: nat)
    requires end <= |b| && RtaOk(b, at, end)
    ensures visited + Walk(b, at, end)
            == visited + [Raw(WordAt(b, at + 2), at + HEADER, at + WordAt(b, at))] + Walk(b, at + Align(WordAt(b, at)), end)
  {}

  /** The receive loop: `left` may go negative after an attribute whose padding is missing. */
  method WalkLoop(b: seq<byte>, start: nat, end: nat) returns (visited: seq<Raw>)
    requires start <= end <= |b|
    ensures visited == Walk(b, start, end)
  {
    visited := [];
    var at, left: int := start, end - start;
    while left >= HEADER && HEADER <= WordAt(b, at) <= left
      invariant 0 <= at && left == end - at
      invariant Walk(b, start, end) == visited + Walk(b, at, end)
      decreases left
    {
      var n := WordAt(b, at);
      WalkStep(visited, b, at, end);
      visited := visited + [Raw(WordAt(b, at + 2), at + HEADER, at + n)];
      at := at + Align(n);
      left := left - Align(n);
    }
  }

  /** Which types a receiver treats as nested, and what it expects inside. */
  datatype Schema = Schema(nested: map<nat, Schema>)

  /** Walk the bytes, and inside every attribute of a nested type walk its payload. */
  function Decode(b: seq<byte>, at: nat, end: nat, schema: Schema): seq<Attr>
    requires end <= |b|
    decreases if at < end then end - at else 0
  {
    if !RtaOk(b, at, end) then [] else
      [DecodeRaw(b, Raw(WordAt(b, at + 2), at + HEADER, at + WordAt(b, at)), schema)]
      + Decode(b, at + Align(WordAt(b, at)), end, schema)
  }

  function DecodeRaw(b: seq<byte>, raw: Raw, schema: Schema): Attr
    requires raw.start <= raw.stop <= |b|
    decreases raw.stop - raw.start + 1
  {
    if raw.kind in schema.nested then Nested(raw.kind, Decode(b, raw.start, raw.stop, schema.nested[raw.kind]))
    else Leaf(raw.kind, b[raw.start..raw.stop])
  }

  predicate Conforms(attrs: seq<Attr>, schema: Schema)
    decreases attrs
  {
    forall i :: 0 <= i < |attrs| ==>
      (attrs[i].Nested? <==> attrs[i].kind in schema.nested)
      && (attrs[i].Nested? ==> Conforms(attrs[i].children, schema.nested[attrs[i].kind]))
  }

  /** Any bytes that encode attributes are walked back to exactly those attributes. */
  lemma {:induction false} DecodeInverts(b: seq<byte>, at: nat, end: nat, attrs: seq<Attr>, schema: Schema)
    requires Encodes(b, at, end, attrs) && Conforms(attrs, schema)
    ensures Decode(b, at, end, schema) == attrs
    decreases attrs
  {
    if attrs != [] {
      var a := attrs[0];
      if a.Nested? { DecodeInverts(b, at + HEADER, at + WordAt(b, at), a.children, schema.nested[a.kind]); }
      DecodeInverts(b, at + Span(a), end, attrs[1..], schema);
    }
  }

  lemma {:induction false} DecodeLength(b: seq<byte>, at: nat, end: nat, schema: Schema)
    requires end <= |b|
    ensures |Decode(b, at, end, schema)| == |Walk(b, at, end)|
    decreases if at < end then end - at else 0
  {
    if RtaOk(b, at, end) { DecodeLength(b, at + Align(WordAt(b, at)), end, schema); }
  }

  /** `Decode` visits at each level what the receive loop visits there. */
  lemma {:induction false} DecodeIsWalk(b: seq<byte>, at: nat, end: nat, schema: Schema, i: nat)
    requires end <= |b| && i < |Walk(b, at, end)|
    ensures |Decode(b, at, end, schema)| == |Walk(b, at, end)|
    ensures Walk(b, at, end)[i].start <= Walk(b, at, end)[i].stop <= end
    ensures Decode(b, at, end, schema)[i] == DecodeRaw(b, Walk(b, at, end)[i], schema)
    decreases i
  {
    DecodeLength(b, at, end, schema);
    if i > 0 {
      var next := at + Align(WordAt(b, at));
      assert Walk(b, at, end)[i] == Walk(b, next, end)[i - 1];
      DecodeIsWalk(b, next, end, schema, i - 1);
    }
  }

  /** Main result: what is built in the buffer is read back, tree for tree. */
  method BuildThenDecode(m: Message, attrs: seq<Attr>, schema: Schema) returns (read: seq<Attr>)
    requires m.Valid() && Kinds(attrs) && Conforms(attrs, schema)
    requires Align(m.len) + Size(attrs) <= m.buffer.Length
    modifies m, m.buffer
    ensures read == attrs
  {
    var start := Align(m.len);
    m.Build(attrs);
    DecodeInverts(m.buffer[..], start, Align(m.len), attrs, schema);
    read := Decode(m.buffer[..], start, Align(m.len), schema);
  }
}
