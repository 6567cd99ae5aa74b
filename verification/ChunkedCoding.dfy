/**
 Chunked coding, section 7.1 of RFC 9112 (services/src/chunk_stream.cpp): one buffer of two halves,
 the get area over the first and the put area over the second.
 The inner sink is one that accepts everything; the inner source may end anywhere.
 */
module ChunkedCoding {
  import opened LineReader
  import opened Wrappers

  const MAX_LINE: nat := 1024
  const STREAMSIZE_LIMIT: int := 0x8000_0000_0000_0000

  // ----- sizes in hexadecimal

  function HexDigit(n: nat): char
    requires n < 16
  {
    if n < 10 then '0' + n as char else 'a' + (n - 10) as char
  }

  /** `std::hex <<` */
  function ToHex(n: nat): string {
    if n < 16 then [HexDigit(n)] else ToHex(n / 16) + [HexDigit(n % 16)]
  }

  function DigitValue(c: char): Option<nat> {
    if '0' <= c <= '9' then Some((c - '0') as nat)
    else if 'a' <= c <= 'f' then Some((c - 'a') as nat + 10)
    else if 'A' <= c <= 'F' then Some((c - 'A') as nat + 10)
    else None
  }

  predicate HexDigits(s: string) {
    forall c | c in s :: DigitValue(c).Some?
  }

  /** The digits a number starts with. */
  function DigitPrefix(s: string): (r: string)
    ensures HexDigits(r) && r <= s
  {
    if s == "" || DigitValue(s[0]).None? then "" else [s[0]] + DigitPrefix(s[1..])
  }

  function HexValue(s: string): nat
    requires HexDigits(s)
  {
    if s == "" then 0 else 16 * HexValue(s[..|s| - 1]) + DigitValue(s[|s| - 1]).value
  }

  function SkipSpaces(s: string): string {
    if s != "" && (s[0] == ' ' || '\t' <= s[0] <= '\r') then SkipSpaces(s[1..]) else s
  }

  function SkipSign(s: string): string {
    if s != "" && (s[0] == '-' || s[0] == '+') then s[1..] else s
  }

  function SkipPrefix(s: string): string {
    if |s| >= 2 && s[0] == '0' && (s[1] == 'x' || s[1] == 'X') then s[2..] else s
  }

  function Signed(negative: bool, n: nat): Option<int> {
    if !negative then (if n < STREAMSIZE_LIMIT then Some(n) else None)
    else if n <= STREAMSIZE_LIMIT then Some(0 - n) else None
  }

  /** `std::hex >>` into a signed 64-bit integer: spaces, a sign, "0x", digits, and it must fit. */
  function ParseHex(s: string): Option<int> {
    var t := SkipSpaces(s);
    var digits := DigitPrefix(SkipPrefix(SkipSign(t)));
    if digits == "" then None else Signed("-" <= t, HexValue(digits))
  }

  /** The line without its extensions. */
  function CutExtensions(line: string): string {
    if line == "" || line[0] == ';' then "" else [line[0]] + CutExtensions(line[1..])
  }

  /** The size a chunk's first line tells. */
  function SizeOf(line: string): Option<int> {
    ParseHex(CutExtensions(line))
  }

  lemma DigitInverts(d: nat)
    requires d < 16
    ensures DigitValue(HexDigit(d)) == Some(d)
  {}

  lemma DigitsSnoc(s: string, c: char)
    requires HexDigits(s) && DigitValue(c).Some?
    ensures HexDigits(s + [c]) && HexValue(s + [c]) == 16 * HexValue(s) + DigitValue(c).value
  {
    assert (s + [c])[..|s|] == s;
  }

  lemma {:induction false} HexIsDigits(n: nat)
    ensures HexDigits(ToHex(n)) && ToHex(n) != "" && HexValue(ToHex(n)) == n
  {
    DigitInverts(n % 16);
    if n < 16 {
      DigitsSnoc("", HexDigit(n));
      assert "" + [HexDigit(n)] == [HexDigit(n)];
    } else {
      HexIsDigits(n / 16);
      DigitsSnoc(ToHex(n / 16), HexDigit(n % 16));
    }
  }

  function Power16(k: nat): nat { if k == 0 then 1 else 16 * Power16(k - 1) }

  lemma SixteenDigits()
    ensures Power16(16) == 2 * STREAMSIZE_LIMIT
  {
    assert Power16(3) == 16 * Power16(2);
    assert Power16(6) == 16 * Power16(5);
    assert Power16(9) == 16 * Power16(8);
    assert Power16(12) == 16 * Power16(11);
    assert Power16(15) == 16 * Power16(14);
  }

  lemma {:induction false} HexLength(n: nat, digits: nat)
    requires digits >= 1 && n < Power16(digits)
    ensures |ToHex(n)| <= digits
  {
    if n >= 16 { HexLength(n / 16, digits - 1); }
  }

  lemma {:induction false} AllDigits(s: string)
    requires HexDigits(s)
    ensures DigitPrefix(s) == s && CutExtensions(s) == s && NoBreaks(s) && SkipSpaces(s) == s
  {
    if s != "" {
      assert s[0] in s;
      assert HexDigits(s[1..]) by { assert forall c | c in s[1..] :: c in s; }
      AllDigits(s[1..]);
    }
  }

  lemma PlainHex(s: string)
    requires HexDigits(s) && s != ""
    ensures SizeOf(s) == Signed(false, HexValue(s))
  {
    AllDigits(s);
    NoSignNoPrefix(s);
    var digits := DigitPrefix(SkipPrefix(SkipSign(SkipSpaces(s))));
    assert digits == s;
    assert ParseHex(s) == Signed("-" <= s, HexValue(digits));
  }

  lemma NoSignNoPrefix(s: string)
    requires HexDigits(s) && s != ""
    ensures SkipSign(s) == s && SkipPrefix(s) == s && !("-" <= s)
  {
    assert s[0] in s && (|s| >= 2 ==> s[1] in s);
  }

  /** A size printed is a size read. */
  lemma HexRoundTrip(n: nat)
    requires n < STREAMSIZE_LIMIT
    ensures SizeOf(ToHex(n)) == Some(n) && NoBreaks(ToHex(n)) && |ToHex(n)| <= 16
  {
    HexIsDigits(n);
    PlainHex(ToHex(n));
    AllDigits(ToHex(n));
    SixteenDigits();
    HexLength(n, 16);
  }

  const LOWER: string := "0123456789abcdef"
  const UPPER: string := "0123456789ABCDEF"

  predicate IsDigit(c: char, d: nat) { d < 16 && (c == LOWER[d] || c == UPPER[d]) }

  /** `s` are these digits, in either case. */
  predicate Spelt(s: string, digits: seq<nat>) {
    |s| == |digits| && forall i :: 0 <= i < |s| ==> IsDigit(s[i], digits[i])
  }

  function Number(digits: seq<nat>): nat {
    if digits == [] then 0 else 16 * Number(digits[..|digits| - 1]) + digits[|digits| - 1]
  }

  lemma DigitIs(c: char, d: nat)
    requires IsDigit(c, d)
    ensures DigitValue(c) == Some(d) && c != ';'
  {}

  lemma {:induction false} SpeltValue(s: string, digits: seq<nat>)
    requires Spelt(s, digits)
    ensures HexDigits(s) && HexValue(s) == Number(digits) && ';' !in s
  {
    if s != "" {
      var n := |s| - 1;
      SpeltValue(s[..n], digits[..n]);
      DigitIs(s[n], digits[n]);
      assert s == s[..n] + [s[n]];
    }
  }

  lemma {:induction false} CutAt(s: string, extension: string)
    requires ';' !in s && (extension == "" || extension[0] == ';')
    ensures CutExtensions(s + extension) == s
  {
    if s != "" {
      assert s[0] in s && (s + extension)[1..] == s[1..] + extension;
      CutAt(s[1..], extension);
    } else {
      assert s + extension == extension;
    }
  }

  /** A size in digits of either case, with any extension after a semicolon, is read as its number. */
  lemma SizeIsRead(s: string, digits: seq<nat>, extension: string)
    requires s != "" && Spelt(s, digits) && Number(digits) < STREAMSIZE_LIMIT
    requires extension == "" || extension[0] == ';'
    ensures SizeOf(s + extension) == Some(Number(digits))
  {
    SpeltValue(s, digits);
    CutAt(s, extension);
    PlainHex(s);
    AllDigits(s);
  }

  predicate IsBlank(c: char) { c as int in {9, 10, 11, 12, 13, 32} }

  lemma {:induction false} BlanksSkipped(blanks: string, t: string)
    requires (forall i :: 0 <= i < |blanks| ==> IsBlank(blanks[i])) && (t != "" ==> !IsBlank(t[0]))
    ensures SkipSpaces(blanks + t) == t
  {
    if blanks == "" {
      assert blanks + t == t;
    } else {
      assert (blanks + t)[1..] == blanks[1..] + t;
      BlanksSkipped(blanks[1..], t);
    }
  }

  lemma {:induction false} DigitsTaken(s: string, rest: string)
    requires HexDigits(s) && (rest == "" || DigitValue(rest[0]).None?)
    ensures DigitPrefix(s + rest) == s
  {
    if s == "" {
      assert s + rest == rest;
    } else {
      assert s[0] in s && (s + rest)[1..] == s[1..] + rest;
      assert forall c | c in s[1..] :: c in s;
      DigitsTaken(s[1..], rest);
    }
  }

  lemma PrefixSkipped(prefix: string, s: string, rest: string)
    requires prefix in {"", "0x", "0X"} && s != "" && HexDigits(s)
    requires rest == "" || rest[0] !in {'x', 'X'}
    ensures SkipPrefix(prefix + s + rest) == s + rest
  {
    assert s[0] in s && (|s| > 1 ==> s[1] in s);
    var t := prefix + s + rest;
    if prefix == "" {
      assert t == s + rest && t[0] == s[0];
      assert |t| > 1 ==> t[1] == if |s| > 1 then s[1] else rest[0];
    } else {
      assert t[0] == prefix[0] && t[1] == prefix[1] && t[2..] == s + rest;
    }
  }

  /** A number is read after blanks, a sign and a prefix, up to what is no digit, if it fits a signed
      64-bit integer; a minus makes it negative. */
  lemma NumberIsRead(blanks: string, sign: string, prefix: string, s: string, digits: seq<nat>, rest: string)
    requires forall i :: 0 <= i < |blanks| ==> IsBlank(blanks[i])
    requires sign in {"", "+", "-"} && prefix in {"", "0x", "0X"} && s != "" && Spelt(s, digits)
    requires rest == "" || (DigitValue(rest[0]).None? && rest[0] !in {'x', 'X'})
    ensures
      var n := Number(digits);
      ParseHex(blanks + (sign + (prefix + s + rest)))
      == if sign != "-" then (if n < 0x8000_0000_0000_0000 then Some(n) else None)
         else if n <= 0x8000_0000_0000_0000 then Some(0 - n) else None
  {
    hide HexValue, Number, Spelt;
    SpeltValue(s, digits);
    var u := prefix + s + rest;
    var t := sign + u;
    assert s[0] in s;
    assert u[0] == if prefix == "" then s[0] else '0';
    assert t[0] == if sign == "" then u[0] else sign[0];
    BlanksSkipped(blanks, t);
    assert sign != "" ==> t[1..] == u;
    assert sign == "" ==> t == u;
    assert SkipSign(t) == u;
    PrefixSkipped(prefix, s, rest);
    DigitsTaken(s, rest);
    assert "-" <= t <==> sign == "-";
  }

  /** And a size is printed in lower-case digits without leading zeros. */
  lemma {:induction false} SizeIsPrinted(n: nat) returns (digits: seq<nat>)
    ensures Spelt(ToHex(n), digits) && Number(digits) == n
    ensures forall i :: 0 <= i < |digits| ==> digits[i] < 16 && ToHex(n)[i] == LOWER[digits[i]]
    ensures digits != [] && (n > 0 ==> digits[0] > 0)
  {
    hide HexDigit, IsDigit;
    PrintedDigit(n % 16);
    if n < 16 {
      digits := [n];
      assert digits[..0] == [];
    } else {
      var front := SizeIsPrinted(n / 16);
      digits := front + [n % 16];
      assert digits[..|front|] == front;
    }
  }

  lemma PrintedDigit(d: nat)
    requires d < 16
    ensures IsDigit(HexDigit(d), d) && HexDigit(d) == LOWER[d]
  {}

  // ----- frames

  lemma Assoc(a: string, b: string, c: string)
    ensures a + b + c == a + (b + c)
  {}

  /** A chunk on the wire: its first line, extensions included, and its data. */
  datatype Frame = Frame(line: string, data: string)

  const TERMINATOR: string := "0\r\n\r\n"

  function Wire(f: Frame): string {
    f.line + "\r\n" + f.data + "\r\n"
  }

  function WireAll(frames: seq<Frame>): string {
    if frames == [] then "" else Wire(frames[0]) + WireAll(frames[1..])
  }

  function Data(frames: seq<Frame>): string {
    if frames == [] then "" else frames[0].data + Data(frames[1..])
  }

  predicate WellFormed(f: Frame, limit: nat) {
    && NoBreaks(f.line) && |f.line| + 2 <= MAX_LINE
    && SizeOf(f.line) == Some(|f.data|) && |f.data| <= limit
  }

  /** `area` is what the get area holds after a refill that came to nothing. */
  datatype Step = Chunk(data: string, rest: string) | Last(rest: string) | Bad(area: string, rest: string)

  /** What one refill of the empty get area makes of the stream. */
  function NextChunk(s: string, limit: nat): (r: Step)
    ensures r.Chunk? ==> |r.rest| < |s| && r.data != ""
  {
    var l := ReadLine(s, MAX_LINE);
    var size := SizeOf(l.text);
    if !l.ok || size.None? || size.value > limit || size.value < 0 then Bad("", l.rest)
    else if size.value > |l.rest| then Bad("", "")
    else
      var data, e := l.rest[..size.value], ReadLine(l.rest[size.value..], MAX_LINE);
      if !e.ok || e.text != "" then Bad(data, e.rest)
      else if size.value == 0 then Last(e.rest)
      else Chunk(data, e.rest)
  }

  /** The get area after a refill: a chunk that is not ended as it should be stays there. */
  function Area(step: Step): string {
    match step
    case Chunk(data, _) => data
    case Last(_) => ""
    case Bad(area, _) => area
  }

  /** Everything a reader gets before end-of-file. */
  function Decoded(s: string, limit: nat): string
    decreases |s|
  {
    match NextChunk(s, limit)
    case Chunk(data, rest) => data + Decoded(rest, limit)
    case _ => ""
  }

  /** A well-formed frame is one step, whatever follows. */
  lemma FrameIsStep(f: Frame, rest: string, limit: nat)
    requires WellFormed(f, limit)
    ensures NextChunk(Wire(f) + rest, limit) == if f.data == "" then Last(rest) else Chunk(f.data, rest)
  {
    var tail := f.data + "\r\n" + rest;
    assert Wire(f) + rest == f.line + "\r\n" + tail;
    ReadsBack(f.line, tail, MAX_LINE);
    assert tail[..|f.data|] == f.data && tail[|f.data|..] == "" + "\r\n" + rest;
    ReadsBack("", rest, MAX_LINE);
  }

  lemma DecodedStep(s: string, limit: nat)
    ensures Decoded(s, limit)
            == if NextChunk(s, limit).Chunk? then NextChunk(s, limit).data + Decoded(NextChunk(s, limit).rest, limit) else ""
  {}

  /** Well-formed frames, with whatever extensions, decode to their data. */
  lemma {:induction false} FramesDecode(frames: seq<Frame>, rest: string, limit: nat)
    requires forall f | f in frames :: WellFormed(f, limit) && f.data != ""
    ensures Decoded(WireAll(frames) + rest, limit) == Data(frames) + Decoded(rest, limit)
  {
    hide Decoded, NextChunk, Wire, WellFormed;
    if frames == [] {
      assert WireAll(frames) + rest == rest;
    } else {
      var f, others := frames[0], WireAll(frames[1..]) + rest;
      Assoc(Wire(f), WireAll(frames[1..]), rest);
      FrameIsStep(f, others, limit);
      DecodedStep(Wire(f) + others, limit);
      FramesDecode(frames[1..], rest, limit);
      Assoc(f.data, Data(frames[1..]), Decoded(rest, limit));
    }
  }

  /** And a last chunk ends them. */
  lemma LastEnds(last: Frame, rest: string, limit: nat)
    requires WellFormed(last, limit) && last.data == ""
    ensures Decoded(Wire(last) + rest, limit) == ""
  {
    FrameIsStep(last, rest, limit);
    DecodedStep(Wire(last) + rest, limit);
  }

  /** The frames of some data under chunks of `k`: all full but perhaps the last. */
  function Frames(data: string, k: nat): seq<Frame>
    requires k > 0
  {
    if data == "" then []
    else
      var n := if |data| <= k then |data| else k;
      [Frame(ToHex(n), data[..n])] + Frames(data[n..], k)
  }

  lemma {:induction false} FramesAreWellFormed(data: string, k: nat, limit: nat)
    requires 0 < k <= limit && k < STREAMSIZE_LIMIT
    ensures forall f | f in Frames(data, k) :: WellFormed(f, limit) && f.data != ""
    ensures Data(Frames(data, k)) == data
    decreases |data|
  {
    if data != "" {
      var n := if |data| <= k then |data| else k;
      HexRoundTrip(n);
      FramesAreWellFormed(data[n..], k, limit);
      assert data == data[..n] + data[n..];
    }
  }

  lemma TerminatorEnds(rest: string, limit: nat)
    ensures Decoded(TERMINATOR + rest, limit) == ""
  {
    hide Decoded;
    HexRoundTrip(0);
    var last := Frame(ToHex(0), "");
    assert Wire(last) == TERMINATOR;
    LastEnds(last, rest, limit);
  }

  /** Main result: what is encoded under `k` decodes under any limit from `k` on, whatever follows. */
  lemma EncodedDecodes(data: string, rest: string, k: nat, limit: nat)
    requires 0 < k <= limit && k < STREAMSIZE_LIMIT
    ensures Decoded(WireAll(Frames(data, k)) + TERMINATOR + rest, limit) == data
  {
    hide Decoded, Frames, WireAll, Data, WellFormed;
    FramesAreWellFormed(data, k, limit);
    TerminatorEnds(rest, limit);
    FramesDecode(Frames(data, k), TERMINATOR + rest, limit);
    Assoc(WireAll(Frames(data, k)), TERMINATOR, rest);
  }

  /** The characters as one chunk, if there are any. */
  function OneChunk(pending: string): string {
    if pending == "" then "" else Wire(Frame(ToHex(|pending|), pending))
  }

  lemma FullChunkFirst(pending: string, rest: string, k: nat)
    requires k > 0 && |pending| == k
    ensures WireAll(Frames(pending + rest, k)) == OneChunk(pending) + WireAll(Frames(rest, k))
  {
    var data := pending + rest;
    assert data[..k] == pending && data[k..] == rest;
  }

  lemma AtMostOneChunk(pending: string, k: nat)
    requires k > 0 && |pending| <= k
    ensures WireAll(Frames(pending, k)) == OneChunk(pending)
  {
    if pending != "" { assert pending[..|pending|] == pending && pending[|pending|..] == ""; }
  }

  /** Twenty-six characters and the end, as they go over the wire. */
  lemma AlphabetOnTheWire(letters: string)
    requires |letters| == 26
    ensures OneChunk(letters) + TERMINATOR == "1a\r\n" + letters + "\r\n0\r\n\r\n"
  {
    assert ToHex(26) == "1a" by { assert ToHex(26 / 16) == ['1']; }
  }

  /** What the sink will have been given once everything pending and to come is written. */
  function Eventually(sink: string, pending: string, k: nat): string
    requires k > 0
  {
    sink + WireAll(Frames(pending, k))
  }

  lemma ChunkOut(sink: string, pending: string, rest: string, k: nat)
    requires k > 0 && |pending| == k
    ensures Eventually(sink + OneChunk(pending), rest, k) == Eventually(sink, pending + rest, k)
  {
    FullChunkFirst(pending, rest, k);
    Assoc(sink, OneChunk(pending), WireAll(Frames(rest, k)));
  }

  // ----- the stream buffer

  lemma TakeOne(b: string, i: nat, j: nat, rest: string)
    requires i < j <= |b|
    ensures b[i..j] + rest == [b[i]] + (b[i + 1..j] + rest)
  {}

  lemma ThreeWrites(sink: string, hex: string, data: string)
    ensures sink + (hex + "\r\n") + data + "\r\n" == sink + Wire(Frame(hex, data))
  {
    var first := hex + "\r\n";
    Assoc(sink, first, data);
    Assoc(sink, first + data, "\r\n");
  }

  class Chunkstreambuf {
    const chunksize: nat
    const buf: array<char>
    const source: Source
    var sink: string                // all the inner stream was given
    var gptr: nat
    var egptr: nat
    var ready: bool                 // the put area was set up
    var pptr: nat

    ghost predicate Valid()
      reads this
    {
      && chunksize > 0 && buf.Length == 2 * chunksize
      && gptr <= egptr <= chunksize
      && (ready ==> chunksize <= pptr <= 2 * chunksize)
    }

    ghost function Pending(): (r: string)
      requires Valid()
      reads this, buf
      ensures |r| <= chunksize
    {
      if ready then buf[..][chunksize..pptr] else ""
    }

    ghost function Available(): string
      reads this, buf
      requires Valid()
    {
      buf[..][gptr..egptr]
    }

    /** What a reader has still to get. */
    ghost function Unread(): string
      reads this, buf, source
      requires Valid()
    {
      Available() + Decoded(source.left, chunksize)
    }

    constructor (source: Source, chunksize: nat)
      requires chunksize > 0
      ensures Valid() && fresh(buf) && this.source == source && this.chunksize == chunksize
      ensures sink == "" && Pending() == "" && Available() == ""
    {
      this.source, this.chunksize, sink := source, chunksize, "";
      buf := new char[2 * chunksize](_ => '\0');
      gptr, egptr, ready, pptr := 0, 0, false, 0;
    }

    /** What is pending goes out as one chunk. */
    method Flush()
      requires Valid() && ready
      modifies this
      ensures Valid() && ready && pptr == chunksize && Available() == old(Available())
      ensures sink == old(sink) + OneChunk(old(Pending()))
    {
      hide ToHex, Wire;
      var pending := pptr - chunksize;
      if pending > 0 {
        ThreeWrites(sink, ToHex(pending), Pending());
        sink := sink + (ToHex(pending) + "\r\n");
        sink := sink + buf[..][chunksize..pptr];
        sink := sink + "\r\n";
        pptr := chunksize;
      }
    }

    method Overflow(c: Option<char>)
      requires Valid()
      modifies this, buf
      ensures Valid() && Available() == old(Available())
      ensures c.None? ==> Pending() == "" && sink == old(sink) + OneChunk(old(Pending())) + TERMINATOR
      ensures c.Some? && |old(Pending())| < chunksize ==> sink == old(sink) && Pending() == old(Pending()) + [c.value]
      ensures c.Some? && |old(Pending())| == chunksize ==>
        sink == old(sink) + OneChunk(old(Pending())) && Pending() == [c.value]
    {
      hide OneChunk;
      if !ready { ready, pptr := true, chunksize; }
      if pptr == 2 * chunksize || c.None? {
        Flush();
        if c.None? {
          sink := sink + TERMINATOR;
          return;
        }
      }
      buf[pptr] := c.value;
      pptr := pptr + 1;
      assert buf[..][chunksize..pptr] == buf[..][chunksize..pptr - 1] + [c.value];
    }

    /** sputc: into the put area while there is room. */
    method Sputc(c: char)
      requires Valid()
      modifies this, buf
      ensures Valid() && Available() == old(Available())
      ensures |old(Pending())| < chunksize ==> sink == old(sink) && Pending() == old(Pending()) + [c]
      ensures |old(Pending())| == chunksize ==>
        sink == old(sink) + OneChunk(old(Pending())) && Pending() == [c]
    {
      if ready && pptr < 2 * chunksize {
        buf[pptr] := c;
        pptr := pptr + 1;
        assert buf[..][chunksize..pptr] == buf[..][chunksize..pptr - 1] + [c];
      } else {
        Overflow(Some(c));
      }
    }

    /** Characters reach the sink in full chunks; the rest of them is pending. */
    method Write(data: string)
      requires Valid()
      modifies this, buf
      ensures Valid() && Available() == old(Available())
      ensures Eventually(sink, Pending(), chunksize) == Eventually(old(sink), old(Pending()) + data, chunksize)
    {
      hide Eventually, OneChunk, Pending, Available;
      var i := 0;
      assert data[0..] == data;
      while i < |data|
        invariant 0 <= i <= |data| && Valid()
        invariant Available() == old(Available())
        invariant Eventually(sink, Pending() + data[i..], chunksize)
                  == Eventually(old(sink), old(Pending()) + data, chunksize)
      {
        ghost var sinkBefore, pending := sink, Pending();
        Sputc(data[i]);
        Assoc(pending, [data[i]], data[i + 1..]);
        assert data[i..] == [data[i]] + data[i + 1..];
        if |pending| == chunksize { ChunkOut(sinkBefore, pending, data[i..], chunksize); }
        i := i + 1;
      }
      assert Pending() + data[i..] == Pending();
    }

    /** sync: the pending characters as a chunk, and the last chunk. */
    method Sync()
      requires Valid()
      modifies this, buf
      ensures Valid() && Pending() == ""
      ensures sink == Eventually(old(sink), old(Pending()), chunksize) + TERMINATOR
    {
      AtMostOneChunk(Pending(), chunksize);
      Overflow(None);
    }

    /** Fill the empty get area with the next chunk; false at the end, and when the stream is not chunks. */
    method Refill() returns (ok: bool)
      requires Valid() && gptr == egptr
      modifies this, buf, source
      ensures Valid() && sink == old(sink) && Pending() == old(Pending())
      ensures ok == NextChunk(old(source.left), chunksize).Chunk?
      ensures Available() == Area(NextChunk(old(source.left), chunksize))
      ensures source.left == NextChunk(old(source.left), chunksize).rest
    {
      hide SizeOf, ReadLine;
      ok := false;
      var read, line := source.Getline(MAX_LINE);
      if !read { return; }
      var size := SizeOf(line);
      if size.None? || size.value > chunksize || size.value < 0 { return; }
      ghost var afterLine := source.left;
      var data := source.Take(size.value);
      if |data| != size.value {
        assert data == afterLine && source.left == "";
        return;
      }
      assert data == afterLine[..size.value] && source.left == afterLine[size.value..];
      Store(data);
      gptr, egptr := 0, size.value;
      read, line := source.Getline(MAX_LINE);
      ok := read && line == "" && size.value != 0;
    }

    method Store(data: string)
      requires Valid() && |data| <= chunksize
      modifies buf
      ensures buf[..][..|data|] == data && Pending() == old(Pending())
    {
      var i := 0;
      while i < |data|
        invariant 0 <= i <= |data| && buf[..][..i] == data[..i]
        invariant forall j :: chunksize <= j < buf.Length ==> buf[j] == old(buf[j])
      {
        buf[i] := data[i];
        i := i + 1;
      }
    }

    /** The next character.  Once there is none, the get area holds what the failed refill left. */
    method Underflow() returns (c: Option<char>)
      requires Valid()
      modifies this, buf, source
      ensures Valid() && sink == old(sink) && Pending() == old(Pending())
      ensures c.None? <==> old(Available()) == "" && !NextChunk(old(source.left), chunksize).Chunk?
      ensures c.None? ==> old(Unread()) == ""
      ensures c.Some? ==> gptr < egptr && c.value == buf[gptr] && Unread() == old(Unread())
      ensures if old(Available()) != "" then Available() == old(Available()) && source.left == old(source.left)
              else Available() == Area(NextChunk(old(source.left), chunksize))
                   && source.left == NextChunk(old(source.left), chunksize).rest
    {
      hide Decoded, NextChunk;
      assert gptr == egptr <==> Available() == "";
      if gptr == egptr {
        DecodedStep(source.left, chunksize);
        var ok := Refill();
        if !ok { return None; }
      }
      return Some(buf[gptr]);
    }

    /** sbumpc: one character, if there is one. */
    method Sbumpc() returns (c: Option<char>)
      requires Valid()
      modifies this, buf, source
      ensures Valid() && sink == old(sink) && Pending() == old(Pending())
      ensures c.None? ==> old(Unread()) == ""
      ensures c.Some? ==> old(Unread()) == [c.value] + Unread()
    {
      hide Decoded, NextChunk, Area;
      c := Underflow();
      if c.Some? {
        TakeOne(buf[..], gptr, egptr, Decoded(source.left, chunksize));
        gptr := gptr + 1;
      }
    }

    /** Reading to the end. */
    method Drain() returns (out: string)
      requires Valid()
      modifies this, buf, source
      ensures Valid() && out == old(Unread())
    {
      hide Decoded, Unread;
      out := "";
      var more := true;
      while more
        invariant Valid()
        invariant if more then out + Unread() == old(Unread()) else out == old(Unread())
        decreases more, |Unread()|
      {
        var c := Sbumpc();
        if c.None? {
          more := false;
        } else {
          Assoc(out, [c.value], Unread());
          out := out + [c.value];
        }
      }
    }
  }

  /** A whole run: write, sync, and read back through a second buffer. */
  method RoundTrip(data: string, rest: string, k: nat, limit: nat) returns (out: string)
    requires 0 < k <= limit && k < STREAMSIZE_LIMIT
    ensures out == data
  {
    var nothing := new Source("");
    var encoder := new Chunkstreambuf(nothing, k);
    encoder.Write(data);
    encoder.Sync();
    assert "" + data == data;
    assert encoder.sink == WireAll(Frames(data, k)) + TERMINATOR;
    var source := new Source(encoder.sink + rest);
    var decoder := new Chunkstreambuf(source, limit);
    EncodedDecodes(data, rest, k, limit);
    out := decoder.Drain();
  }
}
