/**
 The head of an HTTP request, written and read (services/src/http_message.cpp): the request line
 with its path and query, and the header lines.

 `std::map` iterates over every key once, in some order; a writer below takes that order.
 Header names are compared without regard to case, up to a NUL.
 */
module HttpRequestHead {
  import opened LineReader
  import PathNormalization
  import opened Wrappers

  const MAX_HEADER_LEN: nat := 2048

  datatype Verb = Head | Get | Put | Post | Delete

  datatype Field = Field(name: string, value: string)

  datatype Request = Request(
    verb: Verb, path: string, version: string, parameters: map<string, string>, headers: map<string, Field>)

  datatype Error = BadRequest | Unsupported | Unreadable
  datatype Result<T> = Ok(value: T) | Err(error: Error)

  // ----- header names

  function Lower(c: char): char {
    if 'A' <= c <= 'Z' then c - 'A' + 'a' else c
  }

  /** What `strcasecmp` sees of a name. */
  function Key(name: string): string {
    if name == "" || name[0] == '\0' then "" else [Lower(name[0])] + Key(name[1..])
  }

  /** `_headers[name] = value`: a name that is there keeps its spelling. */
  function SetHeader(headers: map<string, Field>, name: string, value: string): map<string, Field> {
    var k := Key(name);
    headers[k := Field(if k in headers then headers[k].name else name, value)]
  }

  // ----- writing

  function VerbText(v: Verb): string {
    match v
    case Head => "HEAD"
    case Get => "GET"
    case Put => "PUT"
    case Post => "POST"
    case Delete => "DELETE"
  }

  /** An order in which a map is walked: every key, once. */
  ghost predicate Walks<T>(order: seq<string>, m: map<string, T>) {
    && (forall i, j | 0 <= i < j < |order| :: order[i] != order[j])
    && (forall k :: k in m <==> k in order)
  }

  /** The parameters as "name=value", with "&" between them. */
  function Dump(order: seq<string>, m: map<string, string>): string
    requires forall k | k in order :: k in m
  {
    if order == [] then ""
    else
      var one := order[0] + "=" + m[order[0]];
      if |order| == 1 then one else one + "&" + Dump(order[1..], m)
  }

  function Query(order: seq<string>, m: map<string, string>): string
    requires forall k | k in order :: k in m
  {
    if order == [] then "" else "?" + Dump(order, m)
  }

  function FieldLine(f: Field): string { f.name + ": " + f.value }

  function Lines(order: seq<string>, m: map<string, Field>): string
    requires forall k | k in order :: k in m
  {
    if order == [] then "" else FieldLine(m[order[0]]) + "\r\n" + Lines(order[1..], m)
  }

  function RequestLine(r: Request, parameterOrder: seq<string>): string
    requires forall k | k in parameterOrder :: k in r.parameters
  {
    VerbText(r.verb) + " " + (r.path + Query(parameterOrder, r.parameters)) + " " + r.version
  }

  function Text(r: Request, parameterOrder: seq<string>, headerOrder: seq<string>): string
    requires forall k | k in parameterOrder :: k in r.parameters
    requires forall k | k in headerOrder :: k in r.headers
  {
    RequestLine(r, parameterOrder) + "\r\n" + (Lines(headerOrder, r.headers) + "\r\n")
  }

  // ----- reading

  function IndexOf(s: string, c: char, from: nat): (r: nat)
    requires from <= |s|
    ensures from <= r <= |s| && c !in s[from..r] && (r < |s| ==> s[r] == c)
  {
    PathNormalization.IndexOf(s, c, from)
  }

  /** The first ": ", or the length of the line. */
  function Separator(s: string): (r: nat)
    ensures r <= |s| && (r < |s| ==> r + 2 <= |s| && s[r] == ':' && s[r + 1] == ' ')
  {
    if s == "" || (|s| >= 2 && s[0] == ':' && s[1] == ' ') then 0 else 1 + Separator(s[1..])
  }

  predicate IsSpace(c: char) { c == ' ' || '\t' <= c <= '\r' }

  /** What a character extracted in hexadecimal gives: 0 if it is no digit, but a blank is skipped and
      leaves the variable as it was, whatever that is. */
  function HexDigit(c: char, unset: nat): (r: nat)
    ensures !IsSpace(c) ==> r < 16
  {
    if IsSpace(c) then unset
    else if '0' <= c <= '9' then (c - '0') as nat
    else if 'a' <= c <= 'f' then (c - 'a') as nat + 10
    else if 'A' <= c <= 'F' then (c - 'A') as nat + 10
    else 0
  }

  /** What a string holds at `i`; past its end, NUL. */
  function At(s: string, i: nat): char {
    if i < |s| then s[i] else '\0'
  }

  /** What an escape's variable for the character at each place of the request line holds before
      anything is read into it. */
  type Garbage = nat -> nat

  /** The character an escape at `pos` stands for, in a string that begins at `base` of its line. */
  function Escaped(s: string, pos: nat, base: nat, unset: Garbage): char {
    var hi := HexDigit(At(s, pos + 1), unset(base + pos + 1));
    var lo := HexDigit(At(s, pos + 2), unset(base + pos + 2));
    ((16 * hi + lo) % 0x100) as char
  }

  function DecodeFrom(s: string, pos: nat, base: nat, unset: Garbage): string
    decreases |s| - pos
  {
    if pos >= |s| then ""
    else if s[pos] == '%' then
      [Escaped(s, pos, base, unset)] + DecodeFrom(s, pos + 3, base, unset)
    else [s[pos]] + DecodeFrom(s, pos + 1, base, unset)
  }

  function DecodeUrl(s: string, base: nat, unset: Garbage): string { DecodeFrom(s, 0, base, unset) }

  /** The "name=value" pairs from `pos` on, each into the map. */
  function Store(query: string, pos: nat, m: map<string, string>, base: nat, unset: Garbage): map<string, string>
    requires pos <= |query|
    decreases |query| - pos
  {
    var eq := IndexOf(query, '=', pos);
    if eq == |query| then m
    else
      var sep := IndexOf(query, '&', eq + 1);
      var stored := m[DecodeUrl(query[pos..eq], base + pos, unset) := DecodeUrl(query[eq + 1..sep], base + eq + 1, unset)];
      if sep == |query| then stored else Store(query, sep + 1, stored, base, unset)
  }

  function ParseVerb(s: string): Option<Verb> {
    if s == "HEAD" then Some(Head)
    else if s == "GET" then Some(Get)
    else if s == "PUT" then Some(Put)
    else if s == "POST" then Some(Post)
    else if s == "DELETE" then Some(Delete)
    else None
  }

  function ParseFirstLine(line: string, r: Request, unset: Garbage): Result<Request> {
    var pos1 := IndexOf(line, ' ', 0);
    if pos1 == |line| then Err(BadRequest)
    else
      var pos2 := IndexOf(line, ' ', pos1 + 1);
      if pos2 == |line| then Err(BadRequest)
      else
        var verb := ParseVerb(line[..pos1]);
        if verb.None? then Err(Unsupported)
        else
          var urn := line[pos1 + 1..pos2];
          var mark := IndexOf(urn, '?', 0);
          var parameters :=
            if mark == |urn| then r.parameters else Store(urn[mark + 1..], 0, r.parameters, pos1 + 1 + mark + 1, unset);
          var path := PathNormalization.Normalized(DecodeUrl(urn[..mark], pos1 + 1, unset));
          Ok(Request(verb.value, path, line[pos2 + 1..], parameters, r.headers))
  }

  function ParseHeader(line: string, r: Request): Result<Request> {
    var pos := Separator(line);
    if pos == |line| then Err(BadRequest)
    else Ok(r.(headers := SetHeader(r.headers, line[..pos], line[pos + 2..])))
  }

  /** A failed reading leaves what was read until then in the request. */
  datatype Reading = Read(request: Request, rest: string) | Failed(error: Error, request: Request, rest: string)

  function ReadFields(s: string, r: Request): Reading
    decreases |s|
  {
    var l := ReadLine(s, MAX_HEADER_LEN);
    if !l.ok then Failed(Unreadable, r, l.rest)
    else if l.text == "" then Read(r, l.rest)
    else
      match ParseHeader(l.text, r)
      case Ok(next) => ReadFields(l.rest, next)
      case Err(error) => Failed(error, r, l.rest)
  }

  function ReadHead(s: string, r: Request, unset: Garbage): Reading {
    var l := ReadLine(s, MAX_HEADER_LEN);
    if !l.ok then Failed(Unreadable, r, l.rest)
    else
      match ParseFirstLine(l.text, r, unset)
      case Ok(next) => ReadFields(l.rest, next)
      case Err(error) => Failed(error, r, l.rest)
  }

  // ----- escapes

  const LOWER: string := "0123456789abcdef"
  const UPPER: string := "0123456789ABCDEF"

  predicate IsDigit(c: char, d: nat) { d < 16 && (c == LOWER[d] || c == UPPER[d]) }

  predicate Byte(c: char, hi: char, lo: char) {
    exists h, l :: 0 <= h < 16 && 0 <= l < 16 && IsDigit(hi, h) && IsDigit(lo, l) && c as int == 16 * h + l
  }

  /** `url` is `text` with any of its characters, and every "%", escaped by two digits of either case. */
  predicate Spells(url: string, text: string) {
    if text == "" then url == ""
    else if url != "" && url[0] == '%' then |url| >= 3 && Byte(text[0], url[1], url[2]) && Spells(url[3..], text[1..])
    else url != "" && url[0] == text[0] && Spells(url[1..], text[1..])
  }

  lemma DigitIs(c: char, d: nat, unset: nat)
    requires IsDigit(c, d)
    ensures HexDigit(c, unset) == d
  {}

  lemma ByteIs(s: string, pos: nat, base: nat, unset: Garbage, c: char)
    requires pos + 2 < |s| && Byte(c, s[pos + 1], s[pos + 2])
    ensures Escaped(s, pos, base, unset) == c
  {
    hide IsDigit, HexDigit;
    var h, l :| 0 <= h < 16 && 0 <= l < 16 && IsDigit(s[pos + 1], h) && IsDigit(s[pos + 2], l) && c as int == 16 * h + l;
    DigitIs(s[pos + 1], h, unset(base + pos + 1));
    DigitIs(s[pos + 2], l, unset(base + pos + 2));
  }

  lemma {:induction false} SpelledFrom(s: string, pos: nat, text: string, base: nat, unset: Garbage)
    requires pos <= |s| && Spells(s[pos..], text)
    ensures DecodeFrom(s, pos, base, unset) == text
    decreases |text|
  {
    hide Byte, Escaped;
    if text != "" {
      var url := s[pos..];
      if url[0] == '%' {
        ByteIs(s, pos, base, unset, text[0]);
        assert url[3..] == s[pos + 3..];
        SpelledFrom(s, pos + 3, text[1..], base, unset);
      } else {
        assert url[1..] == s[pos + 1..];
        SpelledFrom(s, pos + 1, text[1..], base, unset);
      }
      assert text == [text[0]] + text[1..];
    }
  }

  /** Percent-encoding, whichever characters it escapes, is undone. */
  lemma EscapesAreUndone(url: string, text: string, base: nat, unset: Garbage)
    requires Spells(url, text)
    ensures DecodeUrl(url, base, unset) == text
  {
    assert url[0..] == url;
    SpelledFrom(url, 0, text, base, unset);
  }

  /** Every character of a byte can be escaped, so every text of bytes has a spelling without a
      separator, a blank or a line break. */
  function Escape(text: string): string
    requires forall i :: 0 <= i < |text| ==> text[i] as int < 0x100
  {
    if text == "" then "" else ['%', UPPER[text[0] as int / 16], UPPER[text[0] as int % 16]] + Escape(text[1..])
  }

  lemma {:induction false} EscapeSpells(text: string)
    requires forall i :: 0 <= i < |text| ==> text[i] as int < 0x100
    ensures Spells(Escape(text), text)
  {
    if text != "" {
      var n := text[0] as int;
      EscapeSpells(text[1..]);
      assert IsDigit(UPPER[n / 16], n / 16) && IsDigit(UPPER[n % 16], n % 16);
      assert Escape(text)[3..] == Escape(text[1..]);
    }
  }

  // ----- header names

  /** ASCII letters that differ in case only. */
  predicate SameLetter(c: char, d: char) {
    || c == d
    || ('A' <= c <= 'Z' && d as int - c as int == 32)
    || ('A' <= d <= 'Z' && c as int - d as int == 32)
  }

  lemma LowerIs(c: char, d: char)
    ensures Lower(c) == Lower(d) <==> SameLetter(c, d)
  {}

  /** Two names are one header exactly when they differ in the case of letters only. */
  lemma {:induction false} NamesAgreeExactly(a: string, b: string)
    requires '\0' !in a && '\0' !in b
    ensures Key(a) == Key(b) <==> |a| == |b| && forall i :: 0 <= i < |a| ==> SameLetter(a[i], b[i])
  {
    hide SameLetter, Lower;
    if a != "" { assert a[0] in a && Key(a)[1..] == Key(a[1..]); }
    if b != "" { assert b[0] in b && Key(b)[1..] == Key(b[1..]); }
    if a != "" && b != "" {
      LowerIs(a[0], b[0]);
      NamesAgreeExactly(a[1..], b[1..]);
      assert Key(a) == [Lower(a[0])] + Key(a[1..]) && Key(b) == [Lower(b[0])] + Key(b[1..]);
      assert forall i :: 0 < i < |a| ==> a[i] == a[1..][i - 1];
      assert forall i :: 0 < i < |b| ==> b[i] == b[1..][i - 1];
    }
  }

  /** A header given again keeps the spelling it had and takes the new value; no other one changes. */
  lemma HeaderGivenAgain(headers: map<string, Field>, first: string, v: string, again: string, w: string)
    requires Key(first) == Key(again)
    ensures
      var once := SetHeader(headers, first, v);
      var twice := SetHeader(once, again, w);
      && Key(again) in once && once[Key(again)].value == v
      && Key(again) in twice && twice[Key(again)] == Field(once[Key(again)].name, w)
      && (Key(first) !in headers ==> once[Key(again)].name == first)
      && forall k :: k != Key(again) ==> (k in twice <==> k in headers) && (k in headers ==> twice[k] == headers[k])
  {}

  // ----- what is refused

  predicate TwoBlanks(line: string, i: nat, j: nat) { i < j < |line| && line[i] == ' ' && line[j] == ' ' }

  /** A request line is refused exactly when it has fewer than two blanks, or else its first word is no
      method. */
  lemma FirstLineRefusedExactly(line: string, r: Request, unset: Garbage)
    ensures ParseFirstLine(line, r, unset) == Err(BadRequest) <==> forall i, j :: !TwoBlanks(line, i, j)
    ensures ParseFirstLine(line, r, unset) == Err(Unsupported) <==>
              exists i: nat, j: nat :: TwoBlanks(line, i, j) && ' ' !in line[..i] && line[..i] !in {"HEAD", "GET", "PUT", "POST", "DELETE"}
    ensures ParseFirstLine(line, r, unset) != Err(Unreadable)
  {
    hide DecodeUrl, Store, PathNormalization.Normalized, PathNormalization.IndexOf;
    var pos1 := IndexOf(line, ' ', 0);
    NoneBetween(line, ' ', 0, pos1);
    assert line[0..pos1] == line[..pos1];
    if pos1 < |line| {
      var pos2 := IndexOf(line, ' ', pos1 + 1);
      NoneBetween(line, ' ', pos1 + 1, pos2);
      if pos2 < |line| { assert TwoBlanks(line, pos1, pos2); }
      forall i: nat | i <= |line| && ' ' !in line[..i] ensures i <= pos1 {
        assert line[0..i] == line[..i];
        NoneBetween(line, ' ', 0, i);
      }
    }
  }

  lemma NoneBetween(s: string, c: char, from: nat, r: nat)
    requires from <= r <= |s| && c !in s[from..r]
    ensures forall k :: from <= k < r ==> s[k] != c
  {
    assert forall k :: from <= k < r ==> s[k] == s[from..r][k - from];
  }

  lemma {:induction false} SeparatorExactly(s: string)
    ensures Separator(s) < |s| <==> exists k :: 0 <= k < |s| - 1 && s[k] == ':' && s[k + 1] == ' '
    ensures forall k :: 0 <= k < Separator(s) && k < |s| - 1 ==> !(s[k] == ':' && s[k + 1] == ' ')
  {
    if s != "" && !(|s| >= 2 && s[0] == ':' && s[1] == ' ') {
      SeparatorExactly(s[1..]);
      assert forall k :: 0 < k < |s| ==> s[k] == s[1..][k - 1];
      if k :| 0 <= k < |s[1..]| - 1 && s[1..][k] == ':' && s[1..][k + 1] == ' ' { assert s[k + 1] == ':' && s[k + 2] == ' '; }
    }
  }

  /** A header line is refused exactly when it has no colon followed by a blank; else the first one
      parts the name from the value. */
  lemma HeaderRefusedExactly(line: string, r: Request)
    ensures ParseHeader(line, r).Err? <==> forall k :: 0 <= k < |line| - 1 ==> !(line[k] == ':' && line[k + 1] == ' ')
  {
    SeparatorExactly(line);
  }

  // ----- the request object

  lemma Assoc(a: string, b: string, c: string)
    ensures a + b + c == a + (b + c)
  {}

  method DecodeUrlLoop(url: string, base: nat, unset: Garbage) returns (out: string)
    ensures out == DecodeUrl(url, base, unset)
  {
    hide Escaped;
    out := "";
    var pos := 0;
    while pos < |url|
      invariant DecodeUrl(url, base, unset) == out + DecodeFrom(url, pos, base, unset)
      decreases |url| - pos
    {
      if url[pos] == '%' {
        Assoc(out, [Escaped(url, pos, base, unset)], DecodeFrom(url, pos + 3, base, unset));
        out := out + [Escaped(url, pos, base, unset)];
        pos := pos + 3;
      } else {
        Assoc(out, [url[pos]], DecodeFrom(url, pos + 1, base, unset));
        out := out + [url[pos]];
        pos := pos + 1;
      }
    }
  }

  lemma StoreEnd(query: string, pos: nat, m: map<string, string>, base: nat, unset: Garbage)
    requires pos <= |query| && IndexOf(query, '=', pos) == |query|
    ensures Store(query, pos, m, base, unset) == m
  {}

  lemma StoreStep(query: string, pos: nat, m: map<string, string>, base: nat, unset: Garbage, eq: nat, sep: nat)
    requires pos <= |query| && eq == IndexOf(query, '=', pos) < |query| && sep == IndexOf(query, '&', eq + 1)
    ensures Store(query, pos, m, base, unset)
            == var stored := m[DecodeUrl(query[pos..eq], base + pos, unset) := DecodeUrl(query[eq + 1..sep], base + eq + 1, unset)];
               if sep == |query| then stored else Store(query, sep + 1, stored, base, unset)
  {}

  class HttpRequest {
    var verb: Verb
    var path: string
    var version: string
    var parameters: map<string, string>
    var headers: map<string, Field>

    ghost function Contents(): Request
      reads this
    {
      Request(verb, path, version, parameters, headers)
    }

    constructor (verb: Verb)
      ensures Contents() == Request(verb, "/", "HTTP/1.1", map[], map[])
    {
      this.verb, path, version, parameters, headers := verb, "/", "HTTP/1.1", map[], map[];
    }

    method Clear()
      modifies this
      ensures Contents() == Request(Get, "/", "HTTP/1.1", map[], map[])
    {
      verb, path, version, parameters, headers := Get, "/", "HTTP/1.1", map[], map[];
    }

    method DumpParameters(order: seq<string>) returns (out: string)
      requires forall k | k in order :: k in parameters
      ensures out == Dump(order, parameters)
    {
      out := "";
      var i := 0;
      while i < |order|
        invariant 0 <= i <= |order|
        invariant out == Terminated(order[..i], parameters)
      {
        out := out + order[i] + "=" + parameters[order[i]] + "&";
        assert order[..i + 1][..i] == order[..i];
        i := i + 1;
      }
      assert order[..i] == order;
      TerminatedIsDump(order, parameters);
      if |out| > 0 { out := out[..|out| - 1]; }
    }

    method DumpHeaders(order: seq<string>) returns (out: string)
      requires forall k | k in order :: k in headers
      ensures out == Lines(order, headers) + "\r\n"
    {
      out := "";
      var i := 0;
      while i < |order|
        invariant 0 <= i <= |order|
        invariant out + Lines(order[i..], headers) == Lines(order, headers)
      {
        LinesStep(out, order[i..], headers);
        out := out + (headers[order[i]].name + ": " + headers[order[i]].value + "\r\n");
        i := i + 1;
      }
      out := out + "\r\n";
    }

    method WriteHeaders(parameterOrder: seq<string>, headerOrder: seq<string>) returns (out: string)
      requires forall k | k in parameterOrder :: k in parameters
      requires forall k | k in headerOrder :: k in headers
      ensures out == Text(Contents(), parameterOrder, headerOrder)
    {
      var query := DumpParameters(parameterOrder);
      if query != "" { query := "?" + query; }
      out := VerbText(verb) + " " + (path + query) + " " + version + "\r\n";
      var fields := DumpHeaders(headerOrder);
      out := out + fields;
    }

    method StoreLoop(query: string, base: nat, unset: Garbage)
      modifies this
      ensures Contents() == old(Contents()).(parameters := Store(query, 0, old(parameters), base, unset))
    {
      hide DecodeUrl, Store, PathNormalization.IndexOf;
      var pos := 0;
      while true
        invariant pos <= |query|
        invariant Contents() == old(Contents()).(parameters := parameters)
        invariant Store(query, pos, parameters, base, unset) == Store(query, 0, old(parameters), base, unset)
        decreases |query| - pos
      {
        var equalPos := IndexOf(query, '=', pos);
        if equalPos == |query| {
          StoreEnd(query, pos, parameters, base, unset);
          break;
        }
        var sepPos := IndexOf(query, '&', equalPos + 1);
        StoreStep(query, pos, parameters, base, unset, equalPos, sepPos);
        var name := DecodeUrlLoop(query[pos..equalPos], base + pos, unset);
        var value := DecodeUrlLoop(query[equalPos + 1..sepPos], base + equalPos + 1, unset);
        parameters := parameters[name := value];
        if sepPos == |query| { break; }
        pos := sepPos + 1;
      }
    }

    method ParseFirst(line: string, unset: Garbage) returns (error: Option<Error>)
      modifies this
      ensures match ParseFirstLine(line, old(Contents()), unset)
        case Ok(next) => error == None && Contents() == next
        case Err(e) => error == Some(e) && Contents() == old(Contents())
    {
      hide DecodeUrl, Store, ParseVerb, PathNormalization.Normalized, PathNormalization.IndexOf;
      var pos1 := IndexOf(line, ' ', 0);
      if pos1 == |line| { return Some(BadRequest); }
      var pos2 := IndexOf(line, ' ', pos1 + 1);
      if pos2 == |line| { return Some(BadRequest); }
      var parsed := ParseVerb(line[..pos1]);
      if parsed.None? { return Some(Unsupported); }
      verb := parsed.value;
      path := line[pos1 + 1..pos2];
      var mark := IndexOf(path, '?', 0);
      if mark != |path| {
        StoreLoop(path[mark + 1..], pos1 + 1 + mark + 1, unset);
      }
      path := path[..mark];
      path := DecodeUrlLoop(path, pos1 + 1, unset);
      path := PathNormalization.Normalize(path);
      version := line[pos2 + 1..];
      error := None;
    }

    method ReadHeaders(source: Source, unset: Garbage) returns (error: Option<Error>)
      modifies this, source
      ensures match ReadHead(old(source.left), old(Contents()), unset)
        case Read(request, rest) => error == None && Contents() == request && source.left == rest
        case Failed(e, request, rest) => error == Some(e) && Contents() == request && source.left == rest
    {
      var ok, line := source.Getline(MAX_HEADER_LEN);
      if !ok { return Some(Unreadable); }
      error := ParseFirst(line, unset);
      if error.Some? { return; }
      ghost var s, first := source.left, Contents();
      while true
        invariant ReadFields(source.left, Contents()) == ReadFields(s, first)
        decreases |source.left|
      {
        ok, line := source.Getline(MAX_HEADER_LEN);
        if !ok { return Some(Unreadable); }
        if line == "" { return None; }
        var pos := Separator(line);
        if pos == |line| { return Some(BadRequest); }
        headers := SetHeader(headers, line[..pos], line[pos + 2..]);
      }
    }
  }

  /** The parameters with a "&" after each. */
  function Terminated(order: seq<string>, m: map<string, string>): string
    requires forall k | k in order :: k in m
  {
    if order == [] then ""
    else
      var k := order[|order| - 1];
      Terminated(order[..|order| - 1], m) + k + "=" + m[k] + "&"
  }

  lemma {:induction false} TerminatedIsDump(order: seq<string>, m: map<string, string>)
    requires forall k | k in order :: k in m
    ensures order != [] ==> Terminated(order, m) == Dump(order, m) + "&"
    ensures order != [] ==> Dump(order, m) != ""
  {
    if |order| > 1 {
      var front, last := order[..|order| - 1], order[|order| - 1];
      TerminatedIsDump(front, m);
      DumpSnoc(order, m);
    }
  }

  lemma {:induction false} DumpSnoc(order: seq<string>, m: map<string, string>)
    requires |order| > 1 && forall k | k in order :: k in m
    ensures Dump(order, m)
            == Dump(order[..|order| - 1], m) + "&" + order[|order| - 1] + "=" + m[order[|order| - 1]]
  {
    if |order| > 2 {
      DumpSnoc(order[1..], m);
      assert order[1..][..|order| - 2] == order[..|order| - 1][1..];
    } else {
      assert order[..1][0] == order[0] && order[1..][0] == order[1];
    }
  }

  lemma LinesStep(out: string, order: seq<string>, m: map<string, Field>)
    requires order != [] && forall k | k in order :: k in m
    ensures out + Lines(order, m) == out + (FieldLine(m[order[0]]) + "\r\n") + Lines(order[1..], m)
  {}

  lemma VerbsOnTheWire()
    ensures VerbText(Head) == "HEAD" && VerbText(Get) == "GET" && VerbText(Put) == "PUT"
    ensures VerbText(Post) == "POST" && VerbText(Delete) == "DELETE"
  {}

  /** A request as it goes over the wire. */
  lemma RequestOnTheWire(r: Request)
    requires r.verb == Post && r.path == "/a" && r.version == "HTTP/1.1"
    requires r.parameters == map["b" := "c", "d" := "e"] && r.headers == map["host" := Field("Host", "x")]
    ensures RequestLine(r, ["b", "d"]) == "POST /a?b=c&d=e HTTP/1.1"
    ensures Lines(["host"], r.headers) == "Host: x\r\n"
    ensures Text(r, ["b", "d"], ["host"]) == RequestLine(r, ["b", "d"]) + "\r\n" + (Lines(["host"], r.headers) + "\r\n")
  {
    QueryOnTheWire(r.parameters);
    hide Query;
    assert ["host"][1..] == [] && Lines([], r.headers) == "";
  }

  lemma QueryOnTheWire(parameters: map<string, string>)
    requires parameters == map["b" := "c", "d" := "e"]
    ensures Query(["b", "d"], parameters) == "?b=c&d=e"
  {
    assert ["b", "d"][1..] == ["d"];
    assert Dump(["d"], parameters) == "d=e";
  }

  // ----- the round trip

  predicate Free(s: string, c: char) { c !in s }

  /** What the writer relies on: nothing it writes unescaped is a separator or a line break. */
  ghost predicate PathFits(path: string) {
    Free(path, ' ') && Free(path, '?') && Free(path, '%') && NoBreaks(path)
  }

  ghost predicate ParameterFits(name: string, value: string) {
    && Free(name, ' ') && Free(name, '%') && Free(name, '=') && NoBreaks(name)
    && Free(value, ' ') && Free(value, '%') && Free(value, '&') && NoBreaks(value)
  }

  ghost predicate FieldFits(f: Field) {
    Separator(f.name) == |f.name| && NoBreaks(f.name) && NoBreaks(f.value)
    && |FieldLine(f)| + 2 <= MAX_HEADER_LEN
  }

  ghost predicate Fits(r: Request) {
    && PathFits(r.path) && NoBreaks(r.version)
    && (forall n | n in r.parameters :: ParameterFits(n, r.parameters[n]))
    && (forall k | k in r.headers :: Key(r.headers[k].name) == k && FieldFits(r.headers[k]))
  }

  lemma IndexIs(s: string, c: char, from: nat, i: nat)
    requires from <= i <= |s| && c !in s[from..i] && (i < |s| ==> s[i] == c)
    ensures IndexOf(s, c, from) == i
  {
    var r := IndexOf(s, c, from);
    assert forall k | from <= k < i :: s[k] == s[from..i][k - from];
    assert forall k | from <= k < r :: s[k] == s[from..r][k - from];
  }

  lemma {:induction false} DecodesToItself(s: string, pos: nat, base: nat, unset: Garbage)
    requires Free(s, '%') && pos <= |s|
    ensures DecodeFrom(s, pos, base, unset) == s[pos..]
    decreases |s| - pos
  {
    if pos < |s| {
      assert s[pos] in s;
      DecodesToItself(s, pos + 1, base, unset);
    }
  }

  /** `m` with the entries `order` names taken from `full`. */
  ghost predicate Extends(m: map<string, string>, full: map<string, string>, order: seq<string>) {
    && (forall k | k in order :: k in full)
    && (forall k :: k in full <==> k in order || k in m)
    && (forall k | k in m :: k in full && m[k] == full[k])
  }

  /** One pair of the query, at `pos`. */
  lemma OnePair(
    query: string, pos: nat, name: string, value: string, tail: string, m: map<string, string>, base: nat, unset: Garbage)
    requires pos <= |query| && query[pos..] == name + "=" + value + tail && (tail == "" || tail[0] == '&')
    requires ParameterFits(name, value)
    ensures var stored := m[name := value];
      Store(query, pos, m, base, unset) == if tail == "" then stored else Store(query, |query| - |tail| + 1, stored, base, unset)
  {
    hide Store, PathNormalization.IndexOf;
    var eq, sep := pos + |name|, |query| - |tail|;
    assert query[pos..eq] == name && query[eq] == '=' && query[eq + 1..sep] == value by {
      var q := query[pos..];
      assert q[..|name|] == name && q[|name|] == '=' && q[|name| + 1..|q| - |tail|] == value;
    }
    assert tail != "" ==> query[sep] == query[pos..][sep - pos] == tail[0];
    IndexIs(query, '=', pos, eq);
    IndexIs(query, '&', eq + 1, sep);
    StoreStep(query, pos, m, base, unset, eq, sep);
    DecodesToItself(name, 0, base + pos, unset);
    DecodesToItself(value, 0, base + eq + 1, unset);
  }

  lemma {:induction false} StoreReadsDump(
    query: string, pos: nat, order: seq<string>, full: map<string, string>, m: map<string, string>, base: nat, unset: Garbage)
    requires order != [] && Extends(m, full, order)
    requires pos <= |query| && query[pos..] == Dump(order, full)
    requires forall n | n in full :: ParameterFits(n, full[n])
    ensures Store(query, pos, m, base, unset) == full
    decreases |order|
  {
    hide Store, ParameterFits;
    var name, rest := order[0], order[1..];
    var stored := m[name := full[name]];
    var tail := if rest == [] then "" else "&" + Dump(rest, full);
    DumpFront(order, full);
    OnePair(query, pos, name, full[name], tail, m, base, unset);
    if rest == [] {
      assert stored == full;
    } else {
      var next := |query| - |tail| + 1;
      assert query[next..] == query[pos..][next - pos..] == tail[1..] == Dump(rest, full);
      StoreReadsDump(query, next, rest, full, stored, base, unset);
    }
  }

  lemma DumpFront(order: seq<string>, m: map<string, string>)
    requires order != [] && forall k | k in order :: k in m
    ensures Dump(order, m)
            == order[0] + "=" + m[order[0]] + if |order| == 1 then "" else "&" + Dump(order[1..], m)
  {
    if |order| == 1 {
      assert order[0] + "=" + m[order[0]] + "" == order[0] + "=" + m[order[0]];
    } else {
      Assoc(order[0] + "=" + m[order[0]], "&", Dump(order[1..], m));
    }
  }

  lemma {:induction false} DumpIsFree(order: seq<string>, m: map<string, string>)
    requires forall k | k in order :: k in m && ParameterFits(k, m[k])
    ensures Free(Dump(order, m), ' ') && NoBreaks(Dump(order, m))
  {
    if |order| > 1 { DumpIsFree(order[1..], m); }
  }

  lemma UrnIsFree(r: Request, order: seq<string>)
    requires Fits(r) && Walks(order, r.parameters)
    ensures Free(r.path + Query(order, r.parameters), ' ') && NoBreaks(r.path + Query(order, r.parameters))
  {
    hide Dump;
    DumpIsFree(order, r.parameters);
  }

  lemma WithMark(path: string, dump: string)
    requires Free(path, '?')
    ensures
      var urn := path + ("?" + dump);
      IndexOf(urn, '?', 0) == |path| < |urn| && urn[..|path|] == path && urn[|path| + 1..] == dump
  {
    hide PathNormalization.IndexOf;
    var urn := path + ("?" + dump);
    assert urn[0..|path|] == path;
    IndexIs(urn, '?', 0, |path|);
  }

  lemma WithoutMark(path: string)
    requires Free(path, '?')
    ensures IndexOf(path, '?', 0) == |path|
  {
    assert path[0..|path|] == path;
    IndexIs(path, '?', 0, |path|);
  }

  /** A query from its mark on is what was dumped. */
  lemma UrnReads(r: Request, order: seq<string>, m: map<string, string>, base: nat, unset: Garbage)
    requires Fits(r) && Walks(order, r.parameters) && m == map[]
    ensures
      var urn := r.path + Query(order, r.parameters);
      var mark := IndexOf(urn, '?', 0);
      && urn[..mark] == r.path && Free(urn, ' ') && NoBreaks(urn)
      && r.parameters == if mark == |urn| then m else Store(urn[mark + 1..], 0, m, base + mark + 1, unset)
  {
    hide PathNormalization.IndexOf, Store, Dump;
    UrnIsFree(r, order);
    if order == [] {
      assert r.path + Query(order, r.parameters) == r.path;
      WithoutMark(r.path);
      assert r.parameters == map[];
    } else {
      var dump := Dump(order, r.parameters);
      WithMark(r.path, dump);
      assert dump[0..] == dump;
      StoreReadsDump(dump, 0, order, r.parameters, m, base + |r.path| + 1, unset);
    }
  }

  lemma ThreePieces(a: string, b: string, c: string)
    ensures var line := a + " " + b + " " + c;
      && line[0..|a|] == line[..|a|] == a && line[|a|] == ' '
      && line[|a| + 1..|a| + 1 + |b|] == b && line[|a| + 1 + |b|] == ' '
      && line[|a| + 1 + |b| + 1..] == c
  {}

  lemma RequestLineReads(r: Request, order: seq<string>, from: Request, unset: Garbage)
    requires Fits(r) && Walks(order, r.parameters) && from.parameters == map[]
    ensures ParseFirstLine(RequestLine(r, order), from, unset)
            == Ok(Request(r.verb, PathNormalization.Normalized(r.path), r.version, r.parameters, from.headers))
  {
    hide PathNormalization.IndexOf, PathNormalization.Normalized, Store, Query, DecodeFrom;
    var verb, urn := VerbText(r.verb), r.path + Query(order, r.parameters);
    var line := RequestLine(r, order);
    UrnReads(r, order, from.parameters, |verb| + 1, unset);
    ThreePieces(verb, urn, r.version);
    VerbReads(r.verb);
    IndexIs(line, ' ', 0, |verb|);
    IndexIs(line, ' ', |verb| + 1, |verb| + 1 + |urn|);
    DecodesToItself(r.path, 0, |verb| + 1, unset);
    assert r.path[0..] == r.path;
  }

  lemma RequestLineIsOne(r: Request, order: seq<string>)
    requires Fits(r) && Walks(order, r.parameters)
    ensures NoBreaks(RequestLine(r, order))
  {
    hide Query;
    VerbReads(r.verb);
    UrnIsFree(r, order);
  }

  lemma VerbReads(v: Verb)
    ensures ParseVerb(VerbText(v)) == Some(v) && Free(VerbText(v), ' ') && NoBreaks(VerbText(v))
  {}

  lemma {:induction false} SeparatorIs(name: string, value: string)
    requires Separator(name) == |name|
    ensures Separator(name + ": " + value) == |name|
  {
    var line := name + ": " + value;
    if name == "" {
      assert line[0] == ':' && line[1] == ' ';
    } else {
      assert line[0] == name[0] && line[1] == if |name| >= 2 then name[1] else ':';
      assert line[1..] == name[1..] + ": " + value;
      SeparatorIs(name[1..], value);
    }
  }

  lemma FieldReads(f: Field, r: Request)
    requires FieldFits(f)
    ensures ParseHeader(FieldLine(f), r) == Ok(r.(headers := SetHeader(r.headers, f.name, f.value)))
    ensures NoBreaks(FieldLine(f)) && FieldLine(f) != ""
  {
    var line := FieldLine(f);
    SeparatorIs(f.name, f.value);
    assert line[..|f.name|] == f.name && line[|f.name| + 2..] == f.value;
  }

  lemma OneField(f: Field, tail: string, r: Request)
    requires FieldFits(f)
    ensures ReadFields(FieldLine(f) + "\r\n" + tail, r)
            == ReadFields(tail, r.(headers := SetHeader(r.headers, f.name, f.value)))
  {
    hide ReadLine, ParseHeader, SetHeader;
    FieldReads(f, r);
    ReadsBack(FieldLine(f), tail, MAX_HEADER_LEN);
  }

  lemma FrontLine(line: string, lines: string, rest: string)
    ensures line + "\r\n" + lines + "\r\n" + rest == line + "\r\n" + (lines + "\r\n" + rest)
  {}

  /** The header lines are read into the map they were written from. */
  lemma {:induction false} LinesRead(order: seq<string>, full: map<string, Field>, r: Request, rest: string)
    requires forall k | k in order :: k in full
    requires forall k :: k in full <==> k in order || k in r.headers
    requires forall k | k in r.headers :: k in full && r.headers[k] == full[k]
    requires forall k | k in full :: Key(full[k].name) == k && FieldFits(full[k])
    ensures ReadFields(Lines(order, full) + "\r\n" + rest, r) == Read(r.(headers := full), rest)
    decreases |order|
  {
    if order == [] {
      ReadsBack("", rest, MAX_HEADER_LEN);
      assert "" + "\r\n" + rest == Lines(order, full) + "\r\n" + rest;
      assert r.headers == full;
    } else {
      hide ReadFields, FieldFits, Key;
      var f, tail := full[order[0]], Lines(order[1..], full) + "\r\n" + rest;
      FrontLine(FieldLine(f), Lines(order[1..], full), rest);
      OneField(f, tail, r);
      LinesRead(order[1..], full, r.(headers := SetHeader(r.headers, f.name, f.value)), rest);
    }
  }

  /**
   Main result: a head that fits is read back with its path normalised, whatever follows it, and
   nothing more is taken; so it is read back whole exactly when its path was normalised.
   */
  lemma HeadReadsBack(r: Request, parameterOrder: seq<string>, headerOrder: seq<string>, from: Request, rest: string, unset: Garbage)
    requires Fits(r) && Walks(parameterOrder, r.parameters) && Walks(headerOrder, r.headers)
    requires |RequestLine(r, parameterOrder)| + 2 <= MAX_HEADER_LEN
    requires from.parameters == map[] && from.headers == map[]
    ensures
      var reading := ReadHead(Text(r, parameterOrder, headerOrder) + rest, from, unset);
      && reading == Read(r.(path := PathNormalization.Normalized(r.path)), rest)
      && (reading == Read(r, rest) <==> PathNormalization.Normalized(r.path) == r.path)
  {
    hide ReadLine, ParseFirstLine, RequestLine, ReadFields, Lines, PathNormalization.Normalized;
    var line, tail := RequestLine(r, parameterOrder), Lines(headerOrder, r.headers) + "\r\n" + rest;
    assert Text(r, parameterOrder, headerOrder) + rest == line + "\r\n" + tail;
    RequestLineReads(r, parameterOrder, from, unset);
    RequestLineIsOne(r, parameterOrder);
    ReadsBack(line, tail, MAX_HEADER_LEN);
    var path := PathNormalization.Normalized(r.path);
    LinesRead(headerOrder, r.headers, Request(r.verb, path, r.version, r.parameters, from.headers), rest);
  }

  /** Through the objects themselves. */
  method WriteThenRead(
    out: HttpRequest, parameterOrder: seq<string>, headerOrder: seq<string>, rest: string, unset: Garbage)
    returns (read: HttpRequest, source: Source, error: Option<Error>)
    requires Fits(out.Contents())
    requires Walks(parameterOrder, out.parameters) && Walks(headerOrder, out.headers)
    requires |RequestLine(out.Contents(), parameterOrder)| + 2 <= MAX_HEADER_LEN
    ensures error == None && source.left == rest && fresh(read)
    ensures read.Contents() == out.Contents().(path := PathNormalization.Normalized(out.path))
  {
    hide Fits, Text, ReadHead, PathNormalization.Normalized;
    var text := out.WriteHeaders(parameterOrder, headerOrder);
    source := new Source(text + rest);
    read := new HttpRequest(Get);
    HeadReadsBack(out.Contents(), parameterOrder, headerOrder, read.Contents(), rest, unset);
    error := read.ReadHeaders(source, unset);
  }
}
