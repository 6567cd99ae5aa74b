/**
 DHCP options, section 2 of RFC 2132 (fabric/src/dhcp_message.cpp, fabric/src/dhcp_option.cpp,
 fabric/include/join/dhcp_option.hpp): a table tells the type of each code; options are written in
 the order of their codes and read back one by one, Pad bytes skipped, up to End.

 Everything but the table itself is for any table whose codes ascend and leave out Pad and End.
 */
module DhcpOptions {
  import opened Wrappers

  type byte = n: int | 0 <= n < 0x100
  type word = n: int | 0 <= n < 0x1_0000
  type long = n: int | 0 <= n < 0x1_0000_0000
  type slong = n: int | -0x8000_0000 <= n < 0x8000_0000
  type Ipv4 = s: seq<byte> | |s| == 4 witness [0, 0, 0, 0]
  type Mac48 = s: seq<byte> | |s| == 6 witness [0, 0, 0, 0, 0, 0]

  const PAD: byte := 0
  const END: byte := 255
  const ETHERNET: byte := 1
  const MAX_OPTION_SIZE: nat := 255

  datatype Kind = Byte | Word | Long | SLong | Text | Ip | Mac | Bytes | Words | Ips

  datatype Info = Info(code: byte, kind: Kind, min: nat, max: nat, mask: nat)

  datatype Value =
    | ByteV(b: byte) | WordV(w: word) | LongV(l: long) | SLongV(i: slong)
    | TextV(text: seq<byte>) | IpV(ip: Ipv4) | MacV(mac: Mac48)
    | BytesV(bytes: seq<byte>) | WordsV(words: seq<word>) | IpsV(ips: seq<Ipv4>)

  // the repository's table, by the sections of RFC 2132

  const VENDOR_EXTENSIONS: seq<Info> := [
    Info(1, Ip, 0, 0, 0), Info(2, SLong, 0, 0, 0), Info(3, Ips, 0, 0, 0), Info(4, Ips, 0, 0, 0),
    Info(5, Ips, 0, 0, 0), Info(6, Ips, 0, 0, 0), Info(7, Ips, 0, 0, 0), Info(8, Ips, 0, 0, 0),
    Info(9, Ips, 0, 0, 0), Info(10, Ips, 0, 0, 0), Info(11, Ips, 0, 0, 0), Info(12, Text, 0, 0, 0),
    Info(13, Word, 0, 0, 0), Info(14, Text, 0, 0, 0), Info(15, Text, 0, 0, 0), Info(16, Ip, 0, 0, 0),
    Info(17, Text, 0, 0, 0), Info(18, Text, 0, 0, 0)
  ]

  const IP_PER_HOST: seq<Info> := [
    Info(19, Byte, 0, 1, 0), Info(20, Byte, 0, 1, 0), Info(22, Word, 576, 65535, 0), Info(23, Byte, 1, 255, 0),
    Info(24, Long, 0, 0, 0), Info(25, Words, 68, 65535, 0)
  ]

  const IP_PER_INTERFACE: seq<Info> := [
    Info(26, Word, 68, 65535, 0), Info(27, Byte, 0, 1, 0), Info(28, Ip, 0, 0, 0), Info(29, Byte, 0, 1, 0),
    Info(30, Byte, 0, 1, 0), Info(31, Byte, 0, 1, 0), Info(32, Ip, 0, 0, 0)
  ]

  const LINK_AND_TCP: seq<Info> := [
    Info(34, Byte, 0, 1, 0), Info(35, Long, 0, 0, 0), Info(36, Byte, 0, 1, 0), Info(37, Byte, 1, 255, 0),
    Info(38, Long, 0, 0, 0), Info(39, Byte, 0, 1, 0)
  ]

  const APPLICATION: seq<Info> := [
    Info(40, Text, 0, 0, 0), Info(41, Ips, 0, 0, 0), Info(42, Ips, 0, 0, 0), Info(43, Bytes, 0, 0, 0),
    Info(44, Ips, 0, 0, 0), Info(45, Ips, 0, 0, 0), Info(46, Byte, 0, 0, 0x116), Info(47, Bytes, 0, 0, 0),
    Info(48, Ips, 0, 0, 0), Info(49, Ips, 0, 0, 0)
  ]

  const DHCP_EXTENSIONS: seq<Info> := [
    Info(50, Ip, 0, 0, 0), Info(51, Long, 0, 0, 0), Info(52, Byte, 1, 3, 0), Info(53, Byte, 1, 8, 0),
    Info(54, Ip, 0, 0, 0), Info(55, Bytes, 0, 0, 0), Info(56, Text, 0, 0, 0), Info(57, Word, 576, 65535, 0),
    Info(58, Long, 0, 0, 0), Info(59, Long, 0, 0, 0), Info(60, Text, 0, 0, 0), Info(61, Mac, 0, 0, 0),
    Info(66, Text, 0, 0, 0), Info(67, Text, 0, 0, 0)
  ]

  const SERVERS: seq<Info> := [
    Info(68, Ips, 0, 0, 0), Info(69, Ips, 0, 0, 0), Info(70, Ips, 0, 0, 0), Info(71, Ips, 0, 0, 0),
    Info(72, Ips, 0, 0, 0), Info(73, Ips, 0, 0, 0), Info(74, Ips, 0, 0, 0), Info(75, Ips, 0, 0, 0),
    Info(76, Ips, 0, 0, 0)
  ]

  const TABLE: seq<Info> :=
    VENDOR_EXTENSIONS + IP_PER_HOST + IP_PER_INTERFACE + LINK_AND_TCP + APPLICATION + DHCP_EXTENSIONS + SERVERS

  // ----- the table

  ghost predicate Ascending(table: seq<Info>) {
    forall i, j | 0 <= i < j < |table| :: table[i].code < table[j].code
  }

  ghost predicate TableFits(table: seq<Info>) {
    Ascending(table) && forall i | 0 <= i < |table| :: table[i].code != PAD && table[i].code != END
  }

  function Find(table: seq<Info>, code: byte): Option<Info> {
    if table == [] then None else if table[0].code == code then Some(table[0]) else Find(table[1..], code)
  }

  lemma {:induction false} FindIs(table: seq<Info>, code: byte)
    requires Ascending(table)
    ensures forall i | 0 <= i < |table| && table[i].code == code :: Find(table, code) == Some(table[i])
    ensures (forall i | 0 <= i < |table| :: table[i].code != code) ==> Find(table, code) == None
  {
    if table != [] {
      FindIs(table[1..], code);
      assert forall i | 0 < i < |table| :: table[i] == table[1..][i - 1];
    }
  }

  lemma {:induction false} FindHasCode(table: seq<Info>, code: byte)
    ensures Find(table, code).Some? ==> Find(table, code).value.code == code
  {
    if table != [] { FindHasCode(table[1..], code); }
  }

  /** `describe`: the lower bound of the code, if it is the code's own entry. */
  method Describe(table: seq<Info>, code: byte) returns (info: Option<Info>)
    requires Ascending(table)
    ensures info == Find(table, code)
  {
    var first, count := 0, |table|;
    while count > 0
      invariant 0 <= first <= first + count <= |table|
      invariant forall i | 0 <= i < first :: table[i].code < code
      invariant forall i | first + count <= i < |table| :: code <= table[i].code
    {
      var step := count / 2;
      if table[first + step].code < code {
        first := first + step + 1;
        count := count - step - 1;
      } else {
        count := step;
      }
    }
    FindIs(table, code);
    info := if first < |table| && table[first].code == code then Some(table[first]) else None;
  }

  // ----- what a table accepts

  function Bit(mask: nat, i: nat): bool {
    if i == 0 then mask % 2 == 1 else Bit(mask / 2, i - 1)
  }

  predicate Accepts(info: Info, value: nat) {
    if info.mask != 0 then value < 32 && Bit(info.mask, value)
    else if info.max != 0 then info.min <= value <= info.max
    else true
  }

  function Power2(k: nat): (r: nat)
    ensures r > 0
  {
    if k == 0 then 1 else 2 * Power2(k - 1)
  }

  lemma {:induction false} BitIsOfMask(mask: nat, i: nat)
    ensures Bit(mask, i) <==> mask / Power2(i) % 2 == 1
    decreases i
  {
    if i > 0 {
      BitIsOfMask(mask / 2, i - 1);
      Halved(mask, Power2(i - 1));
    }
  }

  lemma Halved(mask: nat, d: nat)
    requires d > 0
    ensures mask / 2 / d == mask / (2 * d)
  {
    var q, r := mask / (2 * d), mask % (2 * d);
    assert mask == q * (2 * d) + r;
    assert mask / 2 == q * d + r / 2 && r / 2 < d;
    assert (q * d + r / 2) / d == q by { QuotientOf(q, d, r / 2); }
  }

  lemma QuotientOf(q: nat, d: nat, r: nat)
    requires r < d
    ensures (q * d + r) / d == q
  {
    var x := (q * d + r) / d;
    assert x * d <= q * d + r < (x + 1) * d;
    if x < q { Times(x + 1, q, d); }
    if x > q { Times(q + 1, x, d); }
  }

  lemma Times(a: nat, b: nat, d: nat)
    requires a <= b
    ensures a * d <= b * d
  {
    assert b * d == a * d + (b - a) * d;
  }

  /** The four NetBIOS node types, and nothing else, are what their mask lets in. */
  lemma NodeTypes(value: nat)
    ensures Accepts(Info(46, Byte, 0, 0, 0x116), value) <==> value in {1, 2, 4, 8}
  {
    assert forall n: nat :: Bit(n, 0) <==> n % 2 == 1;
    if value >= 1 { assert Bit(0x116, value) == Bit(0x8B, value - 1); }
    if value >= 2 { assert Bit(0x8B, value - 1) == Bit(0x45, value - 2); }
    if value >= 3 { assert Bit(0x45, value - 2) == Bit(0x22, value - 3); }
    if value >= 4 { assert Bit(0x22, value - 3) == Bit(0x11, value - 4); }
    if value >= 5 { assert Bit(0x11, value - 4) == Bit(8, value - 5); }
    if value >= 6 { assert Bit(8, value - 5) == Bit(4, value - 6); }
    if value >= 7 { assert Bit(4, value - 6) == Bit(2, value - 7); }
    if value >= 8 { assert Bit(2, value - 7) == Bit(1, value - 8); }
    if value >= 9 {
      assert Bit(1, value - 8) == Bit(0, value - 9);
      NoBits(value - 9);
    }
  }

  /** Bounds are inclusive, and none are given where the entry has no maximum. */
  lemma KnownBounds(value: nat)
    ensures Accepts(Info(26, Word, 68, 65535, 0), value) <==> 68 <= value < 65536
    ensures Accepts(Info(53, Byte, 1, 8, 0), value) <==> value in {1, 2, 3, 4, 5, 6, 7, 8}
    ensures Accepts(Info(19, Byte, 0, 1, 0), value) <==> value in {0, 1}
    ensures Accepts(Info(51, Long, 0, 0, 0), value)
  {}

  lemma {:induction false} NoBits(i: nat)
    ensures !Bit(0, i)
  {
    if i > 0 { NoBits(i - 1); }
  }

  /** static_cast<uint32_t> */
  function Unsigned(i: slong): long {
    if i >= 0 then i else i + 0x1_0000_0000
  }

  /** static_cast<int32_t> */
  function Signed(l: long): slong {
    if l < 0x8000_0000 then l else l - 0x1_0000_0000
  }

  /** `convert`, for a value already of its type: the value is one the entry can hold. */
  predicate Holds(info: Info, v: Value) {
    match v
    case ByteV(b) => info.kind == Byte && Accepts(info, b)
    case WordV(w) => info.kind == Word && Accepts(info, w)
    case LongV(l) => info.kind == Long && Accepts(info, l)
    case SLongV(i) => info.kind == SLong && Accepts(info, Unsigned(i))
    case TextV(_) => info.kind == Text
    case IpV(_) => info.kind == Ip
    case MacV(_) => info.kind == Mac
    case BytesV(bytes) => info.kind == Bytes && forall b | b in bytes :: Accepts(info, b)
    case WordsV(words) => info.kind == Words && forall w | w in words :: Accepts(info, w)
    case IpsV(_) => info.kind == Ips
  }

  /** `insert`: the first value of a code stays. */
  function Insert(info: Info, m: map<byte, Value>, v: Value): map<byte, Value> {
    if Holds(info, v) && info.code !in m then m[info.code := v] else m
  }

  // ----- payloads, most significant byte first

  function FromWord(w: word): (r: seq<byte>)
    ensures |r| == 2
  {
    [w / 0x100, w % 0x100]
  }

  function FromLong(l: long): (r: seq<byte>)
    ensures |r| == 4
  {
    FromWord(l / 0x1_0000) + FromWord(l % 0x1_0000)
  }

  function ToWord(hi: byte, lo: byte): word { hi * 0x100 + lo }

  function ToLong(p: seq<byte>): long
    requires |p| == 4
  {
    ToWord(p[0], p[1]) * 0x1_0000 + ToWord(p[2], p[3])
  }

  function FromWords(words: seq<word>): seq<byte> {
    if words == [] then [] else FromWord(words[0]) + FromWords(words[1..])
  }

  function FromIps(ips: seq<Ipv4>): seq<byte> {
    if ips == [] then [] else ips[0] + FromIps(ips[1..])
  }

  function Payload(v: Value): seq<byte> {
    match v
    case ByteV(b) => [b]
    case WordV(w) => FromWord(w)
    case LongV(l) => FromLong(l)
    case SLongV(i) => FromLong(Unsigned(i))
    case TextV(text) => text
    case IpV(ip) => ip
    case MacV(mac) => [ETHERNET] + mac
    case BytesV(bytes) => bytes
    case WordsV(words) => FromWords(words)
    case IpsV(ips) => FromIps(ips)
  }

  function ToWords(p: seq<byte>): seq<word>
    requires |p| % 2 == 0
  {
    if p == [] then [] else [ToWord(p[0], p[1])] + ToWords(p[2..])
  }

  function ToIps(p: seq<byte>): seq<Ipv4>
    requires |p| % 4 == 0
  {
    if p == [] then [] else [p[..4]] + ToIps(p[4..])
  }

  /** The value a payload of this kind is, unless its size is wrong. */
  function Parse(kind: Kind, p: seq<byte>): Option<Value> {
    match kind
    case Byte => if |p| == 1 then Some(ByteV(p[0])) else None
    case Word => if |p| == 2 then Some(WordV(ToWord(p[0], p[1]))) else None
    case Long => if |p| == 4 then Some(LongV(ToLong(p))) else None
    case SLong => if |p| == 4 then Some(SLongV(Signed(ToLong(p)))) else None
    case Text => Some(TextV(p))
    case Ip => if |p| == 4 then Some(IpV(p)) else None
    case Mac => if |p| == 7 && p[0] == ETHERNET then Some(MacV(p[1..])) else None
    case Bytes => Some(BytesV(p))
    case Words => if |p| % 2 == 0 then Some(WordsV(ToWords(p))) else None
    case Ips => if |p| % 4 == 0 then Some(IpsV(ToIps(p))) else None
  }

  lemma {:induction false} WordsBack(words: seq<word>)
    ensures |FromWords(words)| % 2 == 0 && ToWords(FromWords(words)) == words
  {
    if words != [] {
      WordsBack(words[1..]);
      assert FromWords(words)[2..] == FromWords(words[1..]);
    }
  }

  lemma {:induction false} IpsBack(ips: seq<Ipv4>)
    ensures |FromIps(ips)| % 4 == 0 && ToIps(FromIps(ips)) == ips
  {
    if ips != [] {
      IpsBack(ips[1..]);
      assert FromIps(ips)[..4] == ips[0] && FromIps(ips)[4..] == FromIps(ips[1..]);
    }
  }

  lemma WordBack(w: word)
    ensures ToWord(FromWord(w)[0], FromWord(w)[1]) == w
  {}

  lemma LongBack(l: long)
    ensures ToLong(FromLong(l)) == l
  {
    WordBack(l / 0x1_0000);
    WordBack(l % 0x1_0000);
  }

  /** A value an entry holds is parsed back from its payload. */
  lemma ParseInverts(info: Info, v: Value)
    requires Holds(info, v)
    ensures Parse(info.kind, Payload(v)) == Some(v)
  {
    hide Accepts, Parse, Payload;
    ParseOfPayload(info.kind, v);
  }

  lemma {:induction false} ToWordsBack(p: seq<byte>)
    requires |p| % 2 == 0
    ensures FromWords(ToWords(p)) == p
  {
    if p != [] {
      ToWordsBack(p[2..]);
      ToWordBack(p[0], p[1]);
      assert ToWords(p)[1..] == ToWords(p[2..]);
      assert [p[0], p[1]] + p[2..] == p;
    }
  }

  lemma {:induction false} ToIpsBack(p: seq<byte>)
    requires |p| % 4 == 0
    ensures FromIps(ToIps(p)) == p
  {
    if p != [] {
      ToIpsBack(p[4..]);
      assert ToIps(p)[1..] == ToIps(p[4..]);
    }
  }

  lemma ToWordBack(hi: byte, lo: byte)
    ensures FromWord(ToWord(hi, lo)) == [hi, lo]
  {}

  lemma Halves(hi: word, lo: word)
    ensures (hi * 0x1_0000 + lo) / 0x1_0000 == hi && (hi * 0x1_0000 + lo) % 0x1_0000 == lo
  {}

  lemma FromHalves(l: long, hi: word, lo: word)
    requires l == hi * 0x1_0000 + lo
    ensures FromLong(l) == FromWord(hi) + FromWord(lo)
  {
    hide FromWord;
    Halves(hi, lo);
  }

  lemma ToLongBack(p: seq<byte>)
    requires |p| == 4
    ensures FromLong(ToLong(p)) == p
  {
    hide ToWord, FromWord, FromLong;
    FromHalves(ToLong(p), ToWord(p[0], p[1]), ToWord(p[2], p[3]));
    ToWordBack(p[0], p[1]);
    ToWordBack(p[2], p[3]);
    assert [p[0], p[1]] + [p[2], p[3]] == p;
  }

  /** And a payload that parses is the payload of its value: no two payloads of a kind mean the same. */
  lemma PayloadInverts(kind: Kind, p: seq<byte>)
    requires Parse(kind, p).Some?
    ensures Payload(Parse(kind, p).value) == p
  {
    hide ToLong, FromLong, FromWord, ToWord, FromWords, ToWords, FromIps, ToIps;
    match kind
    case Word => ToWordBack(p[0], p[1]);
    case Long => ToLongBack(p);
    case SLong => ToLongBack(p);
    case Words => ToWordsBack(p);
    case Ips => ToIpsBack(p);
    case Mac => assert [ETHERNET] + p[1..] == p;
    case _ =>
  }

  // ----- what payloads mean, section 2 of RFC 2132: numbers most significant byte first

  function BigEndian(p: seq<byte>): nat {
    if p == [] then 0 else BigEndian(p[..|p| - 1]) * 0x100 + p[|p| - 1]
  }

  /** The bytes are this value's on the wire, without regard to how they are made or taken apart. */
  ghost predicate Means(p: seq<byte>, v: Value) {
    match v
    case ByteV(b) => p == [b]
    case WordV(w) => |p| == 2 && BigEndian(p) == w
    case LongV(l) => |p| == 4 && BigEndian(p) == l
    case SLongV(i) => |p| == 4 && (BigEndian(p) == i || BigEndian(p) == i + 0x1_0000_0000)
    case TextV(text) => p == text
    case IpV(ip) => p == ip
    case MacV(mac) => |p| == 7 && p[0] == ETHERNET && p[1..] == mac
    case BytesV(bytes) => p == bytes
    case WordsV(words) => |p| == 2 * |words| && forall i | 0 <= i < |words| :: BigEndian(p[2 * i..2 * i + 2]) == words[i]
    case IpsV(ips) => |p| == 4 * |ips| && forall i | 0 <= i < |ips| :: p[4 * i..4 * i + 4] == ips[i]
  }

  lemma TwoBytes(p: seq<byte>)
    requires |p| == 2
    ensures BigEndian(p) == (p[0] as nat) * 0x100 + p[1] as nat
  {
    assert p[..1][..0] == [] && BigEndian(p[..1]) == p[0] as nat;
  }

  lemma FourBytes(p: seq<byte>)
    requires |p| == 4
    ensures BigEndian(p) == BigEndian(p[..2]) * 0x1_0000 + BigEndian(p[2..])
  {
    assert p[..3] == p[..2] + [p[2]] && p[..3][..2] == p[..2];
    TwoBytes(p[2..]);
  }

  lemma WordMeans(w: word)
    ensures BigEndian(FromWord(w)) == w
  {
    TwoBytes(FromWord(w));
  }

  lemma LongMeans(l: long)
    ensures BigEndian(FromLong(l)) == l
  {
    var p := FromLong(l);
    FourBytes(p);
    assert p[..2] == FromWord(l / 0x1_0000) && p[2..] == FromWord(l % 0x1_0000);
    WordMeans(l / 0x1_0000);
    WordMeans(l % 0x1_0000);
  }

  lemma {:induction false} WordsMean(words: seq<word>)
    ensures Means(FromWords(words), WordsV(words))
  {
    if words != [] {
      var p, rest := FromWords(words), FromWords(words[1..]);
      WordsMean(words[1..]);
      WordMeans(words[0]);
      assert p[0..2] == FromWord(words[0]);
      forall i | 0 < i < |words| ensures BigEndian(p[2 * i..2 * i + 2]) == words[i] {
        assert p[2 * i..2 * i + 2] == rest[2 * (i - 1)..2 * (i - 1) + 2];
      }
    }
  }

  lemma {:induction false} IpsMean(ips: seq<Ipv4>)
    ensures Means(FromIps(ips), IpsV(ips))
  {
    if ips != [] {
      var p, rest := FromIps(ips), FromIps(ips[1..]);
      IpsMean(ips[1..]);
      assert p[0..4] == ips[0];
      forall i | 0 < i < |ips| ensures p[4 * i..4 * i + 4] == ips[i] {
        assert p[4 * i..4 * i + 4] == rest[4 * (i - 1)..4 * (i - 1) + 4];
      }
    }
  }

  /** What is written for a value are the bytes RFC 2132 means by it. */
  lemma PayloadMeans(v: Value)
    ensures Means(Payload(v), v)
  {
    hide FromWord, FromLong, FromWords, FromIps, BigEndian;
    match v
    case WordV(w) => WordMeans(w);
    case LongV(l) => LongMeans(l);
    case SLongV(i) => LongMeans(Unsigned(i));
    case WordsV(words) => WordsMean(words);
    case IpsV(ips) => IpsMean(ips);
    case MacV(mac) => assert ([ETHERNET] + mac)[1..] == mac;
    case _ =>
  }

  predicate HasKind(v: Value, kind: Kind) {
    match v
    case ByteV(_) => kind == Byte
    case WordV(_) => kind == Word
    case LongV(_) => kind == Long
    case SLongV(_) => kind == SLong
    case TextV(_) => kind == Text
    case IpV(_) => kind == Ip
    case MacV(_) => kind == Mac
    case BytesV(_) => kind == Bytes
    case WordsV(_) => kind == Words
    case IpsV(_) => kind == Ips
  }

  lemma {:induction false} BigEndianInjective(p: seq<byte>, q: seq<byte>)
    requires |p| == |q| && BigEndian(p) == BigEndian(q)
    ensures p == q
  {
    if p != [] {
      var n := |p| - 1;
      BigEndianInjective(p[..n], q[..n]);
      assert p == p[..n] + [p[n]] && q == q[..n] + [q[n]];
    }
  }

  lemma MeansOne(p: seq<byte>, q: seq<byte>, v: Value)
    requires Means(p, v) && Means(q, v)
    ensures p == q
  {
    match v
    case WordV(_) => BigEndianInjective(p, q);
    case LongV(_) => BigEndianInjective(p, q);
    case SLongV(_) => SmallNumber(p); SmallNumber(q); BigEndianInjective(p, q);
    case WordsV(words) =>
      forall k | 0 <= k < |p| ensures p[k] == q[k] {
        var i := k / 2;
        assert 0 <= i < |words| && BigEndian(p[2 * i..2 * i + 2]) == words[i] == BigEndian(q[2 * i..2 * i + 2]);
        BigEndianInjective(p[2 * i..2 * i + 2], q[2 * i..2 * i + 2]);
        assert p[k] == p[2 * i..2 * i + 2][k - 2 * i] && q[k] == q[2 * i..2 * i + 2][k - 2 * i];
      }
    case IpsV(ips) =>
      forall k | 0 <= k < |p| ensures p[k] == q[k] {
        var i := k / 4;
        assert 0 <= i < |ips| && p[4 * i..4 * i + 4] == ips[i] == q[4 * i..4 * i + 4];
        assert p[k] == p[4 * i..4 * i + 4][k - 4 * i] && q[k] == q[4 * i..4 * i + 4][k - 4 * i];
      }
    case MacV(mac) => assert p == [p[0]] + p[1..] && q == [q[0]] + q[1..];
    case _ =>
  }

  lemma SmallNumber(p: seq<byte>)
    requires |p| == 4
    ensures BigEndian(p) < 0x1_0000_0000
  {
    FourBytes(p);
    TwoBytes(p[..2]);
    TwoBytes(p[2..]);
  }

  /** Main result on payloads: a value is read from exactly the bytes that mean it, and those bytes
      are what is written for it. */
  lemma ParsesExactly(kind: Kind, p: seq<byte>, v: Value)
    ensures Parse(kind, p) == Some(v) <==> HasKind(v, kind) && Means(p, v)
    ensures Means(p, v) <==> Payload(v) == p
  {
    hide Means, Payload;
    PayloadMeans(v);
    if Means(p, v) { MeansOne(p, Payload(v), v); }
    if Parse(kind, p).Some? {
      PayloadInverts(kind, p);
      ParsedKind(kind, p);
    }
    if HasKind(v, kind) && Means(p, v) { ParseOfPayload(kind, v); }
  }

  lemma ParsedKind(kind: Kind, p: seq<byte>)
    requires Parse(kind, p).Some?
    ensures HasKind(Parse(kind, p).value, kind)
  {}

  lemma ParseOfPayload(kind: Kind, v: Value)
    requires HasKind(v, kind)
    ensures Parse(kind, Payload(v)) == Some(v)
  {
    hide Accepts, ToLong, FromLong, ToWord, FromWord, FromWords, ToWords, FromIps, ToIps;
    match v
    case WordV(w) => WordBack(w);
    case LongV(l) => LongBack(l);
    case SLongV(i) => LongBack(Unsigned(i));
    case WordsV(words) => WordsBack(words);
    case IpsV(ips) => IpsBack(ips);
    case MacV(mac) => assert ([ETHERNET] + mac)[1..] == mac;
    case _ =>
  }

  // ----- items on the wire

  datatype Item = Pad | Opt(code: byte, payload: seq<byte>)

  predicate IsItem(item: Item) {
    item.Opt? ==> item.code != PAD && item.code != END && |item.payload| <= MAX_OPTION_SIZE
  }

  function WireItem(item: Item): seq<byte>
    requires IsItem(item)
  {
    match item
    case Pad => [PAD]
    case Opt(code, payload) => [code, |payload|] + payload
  }

  /** The bytes of a maximum message size of 576, option 57. */
  lemma MessageSizeOnTheWire()
    ensures WireItem(Opt(57, Payload(WordV(576)))) == [57, 2, 2, 64]
    ensures Parse(Long, [0, 0, 14, 16]) == Some(LongV(3600))
  {
    assert FromWord(576) == [2, 64];
  }

  ghost predicate AreItems(items: seq<Item>) {
    forall i | 0 <= i < |items| :: IsItem(items[i])
  }

  function Wire(items: seq<Item>): seq<byte>
    requires AreItems(items)
  {
    if items == [] then [] else WireItem(items[0]) + Wire(items[1..])
  }

  /** What one item does to the options read so far. */
  function Take(table: seq<Info>, m: map<byte, Value>, item: Item): map<byte, Value> {
    if item.Pad? || Find(table, item.code).None? then m
    else
      var info := Find(table, item.code).value;
      match Parse(info.kind, item.payload)
      case Some(v) => Insert(info, m, v)
      case None => m
  }

  function TakeAll(table: seq<Info>, m: map<byte, Value>, items: seq<Item>): map<byte, Value>
    decreases |items|
  {
    if items == [] then m else TakeAll(table, Take(table, m, items[0]), items[1..])
  }

  // ----- reading

  datatype Reading = Reading(ok: bool, options: map<byte, Value>, rest: seq<byte>)

  /** An option that the stream ends inside of. */
  predicate Cut(s: seq<byte>) {
    s != [] && s[0] != PAD && s[0] != END && (|s| < 2 || |s| - 2 < s[1])
  }

  function Front(s: seq<byte>): Item
    requires s != [] && s[0] != END && !Cut(s)
  {
    if s[0] == PAD then Pad else Opt(s[0], s[2..2 + s[1]])
  }

  function After(s: seq<byte>): (r: seq<byte>)
    requires s != [] && s[0] != END && !Cut(s)
    ensures |r| < |s|
  {
    if s[0] == PAD then s[1..] else s[2 + s[1]..]
  }

  /** `deserialize` */
  function Read(table: seq<Info>, s: seq<byte>, m: map<byte, Value>): Reading
    decreases |s|
  {
    if s == [] then Reading(true, m, [])
    else if s[0] == END then Reading(true, m, s[1..])
    else if Cut(s) then Reading(false, m, [])
    else Read(table, After(s), Take(table, m, Front(s)))
  }

  /** The whole items a stream starts with, and what is left once they are gone. */
  function Items(s: seq<byte>): (r: seq<Item>)
    ensures AreItems(r)
    decreases |s|
  {
    if s == [] || s[0] == END || Cut(s) then [] else [Front(s)] + Items(After(s))
  }

  function Tail(s: seq<byte>): (r: seq<byte>)
    ensures r == [] || r[0] == END || Cut(r)
    decreases |s|
  {
    if s == [] || s[0] == END || Cut(s) then s else Tail(After(s))
  }

  lemma FrontThenAfter(s: seq<byte>)
    requires s != [] && s[0] != END && !Cut(s)
    ensures IsItem(Front(s)) && s == WireItem(Front(s)) + After(s)
  {}

  /**
   On any stream: it is whole items and then nothing, End, or a cut option; the options are what the
   whole items make them, and the result is a failure exactly for a cut option.
   */
  lemma {:induction false} ReadIsTakeAll(table: seq<Info>, s: seq<byte>, m: map<byte, Value>)
    ensures s == Wire(Items(s)) + Tail(s)
    ensures Read(table, s, m).options == TakeAll(table, m, Items(s))
    ensures Read(table, s, m).ok <==> !Cut(Tail(s))
    ensures Tail(s) != [] && Tail(s)[0] == END ==> Read(table, s, m).rest == Tail(s)[1..]
    decreases |s|
  {
    hide Take, Front, After, WireItem;
    if s != [] && s[0] != END && !Cut(s) {
      ReadIsTakeAll(table, After(s), Take(table, m, Front(s)));
      FrontThenAfter(s);
    }
  }

  /** And any whole items are read as such, whatever is after End. */
  lemma {:induction false} ItemsAreRead(table: seq<Info>, items: seq<Item>, rest: seq<byte>, m: map<byte, Value>)
    requires AreItems(items)
    ensures Read(table, Wire(items) + ([END] + rest), m) == Reading(true, TakeAll(table, m, items), rest)
    decreases |items|
  {
    hide Take;
    var tail := [END] + rest;
    if items == [] {
      assert Wire(items) + tail == tail && tail[1..] == rest;
    } else {
      var item, others := items[0], Wire(items[1..]) + tail;
      FrontIs(item, others);
      assert Wire(items) + tail == WireItem(item) + others;
      ItemsAreRead(table, items[1..], rest, Take(table, m, item));
    }
  }

  lemma FrontIs(item: Item, others: seq<byte>)
    requires IsItem(item)
    ensures var s := WireItem(item) + others;
      s != [] && s[0] != END && !Cut(s) && Front(s) == item && After(s) == others
  {}

  // ----- the round trip

  /** Every option is one its table holds. */
  ghost predicate Typed(table: seq<Info>, m: map<byte, Value>) {
    forall c | c in m :: Find(table, c).Some? && Find(table, c).value.code == c && Holds(Find(table, c).value, m[c])
  }

  /** Items that carry what `full` has and `m` lacks, in any order, among Pads. */
  ghost predicate Carries(items: seq<Item>, full: map<byte, Value>, m: map<byte, Value>) {
    && (forall i | 0 <= i < |items| && items[i].Opt? ::
          items[i].code in full && items[i].payload == Payload(full[items[i].code]))
    && (forall c | c in full :: c in m || exists i :: 0 <= i < |items| && items[i].Opt? && items[i].code == c)
    && (forall c | c in m :: c in full && m[c] == full[c])
  }

  lemma TakeOne(table: seq<Info>, item: Item, full: map<byte, Value>, m: map<byte, Value>)
    requires Typed(table, full) && item.Opt? && item.code in full && item.payload == Payload(full[item.code])
    ensures Take(table, m, item) == if item.code in m then m else m[item.code := full[item.code]]
  {
    hide Holds, Payload, Parse;
    ParseInverts(Find(table, item.code).value, full[item.code]);
  }

  lemma {:induction false} CarriedIsTaken(
      table: seq<Info>, items: seq<Item>, full: map<byte, Value>, m: map<byte, Value>)
    requires Typed(table, full) && Carries(items, full, m)
    ensures TakeAll(table, m, items) == full
    decreases |items|
  {
    if items == [] {
      assert m == full;
    } else {
      hide Typed, Take, Payload;
      var item, rest := items[0], items[1..];
      var taken := Take(table, m, item);
      if item.Opt? { TakeOne(table, item, full, m); } else { PadTakesNothing(table, m); }
      StillCarried(items, full, m, taken);
      CarriedIsTaken(table, rest, full, taken);
    }
  }

  lemma StillCarried(items: seq<Item>, full: map<byte, Value>, m: map<byte, Value>, taken: map<byte, Value>)
    requires items != [] && Carries(items, full, m)
    requires taken == if items[0].Pad? || items[0].code in m then m else m[items[0].code := full[items[0].code]]
    ensures Carries(items[1..], full, taken)
  {
    hide Payload;
    var rest := items[1..];
    assert forall i | 0 < i < |items| :: items[i] == rest[i - 1];
    forall c | c in full && c !in taken ensures exists i :: 0 <= i < |rest| && rest[i].Opt? && rest[i].code == c {
      var i :| 0 <= i < |items| && items[i].Opt? && items[i].code == c;
      assert rest[i - 1] == items[i];
    }
  }

  lemma PadTakesNothing(table: seq<Info>, m: map<byte, Value>)
    ensures Take(table, m, Pad) == m
  {}

  /** Main result, reading: options on the wire in any order, Pads among them, come back as the same map. */
  lemma OptionsComeBack(table: seq<Info>, items: seq<Item>, full: map<byte, Value>, rest: seq<byte>)
    requires Typed(table, full) && AreItems(items) && Carries(items, full, map[])
    ensures Read(table, Wire(items) + ([END] + rest), map[]) == Reading(true, full, rest)
  {
    hide Typed, Carries;
    ItemsAreRead(table, items, rest, map[]);
    CarriedIsTaken(table, items, full, map[]);
  }

  // ----- writing

  /** The options of codes below `n`, in the order of their codes; those the table lacks are left out. */
  function InOrder(table: seq<Info>, m: map<byte, Value>, n: nat): seq<Item>
    requires n <= 0x100
  {
    if n == 0 then []
    else
      var front, c := InOrder(table, m, n - 1), n - 1;
      if c in m && Find(table, c).Some? then front + [Opt(c, Payload(m[c]))] else front
  }

  /** Every payload of a code below `n` fits its one-byte length. */
  ghost predicate Small(table: seq<Info>, m: map<byte, Value>, n: nat) {
    forall c | c in m && c < n && Find(table, c).Some? :: |Payload(m[c])| <= MAX_OPTION_SIZE
  }

  lemma {:induction false} WireSnoc(items: seq<Item>, item: Item)
    requires AreItems(items) && IsItem(item)
    ensures AreItems(items + [item]) && Wire(items + [item]) == Wire(items) + WireItem(item)
  {
    hide WireItem, IsItem;
    var more := items + [item];
    if items == [] {
      assert more == [item] && more[1..] == [];
    } else {
      WireSnoc(items[1..], item);
      assert more[0] == items[0] && more[1..] == items[1..] + [item];
      Assoc(WireItem(items[0]), Wire(items[1..]), WireItem(item));
    }
  }

  lemma {:induction false} InOrderCarries(table: seq<Info>, m: map<byte, Value>, n: nat)
    requires n <= 0x100 && Typed(table, m)
    ensures forall i | 0 <= i < |InOrder(table, m, n)| :: var item := InOrder(table, m, n)[i];
      item.Opt? && item.code in m && item.payload == Payload(m[item.code])
    ensures forall c | c in m && c < n ::
      exists i :: 0 <= i < |InOrder(table, m, n)| && InOrder(table, m, n)[i].Opt? && InOrder(table, m, n)[i].code == c
  {
    hide Payload, Holds;
    if n > 0 {
      InOrderCarries(table, m, n - 1);
      var front, here := InOrder(table, m, n - 1), InOrder(table, m, n);
      assert forall i | 0 <= i < |front| :: here[i] == front[i];
      if n - 1 in m { assert here[|front|].code == n - 1; }
    }
  }

  /** Options are written in ascending order of their codes, each once. */
  lemma {:induction false} InOrderAscends(table: seq<Info>, m: map<byte, Value>, n: nat)
    requires n <= 0x100
    ensures forall i | 0 <= i < |InOrder(table, m, n)| :: InOrder(table, m, n)[i].Opt? && InOrder(table, m, n)[i].code < n
    ensures forall i, j | 0 <= i < j < |InOrder(table, m, n)| :: InOrder(table, m, n)[i].code < InOrder(table, m, n)[j].code
  {
    hide Payload;
    if n > 0 {
      InOrderAscends(table, m, n - 1);
      var front, here := InOrder(table, m, n - 1), InOrder(table, m, n);
      assert forall i | 0 <= i < |front| :: here[i] == front[i];
    }
  }

  class DhcpOption {
    var entries: map<byte, Value>

    constructor ()
      ensures entries == map[]
    {
      entries := map[];
    }

    /** A value goes in exactly when the table could hold it alone and its code is still free; no
        other code is touched, and what is there stays something the table can hold. */
    method InsertValue(table: seq<Info>, code: byte, v: Value) returns (inserted: bool)
      requires Ascending(table)
      modifies this
      ensures inserted <==> Typed(table, map[code := v]) && code !in old(entries)
      ensures inserted ==> code in entries && entries[code] == v
      ensures !inserted ==> entries == old(entries)
      ensures entries - {code} == old(entries) - {code}
      ensures Typed(table, old(entries)) ==> Typed(table, entries)
    {
      FindHasCode(table, code);
      var info := Describe(table, code);
      if info.None? || !Holds(info.value, v) { return false; }
      if code in entries { return false; }
      ghost var before := entries;
      entries := entries[code := v];
      assert entries - {code} == before - {code};
      return true;
    }
  }

  method WritePayload(v: Value) returns (data: seq<byte>)
    ensures data == Payload(v)
  {
    hide FromWord, FromLong;
    match v
    case WordsV(words) =>
      data := [];
      var i := 0;
      while i < |words|
        invariant 0 <= i <= |words| && FromWords(words) == data + FromWords(words[i..])
      {
        assert words[i..][1..] == words[i + 1..];
        Assoc(data, FromWord(words[i]), FromWords(words[i + 1..]));
        data := data + FromWord(words[i]);
        i := i + 1;
      }
    case IpsV(ips) =>
      data := [];
      var i := 0;
      while i < |ips|
        invariant 0 <= i <= |ips| && FromIps(ips) == data + FromIps(ips[i..])
      {
        assert ips[i..][1..] == ips[i + 1..];
        Assoc(data, ips[i], FromIps(ips[i + 1..]));
        data := data + ips[i];
        i := i + 1;
      }
    case _ => data := Payload(v);
  }

  lemma NoItems()
    ensures Wire([]) == []
  {}

  lemma Assoc<T>(a: seq<T>, b: seq<T>, c: seq<T>)
    ensures a + b + c == a + (b + c)
  {}

  /** `serialize`: it succeeds exactly when every payload fits. */
  method Serialize(table: seq<Info>, options: DhcpOption) returns (ok: bool, data: seq<byte>)
    requires TableFits(table)
    ensures ok <==> Small(table, options.entries, 0x100)
    ensures ok ==> AreItems(InOrder(table, options.entries, 0x100))
    ensures ok ==> data == Wire(InOrder(table, options.entries, 0x100)) + [END]
  {
    hide Payload, Find, Wire;
    ok, data := true, [];
    assert Wire([]) == [] by { NoItems(); }
    var code := 0;
    while code < 0x100
      invariant code <= 0x100 && ok && Small(table, options.entries, code)
      invariant AreItems(InOrder(table, options.entries, code))
      invariant data == Wire(InOrder(table, options.entries, code))
    {
      if code in options.entries {
        var info := Describe(table, code);
        if info.Some? {
          var payload := WritePayload(options.entries[code]);
          if |payload| > MAX_OPTION_SIZE { return false, data; }
          FindIs(table, code);
          WireSnoc(InOrder(table, options.entries, code), Opt(code, payload));
          Assoc(data, [code, |payload|], payload);
          data := data + [code, |payload|] + payload;
        }
      }
      code := code + 1;
    }
    data := data + [END];
  }

  /** Main result: what is written is what is read, to the last byte written. */
  lemma WrittenIsRead(table: seq<Info>, m: map<byte, Value>, rest: seq<byte>)
    requires Typed(table, m) && AreItems(InOrder(table, m, 0x100))
    ensures Read(table, Wire(InOrder(table, m, 0x100)) + ([END] + rest), map[]) == Reading(true, m, rest)
  {
    InOrderCarries(table, m, 0x100);
    OptionsComeBack(table, InOrder(table, m, 0x100), m, rest);
  }

  // ----- whatever is read

  /** The item sets code `c` if nothing did before it. */
  predicate Sets(table: seq<Info>, item: Item, c: byte) {
    && item.Opt? && item.code == c && Find(table, c).Some?
    && var info := Find(table, c).value;
       Parse(info.kind, item.payload).Some? && Holds(info, Parse(info.kind, item.payload).value)
  }

  lemma TakeSets(table: seq<Info>, m: map<byte, Value>, item: Item, c: byte)
    ensures c in Take(table, m, item) <==> c in m || Sets(table, item, c)
    ensures c in m ==> Take(table, m, item)[c] == m[c]
    ensures c !in m && Sets(table, item, c) ==> Payload(Take(table, m, item)[c]) == item.payload
  {
    hide Holds, Parse, Payload;
    if item.Opt? {
      FindHasCode(table, item.code);
      if Sets(table, item, c) { PayloadInverts(Find(table, c).value.kind, item.payload); }
    }
  }

  /** Of several options with one code the first that the table can hold counts, and the others are
      passed over. */
  lemma {:induction false} FirstCounts(table: seq<Info>, m: map<byte, Value>, items: seq<Item>, c: byte)
    ensures c in TakeAll(table, m, items) <==> c in m || exists i :: 0 <= i < |items| && Sets(table, items[i], c)
    ensures c in m ==> TakeAll(table, m, items)[c] == m[c]
    ensures forall i :: 0 <= i < |items| && c !in m && items[i].Opt? && Sets(table, items[i], c)
                        && (forall j :: 0 <= j < i ==> !Sets(table, items[j], c)) ==>
              Payload(TakeAll(table, m, items)[c]) == items[i].payload
    decreases |items|
  {
    hide Take, Payload, Sets;
    if items != [] {
      TakeSets(table, m, items[0], c);
      FirstCounts(table, Take(table, m, items[0]), items[1..], c);
      assert forall i :: 0 < i < |items| ==> items[i] == items[1..][i - 1];
      forall i | 0 <= i < |items| && c !in m && items[i].Opt? && Sets(table, items[i], c)
                 && (forall j :: 0 <= j < i ==> !Sets(table, items[j], c))
        ensures Payload(TakeAll(table, m, items)[c]) == items[i].payload
      {
        if i > 0 { assert forall j :: 0 <= j < i - 1 ==> items[1..][j] == items[j + 1]; }
      }
    }
  }

  ghost predicate Writable(table: seq<Info>, m: map<byte, Value>) { Typed(table, m) && Small(table, m, 0x100) }

  lemma TakeKeepsWritable(table: seq<Info>, m: map<byte, Value>, item: Item)
    requires Writable(table, m) && IsItem(item)
    ensures Writable(table, Take(table, m, item))
  {
    hide Holds, Parse, Payload;
    if item.Opt? {
      FindHasCode(table, item.code);
      if Sets(table, item, item.code) { PayloadInverts(Find(table, item.code).value.kind, item.payload); }
    }
  }

  lemma {:induction false} TakeAllKeepsWritable(table: seq<Info>, m: map<byte, Value>, items: seq<Item>)
    requires Writable(table, m) && AreItems(items)
    ensures Writable(table, TakeAll(table, m, items))
    decreases |items|
  {
    hide Writable, Take, IsItem;
    if items != [] {
      TakeKeepsWritable(table, m, items[0]);
      TakeAllKeepsWritable(table, Take(table, m, items[0]), items[1..]);
    }
  }

  lemma {:induction false} SmallAreItems(table: seq<Info>, m: map<byte, Value>, n: nat)
    requires n <= 0x100 && TableFits(table) && Small(table, m, n)
    ensures AreItems(InOrder(table, m, n))
  {
    hide Payload;
    if n > 0 {
      SmallAreItems(table, m, n - 1);
      FindIs(table, n - 1);
    }
  }

  /** Main result for any bytes, well-formed or not: the options read from them are options the table
      can hold, they can be written, and reading what was written gives them again. */
  lemma ReadThenWritten(table: seq<Info>, s: seq<byte>, rest: seq<byte>)
    requires TableFits(table)
    ensures
      var m := Read(table, s, map[]).options;
      && Typed(table, m) && AreItems(InOrder(table, m, 0x100))
      && Read(table, Wire(InOrder(table, m, 0x100)) + ([END] + rest), map[]) == Reading(true, m, rest)
  {
    hide Read, TakeAll, TableFits;
    var m := Read(table, s, map[]).options;
    ReadIsTakeAll(table, s, map[]);
    assert Writable(table, map[]);
    TakeAllKeepsWritable(table, map[], Items(s));
    SmallAreItems(table, m, 0x100);
    WrittenIsRead(table, m, rest);
  }

  lemma Restored<K, V>(m: map<K, V>, n: map<K, V>, k: K)
    requires k in n && n - {k} == m - {k}
    ensures n == m[k := n[k]]
  {
    forall c ensures c in n <==> c in m[k := n[k]] { assert c != k ==> (c in n - {k} <==> c in m - {k}); }
    forall c | c in n ensures n[c] == m[k := n[k]][c] { assert c != k ==> (n - {k})[c] == (m - {k})[c]; }
  }

  /** A stream, as far as it has not been read. */
  class Stream {
    var left: seq<byte>

    constructor (s: seq<byte>)
      ensures left == s
    {
      left := s;
    }

    method Extract(n: nat) returns (ok: bool, bytes: seq<byte>)
      modifies this
      ensures ok == (n <= |old(left)|)
      ensures if ok then bytes == old(left)[..n] && left == old(left)[n..] else left == []
    {
      ok := n <= |left|;
      bytes := if ok then left[..n] else left;
      left := left[|bytes|..];
    }
  }

  method ParseWords(p: seq<byte>) returns (words: seq<word>)
    requires |p| % 2 == 0
    ensures words == ToWords(p)
  {
    hide ToWord;
    words := [];
    var i := 0;
    while i < |p|
      invariant 0 <= i <= |p| && i % 2 == 0 && ToWords(p) == words + ToWords(p[i..])
    {
      assert p[i..][2..] == p[i + 2..];
      Assoc(words, [ToWord(p[i], p[i + 1])], ToWords(p[i + 2..]));
      words := words + [ToWord(p[i], p[i + 1])];
      i := i + 2;
    }
    assert p[i..] == [];
  }

  method ParseIps(p: seq<byte>) returns (ips: seq<Ipv4>)
    requires |p| % 4 == 0
    ensures ips == ToIps(p)
  {
    ips := [];
    var i := 0;
    while i < |p|
      invariant 0 <= i <= |p| && i % 4 == 0 && ToIps(p) == ips + ToIps(p[i..])
    {
      assert p[i..][..4] == p[i..i + 4] && p[i..][4..] == p[i + 4..];
      Assoc(ips, [p[i..i + 4]], ToIps(p[i + 4..]));
      ips := ips + [p[i..i + 4]];
      i := i + 4;
    }
    assert p[i..] == [];
  }

  method ParsePayload(kind: Kind, p: seq<byte>) returns (v: Option<Value>)
    ensures v == Parse(kind, p)
  {
    hide ToWord, ToLong, ToWords, ToIps;
    v := None;
    match kind
    case Words =>
      if |p| % 2 == 0 {
        var words := ParseWords(p);
        v := Some(WordsV(words));
      }
    case Ips =>
      if |p| % 4 == 0 {
        var ips := ParseIps(p);
        v := Some(IpsV(ips));
      }
    case _ => v := Parse(kind, p);
  }

  /** `deserialize` */
  method Deserialize(table: seq<Info>, options: DhcpOption, data: Stream) returns (result: int)
    requires Ascending(table)
    modifies options, data
    ensures var reading := Read(table, old(data.left), old(options.entries));
      && result == (if reading.ok then 0 else -1)
      && options.entries == reading.options
      && (reading.ok ==> data.left == reading.rest)
  {
    hide Parse, Ascending;
    while true
      invariant Ascending(table)
      invariant Read(table, data.left, options.entries) == Read(table, old(data.left), old(options.entries))
      decreases |data.left|
    {
      ghost var s, m := data.left, options.entries;
      var ok, code := data.Extract(1);
      if !ok { return 0; }
      if code[0] == PAD { continue; }
      if code[0] == END { return 0; }
      var size;
      ok, size := data.Extract(1);
      if !ok { return -1; }
      var payload;
      ok, payload := data.Extract(size[0]);
      if !ok { return -1; }
      assert !Cut(s) && Front(s) == Opt(code[0], payload) && After(s) == data.left;
      var info := Describe(table, code[0]);
      if info.None? { continue; }
      var v := ParsePayload(info.value.kind, payload);
      if v.Some? {
        FindHasCode(table, code[0]);
        var inserted := options.InsertValue(table, code[0], v.value);
        if inserted { Restored(m, options.entries, code[0]); }
      }
      assert options.entries == Take(table, m, Front(s));
    }
  }

  // ----- the repository's own table

  lemma Joined(a: seq<Info>, b: seq<Info>)
    requires TableFits(a) && TableFits(b) && a != [] && b != [] && a[|a| - 1].code < b[0].code
    ensures TableFits(a + b) && (a + b)[|a + b| - 1] == b[|b| - 1]
  {
    var t := a + b;
    forall i, j | 0 <= i < j < |t| ensures t[i].code < t[j].code {
      if i < |a| <= j {
        assert i < |a| - 1 ==> a[i].code < a[|a| - 1].code;
        assert 0 < j - |a| ==> b[0].code < b[j - |a|].code;
      }
    }
  }

  ghost predicate Steps(table: seq<Info>) {
    && (forall i | 0 <= i < |table| - 1 :: table[i].code < table[i + 1].code)
    && table != [] && table[0].code != PAD && table[|table| - 1].code != END
  }

  lemma {:induction false} StepsAscend(table: seq<Info>)
    requires Steps(table)
    ensures TableFits(table)
  {
    if |table| > 1 {
      var front := table[..|table| - 1];
      StepsAscend(front);
      assert table == front + [table[|table| - 1]];
    }
  }

  lemma VendorExtensionsFit()
    ensures TableFits(VENDOR_EXTENSIONS)
  {
    assert Steps(VENDOR_EXTENSIONS);
    StepsAscend(VENDOR_EXTENSIONS);
  }

  lemma IpPerHostFit()
    ensures TableFits(IP_PER_HOST)
  {
    assert Steps(IP_PER_HOST);
    StepsAscend(IP_PER_HOST);
  }

  lemma IpPerInterfaceFit()
    ensures TableFits(IP_PER_INTERFACE)
  {
    assert Steps(IP_PER_INTERFACE);
    StepsAscend(IP_PER_INTERFACE);
  }

  lemma LinkAndTcpFit()
    ensures TableFits(LINK_AND_TCP)
  {
    assert Steps(LINK_AND_TCP);
    StepsAscend(LINK_AND_TCP);
  }

  lemma ApplicationFit()
    ensures TableFits(APPLICATION)
  {
    assert Steps(APPLICATION);
    StepsAscend(APPLICATION);
  }

  lemma DhcpExtensionsFit()
    ensures TableFits(DHCP_EXTENSIONS)
  {
    assert Steps(DHCP_EXTENSIONS);
    StepsAscend(DHCP_EXTENSIONS);
  }

  lemma ServersFit()
    ensures TableFits(SERVERS)
  {
    assert Steps(SERVERS);
    StepsAscend(SERVERS);
  }

  lemma TableIsFit()
    ensures TableFits(TABLE)
  {
    hide TableFits;
    VendorExtensionsFit();
    IpPerHostFit();
    IpPerInterfaceFit();
    LinkAndTcpFit();
    ApplicationFit();
    DhcpExtensionsFit();
    ServersFit();
    var t := VENDOR_EXTENSIONS;
    Joined(t, IP_PER_HOST);
    t := t + IP_PER_HOST;
    Joined(t, IP_PER_INTERFACE);
    t := t + IP_PER_INTERFACE;
    Joined(t, LINK_AND_TCP);
    t := t + LINK_AND_TCP;
    Joined(t, APPLICATION);
    t := t + APPLICATION;
    Joined(t, DHCP_EXTENSIONS);
    t := t + DHCP_EXTENSIONS;
    Joined(t, SERVERS);
    t := t + SERVERS;
  }

  /** With that table: every map of options it holds and that fits comes back. */
  method RoundTrip(options: DhcpOption, rest: seq<byte>) returns (ok: bool, read: DhcpOption, data: Stream, result: int)
    requires Typed(TABLE, options.entries)
    ensures ok <==> Small(TABLE, options.entries, 0x100)
    ensures ok ==> result == 0 && read.entries == options.entries && data.left == rest
    ensures fresh(read) && fresh(data)
  {
    hide TABLE, Typed, Small;
    TableIsFit();
    var bytes;
    ok, bytes := Serialize(TABLE, options);
    read := new DhcpOption();
    result := -1;
    data := new Stream(bytes + rest);
    if ok {
      Assoc(Wire(InOrder(TABLE, options.entries, 0x100)), [END], rest);
      WrittenIsRead(TABLE, options.entries, rest);
      result := Deserialize(TABLE, read, data);
    }
  }
}
