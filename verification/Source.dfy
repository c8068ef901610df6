/** fst_source.c: the url of a source and what decoding it restores. */
module SourceUrl {
  import opened Bytes
  import opened Codecs

  type octet = x: nat | x < 256

  type port = x: nat | x < 0x1_0000

  datatype Ip = Ip(a: octet, b: octet, c: octet, d: octet)

  /** The fields a url carries. An empty user name stands for none. */
  datatype Source = Source(ip: Ip, port: port, snodeIp: Ip, snodePort: port, parentIp: Ip, user: seq<byte>)

  const NO_IP := Ip(0, 0, 0, 0)
  const INADDR_NONE := Ip(255, 255, 255, 255)
  const CLEARED := Source(NO_IP, 0, NO_IP, 0, NO_IP, [])

  /** Longest user name the static buffer of its serialiser takes. */
  const NAME_MAX: nat := 62

  //////////////////////////////////////////////////////////////////////////
  // Decimal numbers.
  //////////////////////////////////////////////////////////////////////////

  predicate IsDigit(c: byte) { 0x30 <= c <= 0x39 }

  function DecDigit(n: nat): byte
    requires n < 10
  {
    (0x30 + n) as byte
  }

  function DigitValue(c: byte): int { c as nat - 0x30 }

  lemma DecDigitValue(n: nat)
    requires n < 10
    ensures IsDigit(DecDigit(n)) && DigitValue(DecDigit(n)) == n
  {
    ByteOfNat(0x30 + n);
    if n == 0 {} else if n == 1 {} else if n == 2 {} else if n == 3 {} else if n == 4 {}
    else if n == 5 {} else if n == 6 {} else if n == 7 {} else if n == 8 {} else {}
  }

  function Dec(n: nat): (s: seq<byte>)
    ensures s != []
  {
    if n < 10 then [DecDigit(n)] else Dec(n / 10) + [DecDigit(n % 10)]
  }

  function ParseDec(s: seq<byte>): Option<int> {
    if s == [] then Some(0)
    else match ParseDec(s[..|s| - 1])
      case None => None
      case Some(v) => if IsDigit(s[|s| - 1]) then Some(10 * v + DigitValue(s[|s| - 1])) else None
  }

  lemma {:induction false} DecRoundTrip(n: nat)
    ensures ParseDec(Dec(n)) == Some(n)
    ensures forall c :: c in Dec(n) ==> IsDigit(c)
  {
    hide DecDigit, DigitValue, IsDigit;
    if n < 10 {
      DecDigitValue(n);
      assert [DecDigit(n)][..0] == [];
    } else {
      DecRoundTrip(n / 10);
      DecDigitValue(n % 10);
      var s := Dec(n);
      assert s[..|s| - 1] == Dec(n / 10);
    }
  }

  //////////////////////////////////////////////////////////////////////////
  // Splitting and joining.
  //////////////////////////////////////////////////////////////////////////

  /** The parts between separators, as repeated string_sep gives them. */
  function Split(s: seq<byte>, sep: byte): (parts: seq<seq<byte>>)
    ensures |parts| > 0
  {
    if s == [] then [[]]
    else
      var rest := Split(s[1..], sep);
      if s[0] == sep then [[]] + rest else [[s[0]] + rest[0]] + rest[1..]
  }

  /** What comes before the first separator. */
  function Head(s: seq<byte>, sep: byte): (h: seq<byte>)
    ensures |h| <= |s|
  {
    if s == [] || s[0] == sep then [] else [s[0]] + Head(s[1..], sep)
  }

  lemma {:induction false} HeadIs(part: seq<byte>, rest: seq<byte>, sep: byte)
    requires sep !in part
    ensures Head(part + [sep] + rest, sep) == part
  {
    if part != [] {
      assert part == [part[0]] + part[1..];
      HeadIs(part[1..], rest, sep);
      assert (part + [sep] + rest)[1..] == part[1..] + [sep] + rest;
    }
  }

  function Join(parts: seq<seq<byte>>, sep: byte): seq<byte> {
    if parts == [] then [] else if |parts| == 1 then parts[0] else parts[0] + [sep] + Join(parts[1..], sep)
  }

  lemma {:induction false} SplitOne(part: seq<byte>, sep: byte)
    requires sep !in part
    ensures Split(part, sep) == [part]
  {
    if part != [] {
      assert part == [part[0]] + part[1..];
      SplitOne(part[1..], sep);
    }
  }

  lemma {:induction false} SplitFirst(part: seq<byte>, rest: seq<byte>, sep: byte)
    requires sep !in part
    ensures Split(part + [sep] + rest, sep) == [part] + Split(rest, sep)
  {
    var s := part + [sep] + rest;
    if part == [] {
      assert s[1..] == rest;
    } else {
      assert part == [part[0]] + part[1..];
      SplitFirst(part[1..], rest, sep);
      assert s[1..] == part[1..] + [sep] + rest;
    }
  }

  lemma {:induction false} SplitJoin(parts: seq<seq<byte>>, sep: byte)
    requires parts != [] && forall p :: p in parts ==> sep !in p
    ensures Split(Join(parts, sep), sep) == parts
  {
    assert parts[0] in parts;
    if |parts| == 1 {
      SplitOne(parts[0], sep);
    } else {
      SplitFirst(parts[0], Join(parts[1..], sep), sep);
      SplitJoin(parts[1..], sep);
    }
  }

  //////////////////////////////////////////////////////////////////////////
  // Addresses.
  //////////////////////////////////////////////////////////////////////////

  function IpText(ip: Ip): seq<byte> {
    Join([Dec(ip.a), Dec(ip.b), Dec(ip.c), Dec(ip.d)], 0x2e)
  }

  predicate IsOctet(v: Option<int>) { v.Some? && 0 <= v.value < 256 }

  /** net_ip for dotted decimal addresses; anything else is no address. */
  function ParseIp(s: seq<byte>): Ip {
    var p := Split(s, 0x2e);
    if |p| == 4 && IsOctet(ParseDec(p[0])) && IsOctet(ParseDec(p[1])) && IsOctet(ParseDec(p[2])) &&
       IsOctet(ParseDec(p[3]))
    then Ip(ParseDec(p[0]).value, ParseDec(p[1]).value, ParseDec(p[2]).value, ParseDec(p[3]).value)
    else INADDR_NONE
  }

  lemma {:induction false} IpRoundTrip(ip: Ip)
    ensures ParseIp(IpText(ip)) == ip
  {
    hide Dec, ParseDec, IsDigit, Split, Join;
    var p := [Dec(ip.a), Dec(ip.b), Dec(ip.c), Dec(ip.d)];
    DecNoDot(ip.a);
    DecNoDot(ip.b);
    DecNoDot(ip.c);
    DecNoDot(ip.d);
    SplitJoin(p, 0x2e);
  }

  lemma {:induction false} DecNoDot(n: nat)
    ensures 0x2e !in Dec(n) && 0x26 !in Dec(n) && 0x3d !in Dec(n) && ParseDec(Dec(n)) == Some(n)
  {
    hide Dec, ParseDec;
    DecRoundTrip(n);
  }

  //////////////////////////////////////////////////////////////////////////
  // User names cut off by the serialiser's buffer.
  //////////////////////////////////////////////////////////////////////////

  function Cut(s: seq<byte>): seq<byte> {
    if |s| > NAME_MAX then s[..NAME_MAX] else s
  }

  /** The name ends with a percent sign, or with one and the digit 2. */
  predicate EndsEscaped(s: seq<byte>) {
    (|s| >= 1 && s[|s| - 1] == 0x25) || (|s| >= 2 && s[|s| - 2..] == [0x25, 0x32])
  }

  /** Decoding a part of an encoded name gives the whole name only when two characters
      are missing of a final %25, or of %252. */
  lemma {:induction false} CutDecodes(s: seq<byte>, n: nat)
    requires n < |UrlEncode(s)|
    ensures UrlDecode(UrlEncode(s)[..n]) == s <==> n == |UrlEncode(s)| - 2 && EndsEscaped(s)
  {
    hide UrlChar, UrlDecode, EndsEscaped;
    var c, t := s[0], s[1..];
    var e := UrlChar(c);
    assert s == [c] + t;
    if n < |e| {
      CutInside(c, t, n);
      assert UrlEncode(s)[..n] == e[..n];
    } else {
      assert UrlEncode(s)[..n] == e + UrlEncode(t)[..n - |e|];
      UrlCharDecodes(c, UrlEncode(t)[..n - |e|]);
      CutDecodes(t, n - |e|);
      CutBehind(c, t, n);
    }
  }

  /** The cut is behind the first character: it makes no difference to the end. */
  lemma CutBehind(c: byte, t: seq<byte>, n: nat)
    requires |UrlChar(c)| <= n < |UrlChar(c)| + |UrlEncode(t)|
    ensures n - |UrlChar(c)| == |UrlEncode(t)| - 2 && EndsEscaped(t) <==>
            n == |UrlEncode([c] + t)| - 2 && EndsEscaped([c] + t)
  {
    hide UrlEncode, UrlChar, IsPlain, EndsEscaped;
    EncodedFirst(c, t);
    if |UrlEncode(t)| >= 2 {
      EndsAlike(c, t);
    }
  }

  lemma EndsAlike(c: byte, t: seq<byte>)
    requires |UrlEncode(t)| >= 2
    ensures EndsEscaped(t) <==> EndsEscaped([c] + t)
  {
    hide UrlEncode, UrlChar, IsPlain, EndsEscaped;
    OneEncoded(t);
    PercentIsNot();
    if |t| >= 2 {
      LongEndsAlike(c, t);
    } else {
      OneEndsAlike(c, t[0]);
      assert t == [t[0]] && [c] + t == [c, t[0]];
    }
  }

  lemma LongEndsAlike(c: byte, t: seq<byte>)
    requires |t| >= 2
    ensures EndsEscaped(t) <==> EndsEscaped([c] + t)
  {
    assert ([c] + t)[|t| - 1..] == t[|t| - 2..];
  }

  lemma OneEndsAlike(c: byte, d: byte)
    requires d != 0x32
    ensures EndsEscaped([d]) <==> EndsEscaped([c, d])
  {
    assert [c, d][0..] == [c, d];
  }

  lemma EncodedFirst(c: byte, t: seq<byte>)
    ensures UrlEncode([c] + t) == UrlChar(c) + UrlEncode(t)
  {
    assert ([c] + t)[1..] == t;
  }

  /** How long short strings are encoded. */
  lemma OneEncoded(t: seq<byte>)
    ensures |UrlEncode(t)| == 0 <==> t == []
    ensures |UrlEncode(t)| == 1 <==> |t| == 1 && IsPlain(t[0])
  {
    UrlEncodeIsPlain(t);
    if |t| == 1 {
      assert t[1..] == [];
    }
  }

  lemma PercentIsNot()
    ensures !IsPlain(0x25) && IsPlain(0x32) && HexDigit(0x25 >> 4) == 0x32
  {
  }

  /** The cut is inside the first character. */
  lemma CutInside(c: byte, t: seq<byte>, n: nat)
    requires n < |UrlChar(c)|
    ensures UrlDecode(UrlChar(c)[..n]) == [c] + t <==>
            n == |UrlEncode([c] + t)| - 2 && EndsEscaped([c] + t)
  {
    hide HexDigit, HexValue, Nibbles, UrlEncode, IsPlain, UrlDecode;
    OneEncoded(t);
    EncodedFirst(c, t);
    PercentIsNot();
    HexNotPlus(c >> 4);
    CutDecoded(c, n);
    var s, h := [c] + t, HexDigit(c >> 4);
    assert |s| == 1 + |t| && s[0] == c && (|t| > 0 ==> s[1] == t[0]);
    if n == 0 {
      assert [0x25, h][..0] == [];
      assert |t| == 1 ==> s[0..] == [c, t[0]];
    } else if n == 1 {
      assert |UrlChar(c)| == 3 && !IsPlain(c);
      assert [0x25, h][..1] == [0x25];
      assert t == [] ==> s == [c];
    } else {
      assert |UrlChar(c)| == 3 && !IsPlain(c);
      assert [0x25, h][..2] == [0x25, h];
      assert |t| == 1 ==> s[0..] == [c, t[0]] && s == [c, t[0]];
    }
  }

  /** What part of an encoded character decodes to. */
  lemma CutDecoded(c: byte, n: nat)
    requires n < |UrlChar(c)|
    ensures UrlDecode(UrlChar(c)[..n]) == [0x25, HexDigit(c >> 4)][..n]
  {
    hide HexDigit, HexValue, Nibbles, IsPlain;
    HexNotPlus(c >> 4);
    PartDecodes(HexDigit(c >> 4));
    assert UrlChar(c)[..n] == [0x25, HexDigit(c >> 4)][..n];
    assert [0x25, HexDigit(c >> 4)][..0] == [] && [0x25, HexDigit(c >> 4)][..1] == [0x25];
    assert [0x25, HexDigit(c >> 4)][..2] == [0x25, HexDigit(c >> 4)];
  }

  /** A percent sign without two hex digits behind it stays. */
  lemma PartDecodes(h: byte)
    requires h != 0x2b
    ensures UrlDecode([0x25]) == [0x25] && UrlDecode([0x25, h]) == [0x25, h]
  {
    hide HexValue, Nibbles;
    assert [0x25, h][1..] == [h] && [h][1..] == [] && [0x25 as byte][1..] == [];
    assert UrlDecode([h]) == [h];
  }

  lemma HexNotPlus(v: byte)
    requires v < 16
    ensures HexDigit(v) != 0x2b
  {
  }

  //////////////////////////////////////////////////////////////////////////
  // The url.
  //////////////////////////////////////////////////////////////////////////

  datatype Key = KeyIp | KeyPort | KeySnodeIp | KeySnodePort | KeyParentIp | KeyUser

  /** ip, port, sip, sport, pip, user. */
  function KeyName(k: Key): seq<byte> {
    match k
    case KeyIp => [0x69, 0x70]
    case KeyPort => [0x70, 0x6f, 0x72, 0x74]
    case KeySnodeIp => [0x73, 0x69, 0x70]
    case KeySnodePort => [0x73, 0x70, 0x6f, 0x72, 0x74]
    case KeyParentIp => [0x70, 0x69, 0x70]
    case KeyUser => [0x75, 0x73, 0x65, 0x72]
  }

  /** fst_source_url_options. */
  function Keys(): seq<Key> {
    [KeyIp, KeyPort, KeySnodeIp, KeySnodePort, KeyParentIp, KeyUser]
  }

  /** lookup_url_option. */
  function Lookup(name: seq<byte>): Option<Key> {
    if name == KeyName(KeyIp) then Some(KeyIp)
    else if name == KeyName(KeyPort) then Some(KeyPort)
    else if name == KeyName(KeySnodeIp) then Some(KeySnodeIp)
    else if name == KeyName(KeySnodePort) then Some(KeySnodePort)
    else if name == KeyName(KeyParentIp) then Some(KeyParentIp)
    else if name == KeyName(KeyUser) then Some(KeyUser)
    else None
  }

  function SpewIp(ip: Ip): seq<byte> {
    if ip == NO_IP then [] else IpText(ip)
  }

  function SpewPort(p: port): seq<byte> {
    if p == 0 then [] else Dec(p)
  }

  /** The serialisers; nothing stands for no output. */
  function Spew(k: Key, s: Source): seq<byte> {
    match k
    case KeyIp => SpewIp(s.ip)
    case KeyPort => SpewPort(s.port)
    case KeySnodeIp => SpewIp(s.snodeIp)
    case KeySnodePort => SpewPort(s.snodePort)
    case KeyParentIp => SpewIp(s.parentIp)
    case KeyUser => if s.user == [] then [] else Cut(UrlEncode(s.user))
  }

  /** The deserialisers: no source when a value is wrong. */
  function Parse(k: Key, value: seq<byte>, s: Source): Option<Source> {
    if k.KeyUser? then Some(s.(user := UrlDecode(value)))
    else if k.KeyPort? || k.KeySnodePort? then
      match ParseDec(value)
      case None => None
      case Some(p) =>
        if p < 0 || p >= 0x1_0000 then None
        else if k.KeyPort? then Some(s.(port := p)) else Some(s.(snodePort := p))
    else
      var ip := ParseIp(value);
      if ip == NO_IP || ip == INADDR_NONE then None
      else if k.KeyIp? then Some(s.(ip := ip))
      else if k.KeySnodeIp? then Some(s.(snodeIp := ip)) else Some(s.(parentIp := ip))
  }

  function OptionText(k: Key, value: seq<byte>): seq<byte> {
    KeyName(k) + [0x3d] + value
  }

  /** The options of the url, those without a value left out. */
  function Options(keys: seq<Key>, s: Source): seq<seq<byte>> {
    if keys == [] then []
    else (if Spew(keys[0], s) == [] then [] else [OptionText(keys[0], Spew(keys[0], s))]) + Options(keys[1..], s)
  }

  /** FastTrack:? */
  function Prefix(): seq<byte> {
    [0x46, 0x61, 0x73, 0x74, 0x54, 0x72, 0x61, 0x63, 0x6b, 0x3a, 0x3f]
  }

  /** url_create_new. */
  function Encode(s: Source): seq<byte> {
    Prefix() + Join(Options(Keys(), s), 0x26)
  }

  /** The option of a key, when the others have no value. */
  lemma OnlyOption(k: Key, s: Source)
    requires forall j :: Spew(j, s) != [] <==> j == k
    ensures Encode(s) == Prefix() + OptionText(k, Spew(k, s))
  {
    hide Spew, OptionText, Prefix, Options;
    assert k in Keys();
    OnlyOneOf(Keys(), k, s);
  }

  lemma {:induction false} OnlyOneOf(keys: seq<Key>, k: Key, s: Source)
    requires forall j :: Spew(j, s) != [] <==> j == k
    requires forall i, j :: 0 <= i < j < |keys| ==> keys[i] != keys[j]
    ensures Options(keys, s) == if k in keys then [OptionText(k, Spew(k, s))] else []
  {
    hide Spew, OptionText;
    if keys != [] {
      var rest := keys[1..];
      assert keys == [keys[0]] + rest;
      OnlyOneOf(rest, k, s);
    }
  }

  /** FastTrack:?, a name with its equals sign, and a value. */
  function Named(name: seq<byte>, value: seq<byte>): seq<byte> {
    [0x46, 0x61, 0x73, 0x74, 0x54, 0x72, 0x61, 0x63, 0x6b, 0x3a, 0x3f] + name + value
  }

  /** Four decimal numbers and the dots between them. */
  function Dotted(ip: Ip): seq<byte> {
    Dec(ip.a) + [0x2e] + Dec(ip.b) + [0x2e] + Dec(ip.c) + [0x2e] + Dec(ip.d)
  }

  lemma IpTextIs(ip: Ip)
    ensures IpText(ip) == Dotted(ip) != []
  {
    hide Dec, Join;
    FourJoined(Dec(ip.a), Dec(ip.b), Dec(ip.c), Dec(ip.d), 0x2e);
  }

  lemma FourJoined(a: seq<byte>, b: seq<byte>, c: seq<byte>, d: seq<byte>, sep: byte)
    ensures Join([a, b, c, d], sep) == a + [sep] + b + [sep] + c + [sep] + d
  {
    assert [a, b, c, d][1..] == [b, c, d] && [b, c, d][1..] == [c, d] && [c, d][1..] == [d];
    assert Join([c, d], sep) == c + [sep] + d;
    assert Join([b, c, d], sep) == b + [sep] + (c + [sep] + d);
    assert Join([a, b, c, d], sep) == a + [sep] + (b + [sep] + (c + [sep] + d));
  }

  /** The url of a source with nothing but an address: ip=. */
  lemma IpOnly(a: Ip)
    requires a != NO_IP
    ensures Encode(CLEARED.(ip := a)) == Named([0x69, 0x70, 0x3d], Dotted(a))
  {
    hide Dec, UrlEncode, Encode, IpText, Dotted;
    IpTextIs(a);
    OnlyOption(KeyIp, CLEARED.(ip := a));
  }

  /** The url of a source with nothing but a supernode's address: sip=. */
  lemma SnodeIpOnly(a: Ip)
    requires a != NO_IP
    ensures Encode(CLEARED.(snodeIp := a)) == Named([0x73, 0x69, 0x70, 0x3d], Dotted(a))
  {
    hide Dec, UrlEncode, Encode, IpText, Dotted;
    IpTextIs(a);
    OnlyOption(KeySnodeIp, CLEARED.(snodeIp := a));
  }

  /** The url of a source with nothing but a parent's address: pip=. */
  lemma ParentIpOnly(a: Ip)
    requires a != NO_IP
    ensures Encode(CLEARED.(parentIp := a)) == Named([0x70, 0x69, 0x70, 0x3d], Dotted(a))
  {
    hide Dec, UrlEncode, Encode, IpText, Dotted;
    IpTextIs(a);
    OnlyOption(KeyParentIp, CLEARED.(parentIp := a));
  }

  /** The url of a source with nothing but a port: port=. */
  lemma PortOnly(p: port)
    requires p != 0
    ensures Encode(CLEARED.(port := p)) == Named([0x70, 0x6f, 0x72, 0x74, 0x3d], Dec(p))
  {
    hide Dec, UrlEncode, Encode, IpText;
    OnlyOption(KeyPort, CLEARED.(port := p));
  }

  /** The url of a source with nothing but a supernode's port: sport=. */
  lemma SnodePortOnly(p: port)
    requires p != 0
    ensures Encode(CLEARED.(snodePort := p)) == Named([0x73, 0x70, 0x6f, 0x72, 0x74, 0x3d], Dec(p))
  {
    hide Dec, UrlEncode, Encode, IpText;
    OnlyOption(KeySnodePort, CLEARED.(snodePort := p));
  }

  /** The url of a source with nothing but a user name: user=. */
  lemma UserOnly(u: seq<byte>)
    requires u != []
    ensures Encode(CLEARED.(user := u)) == Named([0x75, 0x73, 0x65, 0x72, 0x3d], Cut(UrlEncode(u)))
  {
    NameEncoded(u);
    hide Dec, UrlEncode, Encode, IpText, Cut;
    OnlyOption(KeyUser, CLEARED.(user := u));
  }

  /** The ten digits, and that a number ends with its last one. */
  lemma DecText(n: nat)
    ensures [Dec(0), Dec(1), Dec(2), Dec(3), Dec(4), Dec(5), Dec(6), Dec(7), Dec(8), Dec(9)] ==
            [[0x30], [0x31], [0x32], [0x33], [0x34], [0x35], [0x36], [0x37], [0x38], [0x39]]
    ensures n >= 10 ==> Dec(n) == Dec(n / 10) + Dec(n % 10)
  {
  }

  /** The url of a source with every field set: the options in order, and an ampersand
      between each two. */
  lemma {:induction false} EveryField(s: Source)
    requires forall k :: Spew(k, s) != []
    ensures Encode(s) ==
            [0x46, 0x61, 0x73, 0x74, 0x54, 0x72, 0x61, 0x63, 0x6b, 0x3a, 0x3f] +
            (([0x69, 0x70, 0x3d] + Dotted(s.ip)) + [0x26] + ([0x70, 0x6f, 0x72, 0x74, 0x3d] + Dec(s.port)) + [0x26] +
             ([0x73, 0x69, 0x70, 0x3d] + Dotted(s.snodeIp)) + [0x26] +
             ([0x73, 0x70, 0x6f, 0x72, 0x74, 0x3d] + Dec(s.snodePort)) + [0x26] +
             ([0x70, 0x69, 0x70, 0x3d] + Dotted(s.parentIp)) + [0x26] +
             ([0x75, 0x73, 0x65, 0x72, 0x3d] + Cut(UrlEncode(s.user))))
  {
    hide Dec, UrlEncode, Dotted, Cut, Join, Options, Spew, OptionText;
    EveryOption(Keys(), s);
    assert Options(Keys(), s) ==
           [OptionText(KeyIp, Spew(KeyIp, s)), OptionText(KeyPort, Spew(KeyPort, s)),
            OptionText(KeySnodeIp, Spew(KeySnodeIp, s)), OptionText(KeySnodePort, Spew(KeySnodePort, s)),
            OptionText(KeyParentIp, Spew(KeyParentIp, s)), OptionText(KeyUser, Spew(KeyUser, s))];
    OptionTexts(s);
    SixJoined([0x69, 0x70, 0x3d] + Dotted(s.ip), [0x70, 0x6f, 0x72, 0x74, 0x3d] + Dec(s.port),
              [0x73, 0x69, 0x70, 0x3d] + Dotted(s.snodeIp), [0x73, 0x70, 0x6f, 0x72, 0x74, 0x3d] + Dec(s.snodePort),
              [0x70, 0x69, 0x70, 0x3d] + Dotted(s.parentIp),
              [0x75, 0x73, 0x65, 0x72, 0x3d] + Cut(UrlEncode(s.user)), 0x26);
  }

  lemma OptionTexts(s: Source)
    requires forall k :: Spew(k, s) != []
    ensures OptionText(KeyIp, Spew(KeyIp, s)) == [0x69, 0x70, 0x3d] + Dotted(s.ip)
    ensures OptionText(KeyPort, Spew(KeyPort, s)) == [0x70, 0x6f, 0x72, 0x74, 0x3d] + Dec(s.port)
    ensures OptionText(KeySnodeIp, Spew(KeySnodeIp, s)) == [0x73, 0x69, 0x70, 0x3d] + Dotted(s.snodeIp)
    ensures OptionText(KeySnodePort, Spew(KeySnodePort, s)) == [0x73, 0x70, 0x6f, 0x72, 0x74, 0x3d] + Dec(s.snodePort)
    ensures OptionText(KeyParentIp, Spew(KeyParentIp, s)) == [0x70, 0x69, 0x70, 0x3d] + Dotted(s.parentIp)
    ensures OptionText(KeyUser, Spew(KeyUser, s)) == [0x75, 0x73, 0x65, 0x72, 0x3d] + Cut(UrlEncode(s.user))
  {
    hide Dec, UrlEncode, IpText, Dotted, Cut;
    IpTextIs(s.ip);
    IpTextIs(s.snodeIp);
    IpTextIs(s.parentIp);
  }

  lemma {:induction false} EveryOption(keys: seq<Key>, s: Source)
    requires forall k :: Spew(k, s) != []
    ensures Options(keys, s) == seq(|keys|, i requires 0 <= i < |keys| => OptionText(keys[i], Spew(keys[i], s)))
  {
    hide Spew, OptionText;
    if keys != [] {
      EveryOption(keys[1..], s);
    }
  }

  lemma SixJoined(a: seq<byte>, b: seq<byte>, c: seq<byte>, d: seq<byte>, e: seq<byte>, f: seq<byte>, sep: byte)
    ensures Join([a, b, c, d, e, f], sep) == a + [sep] + b + [sep] + c + [sep] + d + [sep] + e + [sep] + f
  {
    FourJoined(c, d, e, f, sep);
    assert [a, b, c, d, e, f][1..] == [b, c, d, e, f] && [b, c, d, e, f][1..] == [c, d, e, f];
    assert Join([b, c, d, e, f], sep) == b + [sep] + Join([c, d, e, f], sep);
    assert Join([a, b, c, d, e, f], sep) == a + [sep] + Join([b, c, d, e, f], sep);
  }

  /** One option: those without key, value or a known key are skipped. */
  function Apply(s: Source, text: seq<byte>): Option<Source> {
    var key := Head(text, 0x3d);
    if key == [] || |text| <= |key| + 1 then Some(s)
    else match Lookup(key)
      case None => Some(s)
      case Some(k) => Parse(k, text[|key| + 1..], s)
  }

  function ApplyAll(s: Source, texts: seq<seq<byte>>): Option<Source>
    decreases |texts|
  {
    if texts == [] then Some(s)
    else match Apply(s, texts[0])
      case None => None
      case Some(s1) => ApplyAll(s1, texts[1..])
  }

  /** fst_source_decode for urls of the new format; none of the others is decoded here. */
  function Decode(url: seq<byte>): Option<Source> {
    if Prefix() <= url then ApplyAll(CLEARED, Split(url[|Prefix()|..], 0x26)) else None
  }

  //////////////////////////////////////////////////////////////////////////
  // Round trip.
  //////////////////////////////////////////////////////////////////////////

  /** What decoding makes of the fields of these keys. */
  function Restore(keys: seq<Key>, s: Source, acc: Source): Option<Source> {
    if keys == [] then Some(acc)
    else
      var v := Spew(keys[0], s);
      if v == [] then Restore(keys[1..], s, acc)
      else match Parse(keys[0], v, acc)
        case None => None
        case Some(acc1) => Restore(keys[1..], s, acc1)
  }

  lemma KeyNames(k: Key)
    ensures Lookup(KeyName(k)) == Some(k) && KeyName(k) != []
    ensures 0x3d !in KeyName(k) && 0x26 !in KeyName(k)
  {
  }

  lemma ApplyOption(k: Key, value: seq<byte>, s: Source)
    requires value != []
    ensures Apply(s, OptionText(k, value)) == Parse(k, value, s)
  {
    hide KeyName, Lookup, Parse, Head;
    KeyNames(k);
    HeadIs(KeyName(k), value, 0x3d);
    assert OptionText(k, value)[|KeyName(k)| + 1..] == value;
  }

  lemma {:induction false} ApplyOptions(keys: seq<Key>, s: Source, acc: Source)
    ensures ApplyAll(acc, Options(keys, s)) == Restore(keys, s, acc)
  {
    hide Spew, Parse, Apply, OptionText;
    if keys != [] {
      var v, rest := Spew(keys[0], s), Options(keys[1..], s);
      if v == [] {
        assert [] + rest == rest;
        ApplyOptions(keys[1..], s, acc);
      } else {
        ApplyOption(keys[0], v, acc);
        assert ([OptionText(keys[0], v)] + rest)[1..] == rest;
        match Parse(keys[0], v, acc)
        case None =>
        case Some(acc1) => ApplyOptions(keys[1..], s, acc1);
      }
    }
  }

  /** No value contains the separator of options. */
  lemma {:induction false} ValueHasNoSeparator(k: Key, s: Source)
    ensures 0x26 !in Spew(k, s)
  {
    hide Dec, Split, UrlEncode, IsPlain;
    IpHasNoSeparator(s.ip);
    IpHasNoSeparator(s.snodeIp);
    IpHasNoSeparator(s.parentIp);
    DecNoDot(s.port);
    DecNoDot(s.snodePort);
    UrlEncodeIsPlain(s.user);
    AmpersandIsNot();
  }

  lemma AmpersandIsNot()
    ensures !IsPlain(0x26)
  {
  }

  lemma IpHasNoSeparator(ip: Ip)
    ensures 0x26 !in IpText(ip)
  {
    hide Dec;
    DecNoDot(ip.a);
    DecNoDot(ip.b);
    DecNoDot(ip.c);
    DecNoDot(ip.d);
    JoinHasNone([Dec(ip.a), Dec(ip.b), Dec(ip.c), Dec(ip.d)], 0x2e, 0x26);
  }

  lemma {:induction false} JoinHasNone(parts: seq<seq<byte>>, sep: byte, c: byte)
    requires c != sep && forall p :: p in parts ==> c !in p
    ensures c !in Join(parts, sep)
  {
    if |parts| > 1 {
      assert parts[0] in parts;
      JoinHasNone(parts[1..], sep, c);
    } else if |parts| == 1 {
      assert parts[0] in parts;
    }
  }

  lemma {:induction false} OptionsHaveNoSeparator(keys: seq<Key>, s: Source)
    ensures forall p: seq<byte> :: p in Options(keys, s) ==> 0x26 !in p
  {
    hide KeyName, Spew;
    if keys != [] {
      OptionsHaveNoSeparator(keys[1..], s);
      KeyNames(keys[0]);
      ValueHasNoSeparator(keys[0], s);
    }
  }

  /** Decoding an encoded source restores its fields one by one. */
  lemma DecodeEncoded(s: Source)
    ensures Decode(Encode(s)) == Restore(Keys(), s, CLEARED)
  {
    hide Options, Keys, Restore, Split, Join, Apply, Prefix;
    var o := Options(Keys(), s);
    OptionsHaveNoSeparator(Keys(), s);
    ApplyOptions(Keys(), s, CLEARED);
    assert Encode(s)[|Prefix()|..] == Join(o, 0x26);
    if o == [] {
      NoOptions();
    } else {
      SplitJoin(o, 0x26);
    }
  }

  lemma NoOptions()
    ensures ApplyAll(CLEARED, Split(Join([], 0x26), 0x26)) == ApplyAll(CLEARED, [])
  {
    assert Split([], 0x26) == [[]];
    assert Apply(CLEARED, []) == Some(CLEARED);
    var none: seq<seq<byte>> := [[]];
    assert none[1..] == [];
  }

  /** No address of the source is 255.255.255.255. */
  predicate HasAddresses(s: Source) {
    s.ip != INADDR_NONE && s.snodeIp != INADDR_NONE && s.parentIp != INADDR_NONE
  }

  function CutName(user: seq<byte>): seq<byte> {
    UrlDecode(Cut(UrlEncode(user)))
  }

  /** The encoded name fits its buffer, or what is cut off does not matter. */
  predicate NameFits(user: seq<byte>) {
    |UrlEncode(user)| <= NAME_MAX || (|UrlEncode(user)| == NAME_MAX + 2 && EndsEscaped(user))
  }

  lemma CutNameIff(user: seq<byte>)
    ensures CutName(user) == user <==> NameFits(user)
  {
    hide UrlEncode, UrlDecode, EndsEscaped;
    UrlRoundTrip(user);
    if |UrlEncode(user)| > NAME_MAX {
      CutDecodes(user, NAME_MAX);
    }
  }

  lemma NameEncoded(user: seq<byte>)
    ensures user != [] ==> Cut(UrlEncode(user)) != []
    ensures CutName([]) == []
  {
    UrlEncodeIsPlain(user);
  }

  lemma {:induction false} PortRestored(p: port)
    ensures ParseDec(Dec(p)) == Some(p)
  {
    hide Dec, ParseDec;
    DecRoundTrip(p);
  }

  lemma {:induction false} IpRestored(ip: Ip)
    ensures IpText(ip) != [] && ParseIp(IpText(ip)) == ip
  {
    hide ParseIp, Dec;
    IpRoundTrip(ip);
  }

  /** One field. */
  function Step(k: Key, s: Source, acc: Source): Option<Source> {
    var v := Spew(k, s);
    if v == [] then Some(acc) else Parse(k, v, acc)
  }

  lemma RestoreStep(k: Key, rest: seq<Key>, s: Source, acc: Source)
    ensures Restore([k] + rest, s, acc) ==
            match Step(k, s, acc) { case None => None case Some(acc1) => Restore(rest, s, acc1) }
  {
    hide Spew, Parse;
    assert ([k] + rest)[1..] == rest;
  }

  lemma {:induction false} IpSteps(s: Source, acc: Source)
    ensures acc.ip == NO_IP ==> Step(KeyIp, s, acc) == if s.ip == INADDR_NONE then None else Some(acc.(ip := s.ip))
    ensures acc.snodeIp == NO_IP ==>
              Step(KeySnodeIp, s, acc) == if s.snodeIp == INADDR_NONE then None else Some(acc.(snodeIp := s.snodeIp))
    ensures acc.parentIp == NO_IP ==>
              Step(KeyParentIp, s, acc) ==
                if s.parentIp == INADDR_NONE then None else Some(acc.(parentIp := s.parentIp))
  {
    hide ParseIp, IpText;
    IpRestored(s.ip);
    IpRestored(s.snodeIp);
    IpRestored(s.parentIp);
  }

  lemma OtherSteps(s: Source, acc: Source)
    ensures acc.port == 0 ==> Step(KeyPort, s, acc) == Some(acc.(port := s.port))
    ensures acc.snodePort == 0 ==> Step(KeySnodePort, s, acc) == Some(acc.(snodePort := s.snodePort))
    ensures acc.user == [] ==> Step(KeyUser, s, acc) == Some(acc.(user := CutName(s.user)))
  {
    hide Dec, ParseDec, UrlEncode, UrlDecode, Cut;
    PortRestored(s.port);
    PortRestored(s.snodePort);
    NameEncoded(s.user);
  }

  /** All fields come back, but for a name that was cut off; a bad address spoils the url. */
  lemma {:induction false} RestoreAll(s: Source)
    ensures Restore(Keys(), s, CLEARED) == if HasAddresses(s) then Some(s.(user := CutName(s.user))) else None
  {
    hide Step, CutName, Restore;
    var a1 := CLEARED.(ip := s.ip);
    var a2 := a1.(port := s.port);
    var a3 := a2.(snodeIp := s.snodeIp);
    var a4 := a3.(snodePort := s.snodePort);
    var a5 := a4.(parentIp := s.parentIp);
    var k5, k4, k3 := [KeyUser], [KeyParentIp, KeyUser], [KeySnodePort, KeyParentIp, KeyUser];
    var k2, k1 := [KeySnodeIp] + k3, [KeyPort] + ([KeySnodeIp] + k3);
    assert Keys() == [KeyIp] + k1 && k4 == [KeyParentIp] + k5 && k3 == [KeySnodePort] + k4 && k5 == [KeyUser] + [];
    IpSteps(s, CLEARED);
    RestoreStep(KeyIp, k1, s, CLEARED);
    OtherSteps(s, a1);
    RestoreStep(KeyPort, k2, s, a1);
    IpSteps(s, a2);
    RestoreStep(KeySnodeIp, k3, s, a2);
    OtherSteps(s, a3);
    RestoreStep(KeySnodePort, k4, s, a3);
    IpSteps(s, a4);
    RestoreStep(KeyParentIp, k5, s, a4);
    OtherSteps(s, a5);
    RestoreStep(KeyUser, [], s, a5);
    RestoreNone(s, a5.(user := CutName(s.user)));
  }

  lemma RestoreNone(s: Source, acc: Source)
    ensures Restore([], s, acc) == Some(acc)
  {
  }

  /** Decoding restores a source if and only if none of its addresses is
      255.255.255.255 and its name survives the serialiser's buffer. */
  lemma UrlRestores(s: Source)
    ensures Decode(Encode(s)) == Some(s) <==> HasAddresses(s) && NameFits(s.user)
  {
    hide Decode, Encode, Restore, CutName, NameFits, HasAddresses;
    DecodeEncoded(s);
    RestoreAll(s);
    CutNameIff(s.user);
  }

  //////////////////////////////////////////////////////////////////////////
  // The loops.
  //////////////////////////////////////////////////////////////////////////

  /** Every part with a separator behind it. */
  function Terminated(parts: seq<seq<byte>>, sep: byte): seq<byte> {
    if parts == [] then [] else parts[0] + [sep] + Terminated(parts[1..], sep)
  }

  lemma {:induction false} TerminatedJoin(parts: seq<seq<byte>>, sep: byte)
    requires parts != []
    ensures Terminated(parts, sep) == Join(parts, sep) + [sep]
  {
    if |parts| > 1 {
      TerminatedJoin(parts[1..], sep);
    }
  }

  lemma OptionsFrom(keys: seq<Key>, i: nat, s: Source)
    requires i < |keys|
    ensures var v := Spew(keys[i], s);
            Terminated(Options(keys[i..], s), 0x26) ==
            (if v == [] then [] else OptionText(keys[i], v) + [0x26]) + Terminated(Options(keys[i + 1..], s), 0x26)
  {
    hide Spew, OptionText;
    assert keys[i..][1..] == keys[i + 1..];
    var rest := Options(keys[i + 1..], s);
    var o := OptionText(keys[i], Spew(keys[i], s));
    assert ([o] + rest)[1..] == rest && [] + rest == rest;
  }

  /** url_create_new. */
  method CreateUrl(s: Source) returns (url: seq<byte>)
    ensures url == Encode(s)
  {
    hide Keys, Spew, OptionText, Options, Terminated, Prefix, Join;
    var opts := Keys();
    var str := Prefix();
    assert opts[0..] == opts;
    for i := 0 to |opts|
      invariant str + Terminated(Options(opts[i..], s), 0x26) == Prefix() + Terminated(Options(opts, s), 0x26)
    {
      OptionsFrom(opts, i, s);
      var value := Spew(opts[i], s);
      ghost var before := str;
      if value != [] {
        str := str + (OptionText(opts[i], value) + [0x26]);
        SumAssociates(before, OptionText(opts[i], value) + [0x26], Terminated(Options(opts[i + 1..], s), 0x26));
      } else {
        assert [] + Terminated(Options(opts[i + 1..], s), 0x26) == Terminated(Options(opts[i + 1..], s), 0x26);
      }
    }
    assert opts[|opts|..] == [];
    LastSeparator(opts, s, str);
    url := if str[|str| - 1] == 0x26 then str[..|str| - 1] else str;
  }

  lemma {:induction false} LastSeparator(opts: seq<Key>, s: Source, str: seq<byte>)
    requires opts == Keys() && str + Terminated(Options([], s), 0x26) == Prefix() + Terminated(Options(opts, s), 0x26)
    ensures |str| > 0
    ensures Encode(s) == if str[|str| - 1] == 0x26 then str[..|str| - 1] else str
  {
    assert Terminated(Options([], s), 0x26) == [] && str + [] == str;
    var o := Options(opts, s);
    hide Options, Keys;
    if o != [] {
      TerminatedJoin(o, 0x26);
      assert str == Prefix() + Join(o, 0x26) + [0x26];
    } else {
      assert str == Prefix() && Join(o, 0x26) == [];
    }
  }

  lemma {:induction false} SplitHead(s: seq<byte>, sep: byte)
    ensures var h := Head(s, sep);
            Split(s, sep) == [h] + if |h| == |s| then [] else Split(s[|h| + 1..], sep)
  {
    if s != [] {
      if s[0] == sep {
        assert Head(s, sep) == [];
      } else {
        SplitHead(s[1..], sep);
        var h := Head(s[1..], sep);
        assert Head(s, sep) == [s[0]] + h;
        assert |h| < |s| - 1 ==> s[1..][|h| + 1..] == s[|h| + 2..];
      }
    }
  }

  /** url_parse_new: one option after another is cut off with string_sep. */
  method ParseUrl(url: seq<byte>) returns (source: Option<Source>)
    ensures source == Decode(url)
  {
    hide Prefix, Apply, Split;
    if !(Prefix() <= url) {
      return None;
    }
    var s, curl, more := CLEARED, url[|Prefix()|..], true;
    while more
      invariant more ==> Decode(url) == ApplyAll(s, Split(curl, 0x26))
      invariant !more ==> Decode(url) == Some(s)
      decreases more, |curl|
    {
      SplitHead(curl, 0x26);
      var option := Head(curl, 0x26);
      var next := Apply(s, option);
      ghost var rest := if |option| == |curl| then [] else Split(curl[|option| + 1..], 0x26);
      assert ([option] + rest)[1..] == rest;
      if next.None? {
        return None;
      }
      s := next.value;
      if |option| == |curl| {
        more := false;
      } else {
        curl := curl[|option| + 1..];
      }
    }
    source := Some(s);
  }
}
