/**
  Human-readable renderings the userspace decoder logs: MAC addresses as
  `format!("{:02x}:…")` produces them, and IPv4 addresses as `std::net::Ipv4Addr`
  builds and displays them. Each rendering comes with a parser and a round-trip
  lemma showing the rendering loses nothing.
*/
module Render {
  import opened Bytes
  import opened Optional

  // ---------------------------------------------------------------------------
  // Hexadecimal MAC addresses
  // ---------------------------------------------------------------------------

  const HexDigits: string := "0123456789abcdef"

  /** The lowercase digit that hexadecimal formatting prints for a nibble. */
  function HexDigit(d: nat): (c: char)
    requires d < 16
    ensures HexValue(c) == Some(d)
  {
    HexDigits[d]
  }

  /** The nibble a lowercase hexadecimal digit stands for. */
  function HexValue(c: char): Option<nat>
  {
    if '0' <= c <= '9' then Some(c as int - '0' as int)
    else if 'a' <= c <= 'f' then Some(c as int - 'a' as int + 10)
    else None
  }

  /** `{:02x}` of one byte: always two digits, zero-padded. */
  function HexByte(b: byte): (s: string)
    ensures |s| == 2
    ensures ParseHexByte(s) == Some(b)
  {
    [HexDigit(b / 16), HexDigit(b % 16)]
  }

  function ParseHexByte(s: string): Option<byte>
    requires |s| == 2
  {
    match (HexValue(s[0]), HexValue(s[1]))
    case (Some(hi), Some(lo)) =>
      if hi < 16 && lo < 16 then Some(hi * 16 + lo) else None
    case _ => None
  }

  /** Bytes rendered as two-digit hexadecimal octets joined by `:`. */
  function HexJoin(m: seq<byte>): (s: string)
    requires |m| > 0
    ensures |s| == 3 * |m| - 1
  {
    if |m| == 1 then HexByte(m[0]) else HexByte(m[0]) + ":" + HexJoin(m[1..])
  }

  /** The inverse of `HexJoin`: `None` for anything `HexJoin` cannot produce. */
  function ParseHexJoin(s: string): Option<seq<byte>>
    decreases |s|
  {
    if |s| < 2 then None
    else
      var b :- ParseHexByte(s[..2]);
      if |s| == 2 then Some([b])
      else if |s| >= 5 && s[2] == ':' then
        var rest :- ParseHexJoin(s[3..]);
        Some([b] + rest)
      else None
  }

  lemma {:induction false} HexJoinRoundTrip(m: seq<byte>)
    requires |m| > 0
    ensures ParseHexJoin(HexJoin(m)) == Some(m)
  {
    var s := HexJoin(m);
    assert s[..2] == HexByte(m[0]);
    assert ParseHexByte(s[..2]) == Some(m[0]);
    if |m| > 1 {
      var tail := HexJoin(m[1..]);
      assert s == HexByte(m[0]) + ":" + tail;
      assert s[2] == ':' && |s| >= 5;
      assert s[3..] == tail;
      HexJoinRoundTrip(m[1..]);
      assert ParseHexJoin(s) == Some([m[0]] + m[1..]);
      assert m == [m[0]] + m[1..];
    } else {
      assert s[..2] == s;
      assert m == [m[0]];
    }
  }

  /** A MAC address as the decoder formats it, e.g. `00:1a:2b:3c:4d:5e`. */
  function MacString(mac: seq<byte>): (s: string)
    requires |mac| == 6
    ensures |s| == 17
    ensures ParseMac(s) == Some(mac)
  {
    HexJoinRoundTrip(mac);
    HexJoin(mac)
  }

  function ParseMac(s: string): Option<seq<byte>>
  {
    if |s| != 17 then None
    else match ParseHexJoin(s)
      case Some(m) => if |m| == 6 then Some(m) else None
      case None => None
  }

  lemma HexJoinCons(m: seq<byte>)
    requires |m| > 1
    ensures HexJoin(m) == (HexByte(m[0]) + ":") + HexJoin(m[1..])
    ensures |HexByte(m[0]) + ":"| == 3
  {
  }

  /** Every octet of a rendered MAC sits at characters 3i, 3i+1, in order. */
  lemma {:induction false} HexJoinOctet(m: seq<byte>, i: nat)
    requires i < |m|
    ensures HexJoin(m)[3 * i..3 * i + 2] == HexByte(m[i])
  {
    if i > 0 {
      var j := i - 1;
      HexJoinOctet(m[1..], j);
      HexJoinCons(m);
      assert m[1..][j] == m[i];
      ShiftedSlice(HexByte(m[0]) + ":", HexJoin(m[1..]), 3 * j, 2);
      assert 3 * i == 3 + 3 * j;
    } else if |m| == 1 {
      assert HexJoin(m)[0..2] == HexJoin(m);
    } else {
      HexJoinCons(m);
      var head := HexByte(m[0]) + ":";
      assert (head + HexJoin(m[1..]))[0..2] == head[0..2];
    }
  }

  /** A colon follows every octet but the last. */
  lemma {:induction false} HexJoinColon(m: seq<byte>, i: nat)
    requires i + 1 < |m|
    ensures HexJoin(m)[3 * i + 2] == ':'
  {
    HexJoinCons(m);
    if i > 0 {
      HexJoinColon(m[1..], i - 1);
      ShiftedSlice(HexByte(m[0]) + ":", HexJoin(m[1..]), 3 * (i - 1) + 2, 0);
    }
  }

  /** A slice of `pre + t` lying past `pre` is a slice of `t`. */
  lemma ShiftedSlice<T>(pre: seq<T>, t: seq<T>, k: nat, n: nat)
    requires k + n <= |t|
    ensures (pre + t)[|pre| + k..|pre| + k + n] == t[k..k + n]
    ensures k < |t| ==> (pre + t)[|pre| + k] == t[k]
  {
    assert (pre + t)[|pre| + k..|pre| + k + n] == t[k..k + n];
  }

  // ---------------------------------------------------------------------------
  // IPv4 addresses
  // ---------------------------------------------------------------------------

  /** `std::net::Ipv4Addr`: four octets, most significant first. */
  datatype Ipv4Addr = Ipv4Addr(octets: seq<byte>)

  /** `Ipv4Addr::from(u32)`: the octets are the value's big-endian bytes. */
  function Ipv4FromU32(v: u32): (a: Ipv4Addr)
    ensures |a.octets| == 4
    ensures Word32(a.octets[0], a.octets[1], a.octets[2], a.octets[3]) == v
  {
    Ipv4Addr(Bytes32(v))
  }

  function DigitChar(d: nat): (c: char)
    requires d < 10
    ensures '0' <= c <= '9'
  {
    ('0' as int + d) as char
  }

  predicate IsDigits(s: string)
  {
    forall i :: 0 <= i < |s| ==> '0' <= s[i] <= '9'
  }

  /** The decimal rendering `Display` uses for an octet: no leading zeros. */
  function Decimal(n: nat): (s: string)
    ensures |s| > 0 && IsDigits(s)
    ensures |s| == 1 || s[0] != '0'
    ensures n < 10 ==> |s| == 1
    ensures n < 100 ==> |s| <= 2
    ensures n < 1000 ==> |s| <= 3
  {
    if n < 10 then [DigitChar(n)] else Decimal(n / 10) + [DigitChar(n % 10)]
  }

  /** The number a string of decimal digits denotes. */
  function DigitsValue(s: string): nat
    requires IsDigits(s)
  {
    if |s| == 0 then 0 else DigitsValue(s[..|s| - 1]) * 10 + (s[|s| - 1] as int - '0' as int)
  }

  lemma {:induction false} DecimalValue(n: nat)
    ensures DigitsValue(Decimal(n)) == n
  {
    if n >= 10 {
      DecimalValue(n / 10);
      var s := Decimal(n);
      assert s[..|s| - 1] == Decimal(n / 10);
    }
  }

  /** `Ipv4Addr`'s `Display`: the four octets in decimal, joined by `.`, from
      `0.0.0.0` (7 characters) to `255.255.255.255` (15). */
  function Dotted(a: Ipv4Addr): (s: string)
    requires |a.octets| == 4
    ensures 7 <= |s| <= 15
  {
    Decimal(a.octets[0]) + "." + Decimal(a.octets[1]) + "."
    + Decimal(a.octets[2]) + "." + Decimal(a.octets[3])
  }

  /** Splits `s` at every `sep`; always at least one part. */
  function Split(s: string, sep: char): (parts: seq<string>)
    ensures |parts| > 0
  {
    if |s| == 0 then [[]]
    else
      var rest := Split(s[1..], sep);
      if s[0] == sep then [[]] + rest else [[s[0]] + rest[0]] + rest[1..]
  }

  lemma {:induction false} SplitPrefix(p: string, tail: string, sep: char)
    requires sep !in p
    ensures Split(p + tail, sep) == [p + Split(tail, sep)[0]] + Split(tail, sep)[1..]
  {
    if |p| > 0 {
      SplitPrefix(p[1..], tail, sep);
      assert (p + tail)[1..] == p[1..] + tail;
      assert [p[0]] + (p[1..] + Split(tail, sep)[0]) == p + Split(tail, sep)[0];
    } else {
      var parts := Split(tail, sep);
      assert p + tail == tail;
      assert p + parts[0] == parts[0];
      assert parts == [parts[0]] + parts[1..];
    }
  }

  lemma SplitField(p: string, rest: string, sep: char)
    requires sep !in p
    ensures Split(p + [sep] + rest, sep) == [p] + Split(rest, sep)
  {
    var t := [sep] + rest;
    SplitPrefix(p, t, sep);
    assert p + [sep] + rest == p + t;
    assert t[0] == sep && t[1..] == rest;
    assert Split(t, sep) == [[]] + Split(rest, sep);
    assert p + [] == p;
  }

  lemma SplitLast(p: string, sep: char)
    requires sep !in p
    ensures Split(p, sep) == [p]
  {
    SplitPrefix(p, [], sep);
    assert p + [] == p;
  }

  /** One dotted-quad field: decimal digits without a leading zero, below 256. */
  function ParseOctet(s: string): Option<byte>
  {
    if |s| == 0 || !IsDigits(s) || (|s| > 1 && s[0] == '0') then None
    else
      var v := DigitsValue(s);
      if v < 256 then Some(v) else None
  }

  /** Reads a dotted quad back into an address. */
  function ParseDotted(s: string): Option<Ipv4Addr>
  {
    var parts := Split(s, '.');
    if |parts| != 4 then None
    else
      var a :- ParseOctet(parts[0]);
      var b :- ParseOctet(parts[1]);
      var c :- ParseOctet(parts[2]);
      var d :- ParseOctet(parts[3]);
      Some(Ipv4Addr([a, b, c, d]))
  }

  lemma OctetRoundTrip(b: byte)
    ensures ParseOctet(Decimal(b)) == Some(b)
    ensures '.' !in Decimal(b)
  {
    DecimalValue(b);
  }

  lemma Assoc<T>(a: seq<T>, b: seq<T>, c: seq<T>)
    ensures a + b + c == a + (b + c)
  {
  }

  /** Four dot-free fields joined by dots split back into those four fields. */
  lemma SplitFour(d0: string, d1: string, d2: string, d3: string)
    requires '.' !in d0 && '.' !in d1 && '.' !in d2 && '.' !in d3
    ensures Split(d0 + "." + d1 + "." + d2 + "." + d3, '.') == [d0, d1, d2, d3]
  {
    var s2 := d2 + "." + d3;
    var s1 := d1 + "." + s2;
    SplitLast(d3, '.');
    SplitField(d2, d3, '.');
    SplitField(d1, s2, '.');
    SplitField(d0, s1, '.');
    calc {
      d0 + "." + d1 + "." + d2 + "." + d3;
      { Assoc(d0 + "." + d1 + ".", d2 + ".", d3); }
      d0 + "." + d1 + "." + (d2 + "." + d3);
      { Assoc(d0 + ".", d1 + ".", s2); }
      d0 + "." + (d1 + "." + s2);
      { Assoc(d0, ".", s1); }
      d0 + "." + s1;
    }
  }

  /** The four fields of a dotted quad are the four decimal renderings. */
  lemma DottedSplit(a: Ipv4Addr)
    requires |a.octets| == 4
    ensures Split(Dotted(a), '.') == [Decimal(a.octets[0]), Decimal(a.octets[1]),
                                      Decimal(a.octets[2]), Decimal(a.octets[3])]
  {
    var o := a.octets;
    OctetRoundTrip(o[0]);
    OctetRoundTrip(o[1]);
    OctetRoundTrip(o[2]);
    OctetRoundTrip(o[3]);
    SplitFour(Decimal(o[0]), Decimal(o[1]), Decimal(o[2]), Decimal(o[3]));
  }

  /** Displaying an address and reading it back gives the same four octets. */
  lemma {:induction false} DottedRoundTrip(a: Ipv4Addr)
    requires |a.octets| == 4
    ensures ParseDotted(Dotted(a)) == Some(a)
  {
    var o := a.octets;
    DottedSplit(a);
    OctetRoundTrip(o[0]);
    OctetRoundTrip(o[1]);
    OctetRoundTrip(o[2]);
    OctetRoundTrip(o[3]);
    assert [o[0], o[1], o[2], o[3]] == o;
  }

  /** The octets of a from-u32 address are the value's bytes most significant first,
      e.g. 0xC0A80001 displays as `192.168.0.1`. */
  lemma DottedExample()
    ensures Dotted(Ipv4FromU32(0xC0A8_0001)) == "192.168.0.1"
  {
    Bytes32Word32(0xC0, 0xA8, 0x00, 0x01);
    DecimalExample();
  }

  lemma DecimalExample()
    ensures Decimal(192) == "192" && Decimal(168) == "168"
    ensures Decimal(0) == "0" && Decimal(1) == "1"
  {
    assert Decimal(19) == "19";
    assert Decimal(16) == "16";
  }
}
