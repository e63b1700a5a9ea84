/**
 * IPv4 addresses as the reject path handles them: the four bytes of
 * net.IP.To4(), their big-endian packing into a uint32, and the dotted-decimal
 * text that net.ParseIP reads and net.IP.String prints.
 */
module IPv4 {
  import opened Wrappers
  import opened Strings

  /** The four bytes of an IPv4 address, most significant first. */
  datatype Octets = Octets(a: bv8, b: bv8, c: bv8, d: bv8)

  /** binary.BigEndian.Uint32 over the four bytes. */
  function ToUint32(o: Octets): (num: bv32)
    ensures (num >> 24) as bv8 == o.a && ((num >> 16) & 0xFF) as bv8 == o.b
    ensures ((num >> 8) & 0xFF) as bv8 == o.c && (num & 0xFF) as bv8 == o.d
  {
    ((o.a as bv32) << 24) | ((o.b as bv32) << 16) | ((o.c as bv32) << 8) | (o.d as bv32)
  }

  /**
   * net.IPv4(byte(num>>24), byte(num>>16), byte(num>>8), byte(num)): each
   * byte() conversion keeps the low eight bits. Packing the result again
   * gives `num` back, so splitting loses nothing.
   */
  function FromUint32(num: bv32): (o: Octets)
    ensures ToUint32(o) == num
  {
    Octets((num >> 24) as bv8, ((num >> 16) & 0xFF) as bv8, ((num >> 8) & 0xFF) as bv8, (num & 0xFF) as bv8)
  }

  /** The byte values as a list, most significant first. */
  function ByteValues(o: Octets): seq<nat> {
    [o.a as nat, o.b as nat, o.c as nat, o.d as nat]
  }

  /** Byte values printed in decimal and joined by dots. */
  function JoinOctets(bs: seq<nat>): string
    requires bs != []
    decreases |bs|
  {
    if |bs| == 1 then FormatNat(bs[0])
    else FormatNat(bs[0]) + "." + JoinOctets(bs[1..])
  }

  /** net.IP.String for an IPv4 address: four decimal bytes joined by dots. */
  function FormatIPv4(o: Octets): (r: string)
    ensures r == FormatNat(o.a as nat) + "." + FormatNat(o.b as nat) + "." + FormatNat(o.c as nat) + "." + FormatNat(o.d as nat)
  {
    var a, b, c, d := FormatNat(o.a as nat), FormatNat(o.b as nat), FormatNat(o.c as nat), FormatNat(o.d as nat);
    var bs := ByteValues(o);
    assert bs[1..][1..][1..] == [o.d as nat];
    JoinOctetsHead(bs[1..][1..]);
    JoinOctetsHead(bs[1..]);
    JoinOctetsHead(bs);
    ConcatAssoc(a, ".", b + ("." + (c + ("." + d))));
    ConcatAssoc(a + ".", b, "." + (c + ("." + d)));
    ConcatAssoc(a + "." + b, ".", c + ("." + d));
    ConcatAssoc(a + "." + b + ".", c, "." + d);
    ConcatAssoc(a + "." + b + "." + c, ".", d);
    JoinOctets(bs)
  }

  /** The number of decimal digits at the start of `s`. */
  function DigitRun(s: string): (k: nat)
    ensures k <= |s| && AllDigits(s[..k])
    ensures k < |s| ==> !IsDigit(s[k])
    decreases |s|
  {
    if s == [] || !IsDigit(s[0]) then 0
    else
      var k := 1 + DigitRun(s[1..]);
      assert s[..k] == [s[0]] + s[1..][..k - 1];
      k
  }

  /**
   * One byte field of a dotted quad and the text after it: a non-empty run of
   * digits, without a leading zero unless it is "0", worth at most 255.
   */
  function ParseOctet(s: string): Option<(nat, string)> {
    var k := DigitRun(s);
    if k == 0 || (k > 1 && s[0] == '0') then None
    else
      var v := DecimalValue(s[..k]);
      if v > 255 then None else Some((v, s[k..]))
  }

  /** Exactly `n` byte fields separated by dots, and nothing after them. */
  function ParseFields(s: string, n: nat): (r: Option<seq<nat>>)
    requires n > 0
    ensures r.Some? ==> |r.value| == n
    decreases n
  {
    match ParseOctet(s)
    case None => None
    case Some(p) =>
      if n == 1 then (if p.1 == [] then Some([p.0]) else None)
      else if p.1 != [] && p.1[0] == '.' then
        match ParseFields(p.1[1..], n - 1)
        case None => None
        case Some(bs) => Some([p.0] + bs)
      else None
  }

  /**
   * net.ParseIP(s).To4() on dotted-decimal text: four byte fields separated by
   * dots and nothing else. None is the nil slice that makes the caller panic.
   * The bytes of the address are the four fields read.
   */
  function ParseIPv4(s: string): (r: Option<Octets>)
    ensures r.Some? <==> ParseFields(s, 4).Some?
    ensures r.Some? ==> var fields := ParseFields(s, 4).value;
      r.value.a as nat == fields[0] && r.value.b as nat == fields[1] &&
      r.value.c as nat == fields[2] && r.value.d as nat == fields[3]
  {
    match ParseFields(s, 4)
    case None => None
    case Some(bs) =>
      ParseFieldsBytes(s, 4);
      NatByte(bs[0]); NatByte(bs[1]); NatByte(bs[2]); NatByte(bs[3]);
      Some(Octets(bs[0] as bv8, bs[1] as bv8, bs[2] as bv8, bs[3] as bv8))
  }

  /** Every field read is a byte value. */
  lemma {:induction false} ParseFieldsBytes(s: string, n: nat)
    requires n > 0 && ParseFields(s, n).Some?
    ensures forall i :: 0 <= i < n ==> ParseFields(s, n).value[i] < 256
    decreases n
  {
    var p := ParseOctet(s).value;
    if n > 1 {
      var rest := p.1[1..];
      ParseFieldsBytes(rest, n - 1);
      var bs := ParseFields(s, n).value;
      assert bs == [p.0] + ParseFields(rest, n - 1).value;
      forall i | 0 <= i < n
        ensures bs[i] < 256
      {
        if i > 0 {
          assert bs[i] == ParseFields(rest, n - 1).value[i - 1];
        }
      }
    }
  }

  lemma ConcatAssoc(x: string, y: string, z: string)
    ensures x + (y + z) == x + y + z
  {
  }

  lemma NatByte(v: nat)
    requires v < 256
    ensures (v as bv8) as nat == v
  {
    assert v % 256 == v;
  }

  lemma ByteNat(b: bv8)
    ensures b as nat < 256 && (b as nat) as bv8 == b
  {
  }

  lemma {:induction false} DigitRunAppend(p: string, t: string)
    requires AllDigits(p)
    requires t == [] || !IsDigit(t[0])
    ensures DigitRun(p + t) == |p|
    decreases |p|
  {
    if p != [] {
      assert (p + t)[1..] == p[1..] + t;
      DigitRunAppend(p[1..], t);
    }
  }

  /** A printed byte followed by a dot or by nothing parses back to that byte. */
  lemma ParseOctetFormat(b: nat, t: string)
    requires b < 256
    requires t == [] || t[0] == '.'
    ensures ParseOctet(FormatNat(b) + t) == Some((b, t))
  {
    var f := FormatNat(b);
    DigitRunAppend(f, t);
    assert (f + t)[..|f|] == f && (f + t)[|f|..] == t;
    DecimalValueFormatNat(b);
  }

  /** One printed byte parses back as one field. */
  lemma ParseFieldsJoinOne(b: nat)
    requires b < 256
    ensures ParseFields(JoinOctets([b]), 1) == Some([b])
  {
    ParseOctetFormat(b, []);
    assert FormatNat(b) + [] == JoinOctets([b]);
  }

  /** A printed byte in front of fields that parse back parses back with them. */
  lemma ParseFieldsJoinStep(b: nat, tail: seq<nat>)
    requires b < 256 && tail != []
    requires ParseFields(JoinOctets(tail), |tail|) == Some(tail)
    ensures ParseFields(JoinOctets([b] + tail), |tail| + 1) == Some([b] + tail)
  {
    JoinOctetsCons(b, tail);
    ParseFieldsCons(b, JoinOctets(tail), tail);
  }

  /** A field, a dot and `n` more fields are `n + 1` fields. */
  lemma ParseFieldsCons(b: nat, rest: string, tail: seq<nat>)
    requires b < 256 && tail != []
    requires ParseFields(rest, |tail|) == Some(tail)
    ensures ParseFields(FormatNat(b) + ("." + rest), |tail| + 1) == Some([b] + tail)
  {
    ParseOctetFormat(b, "." + rest);
    AfterDot(rest);
  }

  lemma AfterDot(x: string)
    ensures ("." + x)[1..] == x
  {
  }

  /** Printing two or more bytes prints the first, a dot, then the rest. */
  lemma JoinOctetsHead(bs: seq<nat>)
    requires |bs| >= 2
    ensures JoinOctets(bs) == FormatNat(bs[0]) + ("." + JoinOctets(bs[1..]))
  {
  }

  /** Printing a list of bytes prints its head, a dot, then the rest. */
  lemma JoinOctetsCons(b: nat, tail: seq<nat>)
    requires tail != []
    ensures JoinOctets([b] + tail) == FormatNat(b) + ("." + JoinOctets(tail))
  {
    var bs := [b] + tail;
    assert bs[0] == b && bs[1..] == tail;
  }

  lemma ParseFormatIPv4(o: Octets)
    ensures ParseIPv4(FormatIPv4(o)) == Some(o)
  {
    ParseJoinOctets(o);
  }

  /** The four bytes joined by dots parse back to the address. */
  lemma ParseJoinOctets(o: Octets)
    ensures ParseIPv4(JoinOctets(ByteValues(o))) == Some(o)
  {
    var a, b, c, d := o.a as nat, o.b as nat, o.c as nat, o.d as nat;
    ByteNat(o.a); ByteNat(o.b); ByteNat(o.c); ByteNat(o.d);
    ParseFieldsJoinThree(b, c, d);
    ParseFieldsJoinStep(a, [b] + ([c] + [d]));
    ConsFour(a, b, c, d);
  }

  /** Three bytes joined by dots parse back as three fields. */
  lemma ParseFieldsJoinThree(b: nat, c: nat, d: nat)
    requires b < 256 && c < 256 && d < 256
    ensures ParseFields(JoinOctets([b] + ([c] + [d])), 3) == Some([b] + ([c] + [d]))
  {
    ParseFieldsJoinOne(d);
    ParseFieldsJoinStep(c, [d]);
    ParseFieldsJoinStep(b, [c] + [d]);
  }

  lemma {:induction false} DecimalValuePositive(f: string)
    requires AllDigits(f) && f != [] && f[0] != '0'
    ensures DecimalValue(f) > 0
    decreases |f|
  {
    if |f| > 1 {
      DecimalValuePositive(f[..|f| - 1]);
    }
  }

  /** A canonical digit string (no leading zero) is what FormatNat prints for its value. */
  lemma {:induction false} FormatNatDecimalValue(f: string)
    requires AllDigits(f) && f != [] && (|f| > 1 ==> f[0] != '0')
    ensures FormatNat(DecimalValue(f)) == f
    decreases |f|
  {
    var init := f[..|f| - 1];
    var d := DigitValue(f[|f| - 1]);
    if |f| == 1 {
      assert DigitChar(d) == f[0];
    } else {
      DecimalValuePositive(init);
      FormatNatDecimalValue(init);
      var v := DecimalValue(f);
      assert v / 10 == DecimalValue(init) && v % 10 == d;
      assert DigitChar(d) == f[|f| - 1];
      assert f == init + [f[|f| - 1]];
    }
  }

  /** A field ParseOctet accepts is the printed form of the byte it returns. */
  lemma ParseOctetCanonical(s: string)
    requires ParseOctet(s).Some?
    ensures s == FormatNat(ParseOctet(s).value.0) + ParseOctet(s).value.1
  {
    var k := DigitRun(s);
    FormatNatDecimalValue(s[..k]);
    assert s == s[..k] + s[k..];
  }

  lemma {:induction false} JoinParseFields(s: string, n: nat)
    requires n > 0 && ParseFields(s, n).Some?
    ensures JoinOctets(ParseFields(s, n).value) == s
    decreases n
  {
    if n == 1 {
      JoinParseFieldsOne(s);
    } else {
      ParseFieldsHead(s, n);
      JoinParseFields(ParseOctet(s).value.1[1..], n - 1);
      JoinParseFieldsStep(s, n);
    }
  }

  /** One field is printed back as the text it was read from. */
  lemma JoinParseFieldsOne(s: string)
    requires ParseFields(s, 1).Some?
    ensures JoinOctets(ParseFields(s, 1).value) == s
  {
    var p := ParseOctet(s).value;
    ParseOctetCanonical(s);
    assert p.1 == [];
    assert s == FormatNat(p.0) + [];
  }

  /** A field and a dot in front of fields that print back print back with them. */
  lemma JoinParseFieldsStep(s: string, n: nat)
    requires n > 1 && ParseFields(s, n).Some?
    requires var rest := ParseOctet(s).value.1[1..];
      ParseFields(rest, n - 1).Some? && JoinOctets(ParseFields(rest, n - 1).value) == rest
    ensures JoinOctets(ParseFields(s, n).value) == s
  {
    var p := ParseOctet(s).value;
    ParseFieldsHead(s, n);
    ParseOctetCanonical(s);
    JoinOctetsCons(p.0, ParseFields(p.1[1..], n - 1).value);
  }

  /** More than one field: the first, a dot, then the others. */
  lemma ParseFieldsHead(s: string, n: nat)
    requires n > 1 && ParseFields(s, n).Some?
    ensures ParseOctet(s).Some?
    ensures var p := ParseOctet(s).value;
      p.1 != [] && p.1 == "." + p.1[1..] && ParseFields(p.1[1..], n - 1).Some?
    ensures var p := ParseOctet(s).value;
      ParseFields(s, n).value == [p.0] + ParseFields(p.1[1..], n - 1).value
  {
  }

  lemma ConsFour(a: nat, b: nat, c: nat, d: nat)
    ensures [a] + ([b] + ([c] + [d])) == [a, b, c, d]
  {
  }

  lemma FourItems(bs: seq<nat>)
    requires |bs| == 4
    ensures bs == [bs[0], bs[1], bs[2], bs[3]]
  {
  }

  /** Text that parses as an address is exactly how that address prints. */
  lemma FormatParseIPv4(s: string)
    requires ParseIPv4(s).Some?
    ensures FormatIPv4(ParseIPv4(s).value) == s
  {
    JoinParseFields(s, 4);
    FourItems(ParseFields(s, 4).value);
  }
}
