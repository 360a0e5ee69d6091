/** Base64 with the standard alphabet and `=` padding, as section 4 of RFC 4648
    defines it and Go's `base64.StdEncoding` produces it. The decoder is the
    strict one: it accepts exactly the strings the encoder can produce. */
module Base64 {
  import opened Bytes
  import opened Outcomes

  /** The padding character `=`. */
  const PAD: byte := EQUALS

  /** `A`..`Z`, `a`..`z`, `0`..`9`, `+` and `/`. */
  predicate IsAlphabet(c: byte) {
    65 <= c <= 90 || 97 <= c <= 122 || 48 <= c <= 57 || c == 43 || c == 47
  }

  /** The alphabet character for a 6-bit value. */
  function EncodeSextet(v: int): (c: byte)
    requires 0 <= v < 64
    ensures IsAlphabet(c)
  {
    if v < 26 then 65 + v
    else if v < 52 then 97 + (v - 26)
    else if v < 62 then 48 + (v - 52)
    else if v == 62 then 43
    else 47
  }

  /** The 6-bit value of an alphabet character. */
  function DecodeSextet(c: byte): (v: int)
    requires IsAlphabet(c)
    ensures 0 <= v < 64
  {
    if 65 <= c <= 90 then c - 65
    else if 97 <= c <= 122 then c - 97 + 26
    else if 48 <= c <= 57 then c - 48 + 52
    else if c == 43 then 62
    else 63
  }

  /** Every alphabet character is the encoding of its value. */
  lemma SextetCanonical(c: byte)
    requires IsAlphabet(c)
    ensures EncodeSextet(DecodeSextet(c)) == c
  {
  }

  lemma SextetRoundTrip(v: int)
    requires 0 <= v < 64
    ensures DecodeSextet(EncodeSextet(v)) == v
  {
  }

  /** Three bytes as four characters. */
  function EncodeGroup(b0: byte, b1: byte, b2: byte): seq<byte> {
    [EncodeSextet(b0 / 4), EncodeSextet((b0 % 4) * 16 + b1 / 16),
     EncodeSextet((b1 % 16) * 4 + b2 / 64), EncodeSextet(b2 % 64)]
  }

  /** A final single byte: two characters and two pads. */
  function EncodeTail1(b0: byte): seq<byte> {
    [EncodeSextet(b0 / 4), EncodeSextet((b0 % 4) * 16), PAD, PAD]
  }

  /** A final pair of bytes: three characters and one pad. */
  function EncodeTail2(b0: byte, b1: byte): seq<byte> {
    [EncodeSextet(b0 / 4), EncodeSextet((b0 % 4) * 16 + b1 / 16), EncodeSextet((b1 % 16) * 4), PAD]
  }

  /** `base64.StdEncoding.EncodeToString`. The output is `4 * ceil(|s| / 3)`
      characters long. */
  function Encode(s: seq<byte>): (r: seq<byte>)
    ensures |r| == 4 * ((|s| + 2) / 3)
    decreases |s|
  {
    if |s| == 0 then []
    else if |s| == 1 then EncodeTail1(s[0])
    else if |s| == 2 then EncodeTail2(s[0], s[1])
    else
      assert (|s| + 2) / 3 == (|s| - 3 + 2) / 3 + 1;
      EncodeGroup(s[0], s[1], s[2]) + Encode(s[3..])
  }

  /** Four alphabet characters as three bytes. */
  function DecodeGroup(q: seq<byte>): Option<seq<byte>>
    requires |q| == 4
  {
    if IsAlphabet(q[0]) && IsAlphabet(q[1]) && IsAlphabet(q[2]) && IsAlphabet(q[3]) then
      var a, b, c, d := DecodeSextet(q[0]), DecodeSextet(q[1]), DecodeSextet(q[2]), DecodeSextet(q[3]);
      Some([a * 4 + b / 16, (b % 16) * 16 + c / 4, (c % 4) * 64 + d])
    else
      None
  }

  /** The last four characters, which may end in one or two pads; bits the
      pads leave over must be zero. */
  function DecodeLast(q: seq<byte>): Option<seq<byte>>
    requires |q| == 4
  {
    if q[2] == PAD && q[3] == PAD then
      if IsAlphabet(q[0]) && IsAlphabet(q[1]) && DecodeSextet(q[1]) % 16 == 0 then
        Some([DecodeSextet(q[0]) * 4 + DecodeSextet(q[1]) / 16])
      else
        None
    else if q[3] == PAD then
      if IsAlphabet(q[0]) && IsAlphabet(q[1]) && IsAlphabet(q[2]) && DecodeSextet(q[2]) % 4 == 0 then
        var a, b, c := DecodeSextet(q[0]), DecodeSextet(q[1]), DecodeSextet(q[2]);
        Some([a * 4 + b / 16, (b % 16) * 16 + c / 4])
      else
        None
    else
      DecodeGroup(q)
  }

  /** Strict decoding: `None` unless `s` is padded standard base64. */
  function Decode(s: seq<byte>): Option<seq<byte>>
    decreases |s|
  {
    if s == [] then Some([])
    else if |s| < 4 then None
    else if |s| == 4 then DecodeLast(s)
    else match DecodeGroup(s[..4])
      case None => None
      case Some(g) =>
        match Decode(s[4..])
        case None => None
        case Some(t) => Some(g + t)
  }

  /** Decoding the sextets of three bytes gives back the bytes. */
  lemma BytesFromSextets(b0: byte, b1: byte, b2: byte)
    ensures var a, b, c, d := b0 / 4, (b0 % 4) * 16 + b1 / 16, (b1 % 16) * 4 + b2 / 64, b2 % 64;
            && a * 4 + b / 16 == b0
            && (b % 16) * 16 + c / 4 == b1
            && (c % 4) * 64 + d == b2
  {
    DivMod(b0 % 4, b1 / 16, 16);
    DivMod(b1 % 16, b2 / 64, 4);
  }

  /** A group of three bytes decodes back to those bytes, on its own or as
      the last group of an encoding. */
  lemma GroupRoundTrip(g: seq<byte>)
    requires |g| == 3
    ensures DecodeGroup(EncodeGroup(g[0], g[1], g[2])) == Some(g)
    ensures Decode(EncodeGroup(g[0], g[1], g[2])) == Some(g)
  {
    var b0, b1, b2 := g[0], g[1], g[2];
    var a, b, c, d := b0 / 4, (b0 % 4) * 16 + b1 / 16, (b1 % 16) * 4 + b2 / 64, b2 % 64;
    SextetRoundTrip(a);
    SextetRoundTrip(b);
    SextetRoundTrip(c);
    SextetRoundTrip(d);
    BytesFromSextets(b0, b1, b2);
    var q := EncodeGroup(b0, b1, b2);
    assert DecodeSextet(q[0]) == a && DecodeSextet(q[1]) == b && DecodeSextet(q[2]) == c && DecodeSextet(q[3]) == d;
    assert [b0, b1, b2] == g;
    DecodeFour(q);
  }

  lemma Tail1RoundTrip(b0: byte)
    ensures DecodeLast(EncodeTail1(b0)) == Some([b0])
  {
    var a, b := b0 / 4, (b0 % 4) * 16;
    SextetRoundTrip(a);
    SextetRoundTrip(b);
    BytesFromSextets(b0, 0, 0);
    var q := EncodeTail1(b0);
    assert DecodeSextet(q[0]) == a && DecodeSextet(q[1]) == b;
  }

  lemma Tail2RoundTrip(b0: byte, b1: byte)
    ensures DecodeLast(EncodeTail2(b0, b1)) == Some([b0, b1])
  {
    var a, b, c := b0 / 4, (b0 % 4) * 16 + b1 / 16, (b1 % 16) * 4;
    SextetRoundTrip(a);
    SextetRoundTrip(b);
    SextetRoundTrip(c);
    BytesFromSextets(b0, b1, 0);
    var q := EncodeTail2(b0, b1);
    assert q[2] != PAD && q[3] == PAD;
    assert DecodeSextet(q[0]) == a && DecodeSextet(q[1]) == b && DecodeSextet(q[2]) == c;
  }

  /** An encoding holds only alphabet characters and pads. */
  lemma {:induction false} EncodeAlphabet(s: seq<byte>)
    ensures forall i :: 0 <= i < |Encode(s)| ==> IsAlphabet(Encode(s)[i]) || Encode(s)[i] == PAD
    decreases |s|
  {
    if |s| >= 3 {
      EncodeAlphabet(s[3..]);
      EncodeStep(s);
      var g := EncodeGroup(s[0], s[1], s[2]);
      var rest := Encode(s[3..]);
      assert forall i :: 4 <= i < |Encode(s)| ==> Encode(s)[i] == rest[i - 4];
    }
  }

  lemma EncodeStep(s: seq<byte>)
    requires |s| >= 3
    ensures Encode(s) == EncodeGroup(s[0], s[1], s[2]) + Encode(s[3..])
  {
  }

  lemma DecodeStep(e: seq<byte>, g: seq<byte>, rest: seq<byte>)
    requires |e| > 4 && DecodeGroup(e[..4]) == Some(g) && Decode(e[4..]) == Some(rest)
    ensures Decode(e) == Some(g + rest)
  {
  }

  /** A full group followed by a non-empty decodable rest decodes piecewise. */
  lemma DecodeConcat(q: seq<byte>, t: seq<byte>, b: seq<byte>, r: seq<byte>)
    requires |q| == 4 && |t| > 0 && DecodeGroup(q) == Some(b) && Decode(t) == Some(r)
    ensures Decode(q + t) == Some(b + r)
  {
    var e := q + t;
    assert e[..4] == q;
    assert e[4..] == t;
    DecodeStep(e, b, r);
  }

  lemma DecodeEncode1(s: seq<byte>)
    requires |s| == 1
    ensures Decode(Encode(s)) == Some(s)
  {
    Tail1RoundTrip(s[0]);
    assert Encode(s) == EncodeTail1(s[0]);
    assert [s[0]] == s;
  }

  lemma DecodeEncode2(s: seq<byte>)
    requires |s| == 2
    ensures Decode(Encode(s)) == Some(s)
  {
    Tail2RoundTrip(s[0], s[1]);
    assert Encode(s) == EncodeTail2(s[0], s[1]);
    assert [s[0], s[1]] == s;
  }

  lemma DecodeFour(q: seq<byte>)
    requires |q| == 4 && q[2] != PAD && q[3] != PAD
    ensures Decode(q) == DecodeGroup(q)
  {
  }

  lemma EncodeThree(s: seq<byte>)
    requires |s| == 3
    ensures Encode(s) == EncodeGroup(s[0], s[1], s[2])
  {
    EncodeStep(s);
    assert Encode(s[3..]) == [];
  }

  lemma DecodeEncode3(s: seq<byte>)
    requires |s| == 3
    ensures Decode(Encode(s)) == Some(s)
  {
    EncodeThree(s);
    GroupRoundTrip(s);
  }

  lemma DecodeEncodeShort(s: seq<byte>)
    requires |s| <= 3
    ensures Decode(Encode(s)) == Some(s)
  {
    if |s| == 1 {
      DecodeEncode1(s);
    } else if |s| == 2 {
      DecodeEncode2(s);
    } else if |s| == 3 {
      DecodeEncode3(s);
    }
  }

  lemma EncodeCons(b: seq<byte>, rest: seq<byte>)
    requires |b| == 3
    ensures Encode(b + rest) == EncodeGroup(b[0], b[1], b[2]) + Encode(rest)
  {
    var s := b + rest;
    EncodeStep(s);
    assert s[3..] == rest;
  }

  /** Three bytes in front of a non-empty string that round-trips. */
  lemma DecodeEncodeCons(b: seq<byte>, rest: seq<byte>)
    requires |b| == 3 && |rest| > 0 && Decode(Encode(rest)) == Some(rest)
    ensures Decode(Encode(b + rest)) == Some(b + rest)
  {
    EncodeCons(b, rest);
    GroupRoundTrip(b);
    DecodeConcat(EncodeGroup(b[0], b[1], b[2]), Encode(rest), b, rest);
  }

  /** Decoding an encoding gives back the bytes. */
  lemma {:induction false} DecodeEncode(s: seq<byte>)
    ensures Decode(Encode(s)) == Some(s)
    decreases |s|
  {
    if |s| <= 3 {
      DecodeEncodeShort(s);
    } else {
      DecodeEncode(s[3..]);
      DecodeEncodeCons(s[..3], s[3..]);
      assert s[..3] + s[3..] == s;
    }
  }

  lemma DivMod(x: int, y: int, k: int)
    requires k == 4 || k == 16 || k == 64
    requires 0 <= x && 0 <= y < k
    ensures (x * k + y) / k == x && (x * k + y) % k == y
  {
    if k == 4 {
    } else if k == 16 {
    } else {
    }
  }

  /** Re-encoding the bytes of three decoded characters `a`, `b`, `c`
      (and a fourth, `d`) gives back the same sextets. */
  lemma SextetsCanonical(a: int, b: int, c: int, d: int)
    requires 0 <= a < 64 && 0 <= b < 64 && 0 <= c < 64 && 0 <= d < 64
    ensures (a * 4 + b / 16) / 4 == a
    ensures ((a * 4 + b / 16) % 4) * 16 + ((b % 16) * 16 + c / 4) / 16 == b
    ensures (((b % 16) * 16 + c / 4) % 16) * 4 + ((c % 4) * 64 + d) / 64 == c
    ensures ((c % 4) * 64 + d) % 64 == d
  {
    DivMod(a, b / 16, 4);
    DivMod(b % 16, c / 4, 16);
    DivMod(c % 4, d, 64);
  }

  /** The three bytes decoded from four sextets encode back to the same sextets. */
  lemma GroupSextets(a: int, b: int, c: int, d: int, x: byte, y: byte, z: byte)
    requires 0 <= a < 64 && 0 <= b < 64 && 0 <= c < 64 && 0 <= d < 64
    requires x == a * 4 + b / 16 && y == (b % 16) * 16 + c / 4 && z == (c % 4) * 64 + d
    ensures EncodeGroup(x, y, z) == [EncodeSextet(a), EncodeSextet(b), EncodeSextet(c), EncodeSextet(d)]
  {
    SextetsCanonical(a, b, c, d);
    assert x / 4 == a && (x % 4) * 16 + y / 16 == b && (y % 16) * 4 + z / 64 == c && z % 64 == d;
  }

  /** What `DecodeGroup` checks and computes. */
  lemma GroupFields(q: seq<byte>, g: seq<byte>)
    requires |q| == 4 && DecodeGroup(q) == Some(g)
    ensures IsAlphabet(q[0]) && IsAlphabet(q[1]) && IsAlphabet(q[2]) && IsAlphabet(q[3])
    ensures var a, b, c, d := DecodeSextet(q[0]), DecodeSextet(q[1]), DecodeSextet(q[2]), DecodeSextet(q[3]);
            g == [a * 4 + b / 16, (b % 16) * 16 + c / 4, (c % 4) * 64 + d]
  {
  }

  lemma GroupCanonical(q: seq<byte>, g: seq<byte>)
    requires |q| == 4 && DecodeGroup(q) == Some(g)
    ensures |g| == 3 && EncodeGroup(g[0], g[1], g[2]) == q
  {
    GroupFields(q, g);
    SextetCanonical(q[0]);
    SextetCanonical(q[1]);
    SextetCanonical(q[2]);
    SextetCanonical(q[3]);
    GroupSextets(DecodeSextet(q[0]), DecodeSextet(q[1]), DecodeSextet(q[2]), DecodeSextet(q[3]), g[0], g[1], g[2]);
    assert q == [q[0], q[1], q[2], q[3]];
  }

  lemma EncodeOne(g: seq<byte>)
    requires |g| == 1
    ensures Encode(g) == EncodeTail1(g[0])
  {
  }

  lemma EncodeTwo(g: seq<byte>)
    requires |g| == 2
    ensures Encode(g) == EncodeTail2(g[0], g[1])
  {
  }

  /** The byte decoded from two sextets, the second with its low four bits
      clear, encodes back to the same two sextets. */
  lemma Tail1Sextets(a: int, b: int, x: byte)
    requires 0 <= a < 64 && 0 <= b < 64 && b % 16 == 0
    requires x == a * 4 + b / 16
    ensures EncodeTail1(x) == [EncodeSextet(a), EncodeSextet(b), PAD, PAD]
  {
    DivMod(a, b / 16, 4);
    assert (b / 16) * 16 == b;
  }

  /** The two bytes decoded from three sextets, the third with its low two
      bits clear, encode back to the same three sextets. */
  lemma Tail2Sextets(a: int, b: int, c: int, x: byte, y: byte)
    requires 0 <= a < 64 && 0 <= b < 64 && 0 <= c < 64 && c % 4 == 0
    requires x == a * 4 + b / 16 && y == (b % 16) * 16 + c / 4
    ensures EncodeTail2(x, y) == [EncodeSextet(a), EncodeSextet(b), EncodeSextet(c), PAD]
  {
    SextetsCanonical(a, b, c, 0);
    assert (c / 4) * 4 == c;
  }

  /** What `DecodeLast` checks and computes for one byte and two pads. */
  lemma Tail1Fields(q: seq<byte>, g: seq<byte>)
    requires |q| == 4 && q[2] == PAD && q[3] == PAD && DecodeLast(q) == Some(g)
    ensures IsAlphabet(q[0]) && IsAlphabet(q[1]) && DecodeSextet(q[1]) % 16 == 0
    ensures g == [DecodeSextet(q[0]) * 4 + DecodeSextet(q[1]) / 16]
  {
  }

  /** What `DecodeLast` checks and computes for two bytes and one pad. */
  lemma Tail2Fields(q: seq<byte>, g: seq<byte>)
    requires |q| == 4 && q[2] != PAD && q[3] == PAD && DecodeLast(q) == Some(g)
    ensures IsAlphabet(q[0]) && IsAlphabet(q[1]) && IsAlphabet(q[2]) && DecodeSextet(q[2]) % 4 == 0
    ensures var a, b, c := DecodeSextet(q[0]), DecodeSextet(q[1]), DecodeSextet(q[2]);
            g == [a * 4 + b / 16, (b % 16) * 16 + c / 4]
  {
  }

  lemma Tail1Canonical(q: seq<byte>, g: seq<byte>)
    requires |q| == 4 && q[2] == PAD && q[3] == PAD
    requires IsAlphabet(q[0]) && IsAlphabet(q[1]) && DecodeSextet(q[1]) % 16 == 0
    requires g == [DecodeSextet(q[0]) * 4 + DecodeSextet(q[1]) / 16]
    ensures |g| == 1 && Encode(g) == q
  {
    SextetCanonical(q[0]);
    SextetCanonical(q[1]);
    Tail1Sextets(DecodeSextet(q[0]), DecodeSextet(q[1]), g[0]);
    EncodeOne(g);
    assert q == [q[0], q[1], PAD, PAD];
  }

  lemma Tail2Canonical(q: seq<byte>, g: seq<byte>)
    requires |q| == 4 && q[3] == PAD
    requires IsAlphabet(q[0]) && IsAlphabet(q[1]) && IsAlphabet(q[2]) && DecodeSextet(q[2]) % 4 == 0
    requires var a, b, c := DecodeSextet(q[0]), DecodeSextet(q[1]), DecodeSextet(q[2]);
             g == [a * 4 + b / 16, (b % 16) * 16 + c / 4]
    ensures |g| == 2 && Encode(g) == q
  {
    SextetCanonical(q[0]);
    SextetCanonical(q[1]);
    SextetCanonical(q[2]);
    Tail2Sextets(DecodeSextet(q[0]), DecodeSextet(q[1]), DecodeSextet(q[2]), g[0], g[1]);
    EncodeTwo(g);
    assert q == [q[0], q[1], q[2], PAD];
  }

  lemma LastCanonical(q: seq<byte>, g: seq<byte>)
    requires |q| == 4 && DecodeLast(q) == Some(g)
    ensures 1 <= |g| <= 3 && Encode(g) == q
  {
    if q[2] == PAD && q[3] == PAD {
      Tail1Fields(q, g);
      Tail1Canonical(q, g);
    } else if q[3] == PAD {
      Tail2Fields(q, g);
      Tail2Canonical(q, g);
    } else {
      GroupCanonical(q, g);
      assert g[3..] == [];
      assert Encode(g) == EncodeGroup(g[0], g[1], g[2]) + Encode([]);
    }
  }

  /** Every string the decoder accepts is the encoding of what it decodes to,
      so `Encode` is a bijection onto the strings `Decode` accepts. */
  lemma {:induction false} EncodeDecode(t: seq<byte>, s: seq<byte>)
    requires Decode(t) == Some(s)
    ensures Encode(s) == t
    decreases |t|
  {
    if t == [] {
    } else if |t| == 4 {
      LastCanonical(t, s);
    } else {
      var g := DecodeGroup(t[..4]).value;
      var rest := Decode(t[4..]).value;
      assert s == g + rest;
      GroupCanonical(t[..4], g);
      EncodeDecode(t[4..], rest);
      assert |Encode(rest)| >= 4;
      assert rest != [];
      assert s[3..] == rest;
      assert t == t[..4] + t[4..];
    }
  }

  /** The test vectors of section 10 of RFC 4648 up to three bytes, and one
      input that uses the last two alphabet characters. */
  lemma Rfc4648Short()
    ensures Encode([]) == []
    ensures Encode(Ascii("f")) == Ascii("Zg==")
    ensures Encode(Ascii("fo")) == Ascii("Zm8=")
    ensures Encode(Ascii("foo")) == Ascii("Zm9v")
    ensures Encode([255, 239]) == Ascii("/+8=")
  {
  }

  /** Encoding a whole group followed by more bytes encodes each part. */
  lemma EncodeAfterGroup(b: seq<byte>, rest: seq<byte>)
    requires |b| == 3
    ensures Encode(b + rest) == Encode(b) + Encode(rest)
  {
    EncodeCons(b, rest);
    EncodeThree(b);
  }

  /** The encodings of the bytes after the first group in the longer vectors. */
  lemma Rfc4648Tails()
    ensures Encode(Ascii("b")) == Ascii("Yg==")
    ensures Encode(Ascii("ba")) == Ascii("YmE=")
    ensures Encode(Ascii("bar")) == Ascii("YmFy")
  {
    assert Ascii("bar")[3..] == [];
  }

  /** Prefixing `foo` to an input prefixes `Zm9v` to its encoding. */
  lemma AfterFoo(t: string, e: string)
    requires Encode(Ascii(t)) == Ascii(e)
    ensures Encode(Ascii("foo" + t)) == Ascii("Zm9v" + e)
  {
    Rfc4648Short();
    AsciiConcat("foo", t);
    AsciiConcat("Zm9v", e);
    EncodeAfterGroup(Ascii("foo"), Ascii(t));
  }

  /** The test vectors of section 10 of RFC 4648 longer than one group. */
  lemma Rfc4648Foob()
    ensures Encode(Ascii("foob")) == Ascii("Zm9vYg==")
  {
    Rfc4648Tails();
    AfterFoo("b", "Yg==");
  }

  lemma Rfc4648Fooba()
    ensures Encode(Ascii("fooba")) == Ascii("Zm9vYmE=")
  {
    Rfc4648Tails();
    AfterFoo("ba", "YmE=");
  }

  lemma Rfc4648Foobar()
    ensures Encode(Ascii("foobar")) == Ascii("Zm9vYmFy")
  {
    Rfc4648Tails();
    AfterFoo("bar", "YmFy");
  }

  /** Distinct byte strings have distinct encodings. */
  lemma EncodeInjective(s: seq<byte>, t: seq<byte>)
    requires Encode(s) == Encode(t)
    ensures s == t
  {
    DecodeEncode(s);
    DecodeEncode(t);
  }
}
