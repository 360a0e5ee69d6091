/** The Rapid7-HMAC-V1 header formatters: the `Digest` header, the canonical
    string the signature is computed over, the signature itself, and the
    `Authorization` header. Each formatter comes with the parser a verifier
    would use, and the lemmas show the parser recovers what was formatted. */
module Signature {
  import opened Bytes
  import opened Outcomes
  import opened Registry
  import opened Decimal
  import Base64

  /** `AUTHN_PROTOCOL`. */
  const AuthnProtocol: seq<byte> := Ascii("Rapid7-HMAC-V1")

  /** The cryptographic primitives, left uninterpreted: `hash(h, data)` is the
      digest of `data` under hash `h` (`h.New()`, `Write`, `Sum(nil)`), and
      `hmac(h, key, data)` is the HMAC of `data` keyed with `key` under `h`
      (`hmac.New(h.New, key)`). Every result below holds for every choice. */
  datatype Primitives = Primitives(
    hash: (Hash, seq<byte>) -> seq<byte>,
    hmac: (Hash, seq<byte>, seq<byte>) -> seq<byte>)

  // ---------------------------------------------------------------- Digest

  /** `GenerateDigest`: `NAME=base64(hash(body))`. The text up to the first
      `=` is the registry name of the hash; the rest is the padded encoding of
      the hash, `4 * ceil(|hash| / 3)` characters long. The empty body is
      hashed like any other. */
  function GenerateDigest(p: Primitives, algorithm: Hash, body: seq<byte>): (r: seq<byte>)
    ensures Cut(r, EQUALS) == Some((GetAlgorithmAsString(algorithm), Base64.Encode(p.hash(algorithm, body))))
    ensures |r| == |GetAlgorithmAsString(algorithm)| + 1 + 4 * ((|p.hash(algorithm, body)| + 2) / 3)
  {
    var name := GetAlgorithmAsString(algorithm);
    var encoded := Base64.Encode(p.hash(algorithm, body));
    NameIsPlain(algorithm);
    CutPrefix(name, EQUALS, encoded);
    name + [EQUALS] + encoded
  }

  /** A verifier's reading of a `Digest` header: the algorithm name and the
      decoded hash. */
  function ParseDigest(header: seq<byte>): Option<(seq<byte>, seq<byte>)> {
    match Cut(header, EQUALS)
    case None => None
    case Some((name, encoded)) =>
      match Base64.Decode(encoded)
      case None => None
      case Some(h) => Some((name, h))
  }

  /** The `Digest` header carries exactly the algorithm name and the hash of the body. */
  lemma DigestRoundTrip(p: Primitives, algorithm: Hash, body: seq<byte>)
    ensures ParseDigest(GenerateDigest(p, algorithm, body)) == Some((GetAlgorithmAsString(algorithm), p.hash(algorithm, body)))
  {
    Base64.DecodeEncode(p.hash(algorithm, body));
  }

  // ------------------------------------------------------ Canonical string

  /** The request fields the signature covers. */
  datatype SigningInput = SigningInput(
    httpMethod: seq<byte>,
    uri: seq<byte>,
    host: seq<byte>,
    date: int,
    identity: seq<byte>,
    digest: seq<byte>)

  /** The five lines written into the MAC, in order: `METHOD URI`, `HOST`,
      the decimal date, `IDENTITY`, `DIGEST`. The method is taken as given. */
  function CanonicalLines(x: SigningInput): seq<seq<byte>> {
    [x.httpMethod + [SP] + x.uri, x.host, FormatInt(x.date), x.identity, x.digest]
  }

  /** The bytes the MAC is computed over: each line followed by a newline,
      one `Write` per line. */
  function Canonical(x: SigningInput): seq<byte> {
    Terminated(CanonicalLines(x), NL)
  }

  /** No field spills into another line, and the method ends at the first space. */
  predicate Unambiguous(x: SigningInput) {
    && NL !in x.httpMethod && SP !in x.httpMethod
    && NL !in x.uri && NL !in x.host && NL !in x.identity && NL !in x.digest
  }

  lemma FormatIntPlain(n: int)
    ensures NL !in FormatInt(n) && SP !in FormatInt(n)
  {
    var r := FormatInt(n);
    if n < 0 {
      assert forall i :: 1 <= i < |r| ==> r[i] == r[1..][i - 1];
    }
  }

  /** The canonical string, byte for byte:
      `METHOD " " URI "\n" HOST "\n" DATE "\n" IDENTITY "\n" DIGEST "\n"`. */
  lemma {:induction false} CanonicalBytes(x: SigningInput)
    ensures Canonical(x)
         == x.httpMethod + [SP] + x.uri + [NL] + x.host + [NL] + FormatInt(x.date) + [NL]
            + x.identity + [NL] + x.digest + [NL]
  {
    var ls := CanonicalLines(x);
    var empty: seq<seq<byte>> := [];
    assert ls[1..][1..][1..][1..][1..] == empty;
    assert Terminated(ls[1..][1..][1..][1..], NL) == x.digest + [NL] + [];
    assert Terminated(ls[1..][1..][1..], NL) == x.identity + [NL] + (x.digest + [NL] + []);
    assert Terminated(ls[1..][1..], NL)
        == FormatInt(x.date) + [NL] + (x.identity + [NL] + (x.digest + [NL] + []));
    assert Terminated(ls[1..], NL)
        == x.host + [NL] + (FormatInt(x.date) + [NL] + (x.identity + [NL] + (x.digest + [NL] + [])));
  }

  /** When no field holds a newline, the canonical string is exactly five
      newline-terminated lines: five newlines, the last byte a newline, and
      splitting at newlines yields the lines in order and an empty tail. */
  lemma CanonicalShape(x: SigningInput)
    requires NL !in x.httpMethod && NL !in x.uri && NL !in x.host && NL !in x.identity && NL !in x.digest
    ensures Count(Canonical(x), NL) == 5
    ensures Canonical(x)[|Canonical(x)| - 1] == NL
    ensures Split(Canonical(x), NL)
         == [x.httpMethod + [SP] + x.uri, x.host, FormatInt(x.date), x.identity, x.digest, []]
  {
    FormatIntPlain(x.date);
    var ls := CanonicalLines(x);
    assert forall i :: 0 <= i < |ls| ==> NL !in ls[i];
    SplitTerminated(ls, NL);
    CountTerminated(ls, NL);
  }

  /** A verifier's reading of a canonical string. */
  function ParseCanonical(s: seq<byte>): Option<SigningInput> {
    var lines := Split(s, NL);
    if |lines| != 6 || lines[5] != [] then None
    else match Cut(lines[0], SP)
      case None => None
      case Some((httpMethod, uri)) =>
        match ParseInt(lines[2])
        case None => None
        case Some(date) => Some(SigningInput(httpMethod, uri, lines[1], date, lines[3], lines[4]))
  }

  /** The canonical string determines the fields it was built from. */
  lemma CanonicalRoundTrip(x: SigningInput)
    requires Unambiguous(x)
    ensures ParseCanonical(Canonical(x)) == Some(x)
  {
    CanonicalShape(x);
    CutPrefix(x.httpMethod, SP, x.uri);
    ParseFormat(x.date);
  }

  /** What `ParseCanonical` reads off each of the six pieces. */
  lemma ParseCanonicalFields(s: seq<byte>, x: SigningInput)
    requires ParseCanonical(s) == Some(x)
    ensures var lines := Split(s, NL);
            && |lines| == 6 && lines[5] == []
            && lines[0] == x.httpMethod + [SP] + x.uri && SP !in x.httpMethod
            && ParseInt(lines[2]) == Some(x.date)
            && lines[1] == x.host && lines[3] == x.identity && lines[4] == x.digest
  {
  }

  /** What the verifier reads holds no newline, and its method no space. */
  lemma ParsedUnambiguous(s: seq<byte>, x: SigningInput)
    requires ParseCanonical(s) == Some(x)
    ensures Unambiguous(x)
  {
    var lines := Split(s, NL);
    ParseCanonicalFields(s, x);
    SplitPiecesPlain(s, NL);
    assert NL !in lines[0] && NL !in lines[1] && NL !in lines[3] && NL !in lines[4];
    NotInParts(x.httpMethod, SP, x.uri, NL);
  }

  /** Every string the verifier accepts is the canonical string of what it
      reads, and what it reads is unambiguous. */
  lemma CanonicalFromParse(s: seq<byte>, x: SigningInput)
    requires ParseCanonical(s) == Some(x)
    ensures Unambiguous(x)
    ensures Canonical(x) == s
  {
    ParsedUnambiguous(s, x);
    var lines := Split(s, NL);
    ParseCanonicalFields(s, x);
    FormatParse(lines[2], x.date);
    LinesOfFields(lines, x);
    Reassemble(s, CanonicalLines(x), NL);
  }

  lemma LinesOfFields(lines: seq<seq<byte>>, x: SigningInput)
    requires |lines| == 6 && lines[5] == []
    requires lines[0] == x.httpMethod + [SP] + x.uri && lines[1] == x.host && lines[2] == FormatInt(x.date)
    requires lines[3] == x.identity && lines[4] == x.digest
    ensures lines == CanonicalLines(x) + [[]]
  {
  }

  /** The method enters the canonical string verbatim: `GenerateSignature`
      does not upper-case it, so a method with a lower-case letter gives a
      different canonical string than its upper-cased form. */
  lemma MethodVerbatim(x: SigningInput)
    ensures Canonical(x)[..|x.httpMethod|] == x.httpMethod
    ensures x.httpMethod != ToUpper(x.httpMethod) ==> Canonical(x) != Canonical(x.(httpMethod := ToUpper(x.httpMethod)))
  {
    var y := x.(httpMethod := ToUpper(x.httpMethod));
    assert Canonical(y)[..|y.httpMethod|] == y.httpMethod;
  }

  // ------------------------------------------------------------- Signature

  /** `GenerateSignature`: the padded base64 encoding of the HMAC, keyed with
      the secret, of the canonical string of the arguments. It holds no `:`. */
  function GenerateSignature(
    p: Primitives, algorithm: Hash, identity: seq<byte>, secret: seq<byte>, digest: seq<byte>,
    httpMethod: seq<byte>, uri: seq<byte>, host: seq<byte>, date: Int64): (r: seq<byte>)
    ensures Base64.Decode(r) == Some(p.hmac(algorithm, secret, Canonical(SigningInput(httpMethod, uri, host, date, identity, digest))))
    ensures COLON !in r && SP !in r
  {
    var mac := p.hmac(algorithm, secret, Canonical(SigningInput(httpMethod, uri, host, date, identity, digest)));
    Base64.DecodeEncode(mac);
    Base64.EncodeAlphabet(mac);
    Base64.Encode(mac)
  }

  /** Two signatures over the same request agree exactly when the MACs agree:
      a secret or algorithm that changes the MAC changes the signature. */
  lemma SignatureSeparates(
    p: Primitives, a1: Hash, a2: Hash, s1: seq<byte>, s2: seq<byte>,
    identity: seq<byte>, digest: seq<byte>, httpMethod: seq<byte>, uri: seq<byte>, host: seq<byte>, date: Int64)
    ensures var c := Canonical(SigningInput(httpMethod, uri, host, date, identity, digest));
            GenerateSignature(p, a1, identity, s1, digest, httpMethod, uri, host, date)
            == GenerateSignature(p, a2, identity, s2, digest, httpMethod, uri, host, date)
            <==> p.hmac(a1, s1, c) == p.hmac(a2, s2, c)
  {
  }

  // --------------------------------------------------------- Authorization

  /** `GenerateAuthorization`:
      `Rapid7-HMAC-V1-NAME base64(identity ":" signature)`. The verifier
      cuts at the first space, which lands between the scheme and the token. */
  function GenerateAuthorization(algorithm: Hash, identity: seq<byte>, signature: seq<byte>): (r: seq<byte>)
    ensures Cut(r, SP) == Some((AuthnProtocol + [MINUS] + GetAlgorithmAsString(algorithm),
                                Base64.Encode(identity + [COLON] + signature)))
  {
    var scheme := AuthnProtocol + [MINUS] + GetAlgorithmAsString(algorithm);
    var token := Base64.Encode(identity + [COLON] + signature);
    NameIsPlain(algorithm);
    assert SP !in scheme by {
      assert SP !in AuthnProtocol;
      assert forall i :: 0 <= i < |scheme| ==> scheme[i] == (if i < |AuthnProtocol| then AuthnProtocol[i] else if i == |AuthnProtocol| then MINUS else GetAlgorithmAsString(algorithm)[i - |AuthnProtocol| - 1]);
    }
    CutPrefix(scheme, SP, token);
    scheme + [SP] + token
  }

  /** A verifier's reading of an `Authorization` header: the scheme, the
      identity and the signature. The identity may hold `:`, so the token is
      cut at its last `:`, after which a base64 signature has none. */
  function ParseAuthorization(header: seq<byte>): Option<(seq<byte>, seq<byte>, seq<byte>)> {
    match Cut(header, SP)
    case None => None
    case Some((scheme, token)) =>
      match Base64.Decode(token)
      case None => None
      case Some(credentials) =>
        match CutLast(credentials, COLON)
        case None => None
        case Some((identity, signature)) => Some((scheme, identity, signature))
  }

  /** The `Authorization` header names the protocol and algorithm in the
      clear, and its token decodes to exactly `identity ":" signature`. */
  lemma AuthorizationRoundTrip(algorithm: Hash, identity: seq<byte>, signature: seq<byte>)
    ensures var r := GenerateAuthorization(algorithm, identity, signature);
            r[..|AuthnProtocol| + 1 + |GetAlgorithmAsString(algorithm)| + 1]
            == AuthnProtocol + [MINUS] + GetAlgorithmAsString(algorithm) + [SP]
    ensures Base64.Decode(Cut(GenerateAuthorization(algorithm, identity, signature), SP).value.1)
            == Some(identity + [COLON] + signature)
  {
    Base64.DecodeEncode(identity + [COLON] + signature);
  }

  /** For a signature without `:` (every signature `GenerateSignature`
      produces), the verifier recovers the scheme, identity and signature. */
  lemma AuthorizationParse(algorithm: Hash, identity: seq<byte>, signature: seq<byte>)
    requires COLON !in signature
    ensures ParseAuthorization(GenerateAuthorization(algorithm, identity, signature))
         == Some((AuthnProtocol + [MINUS] + GetAlgorithmAsString(algorithm), identity, signature))
  {
    Base64.DecodeEncode(identity + [COLON] + signature);
    CutLastSuffix(identity, COLON, signature);
  }
}
