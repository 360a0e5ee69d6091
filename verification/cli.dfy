/** The command's pure core: the URL-argument check, the flag validation that
    runs before the command, and the composition of the signed headers.
    Flags, the clock and URL parsing are inputs; sending the request is not
    modelled. */
module Cli {
  import opened Bytes
  import opened Outcomes
  import opened Registry
  import opened Decimal
  import opened Signature
  import Base64

  /** The command's flags, collected once before the command runs. */
  datatype Config = Config(
    httpMethod: seq<byte>,               // -X, "GET" by default
    payload: seq<byte>,                  // -d, "{}" by default
    digest: seq<byte>,                   // --digest, "SHA256" by default
    headers: map<seq<byte>, seq<byte>>,  // the headers decoded from -H
    identity: seq<byte>,                 // -u, required
    secret: seq<byte>)                   // -p, required

  /** The parts of the parsed request URL the command reads: `path` is Go's
      `URL.Path`, which is percent-decoded, so an escaped `%0A` becomes a
      newline in the signed URI; `text` is `URL.String()`. */
  datatype Url = Url(path: seq<byte>, host: seq<byte>, text: seq<byte>)

  datatype CliError =
    | UrlRequired
    | UrlInvalid(reason: seq<byte>)
    | IdentityRequired
    | SecretRequired
    | UnsupportedAlgorithm(specified: seq<byte>)

  /** What the command hands to the HTTP layer. */
  datatype Request = Request(
    httpMethod: seq<byte>,
    url: seq<byte>,
    payload: seq<byte>,
    headers: map<seq<byte>, seq<byte>>)

  const DateKey: seq<byte> := Ascii("date")
  const DigestKey: seq<byte> := Ascii("digest")
  const AuthorizationKey: seq<byte> := Ascii("authorization")

  lemma KeysDistinct()
    ensures DateKey != DigestKey && DateKey != AuthorizationKey && DigestKey != AuthorizationKey
  {
    assert |DateKey| == 4 && |DigestKey| == 6 && |AuthorizationKey| == 13;
  }

  /** `Args`: the first argument is the request URL, parsed by `parse`
      (Go's `url.Parse`); further arguments are ignored. */
  function Args(args: seq<seq<byte>>, parse: seq<byte> -> Result<Url, seq<byte>>): (r: Result<Url, CliError>)
    ensures r == Err(UrlRequired) <==> |args| == 0
    ensures |args| >= 1 ==> match parse(args[0])
                            case Ok(u) => r == Ok(u)
                            case Err(reason) => r == Err(UrlInvalid(reason))
  {
    if |args| < 1 then Err(UrlRequired)
    else match parse(args[0])
      case Err(reason) => Err(UrlInvalid(reason))
      case Ok(u) => Ok(u)
  }

  /** `PersistentPreRunE`: identity first, then secret, then algorithm. */
  function PreRun(conf: Config): (r: Option<CliError>)
    ensures r == Some(IdentityRequired) <==> conf.identity == []
    ensures r == Some(SecretRequired) <==> conf.identity != [] && conf.secret == []
    ensures r == Some(UnsupportedAlgorithm(conf.digest))
        <==> conf.identity != [] && conf.secret != [] && !AlgorithmIsSupported(conf.digest)
    ensures r == None <==> conf.identity != [] && conf.secret != [] && AlgorithmIsSupported(conf.digest)
  {
    if conf.identity == [] then Some(IdentityRequired)
    else if conf.secret == [] then Some(SecretRequired)
    else if !AlgorithmIsSupported(conf.digest) then Some(UnsupportedAlgorithm(conf.digest))
    else None
  }

  /** The validation reads only the identity, the secret and the algorithm name. */
  lemma PreRunIgnoresRequest(conf: Config, httpMethod: seq<byte>, payload: seq<byte>, headers: map<seq<byte>, seq<byte>>)
    ensures PreRun(conf.(httpMethod := httpMethod, payload := payload, headers := headers)) == PreRun(conf)
  {
  }

  /** The text of the unsupported-algorithm error for one rendering of the list. */
  function UnsupportedText(listing: seq<byte>, specified: seq<byte>): seq<byte> {
    Ascii("Turnstile currently supports the following encryption algorithms: ") + listing
    + Ascii(". You specified ") + specified + Ascii(".")
  }

  /** The error text the command reports for each failure. */
  method Describe(e: CliError) returns (message: seq<byte>)
    ensures e == UrlRequired ==> message == Ascii("URL is a required argument")
    ensures e.UrlInvalid? ==> message == e.reason
    ensures e == IdentityRequired ==> message == Ascii("Identity is required")
    ensures e == SecretRequired ==> message == Ascii("Secret is required")
    ensures e.UnsupportedAlgorithm? ==>
              message == UnsupportedText(SHA256Name + Ascii(", ") + SHA512Name, e.specified)
              || message == UnsupportedText(SHA512Name + Ascii(", ") + SHA256Name, e.specified)
  {
    match e
    case UrlRequired => message := Ascii("URL is a required argument");
    case UrlInvalid(reason) => message := reason;
    case IdentityRequired => message := Ascii("Identity is required");
    case SecretRequired => message := Ascii("Secret is required");
    case UnsupportedAlgorithm(specified) =>
      var listing := GetSupportedAlgorithms();
      message := UnsupportedText(listing, specified);
  }

  /** The configured headers with the three computed headers written over them. */
  function WithSignedHeaders(headers: map<seq<byte>, seq<byte>>, date: seq<byte>, digest: seq<byte>, authorization: seq<byte>)
    : (h: map<seq<byte>, seq<byte>>)
    ensures h.Keys == headers.Keys + {DateKey, DigestKey, AuthorizationKey}
    ensures forall k :: k in headers && k != DateKey && k != DigestKey && k != AuthorizationKey ==> h[k] == headers[k]
    ensures h[DateKey] == date && h[DigestKey] == digest && h[AuthorizationKey] == authorization
  {
    KeysDistinct();
    headers[DateKey := date][DigestKey := digest][AuthorizationKey := authorization]
  }

  /** The pure part of `RunE`: the date, digest and authorization headers are
      written over the configured headers, and every other header is kept.
      The method is upper-cased before signing; the same date and the same
      digest string go into the headers and into the signature. */
  function Sign(p: Primitives, conf: Config, target: Url, date: Int64): (r: Request)
    ensures r.httpMethod == ToUpper(conf.httpMethod)
    ensures r.url == target.text && r.payload == conf.payload
    ensures r.headers.Keys == conf.headers.Keys + {DateKey, DigestKey, AuthorizationKey}
    ensures forall k :: k in conf.headers && k != DateKey && k != DigestKey && k != AuthorizationKey ==>
              r.headers[k] == conf.headers[k]
    ensures r.headers[DateKey] == FormatInt(date)
    ensures var algorithm := GetAlgorithmType(conf.digest);
            && r.headers[DigestKey] == GenerateDigest(p, algorithm, conf.payload)
            && r.headers[AuthorizationKey]
               == GenerateAuthorization(algorithm, conf.identity,
                    GenerateSignature(p, algorithm, conf.identity, conf.secret, r.headers[DigestKey],
                                      ToUpper(conf.httpMethod), target.path, target.host, date))
  {
    var algorithm := GetAlgorithmType(conf.digest);
    var digest := GenerateDigest(p, algorithm, conf.payload);
    var httpMethod := ToUpper(conf.httpMethod);
    var signature := GenerateSignature(p, algorithm, conf.identity, conf.secret, digest,
                                       httpMethod, target.path, target.host, date);
    var authorization := GenerateAuthorization(algorithm, conf.identity, signature);
    Request(httpMethod, target.text, conf.payload, WithSignedHeaders(conf.headers, FormatInt(date), digest, authorization))
  }

  /** Methods that agree up to letter case produce the same request: `get`
      and `GET` sign identically. */
  lemma MethodCaseInsensitive(p: Primitives, conf: Config, other: seq<byte>, target: Url, date: Int64)
    requires ToUpper(other) == ToUpper(conf.httpMethod)
    ensures Sign(p, conf.(httpMethod := other), target, date) == Sign(p, conf, target, date)
  {
  }

  /** What a verifier reads from the signed headers: the date header parses
      back to the date, the digest header to the algorithm name and the body
      hash, and the authorization header to the scheme, the identity and a
      signature that decodes to the MAC of a canonical string whose date line
      is the date header and whose digest line is the digest header. */
  lemma {:induction false} VerifierReadsHeaders(p: Primitives, conf: Config, target: Url, date: Int64)
    ensures var r := Sign(p, conf, target, date);
            var algorithm := GetAlgorithmType(conf.digest);
            var x := SigningInput(r.httpMethod, target.path, target.host, date, conf.identity, r.headers[DigestKey]);
            && ParseInt(r.headers[DateKey]) == Some(date as int)
            && ParseDigest(r.headers[DigestKey]) == Some((GetAlgorithmAsString(algorithm), p.hash(algorithm, conf.payload)))
            && CanonicalLines(x)[2] == r.headers[DateKey]
            && CanonicalLines(x)[4] == r.headers[DigestKey]
            && ParseAuthorization(r.headers[AuthorizationKey]).Some?
            && ParseAuthorization(r.headers[AuthorizationKey]).value.0 == AuthnProtocol + [MINUS] + GetAlgorithmAsString(algorithm)
            && ParseAuthorization(r.headers[AuthorizationKey]).value.1 == conf.identity
            && Base64.Decode(ParseAuthorization(r.headers[AuthorizationKey]).value.2)
               == Some(p.hmac(algorithm, conf.secret, Canonical(x)))
  {
    var r := Sign(p, conf, target, date);
    var algorithm := GetAlgorithmType(conf.digest);
    var signature := GenerateSignature(p, algorithm, conf.identity, conf.secret, r.headers[DigestKey],
                                       r.httpMethod, target.path, target.host, date);
    ParseFormat(date);
    DigestRoundTrip(p, algorithm, conf.payload);
    AuthorizationParse(algorithm, conf.identity, signature);
  }

  /** The command: cobra checks the arguments, then runs the validation, then
      the command itself. A missing or unparsable URL is reported even when
      the flags are invalid too. */
  function Run(p: Primitives, conf: Config, args: seq<seq<byte>>, parse: seq<byte> -> Result<Url, seq<byte>>, date: Int64)
    : (r: Result<Request, CliError>)
    ensures r.Ok? <==> |args| >= 1 && parse(args[0]).Ok? && PreRun(conf) == None
    ensures r.Ok? ==> r.value == Sign(p, conf, parse(args[0]).value, date)
    ensures |args| == 0 ==> r == Err(UrlRequired)
    ensures |args| >= 1 && parse(args[0]).Err? ==> r == Err(UrlInvalid(parse(args[0]).error))
    ensures r.Err? && |args| >= 1 && parse(args[0]).Ok? ==> PreRun(conf) == Some(r.error)
  {
    match Args(args, parse)
    case Err(e) => Err(e)
    case Ok(target) =>
      match PreRun(conf)
      case Some(e) => Err(e)
      case None => Ok(Sign(p, conf, target, date))
  }

  /** A failing run fails the same way whatever the primitives, the payload,
      the method and the headers: every error is reported before any hashing. */
  lemma {:induction false} FailureBeforeCrypto(
    p: Primitives, q: Primitives, conf: Config, payload: seq<byte>, httpMethod: seq<byte>,
    headers: map<seq<byte>, seq<byte>>, args: seq<seq<byte>>, parse: seq<byte> -> Result<Url, seq<byte>>, date: Int64)
    requires Run(p, conf, args, parse, date).Err?
    ensures Run(q, conf.(payload := payload, httpMethod := httpMethod, headers := headers), args, parse, date)
         == Run(p, conf, args, parse, date)
  {
    PreRunIgnoresRequest(conf, httpMethod, payload, headers);
  }

  /** `MD5` is rejected as unsupported once both credentials are given. */
  lemma Md5Rejected(p: Primitives, conf: Config, url: seq<byte>, parse: seq<byte> -> Result<Url, seq<byte>>, date: Int64)
    requires conf.identity != [] && conf.secret != [] && conf.digest == Ascii("MD5")
    requires parse(url).Ok?
    ensures Run(p, conf, [url], parse, date) == Err(UnsupportedAlgorithm(Ascii("MD5")))
  {
    assert |ToUpper(conf.digest)| == 3;
  }

  // ------------------------------------------------------- A worked request

  lemma ExampleDate()
    ensures FormatInt(1000000000) == Ascii("1000000000")
  {
    assert Digits(1) == [49];
    assert Digits(10) == [49, 48];
    assert Digits(100) == [49, 48, 48];
    assert Digits(1000) == [49, 48, 48, 48];
    assert Digits(10000) == [49, 48, 48, 48, 48];
    assert Digits(100000) == [49, 48, 48, 48, 48, 48];
    assert Digits(1000000) == [49, 48, 48, 48, 48, 48, 48];
    assert Digits(10000000) == [49, 48, 48, 48, 48, 48, 48, 48];
    assert Digits(100000000) == [49, 48, 48, 48, 48, 48, 48, 48, 48];
  }

  lemma ExampleRequestLine()
    ensures Ascii("GET") + [SP] + Ascii("/v1/resource") + [NL] == Ascii("GET /v1/resource\n")
  {
    assert "GET /v1/resource\n" == "GET" + " " + "/v1/resource" + "\n";
    AsciiConcat("GET", " ");
    AsciiConcat("GET" + " ", "/v1/resource");
    AsciiConcat("GET" + " " + "/v1/resource", "\n");
  }

  /** Five newline-terminated lines, regrouped line by line. */
  lemma RegroupLines(a: seq<byte>, b: seq<byte>, c: seq<byte>, d: seq<byte>, e: seq<byte>)
    ensures a + [NL] + b + [NL] + c + [NL] + d + [NL] + e + [NL]
         == (a + [NL]) + (b + [NL]) + (c + [NL]) + (d + [NL]) + e + [NL]
  {
  }

  lemma ExampleCanonical(digest: seq<byte>)
    ensures Canonical(SigningInput(Ascii("GET"), Ascii("/v1/resource"), Ascii("api.example.com"), 1000000000, Ascii("alice"), digest))
         == Ascii("GET /v1/resource\n") + Ascii("api.example.com\n") + Ascii("1000000000\n") + Ascii("alice\n")
            + digest + [NL]
  {
    var x := SigningInput(Ascii("GET"), Ascii("/v1/resource"), Ascii("api.example.com"), 1000000000, Ascii("alice"), digest);
    ExampleDate();
    CanonicalBytes(x);
    RegroupLines(x.httpMethod + [SP] + x.uri, x.host, FormatInt(x.date), x.identity, x.digest);
    ExampleRequestLine();
    AsciiLine("api.example.com");
    AsciiLine("1000000000");
    AsciiLine("alice");
  }

  lemma ExampleAlgorithm()
    ensures GetAlgorithmType(Ascii("sha256")) == SHA256
  {
    NamesAreDistinctUpperCase();
    assert ToUpper(Ascii("sha256")) == SHA256Name;
  }

  lemma ExampleNames()
    ensures ToUpper(Ascii("get")) == Ascii("GET")
    ensures GetAlgorithmType(Ascii("sha256")) == SHA256
    ensures GetAlgorithmAsString(SHA256) + [EQUALS] == Ascii("SHA256=")
    ensures AuthnProtocol + [MINUS] + GetAlgorithmAsString(SHA256) + [SP] == Ascii("Rapid7-HMAC-V1-SHA256 ")
    ensures Ascii("alice") + [COLON] == Ascii("alice:")
  {
    ExampleAlgorithm();
    AsciiConcat("SHA256", "=");
    AsciiConcat("alice", ":");
    AsciiConcat("Rapid7-HMAC-V1", "-");
    AsciiConcat("Rapid7-HMAC-V1-", "SHA256");
    AsciiConcat("Rapid7-HMAC-V1-SHA256", " ");
  }

  /** `turnt -X get -u alice -p s3cr3t --digest sha256 https://api.example.com/v1/resource`
      with the default body `{}`, signed at 1000000000: the method goes out
      upper-cased, and each header has the exact bytes the protocol fixes. */
  lemma ExampleRequest(p: Primitives)
    ensures var conf := Config(Ascii("get"), Ascii("{}"), Ascii("sha256"), map[], Ascii("alice"), Ascii("s3cr3t"));
            var target := Url(Ascii("/v1/resource"), Ascii("api.example.com"), Ascii("https://api.example.com/v1/resource"));
            var r := Sign(p, conf, target, 1000000000);
            var digest := Ascii("SHA256=") + Base64.Encode(p.hash(SHA256, Ascii("{}")));
            var canonical := Ascii("GET /v1/resource\n") + Ascii("api.example.com\n") + Ascii("1000000000\n")
                             + Ascii("alice\n") + digest + [NL];
            var signature := Base64.Encode(p.hmac(SHA256, Ascii("s3cr3t"), canonical));
            && r.httpMethod == Ascii("GET")
            && r.headers.Keys == {DateKey, DigestKey, AuthorizationKey}
            && r.headers[DateKey] == Ascii("1000000000")
            && r.headers[DigestKey] == digest
            && r.headers[AuthorizationKey] == Ascii("Rapid7-HMAC-V1-SHA256 ") + Base64.Encode(Ascii("alice:") + signature)
  {
    var conf := Config(Ascii("get"), Ascii("{}"), Ascii("sha256"), map[], Ascii("alice"), Ascii("s3cr3t"));
    var target := Url(Ascii("/v1/resource"), Ascii("api.example.com"), Ascii("https://api.example.com/v1/resource"));
    ExampleNames();
    ExampleDate();
    var digest := GenerateDigest(p, SHA256, conf.payload);
    assert digest == Ascii("SHA256=") + Base64.Encode(p.hash(SHA256, Ascii("{}")));
    ExampleCanonical(digest);
    var x := SigningInput(Ascii("GET"), target.path, target.host, 1000000000, conf.identity, digest);
    var signature := GenerateSignature(p, SHA256, conf.identity, conf.secret, digest, Ascii("GET"), target.path, target.host, 1000000000);
    assert signature == Base64.Encode(p.hmac(SHA256, conf.secret, Canonical(x)));
    var r := Sign(p, conf, target, 1000000000);
    assert r.headers[AuthorizationKey] == GenerateAuthorization(SHA256, conf.identity, signature);
  }
}
