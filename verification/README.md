# turnt: Rapid7-HMAC-V1 request signing in Dafny

`turnt` is a command-line client that sends HTTP requests signed with the
Rapid7-HMAC-V1 scheme that Turnstile expects. Before a request goes out, the
command adds three headers:

- `date`: the Unix time in decimal.
- `digest`: `NAME=base64(hash(body))`.
- `authorization`: `Rapid7-HMAC-V1-NAME base64(identity ":" signature)`.

The signature is the base64 HMAC, keyed with the secret, of five
newline-terminated lines: `METHOD URI`, `HOST`, the date, the identity, and
the digest header.

This project models that core as pure Dafny functions over byte strings, and
proves what a verifier on the other end relies on. Each header the command
writes can be parsed back to exactly the values it was built from. When no
field holds a newline and the method holds no space, the canonical string
determines the request fields, and every string a verifier accepts is the
canonical string of the fields it reads. Without those conditions two
different requests can share a canonical string (identity `i\nd` with an
empty digest, and identity `i` with digest `d\n`). The condition can fail in
the real program: the signed URI is Go's percent-decoded `URL.Path`, so a
`%0A` in the URL puts a newline into it. The flag
validation rejects exactly the configurations the command rejects, in the
same order, before any hashing takes place.

Modules, one file each:

| file | module | what it holds |
|---|---|---|
| `outcomes.dfy` | `Outcomes` | `Option` and `Result` |
| `bytes.dfy` | `Bytes` | byte strings, ASCII `ToUpper`, `Cut`, `Split`, `Join` and their lemmas |
| `base64.dfy` | `Base64` | standard padded base64 (section 4 of RFC 4648) and a strict decoder |
| `decimal.dfy` | `Decimal` | `%d` / `strconv.Itoa` rendering and a canonical parser |
| `registry.dfy` | `Registry` | `utils/utils.go`: the algorithm maps and lookups |
| `signature.dfy` | `Signature` | `lib/signature.go`: the digest, canonical string, signature and authorization |
| `cli.dfy` | `Cli` | `cmd/root.go`: the argument check, the flag validation, and the pure part of `RunE` |

Hashing and HMAC are not computed. They are the two fields of
`Signature.Primitives`, which every operation takes as a parameter, so every
property holds whatever hash and HMAC functions are plugged in. Three other
things also come in as parameters: the current time (`date: Int64`), Go's
`url.Parse` (`parse`), and the parsed URL's path, host and printed form
(`Cli.Url`).

Three behaviours of the code worth stating plainly:

- `GenerateSignature` writes the method exactly as it is given. Only the
  caller (`RunE`) upper-cases it. `Signature.MethodVerbatim` shows the
  difference matters, and `Cli.MethodCaseInsensitive` shows the command as a
  whole is insensitive to letter case.
- The list of supported algorithms in the error message comes out in Go's
  unspecified map order. It is not sorted, so `Registry.GetSupportedAlgorithms`
  may return either order.
- `GetAlgorithmType` returns the zero hash for an unsupported name; it does
  not return an error. Likewise `GetAlgorithmAsString` returns the empty
  string for an unregistered hash.

## Model

| member | source | states |
|---|---|---|
| Base64.Encode | lib/signature.go:20 | The padded standard encoding is `4 * ceil(n / 3)` characters long for `n` input bytes. |
| Base64.EncodeAlphabet | lib/signature.go:42 | An encoding holds only alphabet characters and `=`, so a signature contains no space or `:`. |
| Base64.DecodeEncode | lib/signature.go:27 | Decoding the encoding of any byte string gives back that byte string. |
| Base64.EncodeDecode | lib/signature.go:27 | Every string the strict decoder accepts is the encoding of what it decodes to, so the encoding is canonical. |
| Base64.Rfc4648Short | lib/signature.go:20 | The encoder produces the test vectors of section 10 of RFC 4648 for `""`, `f`, `fo` and `foo`, and `/+8=` for the bytes 255, 239. |
| Base64.Rfc4648Foob | lib/signature.go:20 | `foob` encodes to `Zm9vYg==`, as section 10 of RFC 4648 lists. |
| Base64.Rfc4648Fooba | lib/signature.go:20 | `fooba` encodes to `Zm9vYmE=`, as section 10 of RFC 4648 lists. |
| Base64.Rfc4648Foobar | lib/signature.go:20 | `foobar` encodes to `Zm9vYmFy`, as section 10 of RFC 4648 lists. |
| Base64.EncodeInjective | lib/signature.go:42 | Different MACs give different signature strings. |
| Decimal.FormatInt | lib/signature.go:38 | `%d` writes a `-` exactly for negative values, followed by digits with no leading zero. |
| Decimal.ParseFormat | lib/signature.go:38 | Parsing the decimal rendering of any integer gives back the integer. |
| Decimal.FormatParse | lib/signature.go:38 | Every string the parser accepts is the rendering of its value, so each integer has one spelling. |
| Registry.MapsAreInverse | utils/utils.go:9-17 | The two maps hold SHA256 and SHA512 only, and each map undoes the other. |
| Registry.AlgorithmIsSupported | utils/utils.go:20-23 | A name is supported exactly when its upper-cased form is `SHA256` or `SHA512`. |
| Registry.SupportIgnoresCase | utils/utils.go:21 | Whether a name is supported does not depend on its letter case. |
| Registry.GetAlgorithmType | utils/utils.go:31-33 | A supported name maps to a registered hash whose name is the upper-cased input; any other name maps to the zero hash. |
| Registry.GetAlgorithmAsString | utils/utils.go:36-38 | SHA256 and SHA512 give their registry names; every other hash gives the empty string. |
| Registry.NameIsPlain | utils/utils.go:9-17 | No algorithm name contains a space, `=`, `:` or newline, so the headers can be cut apart again. |
| Registry.MapKeys | utils/utils.go:40-47 | The result lists every key of the map exactly once, in some order. |
| Registry.GetSupportedAlgorithms | utils/utils.go:26-28 | The listing is the two names joined by `", "`, in one of the two orders. |
| Bytes.ToUpperIdempotent | utils/utils.go:37 | Upper-casing a registry name that is already upper-case changes nothing, and upper-casing twice is the same as once. |
| Signature.GenerateDigest | lib/signature.go:15-21 | Cutting the digest header at its first `=` yields the algorithm name and the base64 of the body hash. |
| Signature.DigestRoundTrip | lib/signature.go:15-21 | A verifier parsing the digest header recovers the algorithm name and the body hash. |
| Signature.CanonicalBytes | lib/signature.go:36-40 | The MAC input is `METHOD SP URI NL HOST NL DATE NL IDENTITY NL DIGEST NL`, byte for byte. |
| Signature.CanonicalShape | lib/signature.go:36-40 | When no field holds a newline, the MAC input is five newline-terminated lines that split back into the fields. |
| Signature.CanonicalRoundTrip | lib/signature.go:36-40 | When no field holds a newline and the method holds no space, the parser recovers every field from the canonical string. |
| Signature.CanonicalFromParse | lib/signature.go:36-40 | Every string the parser accepts is the canonical string of the fields it reads, and those fields are unambiguous. |
| Signature.MethodVerbatim | lib/signature.go:36 | The method starts the canonical string as given, so a lower-case method changes the MAC input. |
| Signature.GenerateSignature | lib/signature.go:33-43 | The signature decodes to the HMAC, keyed with the secret, of the canonical string, and it holds no `:` or space. |
| Signature.SignatureSeparates | lib/signature.go:34-42 | Two signatures over the same request are equal exactly when their MACs are equal. |
| Signature.GenerateAuthorization | lib/signature.go:24-30 | Cutting the authorization header at its first space yields `Rapid7-HMAC-V1-NAME` and the base64 of `identity:signature`. |
| Signature.AuthorizationRoundTrip | lib/signature.go:24-30 | The header starts with the scheme and a space, and its token decodes to exactly `identity:signature`. |
| Signature.AuthorizationParse | lib/signature.go:24-30 | For a signature without `:`, a verifier recovers the scheme, the identity and the signature, even when the identity holds `:`. |
| Cli.Args | cmd/root.go:51-65 | No argument gives "URL is a required argument". Otherwise the first argument is parsed, and a parse failure is returned as the error. |
| Cli.PreRun | cmd/root.go:66-84 | Validation fails on a missing identity, then on a missing secret, then on an unsupported algorithm; it passes exactly when none of these applies. |
| Cli.PreRunIgnoresRequest | cmd/root.go:66-84 | The validation does not depend on the method, the payload or the headers. |
| Cli.Describe | cmd/root.go:51-81 | Each error produces the source's message text; the algorithm error lists the two names in either order. |
| Cli.WithSignedHeaders | cmd/root.go:87-110 | The date, digest and authorization headers overwrite any configured header of the same name; every other header is kept. |
| Cli.Sign | cmd/root.go:85-110 | The request goes out with the upper-cased method, the URL text, the payload, and the three computed headers; the same digest goes into the header and into the signature. |
| Cli.MethodCaseInsensitive | cmd/root.go:96-105 | Methods that differ only in letter case produce identical requests. |
| Cli.VerifierReadsHeaders | cmd/root.go:86-110 | From the signed headers a verifier recovers the date, the algorithm name, the body hash, the identity, and a signature that decodes to the HMAC of a canonical string built from those same headers. |
| Cli.Run | cmd/root.go:51-110 | The command succeeds exactly when the URL argument parses and the validation passes, and it then returns the signed request. A missing or unparsable URL is the error reported, whatever the flags; otherwise the validation's error is. |
| Cli.FailureBeforeCrypto | cmd/root.go:66-84 | A failing run fails the same way for any primitives, payload, method and headers. |
| Cli.Md5Rejected | cmd/root.go:76-81 | With both credentials present, `MD5` is rejected as an unsupported algorithm. |
| Cli.ExampleRequest | cmd/root.go:85-110 | A worked request (`get`, `sha256`, identity `alice`, time 1000000000) carries the exact header bytes the protocol fixes, with the method upper-cased. |

## Left out

- The hash and HMAC algorithms themselves are not modelled: they are the uninterpreted `Primitives` parameter. Go's `Hash.New` panics for a hash that is not linked in. That cannot happen here, because validation admits only SHA256 and SHA512.
- The five `mac.Write` calls are modelled as a single HMAC over their concatenation. HMAC is a streaming function, so this gives the same result.
- Sending the request, reading the response and pretty-printing the JSON response (`lib/request.go`) are not modelled, because they are network I/O.
- Logging, cobra's command wiring, flag registration, `Execute` and `os.Exit` are not modelled.
- `time.Now().Unix()` is not modelled; the time is the `date` parameter.
- `url.Parse` is not modelled; it is the `parse` parameter. `requestUrl.String()` is the `text` field of `Cli.Url`.
- The `-H` flag's JSON decoding is not modelled; the configured headers are an input map. In the source this decoding runs in `init`, before flags are parsed, so it always decodes the default `{}`.
- Cli.Sign: `strconv.Itoa(int(date))` is modelled as printing the full 64-bit value. It does not model truncation to a 32-bit `int`, because on 64-bit platforms `int` is 64 bits wide.
- Bytes.ToUpper: only ASCII letters are upper-cased, so Unicode case mappings are missing. In particular Go maps `ſ` (U+017F) to `S`, which Go would accept as a spelling of `SHA256`; this model does not. Go's `strings.ToUpper` also replaces each invalid UTF-8 byte with U+FFFD (three bytes). For a `-X` method or `--digest` value holding such a byte, Go's result is therefore longer than the input, whereas `ToUpper` keeps the length (`|r| == |s|`) and leaves every byte of 0x80 and above unchanged.
- The unused `file` field of the source's configuration record is not modelled, because nothing reads it.
- Base64.Decode: this is the strict decoder for the strings the encoder produces, written for the round-trip proofs. Go's lenient `DecodeString` (ignoring newlines, for example) is not modelled, because the program never decodes.
- Signature.CanonicalRoundTrip: the canonical string is not injective in general, and the program does not reject fields holding a newline. The round trip is promised only for fields without a newline and a method without a space (`Signature.Unambiguous`). A percent-encoded `%0A` in the URL path breaks this condition in the real program.
