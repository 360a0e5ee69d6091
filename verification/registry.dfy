/** The algorithm registry: the two fixed maps between algorithm names and
    hash identifiers, and the case-insensitive lookups over them. */
module Registry {
  import opened Bytes

  /** Go's `crypto.Hash`, an unsigned enumeration whose zero value names no hash. */
  type Hash = nat

  /** The values of `crypto.SHA256` and `crypto.SHA512` in Go's `crypto` package. */
  const SHA256: Hash := 5
  const SHA512: Hash := 7

  const SHA256Name: seq<byte> := Ascii("SHA256")
  const SHA512Name: seq<byte> := Ascii("SHA512")

  /** Name to hash. */
  const SupportedAlgorithms: map<seq<byte>, Hash> := map[SHA256Name := SHA256, SHA512Name := SHA512]

  /** Hash to name. */
  const SupportedAlgorithmsLookup: map<Hash, seq<byte>> := map[SHA256 := SHA256Name, SHA512 := SHA512Name]

  lemma NamesAreDistinctUpperCase()
    ensures SHA256Name != SHA512Name
    ensures IsUpper(SHA256Name) && IsUpper(SHA512Name)
  {
    assert SHA256Name[3] != SHA512Name[3];
  }

  /** The two maps have exactly two entries each and are inverse to one another. */
  lemma MapsAreInverse()
    ensures |SupportedAlgorithms| == 2 && |SupportedAlgorithmsLookup| == 2
    ensures SupportedAlgorithms.Keys == {SHA256Name, SHA512Name}
    ensures SupportedAlgorithmsLookup.Keys == {SHA256, SHA512}
    ensures forall name :: name in SupportedAlgorithms ==>
              SupportedAlgorithms[name] in SupportedAlgorithmsLookup
              && SupportedAlgorithmsLookup[SupportedAlgorithms[name]] == name
    ensures forall h :: h in SupportedAlgorithmsLookup ==>
              SupportedAlgorithmsLookup[h] in SupportedAlgorithms
              && SupportedAlgorithms[SupportedAlgorithmsLookup[h]] == h
  {
    NamesAreDistinctUpperCase();
  }

  /** `AlgorithmIsSupported`: the upper-cased name is one of the two registry names. */
  function AlgorithmIsSupported(algorithm: seq<byte>): (ok: bool)
    ensures ok <==> ToUpper(algorithm) == SHA256Name || ToUpper(algorithm) == SHA512Name
  {
    ToUpper(algorithm) in SupportedAlgorithms
  }

  /** Support does not depend on letter case. */
  lemma SupportIgnoresCase(algorithm: seq<byte>)
    ensures AlgorithmIsSupported(algorithm) == AlgorithmIsSupported(ToUpper(algorithm))
  {
    ToUpperIdempotent(algorithm);
  }

  /** `GetAlgorithmAsString`: the registered name of a hash, or the empty
      string (Go's zero value for a missing key) for any other hash. */
  function GetAlgorithmAsString(algorithm: Hash): (name: seq<byte>)
    ensures algorithm == SHA256 ==> name == SHA256Name
    ensures algorithm == SHA512 ==> name == SHA512Name
    ensures algorithm != SHA256 && algorithm != SHA512 ==> name == []
  {
    NamesAreDistinctUpperCase();
    ToUpperIdempotent(SHA256Name);
    ToUpperIdempotent(SHA512Name);
    ToUpper(if algorithm in SupportedAlgorithmsLookup then SupportedAlgorithmsLookup[algorithm] else [])
  }

  /** `GetAlgorithmType`: the hash registered under the upper-cased name, or
      the zero hash when the name is not supported. */
  function GetAlgorithmType(algorithm: seq<byte>): (h: Hash)
    ensures AlgorithmIsSupported(algorithm) ==> h in SupportedAlgorithmsLookup
    ensures AlgorithmIsSupported(algorithm) ==> GetAlgorithmAsString(h) == ToUpper(algorithm)
    ensures !AlgorithmIsSupported(algorithm) ==> h == 0
  {
    var key := ToUpper(algorithm);
    if key in SupportedAlgorithms then SupportedAlgorithms[key] else 0
  }

  /** A registered name holds no space, `=`, `:` or newline, so it can be
      cut out of the headers it is written into. */
  lemma NameIsPlain(algorithm: Hash)
    ensures SP !in GetAlgorithmAsString(algorithm)
    ensures EQUALS !in GetAlgorithmAsString(algorithm)
    ensures COLON !in GetAlgorithmAsString(algorithm)
    ensures NL !in GetAlgorithmAsString(algorithm)
  {
  }

  /** `mapSupportedAlgorithmsKeys`: the keys of `m`, each exactly once, in
      whatever order the map iteration yields them. */
  method MapKeys<V>(m: map<seq<byte>, V>) returns (keys: seq<seq<byte>>)
    ensures |keys| == |m|
    ensures forall i :: 0 <= i < |keys| ==> keys[i] in m
    ensures forall k :: k in m ==> k in keys
    ensures forall i, j :: 0 <= i < j < |keys| ==> keys[i] != keys[j]
  {
    keys := [];
    var rest := m.Keys;
    while rest != {}
      invariant rest <= m.Keys
      invariant forall i :: 0 <= i < |keys| ==> keys[i] in m && keys[i] !in rest
      invariant forall k :: k in m ==> k in keys || k in rest
      invariant forall i, j :: 0 <= i < j < |keys| ==> keys[i] != keys[j]
      invariant |keys| + |rest| == |m|
      decreases rest
    {
      var k :| k in rest;
      keys := keys + [k];
      rest := rest - {k};
    }
  }

  /** `GetSupportedAlgorithms`: the registry names joined by `", "`. Go leaves
      map iteration order unspecified, so either order may come out. */
  method GetSupportedAlgorithms() returns (listing: seq<byte>)
    ensures listing == SHA256Name + Ascii(", ") + SHA512Name
         || listing == SHA512Name + Ascii(", ") + SHA256Name
  {
    MapsAreInverse();
    var keys := MapKeys(SupportedAlgorithms);
    var sep := Ascii(", ");
    assert |keys| == 2 && keys[0] != keys[1];
    assert keys[0] in SupportedAlgorithms.Keys && keys[1] in SupportedAlgorithms.Keys;
    assert keys[1..] == [keys[1]];
    assert Join(keys, sep) == keys[0] + sep + keys[1];
    listing := Join(keys, sep);
  }
}
