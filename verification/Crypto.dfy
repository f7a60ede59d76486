/** Suites, digests and signatures over canonical JSON. The primitives themselves stay unknown: a digest is any
    function of text, a signature scheme any sign and verify functions. */
module Crypto {
  import opened Wrappers
  import opened CanonicalJson

  datatype Suite = Ed25519Sha256Legacy | Ed25519Sha256 | Sm2Sm3

  datatype HashAlgorithm = Sha256 | Sm3

  datatype SigningKey = SigningKey(suite: Suite, secret: string)

  datatype VerifyingKey = VerifyingKey(suite: Suite, point: string)

  datatype Primitives = Primitives(
    digest: (HashAlgorithm, string) -> string,
    signMultibase: (SigningKey, string) -> string,
    verifyMultibase: (VerifyingKey, string, string) -> bool,
    verifyBase64: (VerifyingKey, string, string) -> bool)

  datatype Proof = Proof(
    proofType: string, creator: string, created: string, purpose: string, value: string, suite: Option<Suite>,
    hashAlgorithm: Option<string>, verificationMethod: Option<string>)

  function AlgorithmOf(s: Suite): HashAlgorithm {
    match s
    case Sm2Sm3 => Sm3
    case _ => Sha256
  }

  function AlgorithmName(s: Suite): string { if s.Sm2Sm3? then "SM3" else "SHA-256" }

  function CanonicalAlgorithmName(s: Suite): string { if s.Sm2Sm3? then "sm3" else "sha256" }

  function ProofType(s: Suite): string { if s.Sm2Sm3? then "SM2Signature2020" else "Ed25519Signature2020" }

  function FromProofType(t: string): Option<Suite> {
    if t == "Ed25519Signature2020" then Some(Ed25519Sha256)
    else if t == "SM2Signature2020" then Some(Sm2Sm3)
    else None
  }

  function SuiteOfProof(p: Proof): Option<Suite> {
    if p.suite.Some? then p.suite else FromProofType(p.proofType)
  }

  /** hash_json_with_suite */
  function HashJson(c: Primitives, s: Suite, v: Json): string {
    c.digest(AlgorithmOf(s), Print(v))
  }

  function SignatureInput(c: Primitives, s: Suite, v: Json): string {
    match s
    case Ed25519Sha256Legacy => HashJson(c, s, v)
    case _ => Print(v)
  }

  /** verify_payload_with_proof: the proof's suite must be the key's. */
  predicate VerifyPayloadWithProof(c: Primitives, payload: Json, p: Proof, key: VerifyingKey) {
    && SuiteOfProof(p) == Some(key.suite)
    && c.verifyMultibase(key, SignatureInput(c, key.suite, payload), p.value)
  }

  function BuildProof(c: Primitives, payload: Json, creator: string, created: string, methodId: string, key: SigningKey)
    : Proof
  {
    Proof(ProofType(key.suite), creator, created, "assertionMethod",
          c.signMultibase(key, SignatureInput(c, key.suite, payload)), Some(key.suite),
          Some(CanonicalAlgorithmName(key.suite)), Some(methodId))
  }

  // ----- collisions -----

  /** What was hashed, and how. */
  datatype Hashed = Hashed(algorithm: HashAlgorithm, text: string)

  /** Two different texts with one digest. The algorithms may differ: a stored hash does not say which one made it. */
  predicate Collision(c: Primitives, x: Hashed, y: Hashed) {
    x.text != y.text && c.digest(x.algorithm, x.text) == c.digest(y.algorithm, y.text)
  }

  /** Two different texts that one algorithm sends to one digest. */
  predicate StrictCollision(c: Primitives, x: Hashed, y: Hashed) {
    x.algorithm == y.algorithm && Collision(c, x, y)
  }

  function HashedJson(s: Suite, v: Json): Hashed { Hashed(AlgorithmOf(s), Print(v)) }

  /** Equal hashes come from equal values, or exhibit a collision. */
  lemma EqualHashes(c: Primitives, s: Suite, v: Json, t: Suite, w: Json)
    requires HashJson(c, s, v) == HashJson(c, t, w)
    ensures v == w || Collision(c, HashedJson(s, v), HashedJson(t, w))
  {
    if Print(v) == Print(w) { PrintIsInjective(v, w); }
  }

  /** What is signed binds the value, under every suite: one text to sign comes from one value, or its two prints
      collide. */
  lemma SignatureInputBinds(c: Primitives, s: Suite, v: Json, w: Json)
    requires SignatureInput(c, s, v) == SignatureInput(c, s, w)
    ensures v == w || Collision(c, HashedJson(s, v), HashedJson(s, w))
    ensures !s.Ed25519Sha256Legacy? ==> v == w
  {
    if Print(v) == Print(w) { PrintIsInjective(v, w); }
  }

  /** A proof says of itself how it was made: its type and its suite name the key's suite, or, of a legacy key, one
      with the same algorithm, and its algorithm name is that of the digest. */
  lemma ProofsDescribeThemselves(
    c: Primitives, payload: Json, creator: string, created: string, methodId: string, key: SigningKey)
    ensures var p := BuildProof(c, payload, creator, created, methodId, key);
            && SuiteOfProof(p) == Some(key.suite)
            && FromProofType(p.proofType).Some? && AlgorithmOf(FromProofType(p.proofType).value) == AlgorithmOf(key.suite)
            && (p.hashAlgorithm == Some("sm3") <==> AlgorithmOf(key.suite) == Sm3)
            && (p.hashAlgorithm == Some("sha256") <==> AlgorithmOf(key.suite) == Sha256)
            && (AlgorithmOf(key.suite) == Sm3 <==> key.suite == Sm2Sm3)
  {
  }

  // ----- structs as objects -----

  /** The members of a struct whose absent fields are skipped. */
  function Present(keys: seq<string>, fields: seq<Option<Json>>): (r: seq<Member>)
    requires |keys| == |fields|
    ensures forall m :: m in r ==> m.key in keys
  {
    if keys == [] then []
    else
      assert keys == [keys[0]] + keys[1..];
      (if fields[0].Some? then [Member(keys[0], fields[0].value)] else []) + Present(keys[1..], fields[1..])
  }

  /** A field that one struct skips and the other has is not named like a later one. */
  predicate TellsApart(keys: seq<string>, a: seq<Option<Json>>, b: seq<Option<Json>>)
    requires |keys| == |a| == |b|
  {
    forall i, j :: 0 <= i < j < |keys| && a[i].Some? != b[i].Some? ==> keys[i] != keys[j]
  }

  lemma PresentHead(keys: seq<string>, fields: seq<Option<Json>>)
    requires |keys| == |fields| && keys != [] && keys[0] !in keys[1..]
    ensures fields[0].Some? <==> Present(keys, fields) != [] && Present(keys, fields)[0].key == keys[0]
  {
    var rest := Present(keys[1..], fields[1..]);
    if rest != [] { assert rest[0] in rest && rest[0].key in keys[1..]; }
  }

  /** A struct can be read off its members: skipped fields are told from present ones. */
  lemma {:induction false} PresentIsInjective(keys: seq<string>, a: seq<Option<Json>>, b: seq<Option<Json>>)
    requires |keys| == |a| == |b| && TellsApart(keys, a, b)
    requires Present(keys, a) == Present(keys, b)
    ensures a == b
  {
    if keys != [] {
      if a[0].Some? != b[0].Some? {
        assert forall j :: 0 < j < |keys| ==> keys[0] != keys[j];
        PresentHead(keys, a);
        PresentHead(keys, b);
      }
      assert Present(keys[1..], a[1..]) == if a[0].Some? then Present(keys, a)[1..] else Present(keys, a);
      assert Present(keys[1..], b[1..]) == if b[0].Some? then Present(keys, b)[1..] else Present(keys, b);
      PresentIsInjective(keys[1..], a[1..], b[1..]);
      assert a == [a[0]] + a[1..] && b == [b[0]] + b[1..];
    }
  }

  function Strings(s: seq<string>): (r: Json)
    ensures r.Arr? && |r.items| == |s| && forall i :: 0 <= i < |s| ==> r.items[i] == Str(s[i])
  {
    Arr(seq(|s|, i requires 0 <= i < |s| => Str(s[i])))
  }

  lemma StringsAreInjective(s: seq<string>, t: seq<string>)
    requires Strings(s) == Strings(t)
    ensures s == t
  {
    assert |Strings(s).items| == |Strings(t).items|;
    forall i | 0 <= i < |s| ensures s[i] == t[i] { assert Strings(s).items[i] == Strings(t).items[i]; }
  }

  function OptionalString(s: Option<string>): Option<Json> {
    if s.None? then None else Some(Str(s.value))
  }
}
