/** Resource packages: what their hashes and claims bind. */
module Package {
  import opened Wrappers
  import opened CanonicalJson
  import opened Crypto

  datatype Controller = Did(did: string) | Dids(dids: seq<string>)

  type OtherMembers = s: seq<Member> | forall m :: m in s ==> m.key != "authorizedDomains" witness []

  /** The members that sort before and after authorizedDomains stay as they are serialized. */
  datatype OanMetadata = OanMetadata(before: OtherMembers, authorizedDomains: seq<string>, after: OtherMembers)

  /** Nested structs stay as they are serialized. */
  datatype DidDocument = DidDocument(
    context: seq<string>, id: string, controller: Option<Controller>, verificationMethod: seq<Json>,
    authentication: seq<string>, assertionMethod: seq<string>, capabilityInvocation: seq<string>, service: seq<Json>,
    proof: Option<Json>, oanMetadata: Option<OanMetadata>)

  datatype Metadata = Metadata(
    resourceDid: string, resourceType: string, subjectType: string, publisherDid: Option<string>,
    subjectDid: Option<string>, name: string, description: string, capabilityTags: seq<string>,
    authorizedDomains: seq<string>, protocolBindings: seq<Json>, services: seq<Json>, lifecycleState: string,
    packageVersion: string, packageHash: string, metadataHash: string, hashAlgorithm: string, updatedAt: string)

  datatype Claims = Claims(
    resourceDid: string, resourceType: string, version: string, didDocumentHash: string, metadataHash: string,
    packageHash: string, hashAlgorithm: string, lifecycleState: string, authorizedDomains: seq<string>,
    bulletinRef: Option<string>)

  /** packageClaims as stored: a value that parses as claims, or one that does not. */
  datatype StoredClaims = Parsed(claims: Claims) | Unparsable(value: Json)

  datatype RootProof = RootProof(claims: Option<StoredClaims>, proof: Option<Proof>, suite: Option<Suite>)

  datatype ResourcePackage = ResourcePackage(
    packageVersion: string, resourceDid: string, resourceType: string, didDocument: DidDocument,
    didDocumentHash: string, metadataHash: string, packageHash: string, hashAlgorithm: string, metadata: Metadata,
    rootProof: RootProof)

  datatype PackageError =
    | DidDocumentHashMismatch | MetadataHashMismatch | PackageHashMismatch | RootProofClaimMismatch

  // ----- serialization -----

  // A struct is serialized as a map: its members come in key order.

  const DOCUMENT_KEYS: seq<string> := [
    "@context", "assertionMethod", "authentication", "capabilityInvocation", "controller", "id", "oanMetadata",
    "proof", "service", "verificationMethod"]

  function EncodeController(c: Controller): Json {
    match c
    case Did(did) => Str(did)
    case Dids(dids) => Strings(dids)
  }

  function EncodeOanMetadata(m: OanMetadata): Json {
    Obj(m.before + ([Member("authorizedDomains", Strings(m.authorizedDomains))] + m.after))
  }

  function DocumentFields(d: DidDocument): seq<Option<Json>> {
    [Some(Strings(d.context)), Some(Strings(d.assertionMethod)), Some(Strings(d.authentication)),
     if d.capabilityInvocation == [] then None else Some(Strings(d.capabilityInvocation)),
     if d.controller.None? then None else Some(EncodeController(d.controller.value)),
     Some(Str(d.id)),
     if d.oanMetadata.None? then None else Some(EncodeOanMetadata(d.oanMetadata.value)),
     d.proof, Some(Arr(d.service)), Some(Arr(d.verificationMethod))]
  }

  function EncodeDocument(d: DidDocument): Json {
    Obj(Present(DOCUMENT_KEYS, DocumentFields(d)))
  }

  const METADATA_KEYS: seq<string> := [
    "authorizedDomains", "capabilityTags", "description", "hashAlgorithm", "lifecycleState", "metadataHash", "name",
    "packageHash", "packageVersion", "protocolBindings", "publisherDid", "resourceDid", "resourceType", "services",
    "subjectDid", "subjectType", "updatedAt"]

  function MetadataFields(m: Metadata): seq<Option<Json>> {
    [Some(Strings(m.authorizedDomains)), Some(Strings(m.capabilityTags)), Some(Str(m.description)),
     Some(Str(m.hashAlgorithm)), Some(Str(m.lifecycleState)), Some(Str(m.metadataHash)), Some(Str(m.name)),
     Some(Str(m.packageHash)), Some(Str(m.packageVersion)), Some(Arr(m.protocolBindings)),
     OptionalString(m.publisherDid), Some(Str(m.resourceDid)), Some(Str(m.resourceType)), Some(Arr(m.services)),
     OptionalString(m.subjectDid), Some(Str(m.subjectType)), Some(Str(m.updatedAt))]
  }

  function EncodeMetadata(m: Metadata): Json {
    Obj(Present(METADATA_KEYS, MetadataFields(m)))
  }

  /** The object verify_package_hash digests. */
  function PackageSummary(p: ResourcePackage): Json {
    Obj([Member("didDocumentHash", Str(p.didDocumentHash)), Member("hashAlgorithm", Str(p.hashAlgorithm)),
         Member("metadataHash", Str(p.metadataHash)), Member("packageVersion", Str(p.packageVersion)),
         Member("resourceDid", Str(p.resourceDid)), Member("resourceType", Str(p.resourceType))])
  }

  lemma ControllerIsInjective(a: Controller, b: Controller)
    requires EncodeController(a) == EncodeController(b)
    ensures a == b
  {
    if a.Dids? { StringsAreInjective(a.dids, b.dids); }
  }

  lemma NoneBefore(before: OtherMembers, x: Member, after: OtherMembers)
    ensures var s := before + ([x] + after);
            s[|before|] == x && s[..|before|] == before && s[|before| + 1..] == after
    ensures forall i :: 0 <= i < |before| ==> (before + ([x] + after))[i].key != "authorizedDomains"
  {
    forall i | 0 <= i < |before| ensures (before + ([x] + after))[i].key != "authorizedDomains" {
      assert before[i] in before;
    }
  }

  /** A member list is cut in one way only at its first authorizedDomains. */
  lemma OneCut(a: OtherMembers, x: Member, c: OtherMembers, b: OtherMembers, y: Member, d: OtherMembers)
    requires x.key == "authorizedDomains" == y.key
    requires a + ([x] + c) == b + ([y] + d)
    ensures a == b && x == y && c == d
  {
    NoneBefore(a, x, c);
    NoneBefore(b, y, d);
    assert |a| == |b|;
  }

  lemma OanMetadataIsInjective(a: OanMetadata, b: OanMetadata)
    requires EncodeOanMetadata(a) == EncodeOanMetadata(b)
    ensures a == b
  {
    OneCut(a.before, Member("authorizedDomains", Strings(a.authorizedDomains)), a.after,
           b.before, Member("authorizedDomains", Strings(b.authorizedDomains)), b.after);
    StringsAreInjective(a.authorizedDomains, b.authorizedDomains);
  }

  lemma DocumentFieldsAreInjective(a: DidDocument, b: DidDocument)
    requires DocumentFields(a) == DocumentFields(b)
    ensures a == b
  {
    var x, y := DocumentFields(a), DocumentFields(b);
    assert x[0] == y[0] && x[1] == y[1] && x[2] == y[2] && x[3] == y[3] && x[4] == y[4];
    assert x[5] == y[5] && x[6] == y[6] && x[7] == y[7] && x[8] == y[8] && x[9] == y[9];
    StringsAreInjective(a.context, b.context);
    StringsAreInjective(a.authentication, b.authentication);
    StringsAreInjective(a.assertionMethod, b.assertionMethod);
    if a.capabilityInvocation != [] { StringsAreInjective(a.capabilityInvocation, b.capabilityInvocation); }
    if a.controller.Some? { ControllerIsInjective(a.controller.value, b.controller.value); }
    if a.oanMetadata.Some? { OanMetadataIsInjective(a.oanMetadata.value, b.oanMetadata.value); }
  }

  /** No two keys have one length. */
  lemma DocumentKeysTellApart(a: DidDocument, b: DidDocument)
    ensures TellsApart(DOCUMENT_KEYS, DocumentFields(a), DocumentFields(b))
  {
    var k := DOCUMENT_KEYS;
    assert |k[0]| == 8 && |k[1]| == 15 && |k[2]| == 14 && |k[3]| == 20 && |k[4]| == 10;
    assert |k[5]| == 2 && |k[6]| == 11 && |k[7]| == 5 && |k[8]| == 7 && |k[9]| == 18;
    forall i, j | 0 <= i < j < 10 ensures k[i] != k[j] {
      assert |k[i]| != |k[j]|;
    }
  }

  lemma EncodeDocumentIsInjective(a: DidDocument, b: DidDocument)
    requires EncodeDocument(a) == EncodeDocument(b)
    ensures a == b
  {
    DocumentKeysTellApart(a, b);
    hide TellsApart;
    PresentIsInjective(DOCUMENT_KEYS, DocumentFields(a), DocumentFields(b));
    DocumentFieldsAreInjective(a, b);
  }

  lemma MetadataFieldsAreInjective(a: Metadata, b: Metadata)
    requires MetadataFields(a) == MetadataFields(b)
    ensures a == b
  {
    var x, y := MetadataFields(a), MetadataFields(b);
    assert x[0] == y[0] && x[1] == y[1] && x[2] == y[2] && x[3] == y[3] && x[4] == y[4] && x[5] == y[5];
    assert x[6] == y[6] && x[7] == y[7] && x[8] == y[8] && x[9] == y[9] && x[10] == y[10] && x[11] == y[11];
    assert x[12] == y[12] && x[13] == y[13] && x[14] == y[14] && x[15] == y[15] && x[16] == y[16];
    StringsAreInjective(a.capabilityTags, b.capabilityTags);
    StringsAreInjective(a.authorizedDomains, b.authorizedDomains);
  }

  /** Only publisherDid and subjectDid are ever skipped. */
  lemma MetadataKeysTellApart(a: Metadata, b: Metadata)
    ensures TellsApart(METADATA_KEYS, MetadataFields(a), MetadataFields(b))
  {
    var x, y := MetadataFields(a), MetadataFields(b);
    forall i, j | 0 <= i < j < 17 && x[i].Some? != y[i].Some? ensures METADATA_KEYS[i] != METADATA_KEYS[j] {
      assert i == 10 || i == 14;
      assert |METADATA_KEYS[10]| == 12 && METADATA_KEYS[10][0] == 'p';
      assert |METADATA_KEYS[14]| == 10;
    }
  }

  lemma EncodeMetadataIsInjective(a: Metadata, b: Metadata)
    requires EncodeMetadata(a) == EncodeMetadata(b)
    ensures a == b
  {
    MetadataKeysTellApart(a, b);
    hide TellsApart;
    PresentIsInjective(METADATA_KEYS, MetadataFields(a), MetadataFields(b));
    MetadataFieldsAreInjective(a, b);
  }

  lemma PackageSummaryIsInjective(p: ResourcePackage, q: ResourcePackage)
    requires PackageSummary(p) == PackageSummary(q)
    ensures p.packageVersion == q.packageVersion && p.resourceDid == q.resourceDid && p.resourceType == q.resourceType
    ensures p.didDocumentHash == q.didDocumentHash && p.metadataHash == q.metadataHash
  {
    var x, y := PackageSummary(p).members, PackageSummary(q).members;
    assert x[0] == y[0] && x[1] == y[1] && x[2] == y[2] && x[3] == y[3] && x[4] == y[4];
  }

  // ----- verification -----

  function EffectiveSuite(p: ResourcePackage): Suite {
    if p.rootProof.suite.Some? then p.rootProof.suite.value
    else if p.rootProof.proof.Some? && SuiteOfProof(p.rootProof.proof.value).Some?
    then SuiteOfProof(p.rootProof.proof.value).value
    else Ed25519Sha256
  }

  /** The bare digest or the digest after its algorithm's name and a colon. */
  predicate HashMatches(expected: string, algorithm: string, actual: string) {
    expected == actual || expected == algorithm + ":" + actual
  }

  function Cleared(m: Metadata): Metadata { m.(metadataHash := "", packageHash := "") }

  /** hash_resource_metadata_with_suite: both hash fields are cleared first. */
  function MetadataHash(c: Primitives, s: Suite, m: Metadata): string {
    HashJson(c, s, EncodeMetadata(Cleared(m)))
  }

  function Verdict(ok: bool, error: PackageError): Result<(), PackageError> {
    if ok then Ok(()) else Err(error)
  }

  function VerifyDidDocumentHash(c: Primitives, p: ResourcePackage): Result<(), PackageError> {
    Verdict(HashMatches(p.didDocumentHash, p.hashAlgorithm, HashJson(c, EffectiveSuite(p), EncodeDocument(p.didDocument))),
            DidDocumentHashMismatch)
  }

  function VerifyMetadataHash(c: Primitives, p: ResourcePackage): Result<(), PackageError> {
    Verdict(HashMatches(p.metadataHash, p.hashAlgorithm, MetadataHash(c, EffectiveSuite(p), p.metadata)),
            MetadataHashMismatch)
  }

  function VerifyPackageHash(c: Primitives, p: ResourcePackage): Result<(), PackageError> {
    Verdict(HashMatches(p.packageHash, p.hashAlgorithm, HashJson(c, EffectiveSuite(p), PackageSummary(p))),
            PackageHashMismatch)
  }

  function DocumentDomains(d: DidDocument): seq<string> {
    if d.oanMetadata.Some? then d.oanMetadata.value.authorizedDomains else []
  }

  function VerifyMetadataConsistency(p: ResourcePackage): Result<(), PackageError> {
    Verdict(
      && p.metadata.resourceDid == p.resourceDid
      && p.metadata.packageVersion == p.packageVersion
      && p.metadata.packageHash == p.packageHash
      && p.metadata.metadataHash == p.metadataHash
      && p.metadata.hashAlgorithm == p.hashAlgorithm
      && DocumentDomains(p.didDocument) == p.metadata.authorizedDomains,
      RootProofClaimMismatch)
  }

  function VerifyRootClaimBinding(p: ResourcePackage): Result<(), PackageError> {
    if p.rootProof.claims.None? || p.rootProof.claims.value.Unparsable? then Err(RootProofClaimMismatch)
    else
      var claims := p.rootProof.claims.value.claims;
      Verdict(
        && claims.resourceDid == p.resourceDid
        && claims.resourceType == p.resourceType
        && claims.version == p.packageVersion
        && claims.didDocumentHash == p.didDocumentHash
        && claims.metadataHash == p.metadataHash
        && claims.packageHash == p.packageHash
        && claims.hashAlgorithm == p.hashAlgorithm
        && claims.lifecycleState == p.metadata.lifecycleState
        && claims.authorizedDomains == p.metadata.authorizedDomains,
        RootProofClaimMismatch)
  }

  // ----- binding -----

  /** Digests are hexadecimal: there is no colon in them. */
  ghost predicate HexDigests(c: Primitives) {
    forall a, t :: ':' !in c.digest(a, t)
  }

  /** A stored hash fits one digest only, in whichever spelling. */
  lemma MatchFixesDigest(expected: string, algorithm: string, a: string, b: string)
    requires HashMatches(expected, algorithm, a) && HashMatches(expected, algorithm, b)
    requires ':' !in a && ':' !in b
    ensures a == b
  {
    var prefix := algorithm + ":";
    assert (prefix + a)[|algorithm|] == ':' && (prefix + b)[|algorithm|] == ':';
    assert (prefix + a)[|prefix|..] == a && (prefix + b)[|prefix|..] == b;
  }

  /** Two values whose digests match one stored hash are equal, or collide. */
  lemma OneHashOneValue(c: Primitives, expected: string, algorithm: string, s: Suite, v: Json, t: Suite, w: Json)
    requires HexDigests(c)
    requires HashMatches(expected, algorithm, HashJson(c, s, v)) && HashMatches(expected, algorithm, HashJson(c, t, w))
    ensures v == w || Collision(c, HashedJson(s, v), HashedJson(t, w))
  {
    MatchFixesDigest(expected, algorithm, HashJson(c, s, v), HashJson(c, t, w));
    EqualHashes(c, s, v, t, w);
  }

  predicate HashesVerify(c: Primitives, p: ResourcePackage) {
    && VerifyDidDocumentHash(c, p).Ok? && VerifyMetadataHash(c, p).Ok? && VerifyPackageHash(c, p).Ok?
    && VerifyMetadataConsistency(p).Ok?
  }

  predicate SameContent(p: ResourcePackage, q: ResourcePackage) {
    && p.packageVersion == q.packageVersion && p.resourceDid == q.resourceDid && p.resourceType == q.resourceType
    && p.didDocument == q.didDocument && p.metadata == q.metadata
  }

  /** The three texts a package's verification hashes. */
  function HashedSummary(p: ResourcePackage): Hashed { HashedJson(EffectiveSuite(p), PackageSummary(p)) }
  function HashedDocument(p: ResourcePackage): Hashed { HashedJson(EffectiveSuite(p), EncodeDocument(p.didDocument)) }
  function HashedMetadata(p: ResourcePackage): Hashed { HashedJson(EffectiveSuite(p), EncodeMetadata(Cleared(p.metadata))) }

  /** The summaries, the documents or the metadata of two packages are different texts with one digest. */
  predicate PackagesCollide(c: Primitives, p: ResourcePackage, q: ResourcePackage) {
    || Collision(c, HashedSummary(p), HashedSummary(q))
    || Collision(c, HashedDocument(p), HashedDocument(q))
    || Collision(c, HashedMetadata(p), HashedMetadata(q))
  }

  predicate PackagesCollideStrictly(c: Primitives, p: ResourcePackage, q: ResourcePackage) {
    || StrictCollision(c, HashedSummary(p), HashedSummary(q))
    || StrictCollision(c, HashedDocument(p), HashedDocument(q))
    || StrictCollision(c, HashedMetadata(p), HashedMetadata(q))
  }

  /** The package hash alone binds the whole content, the cleared hash fields included: equal package hashes under
      one algorithm name mean equal content, or the two packages themselves collide, in one algorithm if their suites
      use the same. */
  lemma PackageHashBinds(c: Primitives, p: ResourcePackage, q: ResourcePackage)
    requires HexDigests(c) && HashesVerify(c, p) && HashesVerify(c, q)
    requires p.packageHash == q.packageHash && p.hashAlgorithm == q.hashAlgorithm
    ensures SameContent(p, q) || PackagesCollide(c, p, q)
    ensures AlgorithmOf(EffectiveSuite(p)) == AlgorithmOf(EffectiveSuite(q)) ==>
              SameContent(p, q) || PackagesCollideStrictly(c, p, q)
  {
    OneHashOneValue(c, p.packageHash, p.hashAlgorithm, EffectiveSuite(p), PackageSummary(p),
                    EffectiveSuite(q), PackageSummary(q));
    if PackageSummary(p) == PackageSummary(q) {
      PackageSummaryIsInjective(p, q);
      PartsBind(c, p, q);
    }
  }

  lemma PartsBind(c: Primitives, p: ResourcePackage, q: ResourcePackage)
    requires HexDigests(c) && HashesVerify(c, p) && HashesVerify(c, q)
    requires p.packageHash == q.packageHash && p.hashAlgorithm == q.hashAlgorithm
    requires p.didDocumentHash == q.didDocumentHash && p.metadataHash == q.metadataHash
    ensures p.didDocument == q.didDocument || Collision(c, HashedDocument(p), HashedDocument(q))
    ensures p.metadata == q.metadata || Collision(c, HashedMetadata(p), HashedMetadata(q))
  {
    var s, t := EffectiveSuite(p), EffectiveSuite(q);
    var d, e := EncodeDocument(p.didDocument), EncodeDocument(q.didDocument);
    var m, n := Cleared(p.metadata), Cleared(q.metadata);
    OneHashOneValue(c, p.didDocumentHash, p.hashAlgorithm, s, d, t, e);
    OneHashOneValue(c, p.metadataHash, p.hashAlgorithm, s, EncodeMetadata(m), t, EncodeMetadata(n));
    if d == e { EncodeDocumentIsInjective(p.didDocument, q.didDocument); }
    if EncodeMetadata(m) == EncodeMetadata(n) { EncodeMetadataIsInjective(m, n); }
  }

  /** Two packages bound to equal root claims have equal documents and metadata, or collide. */
  lemma ClaimsBindContent(c: Primitives, p: ResourcePackage, q: ResourcePackage)
    requires HexDigests(c) && HashesVerify(c, p) && HashesVerify(c, q)
    requires VerifyRootClaimBinding(p).Ok? && VerifyRootClaimBinding(q).Ok?
    requires p.rootProof.claims.value.claims == q.rootProof.claims.value.claims
    ensures SameContent(p, q) || PackagesCollide(c, p, q)
    ensures AlgorithmOf(EffectiveSuite(p)) == AlgorithmOf(EffectiveSuite(q)) ==>
              SameContent(p, q) || PackagesCollideStrictly(c, p, q)
  {
    PackageHashBinds(c, p, q);
  }

  // ----- sealing -----

  function Spelled(prefixed: bool, algorithm: string, digest: string): string {
    if prefixed then algorithm + ":" + digest else digest
  }

  /** The claims a package's root proof has to make. */
  function ClaimsOf(p: ResourcePackage, bulletinRef: Option<string>): Claims {
    Claims(p.resourceDid, p.resourceType, p.packageVersion, p.didDocumentHash, p.metadataHash, p.packageHash,
           p.hashAlgorithm, p.metadata.lifecycleState, p.metadata.authorizedDomains, bulletinRef)
  }

  /** The claim binding holds exactly when the root proof carries claims and they are the package's own: every claimed
      field but the bulletin reference. */
  lemma ClaimsMatchExactly(p: ResourcePackage)
    ensures VerifyRootClaimBinding(p).Ok? <==>
              p.rootProof.claims.Some? && p.rootProof.claims.value.Parsed?
              && p.rootProof.claims.value.claims == ClaimsOf(p, p.rootProof.claims.value.claims.bulletinRef)
  {
  }

  /** The suite a package is hashed under, and the algorithm with it: the one its root proof names, or the one its
      proof makes known, or Ed25519 with SHA-256. */
  lemma EffectiveSuiteExactly(p: ResourcePackage, s: Suite)
    ensures p.rootProof.suite == Some(s) ==> EffectiveSuite(p) == s
    ensures p.rootProof.suite.None? && p.rootProof.proof.Some? && p.rootProof.proof.value.suite == Some(s) ==>
              EffectiveSuite(p) == s
    ensures p.rootProof.suite.None? && p.rootProof.proof.Some? && p.rootProof.proof.value.suite.None? ==>
              (EffectiveSuite(p) == Sm2Sm3 <==> p.rootProof.proof.value.proofType == "SM2Signature2020")
              && EffectiveSuite(p) != Ed25519Sha256Legacy
    ensures p.rootProof.suite.None? && p.rootProof.proof.None? ==> EffectiveSuite(p) == Ed25519Sha256
  {
  }

  /** A stored hash passes exactly when it is the digest of the canonical text, bare or after the algorithm's name,
      SM3 for the SM2 suite and SHA-256 for the others. */
  lemma HashesPassExactly(c: Primitives, p: ResourcePackage)
    ensures var a := if EffectiveSuite(p) == Sm2Sm3 then Sm3 else Sha256;
            var d, m, s := c.digest(a, Print(EncodeDocument(p.didDocument))),
                           c.digest(a, Print(EncodeMetadata(p.metadata.(metadataHash := "", packageHash := "")))),
                           c.digest(a, Print(PackageSummary(p)));
            && (VerifyDidDocumentHash(c, p).Ok? <==> p.didDocumentHash in {d, p.hashAlgorithm + ":" + d})
            && (VerifyMetadataHash(c, p).Ok? <==> p.metadataHash in {m, p.hashAlgorithm + ":" + m})
            && (VerifyPackageHash(c, p).Ok? <==> p.packageHash in {s, p.hashAlgorithm + ":" + s})
  {
    hide EncodeDocument, EncodeMetadata, PackageSummary, Print;
  }

  /** A package with its hashes filled in from its content, document and metadata first, and the claims to match. */
  function Sealed(c: Primitives, p: ResourcePackage, prefixed: bool, bulletinRef: Option<string>): ResourcePackage {
    var s := EffectiveSuite(p);
    var q := p.(didDocumentHash := Spelled(prefixed, p.hashAlgorithm, HashJson(c, s, EncodeDocument(p.didDocument))),
                metadataHash := Spelled(prefixed, p.hashAlgorithm, MetadataHash(c, s, p.metadata)));
    var packageHash := Spelled(prefixed, p.hashAlgorithm, HashJson(c, s, PackageSummary(q)));
    var r := q.(packageHash := packageHash,
                metadata := p.metadata.(metadataHash := q.metadataHash, packageHash := packageHash));
    r.(rootProof := p.rootProof.(claims := Some(Parsed(ClaimsOf(r, bulletinRef)))))
  }

  /** Clearing the two hash fields before hashing breaks the circle: writing the hashes into the metadata keeps them
      valid. A sealed package verifies exactly when its metadata repeats the package's own identity and domains. */
  lemma SealedVerifiesExactly(c: Primitives, p: ResourcePackage, prefixed: bool, bulletinRef: Option<string>)
    ensures var q := Sealed(c, p, prefixed, bulletinRef);
            && VerifyRootClaimBinding(q).Ok?
            && (HashesVerify(c, q) <==>
                  && p.metadata.resourceDid == p.resourceDid
                  && p.metadata.packageVersion == p.packageVersion
                  && p.metadata.hashAlgorithm == p.hashAlgorithm
                  && p.metadata.authorizedDomains == (if p.didDocument.oanMetadata.Some?
                                                      then p.didDocument.oanMetadata.value.authorizedDomains else []))
  {
    hide EncodeDocument, EncodeMetadata, HashJson;
    var q := Sealed(c, p, prefixed, bulletinRef);
    assert EffectiveSuite(q) == EffectiveSuite(p) && PackageSummary(q) == PackageSummary(q.(metadata := p.metadata));
    assert Cleared(q.metadata) == Cleared(p.metadata);
  }
}
