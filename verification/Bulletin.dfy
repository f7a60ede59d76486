/** The bulletin: signed events in a hash chain. */
module Bulletin {
  import opened Wrappers
  import opened CanonicalJson
  import opened Crypto

  datatype EventType =
    | RootInitialized | CdnServiceInfoUpdated | RegistrarAuthorized | RegistrarRevoked | DiscoveryNodeAuthorized
    | DiscoveryNodeDomainsUpdated | DiscoveryNodeRevoked | NodeRevoked | CapabilityTagTreeUpdated

  datatype Core = Core(
    sequence: nat, previousHash: Option<string>, eventType: EventType, subjectDid: string, actorDid: string,
    payload: Json, createdAt: string)

  datatype Event = Event(
    core: Core, eventHash: string, signature: string, proof: Option<Proof>, suite: Option<Suite>,
    hashAlgorithm: Option<string>)

  datatype BulletinError =
    | SequenceMismatch(index: nat, expected: nat, actual: nat)
    | PreviousHashMismatch(sequence: nat)
    | EventHashMismatch(sequence: nat)
    | SignatureMismatch(sequence: nat)

  function TypeName(t: EventType): string {
    match t
    case RootInitialized => "ROOT_INITIALIZED"
    case CdnServiceInfoUpdated => "CDN_SERVICE_INFO_UPDATED"
    case RegistrarAuthorized => "REGISTRAR_AUTHORIZED"
    case RegistrarRevoked => "REGISTRAR_REVOKED"
    case DiscoveryNodeAuthorized => "DISCOVERY_NODE_AUTHORIZED"
    case DiscoveryNodeDomainsUpdated => "DISCOVERY_NODE_DOMAINS_UPDATED"
    case DiscoveryNodeRevoked => "DISCOVERY_NODE_REVOKED"
    case NodeRevoked => "NODE_REVOKED"
    case CapabilityTagTreeUpdated => "CAPABILITY_TAG_TREE_UPDATED"
  }

  /** The name's length and fourth character tell the types apart. */
  lemma TypeNameIsInjective(t: EventType, u: EventType)
    requires TypeName(t) == TypeName(u)
    ensures t == u
  {
    assert |TypeName(t)| == |TypeName(u)| && TypeName(t)[0] == TypeName(u)[0];
  }

  /** Serialized as a map: members in key order. */
  function EncodeCore(core: Core): Json {
    Obj([Member("actorDid", Str(core.actorDid)),
         Member("createdAt", Str(core.createdAt)),
         Member("eventType", Str(TypeName(core.eventType))),
         Member("payload", core.payload),
         Member("previousHash", if core.previousHash.None? then Null else Str(core.previousHash.value)),
         Member("sequence", Num(core.sequence)),
         Member("subjectDid", Str(core.subjectDid))])
  }

  lemma EncodeCoreIsInjective(a: Core, b: Core)
    requires EncodeCore(a) == EncodeCore(b)
    ensures a == b
  {
    var x, y := EncodeCore(a).members, EncodeCore(b).members;
    assert x[0] == y[0] && x[1] == y[1] && x[2] == y[2] && x[3] == y[3] && x[4] == y[4] && x[5] == y[5] && x[6] == y[6];
    TypeNameIsInjective(a.eventType, b.eventType);
  }

  function CoreHash(c: Primitives, core: Core, s: Suite): string {
    HashJson(c, s, EncodeCore(core))
  }

  function HashPayload(hash: string): Json {
    Obj([Member("eventHash", Str(hash))])
  }

  /** BulletinEventCore::sign */
  function Sign(c: Primitives, core: Core, key: SigningKey, created: string): Event {
    var hash := CoreHash(c, core, key.suite);
    var proof := BuildProof(c, HashPayload(hash), core.actorDid, created, core.actorDid + "#key-1", key);
    Event(core, hash, proof.value, Some(proof), Some(key.suite), Some(AlgorithmName(key.suite)))
  }

  /** BulletinEvent::crypto_suite */
  function SuiteOf(e: Event): Suite {
    if e.suite.Some? then e.suite.value
    else if e.proof.Some? && e.proof.value.suite.Some? then e.proof.value.suite.value
    else Ed25519Sha256Legacy
  }

  predicate SignatureOk(c: Primitives, e: Event, root: VerifyingKey) {
    if e.proof.Some? then
      if e.proof.value.suite.None? && e.suite.None?
      then c.verifyMultibase(root, SignatureInput(c, SuiteOf(e), HashPayload(e.eventHash)), e.proof.value.value)
      else VerifyPayloadWithProof(c, HashPayload(e.eventHash), e.proof.value, root)
    else c.verifyBase64(root, SignatureInput(c, SuiteOf(e), HashPayload(e.eventHash)), e.signature)
  }

  /** The event's own faults, in the order they are looked for. */
  function Fault(c: Primitives, e: Event, index: nat, previous: Option<string>, root: VerifyingKey)
    : Option<BulletinError>
  {
    if e.core.sequence != index + 1 then Some(SequenceMismatch(index, index + 1, e.core.sequence))
    else if e.core.previousHash != previous then Some(PreviousHashMismatch(e.core.sequence))
    else if CoreHash(c, e.core, SuiteOf(e)) != e.eventHash then Some(EventHashMismatch(e.core.sequence))
    else if !SignatureOk(c, e, root) then Some(SignatureMismatch(e.core.sequence))
    else None
  }

  function PreviousHash(events: seq<Event>, i: nat): Option<string>
    requires i <= |events|
  {
    if i == 0 then None else Some(events[i - 1].eventHash)
  }

  function FaultAt(c: Primitives, events: seq<Event>, i: nat, root: VerifyingKey): Option<BulletinError>
    requires i < |events|
  {
    Fault(c, events[i], i, PreviousHash(events, i), root)
  }

  ghost predicate Accepted(c: Primitives, events: seq<Event>, root: VerifyingKey) {
    forall i :: 0 <= i < |events| ==> FaultAt(c, events, i, root).None?
  }

  /** Bulletin::verify_hash_chain: accepts exactly the chains without a fault, and reports the first fault. */
  method VerifyHashChain(c: Primitives, events: seq<Event>, root: VerifyingKey) returns (r: Result<(), BulletinError>)
    ensures r.Ok? <==> Accepted(c, events, root)
    ensures r.Err? ==> exists i :: 0 <= i < |events| && FaultAt(c, events, i, root) == Some(r.error)
                                   && forall j :: 0 <= j < i ==> FaultAt(c, events, j, root).None?
  {
    hide CoreHash, SuiteOf, SignatureOk;
    var previous: Option<string> := None;
    for index := 0 to |events|
      invariant previous == PreviousHash(events, index)
      invariant forall i :: 0 <= i < index ==> FaultAt(c, events, i, root).None?
    {
      var event := events[index];
      var expected := index + 1;
      ghost var fault := FaultAt(c, events, index, root);
      if event.core.sequence != expected {
        return Err(SequenceMismatch(index, expected, event.core.sequence));
      }
      if event.core.previousHash != previous {
        return Err(PreviousHashMismatch(event.core.sequence));
      }
      if CoreHash(c, event.core, SuiteOf(event)) != event.eventHash {
        return Err(EventHashMismatch(event.core.sequence));
      }
      if !SignatureOk(c, event, root) {
        return Err(SignatureMismatch(event.core.sequence));
      }
      previous := Some(event.eventHash);
    }
    r := Ok(());
  }

  // ----- integrity -----

  predicate SameCores(a: seq<Event>, b: seq<Event>) {
    |a| == |b| && forall i :: 0 <= i < |a| ==> a[i].core == b[i].core
  }

  function HashedCore(e: Event): Hashed { HashedJson(SuiteOf(e), EncodeCore(e.core)) }

  lemma EqualEventHashes(c: Primitives, a: Event, b: Event)
    requires CoreHash(c, a.core, SuiteOf(a)) == CoreHash(c, b.core, SuiteOf(b))
    ensures a.core == b.core || Collision(c, HashedCore(a), HashedCore(b))
  {
    EqualHashes(c, SuiteOf(a), EncodeCore(a.core), SuiteOf(b), EncodeCore(b.core));
    if EncodeCore(a.core) == EncodeCore(b.core) { EncodeCoreIsInjective(a.core, b.core); }
  }

  /** Walking both chains back from one hash at n: the cores agree all the way, or those of two events in the same
      place collide. */
  lemma {:induction false} ChainsAgreeBelow(
    c: Primitives, a: seq<Event>, b: seq<Event>, ra: VerifyingKey, rb: VerifyingKey, n: nat)
    requires Accepted(c, a, ra) && Accepted(c, b, rb) && n < |a| && n < |b| && a[n].eventHash == b[n].eventHash
    ensures (forall i :: 0 <= i <= n ==> a[i].core == b[i].core)
            || exists i :: 0 <= i <= n && Collision(c, HashedCore(a[i]), HashedCore(b[i]))
  {
    assert FaultAt(c, a, n, ra).None? && FaultAt(c, b, n, rb).None?;
    EqualEventHashes(c, a[n], b[n]);
    if n > 0 && !Collision(c, HashedCore(a[n]), HashedCore(b[n])) {
      ChainsAgreeBelow(c, a, b, ra, rb, n - 1);
    }
  }

  /** Two events in the same place, or the two last ones. */
  predicate Paired(a: seq<Event>, b: seq<Event>, i: int, j: int) {
    0 <= i < |a| && 0 <= j < |b| && (i == j || (i == |a| - 1 && j == |b| - 1))
  }

  /** Two accepted non-empty chains with one last event hash have the same length and the same cores throughout, or
      the cores of two paired events are different texts with one digest. The roots, suites and signatures may
      differ. */
  lemma LastHashFixesTheChain(c: Primitives, a: seq<Event>, b: seq<Event>, ra: VerifyingKey, rb: VerifyingKey)
    requires Accepted(c, a, ra) && Accepted(c, b, rb) && a != [] && b != []
    requires a[|a| - 1].eventHash == b[|b| - 1].eventHash
    ensures SameCores(a, b)
            || exists i, j :: Paired(a, b, i, j) && Collision(c, HashedCore(a[i]), HashedCore(b[j]))
  {
    var m, n := |a| - 1, |b| - 1;
    assert FaultAt(c, a, m, ra).None? && FaultAt(c, b, n, rb).None?;
    EqualEventHashes(c, a[m], b[n]);
    assert Paired(a, b, m, n);
    if !Collision(c, HashedCore(a[m]), HashedCore(b[n])) {
      assert m == n;
      ChainsAgreeBelow(c, a, b, ra, rb, m);
      if i: nat :| i <= m && Collision(c, HashedCore(a[i]), HashedCore(b[i])) {
        assert Paired(a, b, i, i);
      }
    }
  }

  /** Where all events are hashed by one algorithm, it is that algorithm's collision. */
  lemma LastHashFixesTheChainStrictly(c: Primitives, a: seq<Event>, b: seq<Event>, ra: VerifyingKey, rb: VerifyingKey)
    requires Accepted(c, a, ra) && Accepted(c, b, rb) && a != [] && b != []
    requires a[|a| - 1].eventHash == b[|b| - 1].eventHash
    requires forall e, f :: e in a && f in b ==> AlgorithmOf(SuiteOf(e)) == AlgorithmOf(SuiteOf(f))
    ensures SameCores(a, b)
            || exists i, j :: Paired(a, b, i, j) && StrictCollision(c, HashedCore(a[i]), HashedCore(b[j]))
  {
    LastHashFixesTheChain(c, a, b, ra, rb);
    hide Accepted, SuiteOf, EncodeCore, FaultAt;
    if i, j :| Paired(a, b, i, j) && Collision(c, HashedCore(a[i]), HashedCore(b[j])) {
      assert a[i] in a && b[j] in b;
      assert StrictCollision(c, HashedCore(a[i]), HashedCore(b[j]));
    }
  }

  // ----- what a signature covers -----

  /** A proof that goes with a suite is verified under the root key's suite, anything older under the event's. */
  function SigningSuite(e: Event, root: VerifyingKey): Suite {
    if e.proof.Some? && (e.proof.value.suite.Some? || e.suite.Some?) then root.suite else SuiteOf(e)
  }

  /** The text an event's signature is verified over. */
  function VerifiedText(c: Primitives, e: Event, root: VerifyingKey): string {
    SignatureInput(c, SigningSuite(e, root), HashPayload(e.eventHash))
  }

  /** The root verified the event's own signature over that text. */
  predicate SignedText(c: Primitives, e: Event, root: VerifyingKey, text: string) {
    if e.proof.Some? then c.verifyMultibase(root, text, e.proof.value.value) else c.verifyBase64(root, text, e.signature)
  }

  lemma HashPayloadIsInjective(h: string, g: string)
    requires HashPayload(h) == HashPayload(g)
    ensures h == g
  {
    assert HashPayload(h).members[0] == HashPayload(g).members[0];
  }

  function HashedPayload(e: Event, root: VerifyingKey): Hashed {
    HashedJson(SigningSuite(e, root), HashPayload(e.eventHash))
  }

  /** A signature covers the event hash: two events that carry one signature in one form and both pass have one event
      hash, or the root verified that signature over two different texts, or two named texts collide. */
  lemma OneSignatureOneHash(c: Primitives, a: Event, b: Event, root: VerifyingKey)
    requires SignatureOk(c, a, root) && SignatureOk(c, b, root)
    requires a.proof == b.proof && a.signature == b.signature && a.suite == b.suite
    ensures SignedText(c, a, root, VerifiedText(c, a, root)) && SignedText(c, a, root, VerifiedText(c, b, root))
    ensures || a.eventHash == b.eventHash
            || VerifiedText(c, a, root) != VerifiedText(c, b, root)
            || Collision(c, HashedPayload(a, root), HashedPayload(b, root))
  {
    if VerifiedText(c, a, root) == VerifiedText(c, b, root) {
      SignatureInputBinds(c, SigningSuite(a, root), HashPayload(a.eventHash), HashPayload(b.eventHash));
      if HashPayload(a.eventHash) == HashPayload(b.eventHash) { HashPayloadIsInjective(a.eventHash, b.eventHash); }
    }
  }

  /** Accepted events of one suite whose signatures were verified over one text have one core, or texts of theirs
      collide. */
  lemma OneTextOneCore(
    c: Primitives, a: seq<Event>, b: seq<Event>, root: VerifyingKey, i: nat, j: nat)
    requires Accepted(c, a, root) && Accepted(c, b, root) && i < |a| && j < |b|
    requires SigningSuite(a[i], root) == SigningSuite(b[j], root)
    requires VerifiedText(c, a[i], root) == VerifiedText(c, b[j], root)
    ensures || a[i].core == b[j].core
            || Collision(c, HashedPayload(a[i], root), HashedPayload(b[j], root))
            || Collision(c, HashedCore(a[i]), HashedCore(b[j]))
  {
    assert FaultAt(c, a, i, root).None? && FaultAt(c, b, j, root).None?;
    SignatureInputBinds(c, SigningSuite(a[i], root), HashPayload(a[i].eventHash), HashPayload(b[j].eventHash));
    if HashPayload(a[i].eventHash) == HashPayload(b[j].eventHash) {
      HashPayloadIsInjective(a[i].eventHash, b[j].eventHash);
      EqualEventHashes(c, a[i], b[j]);
    }
  }

  // ----- growing a bulletin -----

  /** A bulletin with one more event is accepted exactly when the bulletin before it is and the new event has no
      fault: every prefix of an accepted bulletin is accepted. */
  lemma AcceptedInTwo(c: Primitives, events: seq<Event>, e: Event, root: VerifyingKey)
    ensures Accepted(c, events + [e], root) <==>
              Accepted(c, events, root) && Fault(c, e, |events|, PreviousHash(events, |events|), root).None?
  {
    var all := events + [e];
    assert forall i :: 0 <= i < |events| ==> FaultAt(c, all, i, root) == FaultAt(c, events, i, root);
    assert FaultAt(c, all, |events|, root) == Fault(c, e, |events|, PreviousHash(events, |events|), root);
  }

  lemma {:induction false} PrefixIsAccepted(c: Primitives, events: seq<Event>, root: VerifyingKey, n: nat)
    requires Accepted(c, events, root) && n <= |events|
    ensures Accepted(c, events[..n], root)
    decreases |events|
  {
    if n < |events| {
      assert events == events[..|events| - 1] + [events[|events| - 1]];
      AcceptedInTwo(c, events[..|events| - 1], events[|events| - 1], root);
      PrefixIsAccepted(c, events[..|events| - 1], root, n);
      assert events[..|events| - 1][..n] == events[..n];
    } else {
      assert events[..n] == events;
    }
  }

  /** The text a key of this suite signs for an event hash: the canonical object, or its SHA-256 digest for legacy
      keys. */
  function TextToSign(c: Primitives, s: Suite, hash: string): string {
    var text := Print(Obj([Member("eventHash", Str(hash))]));
    if s == Ed25519Sha256Legacy then c.digest(Sha256, text) else text
  }

  /** The hash of a core under a suite. */
  function DigestOfCore(c: Primitives, s: Suite, core: Core): string {
    c.digest(if s == Sm2Sm3 then Sm3 else Sha256, Print(EncodeCore(core)))
  }

  /** Appending a signed event keeps a bulletin accepted exactly when it is numbered and linked in sequence, the
      signing key is of the root key's suite, and the root key verifies what that key signs here. */
  lemma AppendSignedExactly(
    c: Primitives, events: seq<Event>, core: Core, key: SigningKey, created: string, root: VerifyingKey)
    requires Accepted(c, events, root)
    ensures var e := Sign(c, core, key, created);
            var text := TextToSign(c, key.suite, DigestOfCore(c, key.suite, core));
            Accepted(c, events + [e], root) <==>
              && core.sequence == |events| + 1
              && core.previousHash == PreviousHash(events, |events|)
              && key.suite == root.suite
              && c.verifyMultibase(root, text, c.signMultibase(key, text))
  {
    AcceptedInTwo(c, events, Sign(c, core, key, created), root);
  }

  /** An event from before events described themselves, with a bare signature or with a proof that names no suite, is
      accepted exactly when it is numbered and linked, hashed with SHA-256, and the root verifies its signature over
      the SHA-256 digest of its hash. */
  lemma AppendHistoricalExactly(
    c: Primitives, events: seq<Event>, core: Core, hash: string, signature: string, proof: Option<Proof>,
    root: VerifyingKey)
    requires Accepted(c, events, root) && (proof.Some? ==> proof.value.suite.None?)
    ensures var e := Event(core, hash, signature, proof, None, None);
            var text := c.digest(Sha256, Print(Obj([Member("eventHash", Str(hash))])));
            Accepted(c, events + [e], root) <==>
              && core.sequence == |events| + 1
              && core.previousHash == PreviousHash(events, |events|)
              && hash == c.digest(Sha256, Print(EncodeCore(core)))
              && (if proof.None? then c.verifyBase64(root, text, signature)
                  else c.verifyMultibase(root, text, proof.value.value))
  {
    AcceptedInTwo(c, events, Event(core, hash, signature, proof, None, None), root);
  }

  /** An event that names its suite s, or whose proof does, is accepted exactly when it is numbered and linked, hashed
      under s, and its proof is of the root's suite and verified over the text that suite signs; without a proof its
      bare signature is verified over the text s signs. */
  lemma AppendDescribedExactly(c: Primitives, events: seq<Event>, e: Event, s: Suite, root: VerifyingKey)
    requires Accepted(c, events, root)
    requires e.suite == Some(s) || (e.suite.None? && e.proof.Some? && e.proof.value.suite == Some(s))
    ensures Accepted(c, events + [e], root) <==>
              && e.core.sequence == |events| + 1
              && e.core.previousHash == PreviousHash(events, |events|)
              && e.eventHash == DigestOfCore(c, s, e.core)
              && (if e.proof.None? then c.verifyBase64(root, TextToSign(c, s, e.eventHash), e.signature)
                  else && SuiteOfProof(e.proof.value) == Some(root.suite)
                       && c.verifyMultibase(root, TextToSign(c, root.suite, e.eventHash), e.proof.value.value))
  {
    AcceptedInTwo(c, events, e, root);
  }

  /** What a signed event says of itself is how it was hashed and signed: an older reader goes by the bare signature
      and the algorithm name, a newer one by the suite and the proof. */
  lemma SignedEventsDescribeThemselves(c: Primitives, core: Core, key: SigningKey, created: string)
    ensures var e := Sign(c, core, key, created);
            && e.core == core && e.eventHash == DigestOfCore(c, key.suite, core)
            && SuiteOf(e) == key.suite && e.suite == Some(key.suite)
            && e.hashAlgorithm == Some(if key.suite == Sm2Sm3 then "SM3" else "SHA-256")
            && e.proof.Some? && e.signature == e.proof.value.value && SuiteOfProof(e.proof.value) == Some(key.suite)
            && e.signature == c.signMultibase(key, TextToSign(c, key.suite, e.eventHash))
            && e.proof.value.creator == core.actorDid
            && e.proof.value.verificationMethod == Some(core.actorDid + "#key-1")
  {
  }
}
