/** The serialized structs: their members come in key order, and each member is under its own name. */
module StructKeys {
  import opened Wrappers
  import opened Order
  import opened CanonicalJson
  import opened KeyOrder
  import opened Crypto
  import opened Bulletin
  import opened Package

  predicate GoUp(keys: seq<string>) {
    forall i, j :: 0 <= i < j < |keys| ==> Less(Codes(keys[i]), Codes(keys[j]))
  }

  lemma NeighboursGoUp(keys: seq<string>)
    requires forall m :: 0 <= m < |keys| - 1 ==> Less(Codes(keys[m]), Codes(keys[m + 1]))
    ensures GoUp(keys)
  {
    hide Less, Codes;
    forall i, j | 0 <= i < j < |keys| ensures Less(Codes(keys[i]), Codes(keys[j])) { NeighboursAscend(keys, i, j); }
  }

  // ----- members by name -----

  /** The member under a key. */
  function Field(members: seq<Member>, k: string): Option<Json> {
    if members == [] then None else if members[0].key == k then Some(members[0].value) else Field(members[1..], k)
  }

  lemma {:induction false} NoField(members: seq<Member>, k: string)
    requires forall m :: m in members ==> m.key != k
    ensures Field(members, k).None?
  {
    if members != [] {
      assert members == [members[0]] + members[1..];
      NoField(members[1..], k);
    }
  }

  lemma RestGoesUp(keys: seq<string>)
    requires GoUp(keys) && keys != []
    ensures GoUp(keys[1..]) && forall k :: k in keys[1..] ==> Less(Codes(keys[0]), Codes(k)) && k != keys[0]
  {
    hide Codes, Less;
    forall i, j | 0 <= i < j < |keys[1..]| ensures Less(Codes(keys[1..][i]), Codes(keys[1..][j])) {
      assert Less(Codes(keys[i + 1]), Codes(keys[j + 1]));
    }
    forall k | k in keys[1..] ensures Less(Codes(keys[0]), Codes(k)) && k != keys[0] {
      var i :| 0 <= i < |keys[1..]| && keys[1..][i] == k;
      assert Less(Codes(keys[0]), Codes(keys[i + 1]));
      LessIsAsymmetric(Codes(keys[0]), Codes(k));
    }
  }

  /** A struct's member under each key is that field, and a skipped field has none. */
  lemma {:induction false} FieldOfPresent(keys: seq<string>, fields: seq<Option<Json>>, i: nat)
    requires |keys| == |fields| && GoUp(keys) && i < |keys|
    ensures Field(Present(keys, fields), keys[i]) == fields[i]
  {
    hide GoUp;
    RestGoesUp(keys);
    var rest := Present(keys[1..], fields[1..]);
    if i == 0 {
      NoField(rest, keys[0]);
    } else {
      FieldOfPresent(keys[1..], fields[1..], i - 1);
      assert keys[i] in keys[1..] by { assert keys[1..][i - 1] == keys[i]; }
    }
    if fields[0].Some? {
      assert Present(keys, fields) == [Member(keys[0], fields[0].value)] + rest;
      assert Present(keys, fields)[1..] == rest;
    } else {
      assert Present(keys, fields) == [] + rest == rest;
    }
  }

  lemma {:induction false} PresentAscends(keys: seq<string>, fields: seq<Option<Json>>)
    requires |keys| == |fields| && GoUp(keys)
    ensures KeysAscend(Present(keys, fields))
  {
    hide Less, Codes;
    if keys != [] {
      RestGoesUp(keys);
      PresentAscends(keys[1..], fields[1..]);
      var rest := Present(keys[1..], fields[1..]);
      forall j | 0 <= j < |rest| ensures Less(Codes(keys[0]), Codes(rest[j].key)) { assert rest[j] in rest; }
    }
  }

  // ----- documents -----

  lemma DocumentKeysGoUp()
    ensures GoUp(DOCUMENT_KEYS)
  {
    var k := DOCUMENT_KEYS;
    hide Less, Codes;
    TextsDifferAt(k[0], k[1], 0);
    TextsDifferAt(k[1], k[2], 1);
    TextsDifferAt(k[2], k[3], 0);
    TextsDifferAt(k[3], k[4], 1);
    TextsDifferAt(k[4], k[5], 0);
    TextsDifferAt(k[5], k[6], 0);
    TextsDifferAt(k[6], k[7], 0);
    TextsDifferAt(k[7], k[8], 0);
    TextsDifferAt(k[8], k[9], 0);
    NeighboursGoUp(k);
  }

  /** Every field of a document is serialized under its own name; absent and empty optional ones are left out. */
  lemma DocumentByName(d: DidDocument)
    ensures KeysAscend(EncodeDocument(d).members)
    ensures Field(EncodeDocument(d).members, "@context") == Some(Strings(d.context))
    ensures Field(EncodeDocument(d).members, "assertionMethod") == Some(Strings(d.assertionMethod))
    ensures Field(EncodeDocument(d).members, "authentication") == Some(Strings(d.authentication))
    ensures Field(EncodeDocument(d).members, "capabilityInvocation") == (if d.capabilityInvocation == [] then None else Some(Strings(d.capabilityInvocation)))
    ensures Field(EncodeDocument(d).members, "controller") == (if d.controller.None? then None else Some(EncodeController(d.controller.value)))
    ensures Field(EncodeDocument(d).members, "id") == Some(Str(d.id))
    ensures Field(EncodeDocument(d).members, "oanMetadata") == (if d.oanMetadata.None? then None else Some(EncodeOanMetadata(d.oanMetadata.value)))
    ensures Field(EncodeDocument(d).members, "proof") == d.proof
    ensures Field(EncodeDocument(d).members, "service") == Some(Arr(d.service))
    ensures Field(EncodeDocument(d).members, "verificationMethod") == Some(Arr(d.verificationMethod))
  {
    DocumentKeysGoUp();
    PresentAscends(DOCUMENT_KEYS, DocumentFields(d));
    hide GoUp, KeysAscend, Field, Present;
    FieldOfPresent(DOCUMENT_KEYS, DocumentFields(d), 0);
    FieldOfPresent(DOCUMENT_KEYS, DocumentFields(d), 1);
    FieldOfPresent(DOCUMENT_KEYS, DocumentFields(d), 2);
    FieldOfPresent(DOCUMENT_KEYS, DocumentFields(d), 3);
    FieldOfPresent(DOCUMENT_KEYS, DocumentFields(d), 4);
    FieldOfPresent(DOCUMENT_KEYS, DocumentFields(d), 5);
    FieldOfPresent(DOCUMENT_KEYS, DocumentFields(d), 6);
    FieldOfPresent(DOCUMENT_KEYS, DocumentFields(d), 7);
    FieldOfPresent(DOCUMENT_KEYS, DocumentFields(d), 8);
    FieldOfPresent(DOCUMENT_KEYS, DocumentFields(d), 9);
  }

  // ----- metadata -----

  lemma MetadataKeysGoUp()
    ensures GoUp(METADATA_KEYS)
  {
    var k := METADATA_KEYS;
    hide Less, Codes;
    TextsDifferAt(k[0], k[1], 0);
    TextsDifferAt(k[1], k[2], 0);
    TextsDifferAt(k[2], k[3], 0);
    TextsDifferAt(k[3], k[4], 0);
    TextsDifferAt(k[4], k[5], 0);
    TextsDifferAt(k[5], k[6], 0);
    TextsDifferAt(k[6], k[7], 0);
    TextsDifferAt(k[7], k[8], 7);
    TextsDifferAt(k[8], k[9], 1);
    TextsDifferAt(k[9], k[10], 1);
    TextsDifferAt(k[10], k[11], 0);
    TextsDifferAt(k[11], k[12], 8);
    TextsDifferAt(k[12], k[13], 0);
    TextsDifferAt(k[13], k[14], 1);
    TextsDifferAt(k[14], k[15], 7);
    TextsDifferAt(k[15], k[16], 0);
    NeighboursGoUp(k);
  }

  /** Every field of the metadata is serialized under its own name. */
  lemma MetadataByName(m: Metadata)
    ensures KeysAscend(EncodeMetadata(m).members)
    ensures Field(EncodeMetadata(m).members, "authorizedDomains") == Some(Strings(m.authorizedDomains))
    ensures Field(EncodeMetadata(m).members, "capabilityTags") == Some(Strings(m.capabilityTags))
    ensures Field(EncodeMetadata(m).members, "description") == Some(Str(m.description))
    ensures Field(EncodeMetadata(m).members, "hashAlgorithm") == Some(Str(m.hashAlgorithm))
    ensures Field(EncodeMetadata(m).members, "lifecycleState") == Some(Str(m.lifecycleState))
    ensures Field(EncodeMetadata(m).members, "metadataHash") == Some(Str(m.metadataHash))
    ensures Field(EncodeMetadata(m).members, "name") == Some(Str(m.name))
    ensures Field(EncodeMetadata(m).members, "packageHash") == Some(Str(m.packageHash))
    ensures Field(EncodeMetadata(m).members, "packageVersion") == Some(Str(m.packageVersion))
    ensures Field(EncodeMetadata(m).members, "protocolBindings") == Some(Arr(m.protocolBindings))
    ensures Field(EncodeMetadata(m).members, "publisherDid") == OptionalString(m.publisherDid)
    ensures Field(EncodeMetadata(m).members, "resourceDid") == Some(Str(m.resourceDid))
    ensures Field(EncodeMetadata(m).members, "resourceType") == Some(Str(m.resourceType))
    ensures Field(EncodeMetadata(m).members, "services") == Some(Arr(m.services))
    ensures Field(EncodeMetadata(m).members, "subjectDid") == OptionalString(m.subjectDid)
    ensures Field(EncodeMetadata(m).members, "subjectType") == Some(Str(m.subjectType))
    ensures Field(EncodeMetadata(m).members, "updatedAt") == Some(Str(m.updatedAt))
  {
    MetadataKeysGoUp();
    PresentAscends(METADATA_KEYS, MetadataFields(m));
    hide GoUp, KeysAscend, Field, Present;
    FieldOfPresent(METADATA_KEYS, MetadataFields(m), 0);
    FieldOfPresent(METADATA_KEYS, MetadataFields(m), 1);
    FieldOfPresent(METADATA_KEYS, MetadataFields(m), 2);
    FieldOfPresent(METADATA_KEYS, MetadataFields(m), 3);
    FieldOfPresent(METADATA_KEYS, MetadataFields(m), 4);
    FieldOfPresent(METADATA_KEYS, MetadataFields(m), 5);
    FieldOfPresent(METADATA_KEYS, MetadataFields(m), 6);
    FieldOfPresent(METADATA_KEYS, MetadataFields(m), 7);
    FieldOfPresent(METADATA_KEYS, MetadataFields(m), 8);
    FieldOfPresent(METADATA_KEYS, MetadataFields(m), 9);
    FieldOfPresent(METADATA_KEYS, MetadataFields(m), 10);
    FieldOfPresent(METADATA_KEYS, MetadataFields(m), 11);
    FieldOfPresent(METADATA_KEYS, MetadataFields(m), 12);
    FieldOfPresent(METADATA_KEYS, MetadataFields(m), 13);
    FieldOfPresent(METADATA_KEYS, MetadataFields(m), 14);
    FieldOfPresent(METADATA_KEYS, MetadataFields(m), 15);
    FieldOfPresent(METADATA_KEYS, MetadataFields(m), 16);
  }

  // ----- package summaries and event cores -----

  const SUMMARY_KEYS: seq<string> := [
    "didDocumentHash", "hashAlgorithm", "metadataHash", "packageVersion",
    "resourceDid", "resourceType"]

  lemma SummaryKeysGoUp()
    ensures GoUp(SUMMARY_KEYS)
  {
    var k := SUMMARY_KEYS;
    hide Less, Codes;
    TextsDifferAt(k[0], k[1], 0);
    TextsDifferAt(k[1], k[2], 0);
    TextsDifferAt(k[2], k[3], 0);
    TextsDifferAt(k[3], k[4], 0);
    TextsDifferAt(k[4], k[5], 8);
    NeighboursGoUp(k);
  }

  /** What the package hash digests has the package's fields under their own names. */
  lemma SummaryByName(p: ResourcePackage)
    ensures KeysAscend(PackageSummary(p).members)
    ensures Field(PackageSummary(p).members, "didDocumentHash") == Some(Str(p.didDocumentHash))
    ensures Field(PackageSummary(p).members, "hashAlgorithm") == Some(Str(p.hashAlgorithm))
    ensures Field(PackageSummary(p).members, "metadataHash") == Some(Str(p.metadataHash))
    ensures Field(PackageSummary(p).members, "packageVersion") == Some(Str(p.packageVersion))
    ensures Field(PackageSummary(p).members, "resourceDid") == Some(Str(p.resourceDid))
    ensures Field(PackageSummary(p).members, "resourceType") == Some(Str(p.resourceType))
  {
    var fields := [Some(Str(p.didDocumentHash)), Some(Str(p.hashAlgorithm)), Some(Str(p.metadataHash)), Some(Str(p.packageVersion)),
                   Some(Str(p.resourceDid)), Some(Str(p.resourceType))];
    AllPresent(SUMMARY_KEYS, fields, PackageSummary(p).members);
    SummaryKeysGoUp();
    PresentAscends(SUMMARY_KEYS, fields);
    hide GoUp, KeysAscend, Field, Present;
    FieldOfPresent(SUMMARY_KEYS, fields, 0);
    FieldOfPresent(SUMMARY_KEYS, fields, 1);
    FieldOfPresent(SUMMARY_KEYS, fields, 2);
    FieldOfPresent(SUMMARY_KEYS, fields, 3);
    FieldOfPresent(SUMMARY_KEYS, fields, 4);
    FieldOfPresent(SUMMARY_KEYS, fields, 5);
  }

  lemma {:induction false} AllPresent(keys: seq<string>, fields: seq<Option<Json>>, members: seq<Member>)
    requires |keys| == |fields| == |members|
    requires forall i :: 0 <= i < |keys| ==> fields[i] == Some(members[i].value) && keys[i] == members[i].key
    ensures Present(keys, fields) == members
  {
    if keys != [] {
      AllPresent(keys[1..], fields[1..], members[1..]);
      assert members == [members[0]] + members[1..];
    }
  }

  const CORE_KEYS: seq<string> := [
    "actorDid", "createdAt", "eventType", "payload", "previousHash", "sequence", "subjectDid"]

  lemma CoreKeysGoUp()
    ensures GoUp(CORE_KEYS)
  {
    var k := CORE_KEYS;
    hide Less, Codes;
    TextsDifferAt(k[0], k[1], 0);
    TextsDifferAt(k[1], k[2], 0);
    TextsDifferAt(k[2], k[3], 0);
    TextsDifferAt(k[3], k[4], 1);
    TextsDifferAt(k[4], k[5], 0);
    TextsDifferAt(k[5], k[6], 1);
    NeighboursGoUp(k);
  }

  /** What an event hash digests has the core's fields under their own names. */
  lemma CoreByName(core: Core)
    ensures KeysAscend(EncodeCore(core).members)
    ensures Field(EncodeCore(core).members, "actorDid") == Some(Str(core.actorDid))
    ensures Field(EncodeCore(core).members, "createdAt") == Some(Str(core.createdAt))
    ensures Field(EncodeCore(core).members, "eventType") == Some(Str(TypeName(core.eventType)))
    ensures Field(EncodeCore(core).members, "payload") == Some(core.payload)
    ensures Field(EncodeCore(core).members, "previousHash") == Some(if core.previousHash.None? then Null else Str(core.previousHash.value))
    ensures Field(EncodeCore(core).members, "sequence") == Some(Num(core.sequence))
    ensures Field(EncodeCore(core).members, "subjectDid") == Some(Str(core.subjectDid))
  {
    var fields := seq(7, i requires 0 <= i < 7 => Some(EncodeCore(core).members[i].value));
    AllPresent(CORE_KEYS, fields, EncodeCore(core).members);
    CoreKeysGoUp();
    PresentAscends(CORE_KEYS, fields);
    hide GoUp, KeysAscend, Field, Present;
    FieldOfPresent(CORE_KEYS, fields, 0);
    FieldOfPresent(CORE_KEYS, fields, 1);
    FieldOfPresent(CORE_KEYS, fields, 2);
    FieldOfPresent(CORE_KEYS, fields, 3);
    FieldOfPresent(CORE_KEYS, fields, 4);
    FieldOfPresent(CORE_KEYS, fields, 5);
    FieldOfPresent(CORE_KEYS, fields, 6);
  }

  /** With a payload whose objects are in key order, the event text is the same from both printers. */
  lemma CoreTextIsKeySorted(core: Core)
    requires UniqueKeys(core.payload) && InKeyOrder(core.payload)
    ensures OanPrint(EncodeCore(core)) == Print(EncodeCore(core))
  {
    var members := EncodeCore(core).members;
    CoreByName(core);
    assert forall i :: 0 <= i < |members| ==> UniqueKeys(members[i].value) && InKeyOrder(members[i].value);
    hide EncodeCore, UniqueKeys, InKeyOrder, KeysAscend, Field, OanPrint, Print;
    OrderedObject(members);
    PrintersAgreeExactly(EncodeCore(core));
  }

  lemma OrderedObject(members: seq<Member>)
    requires KeysAscend(members)
    requires forall i :: 0 <= i < |members| ==> UniqueKeys(members[i].value) && InKeyOrder(members[i].value)
    ensures UniqueKeys(Obj(members)) && InKeyOrder(Obj(members))
  {
    AscendingIsUniqueKeys(members);
  }

  lemma AscendingIsUniqueKeys(members: seq<Member>)
    requires KeysAscend(members)
    ensures forall i, j :: 0 <= i < j < |members| ==> members[i].key != members[j].key
  {
    forall i, j | 0 <= i < j < |members| ensures members[i].key != members[j].key {
      LessIsAsymmetric(Codes(members[i].key), Codes(members[j].key));
    }
  }
}
