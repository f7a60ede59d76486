/** The key-sorting printer, and what it makes of objects: maps, whatever order they iterate in. */
module KeyOrder {
  import opened Order
  import opened CanonicalJson

  function KeySet(members: seq<Member>): set<string> {
    set m | m in members :: m.key
  }

  /** keys.sort() */
  function SortedKeys(members: seq<Member>): (r: seq<string>)
    ensures Ascending(r, Codes)
    ensures forall k :: k in r <==> k in KeySet(members)
  {
    assert Separates(Codes, KeySet(members)) by {
      forall x, y | x in KeySet(members) && y in KeySet(members) && Codes(x) == Codes(y) ensures x == y {
        CodesAreInjective(x, y);
      }
    }
    SortBy(KeySet(members), Codes)
  }

  /** values[key] */
  function IndexOf(members: seq<Member>, k: string): (i: nat)
    requires k in KeySet(members)
    ensures i < |members| && members[i].key == k
  {
    if members[0].key == k then 0
    else
      assert members == [members[0]] + members[1..];
      1 + IndexOf(members[1..], k)
  }

  /** oan_canonical_json */
  function OanPrint(v: Json): string
    decreases v
  {
    match v
    case Null => "null"
    case Bool(b) => if b then "true" else "false"
    case Num(n) => Decimal(n)
    case Str(s) => Quote(s)
    case Arr(items) => "[" + OanPrintItems(items) + "]"
    case Obj(members) => "{" + OanPrintKeys(members, SortedKeys(members)) + "}"
  }

  function OanPrintItems(items: seq<Json>): string
    decreases items
  {
    if items == [] then ""
    else if |items| == 1 then OanPrint(items[0])
    else OanPrint(items[0]) + "," + OanPrintItems(items[1..])
  }

  function OanPrintKeys(members: seq<Member>, keys: seq<string>): string
    requires forall k :: k in keys ==> k in KeySet(members)
    decreases members, |keys|
  {
    if keys == [] then ""
    else
      var first := Quote(keys[0]) + ":" + OanPrint(members[IndexOf(members, keys[0])].value);
      if |keys| == 1 then first else first + "," + OanPrintKeys(members, keys[1..])
  }

  // ----- the value with every object in key order -----

  function Canon(v: Json): Json
    decreases v
  {
    match v
    case Arr(items) => Arr(CanonItems(items))
    case Obj(members) => Obj(CanonMembers(members, SortedKeys(members)))
    case _ => v
  }

  function CanonItems(items: seq<Json>): (r: seq<Json>)
    ensures |r| == |items| && forall i :: 0 <= i < |items| ==> r[i] == Canon(items[i])
    decreases items
  {
    if items == [] then [] else [Canon(items[0])] + CanonItems(items[1..])
  }

  function CanonMembers(members: seq<Member>, keys: seq<string>): (r: seq<Member>)
    requires forall k :: k in keys ==> k in KeySet(members)
    ensures |r| == |keys|
    ensures forall i :: 0 <= i < |keys| ==>
              r[i] == Member(keys[i], Canon(members[IndexOf(members, keys[i])].value))
    decreases members, |keys|
  {
    if keys == [] then []
    else [Member(keys[0], Canon(members[IndexOf(members, keys[0])].value))] + CanonMembers(members, keys[1..])
  }

  lemma {:induction false} OanPrintIsPrintOfCanon(v: Json)
    ensures OanPrint(v) == Print(Canon(v))
    decreases v
  {
    match v
    case Arr(items) => OanItems(items);
    case Obj(members) => OanKeys(members, SortedKeys(members));
    case _ =>
  }

  lemma {:induction false} OanItems(items: seq<Json>)
    ensures OanPrintItems(items) == PrintItems(CanonItems(items))
    decreases items
  {
    if items != [] {
      OanPrintIsPrintOfCanon(items[0]);
      OanItems(items[1..]);
      assert CanonItems(items)[1..] == CanonItems(items[1..]);
    }
  }

  lemma {:induction false} OanKeys(members: seq<Member>, keys: seq<string>)
    requires forall k :: k in keys ==> k in KeySet(members)
    ensures OanPrintKeys(members, keys) == PrintMembers(CanonMembers(members, keys))
    decreases members, |keys|
  {
    if keys != [] {
      OanPrintIsPrintOfCanon(members[IndexOf(members, keys[0])].value);
      OanKeys(members, keys[1..]);
      assert CanonMembers(members, keys)[1..] == CanonMembers(members, keys[1..]);
    }
  }

  // ----- objects as maps -----

  /** No object repeats a key: serde_json objects are maps. */
  predicate UniqueKeys(v: Json)
    decreases v
  {
    match v
    case Arr(items) => forall i :: 0 <= i < |items| ==> UniqueKeys(items[i])
    case Obj(members) =>
      && (forall i, j :: 0 <= i < j < |members| ==> members[i].key != members[j].key)
      && (forall i :: 0 <= i < |members| ==> UniqueKeys(members[i].value))
    case _ => true
  }

  /** Equality with objects taken as maps. */
  predicate SameAsMaps(v: Json, w: Json)
    decreases v
  {
    match v
    case Arr(items) =>
      w.Arr? && |w.items| == |items| && forall i :: 0 <= i < |items| ==> SameAsMaps(items[i], w.items[i])
    case Obj(members) =>
      && w.Obj? && KeySet(members) == KeySet(w.members)
      && forall i, j :: 0 <= i < |members| && 0 <= j < |w.members| && members[i].key == w.members[j].key ==>
           SameAsMaps(members[i].value, w.members[j].value)
    case _ => v == w
  }

  lemma OnlyIndex(members: seq<Member>, i: nat)
    requires forall a, b :: 0 <= a < b < |members| ==> members[a].key != members[b].key
    requires i < |members|
    ensures members[i].key in KeySet(members) && IndexOf(members, members[i].key) == i
  {
    assert members[i] in members;
  }

  lemma {:induction false} CanonForgetsOrderOnly(v: Json, w: Json)
    requires UniqueKeys(v) && UniqueKeys(w)
    ensures Canon(v) == Canon(w) <==> SameAsMaps(v, w)
    decreases v, 1
  {
    if v.Arr? && w.Arr? {
      ItemsForgetOrderOnly(v.items, w.items);
    } else if v.Obj? && w.Obj? {
      MembersForgetOrderOnly(v.members, w.members);
    }
  }

  lemma {:induction false} ItemsForgetOrderOnly(a: seq<Json>, b: seq<Json>)
    requires UniqueKeys(Arr(a)) && UniqueKeys(Arr(b))
    ensures CanonItems(a) == CanonItems(b) <==> SameAsMaps(Arr(a), Arr(b))
    decreases a, 0
  {
    forall i | 0 <= i < |a| && i < |b| ensures Canon(a[i]) == Canon(b[i]) <==> SameAsMaps(a[i], b[i]) {
      CanonForgetsOrderOnly(a[i], b[i]);
    }
    SameCanonItems(a, b);
  }

  lemma {:induction false} MembersForgetOrderOnly(a: seq<Member>, b: seq<Member>)
    requires UniqueKeys(Obj(a)) && UniqueKeys(Obj(b))
    ensures CanonMembers(a, SortedKeys(a)) == CanonMembers(b, SortedKeys(b)) <==> SameAsMaps(Obj(a), Obj(b))
    decreases a, 0
  {
    forall i, j | 0 <= i < |a| && 0 <= j < |b|
      ensures Canon(a[i].value) == Canon(b[j].value) <==> SameAsMaps(a[i].value, b[j].value)
    {
      CanonForgetsOrderOnly(a[i].value, b[j].value);
    }
    SameCanonMembers(a, b);
  }

  lemma SameCanonItems(a: seq<Json>, b: seq<Json>)
    ensures CanonItems(a) == CanonItems(b) <==>
              |a| == |b| && forall i :: 0 <= i < |a| ==> Canon(a[i]) == Canon(b[i])
  {
    if CanonItems(a) == CanonItems(b) {
      assert |CanonItems(a)| == |CanonItems(b)|;
      forall i | 0 <= i < |a| ensures Canon(a[i]) == Canon(b[i]) {
        assert CanonItems(a)[i] == CanonItems(b)[i];
      }
    }
  }

  lemma SameCanonMembers(a: seq<Member>, b: seq<Member>)
    requires forall i, j :: 0 <= i < j < |a| ==> a[i].key != a[j].key
    requires forall i, j :: 0 <= i < j < |b| ==> b[i].key != b[j].key
    ensures CanonMembers(a, SortedKeys(a)) == CanonMembers(b, SortedKeys(b)) <==>
              && KeySet(a) == KeySet(b)
              && forall i, j :: 0 <= i < |a| && 0 <= j < |b| && a[i].key == b[j].key ==>
                   Canon(a[i].value) == Canon(b[j].value)
  {
    if CanonMembers(a, SortedKeys(a)) == CanonMembers(b, SortedKeys(b)) {
      SameCanonSameMap(a, b);
    } else if KeySet(a) == KeySet(b)
      && forall i, j :: 0 <= i < |a| && 0 <= j < |b| && a[i].key == b[j].key ==> Canon(a[i].value) == Canon(b[j].value)
    {
      SameMapSameCanon(a, b);
    }
  }

  lemma SameKeysSameOrder(a: seq<Member>, b: seq<Member>)
    ensures SortedKeys(a) == SortedKeys(b) <==> KeySet(a) == KeySet(b)
  {
    if SortedKeys(a) == SortedKeys(b) {
      forall k ensures k in KeySet(a) <==> k in KeySet(b) {
        assert k in SortedKeys(a) <==> k in KeySet(a);
      }
    }
    if KeySet(a) == KeySet(b) { AscendingIsUnique(SortedKeys(a), SortedKeys(b), Codes); }
  }

  lemma SameMapSameCanon(a: seq<Member>, b: seq<Member>)
    requires KeySet(a) == KeySet(b)
    requires forall i, j :: 0 <= i < |a| && 0 <= j < |b| && a[i].key == b[j].key ==> Canon(a[i].value) == Canon(b[j].value)
    ensures CanonMembers(a, SortedKeys(a)) == CanonMembers(b, SortedKeys(b))
  {
    SameKeysSameOrder(a, b);
  }

  lemma SameCanonSameMap(a: seq<Member>, b: seq<Member>)
    requires CanonMembers(a, SortedKeys(a)) == CanonMembers(b, SortedKeys(b))
    requires forall i, j :: 0 <= i < j < |a| ==> a[i].key != a[j].key
    requires forall i, j :: 0 <= i < j < |b| ==> b[i].key != b[j].key
    ensures KeySet(a) == KeySet(b)
    ensures forall i, j :: 0 <= i < |a| && 0 <= j < |b| && a[i].key == b[j].key ==> Canon(a[i].value) == Canon(b[j].value)
  {
    hide *;
    var ka, kb := SortedKeys(a), SortedKeys(b);
    var ca, cb := CanonMembers(a, ka), CanonMembers(b, kb);
    assert |ka| == |kb|;
    forall x | 0 <= x < |ka| ensures ka[x] == kb[x] { assert ca[x] == cb[x]; }
    assert ka == kb;
    SameKeysSameOrder(a, b);
    forall i, j | 0 <= i < |a| && 0 <= j < |b| && a[i].key == b[j].key ensures Canon(a[i].value) == Canon(b[j].value) {
      OnlyIndex(a, i);
      OnlyIndex(b, j);
      var x :| 0 <= x < |ka| && ka[x] == a[i].key;
      assert ca[x] == cb[x];
    }
  }

  /** Two values get one text from the key-sorting printer exactly when they are equal with objects as maps. */
  lemma OanPrintExactly(v: Json, w: Json)
    requires UniqueKeys(v) && UniqueKeys(w)
    ensures OanPrint(v) == OanPrint(w) <==> SameAsMaps(v, w)
  {
    OanPrintIsPrintOfCanon(v);
    OanPrintIsPrintOfCanon(w);
    CanonForgetsOrderOnly(v, w);
    if OanPrint(v) == OanPrint(w) { PrintIsInjective(Canon(v), Canon(w)); }
  }

  // ----- agreement with the plain printer -----

  /** Every object, at any depth, iterates in key order. */
  predicate InKeyOrder(v: Json)
    decreases v
  {
    match v
    case Arr(items) => forall i :: 0 <= i < |items| ==> InKeyOrder(items[i])
    case Obj(members) =>
      && KeysAscend(members)
      && (forall i :: 0 <= i < |members| ==> InKeyOrder(members[i].value))
    case _ => true
  }

  function KeyList(members: seq<Member>): (r: seq<string>)
    ensures |r| == |members| && forall i :: 0 <= i < |members| ==> r[i] == members[i].key
  {
    seq(|members|, i requires 0 <= i < |members| => members[i].key)
  }

  lemma OrderedKeysAreSorted(members: seq<Member>)
    requires KeysAscend(members)
    ensures SortedKeys(members) == KeyList(members)
  {
    var keys := KeyList(members);
    forall k ensures k in keys <==> k in KeySet(members) {
      if k in keys {
        var i :| 0 <= i < |keys| && keys[i] == k;
        assert members[i] in members;
      }
      if k in KeySet(members) {
        var m :| m in members && m.key == k;
        var i :| 0 <= i < |members| && members[i] == m;
        assert keys[i] == k;
      }
    }
    AscendingIsUnique(SortedKeys(members), keys, Codes);
  }

  lemma {:induction false} CanonFixesExactly(v: Json)
    requires UniqueKeys(v)
    ensures Canon(v) == v <==> InKeyOrder(v)
    decreases v
  {
    if v.Arr? {
      forall i | 0 <= i < |v.items| ensures Canon(v.items[i]) == v.items[i] <==> InKeyOrder(v.items[i]) {
        CanonFixesExactly(v.items[i]);
      }
      if InKeyOrder(v) { assert CanonItems(v.items) == v.items; }
      if Canon(v) == v { assert forall i :: 0 <= i < |v.items| ==> CanonItems(v.items)[i] == v.items[i]; }
    } else if v.Obj? {
      forall i | 0 <= i < |v.members|
        ensures Canon(v.members[i].value) == v.members[i].value <==> InKeyOrder(v.members[i].value)
      {
        CanonFixesExactly(v.members[i].value);
      }
      ObjectFixed(v.members);
    }
  }

  predicate KeysAscend(members: seq<Member>) {
    forall i, j :: 0 <= i < j < |members| ==> Less(Codes(members[i].key), Codes(members[j].key))
  }

  lemma ObjectFixed(members: seq<Member>)
    requires forall i, j :: 0 <= i < j < |members| ==> members[i].key != members[j].key
    ensures CanonMembers(members, SortedKeys(members)) == members <==>
              KeysAscend(members) && (forall i :: 0 <= i < |members| ==> Canon(members[i].value) == members[i].value)
  {
    if CanonMembers(members, SortedKeys(members)) == members {
      FixedAscends(members);
    } else if KeysAscend(members) {
      OrderedKeysAreSorted(members);
      AscendingCanon(members);
    }
  }

  lemma FixedAt(members: seq<Member>, i: nat)
    requires forall a, b :: 0 <= a < b < |members| ==> members[a].key != members[b].key
    requires CanonMembers(members, SortedKeys(members)) == members && i < |members|
    ensures |SortedKeys(members)| == |members| && members[i].key == SortedKeys(members)[i]
    ensures Canon(members[i].value) == members[i].value
  {
    OnlyIndex(members, i);
    assert CanonMembers(members, SortedKeys(members))[i] == members[i];
  }

  lemma FixedAscends(members: seq<Member>)
    requires forall i, j :: 0 <= i < j < |members| ==> members[i].key != members[j].key
    requires CanonMembers(members, SortedKeys(members)) == members
    ensures KeysAscend(members)
    ensures forall i :: 0 <= i < |members| ==> Canon(members[i].value) == members[i].value
  {
    hide SortedKeys, CanonMembers, Canon;
    forall i | 0 <= i < |members| ensures Canon(members[i].value) == members[i].value { FixedAt(members, i); }
    forall i, j | 0 <= i < j < |members| ensures Less(Codes(members[i].key), Codes(members[j].key)) {
      FixedAt(members, i);
      FixedAt(members, j);
    }
  }

  lemma AscendingCanon(members: seq<Member>)
    requires forall i, j :: 0 <= i < j < |members| ==> members[i].key != members[j].key
    requires SortedKeys(members) == KeyList(members)
    ensures (forall i :: 0 <= i < |members| ==> Canon(members[i].value) == members[i].value) ==>
              CanonMembers(members, SortedKeys(members)) == members
  {
    hide Canon, SortedKeys, CanonMembers;
    forall i | 0 <= i < |members|
      ensures CanonMembers(members, SortedKeys(members))[i] == Member(members[i].key, Canon(members[i].value))
    {
      CanonAt(members, i);
    }
  }

  lemma CanonAt(members: seq<Member>, i: nat)
    requires forall i, j :: 0 <= i < j < |members| ==> members[i].key != members[j].key
    requires SortedKeys(members) == KeyList(members) && i < |members|
    ensures CanonMembers(members, SortedKeys(members))[i] == Member(members[i].key, Canon(members[i].value))
  {
    OnlyIndex(members, i);
  }

  /** The two printers agree on exactly the values whose maps iterate in key order. */
  lemma PrintersAgreeExactly(v: Json)
    requires UniqueKeys(v)
    ensures OanPrint(v) == Print(v) <==> InKeyOrder(v)
  {
    OanPrintIsPrintOfCanon(v);
    CanonFixesExactly(v);
    if OanPrint(v) == Print(v) { PrintIsInjective(Canon(v), v); }
  }
}
