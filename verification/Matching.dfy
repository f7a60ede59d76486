/** Weighted matching of term maps, over real weights, and the inverted index of term profiles. */
module Matching {
  import opened Order

  type Weights = map<string, real>

  datatype WeightedTerms = WeightedTerms(terms: Weights, total: real)

  function Min(a: real, b: real): real { if a <= b then a else b }
  function Max(a: real, b: real): real { if a <= b then b else a }

  function Weight(m: Weights, k: string): real { if k in m then m[k] else 0.0 }

  /** A map's keys in the order it iterates. */
  function KeysInOrder(m: Weights): (r: seq<string>)
    ensures Ascending(r, Codes) && forall k :: k in r <==> k in m
  {
    assert Separates(Codes, m.Keys) by {
      forall x, y | x in m.Keys && y in m.Keys && Codes(x) == Codes(y) ensures x == y { CodesAreInjective(x, y); }
    }
    SortBy(m.Keys, Codes)
  }

  // ----- folds over a map -----

  function Total(m: Weights, keys: seq<string>): real {
    if keys == [] then 0.0 else Weight(m, keys[0]) + Total(m, keys[1..])
  }

  /** terms.values().sum() */
  function WithTotal(m: Weights): WeightedTerms { WeightedTerms(m, Total(m, KeysInOrder(m))) }

  function Overlap(small: Weights, large: Weights, keys: seq<string>): real
    requires forall k :: k in keys ==> k in small
  {
    if keys == [] then 0.0
    else (if keys[0] in large then Min(small[keys[0]], large[keys[0]]) else 0.0) + Overlap(small, large, keys[1..])
  }

  function WeightedJaccard(left: WeightedTerms, right: WeightedTerms): real {
    if left.terms == map[] && right.terms == map[] then 0.0
    else
      var (small, large) := if |left.terms| <= |right.terms| then (left.terms, right.terms) else (right.terms, left.terms);
      var intersection := Overlap(small, large, KeysInOrder(small));
      Share(intersection, left.total + right.total - intersection)
  }

  function Share(intersection: real, union: real): real {
    if union == 0.0 then 0.0 else Min(intersection / union, 1.0)
  }

  // ----- the same as sums over all keys -----

  ghost function Sum(keys: set<string>, f: string -> real): real
    decreases |keys|
  {
    if keys == {} then 0.0
    else
      var k :| k in keys;
      f(k) + Sum(keys - {k}, f)
  }

  lemma {:induction false} SumWithout(keys: set<string>, f: string -> real, k: string)
    requires k in keys
    ensures Sum(keys, f) == f(k) + Sum(keys - {k}, f)
    decreases |keys|
  {
    var j :| j in keys && Sum(keys, f) == f(j) + Sum(keys - {j}, f);
    if j != k {
      SumWithout(keys - {j}, f, k);
      SumWithout(keys - {k}, f, j);
      assert keys - {j} - {k} == keys - {k} - {j};
    }
  }

  lemma {:induction false} SumOnSubset(part: set<string>, keys: set<string>, f: string -> real)
    requires part <= keys && forall k :: k in keys && k !in part ==> f(k) == 0.0
    ensures Sum(keys, f) == Sum(part, f)
    decreases |keys - part|
  {
    if keys - part == {} {
      assert keys == part;
    } else {
      var k :| k in keys - part;
      SumWithout(keys, f, k);
      SumOnSubset(part, keys - {k}, f);
    }
  }

  lemma {:induction false} SumOfTwo(keys: set<string>, f: string -> real, g: string -> real, h: string -> real)
    requires forall k :: k in keys ==> h(k) == f(k) + g(k)
    ensures Sum(keys, h) == Sum(keys, f) + Sum(keys, g)
    decreases |keys|
  {
    if keys != {} {
      var k :| k in keys;
      SumWithout(keys, f, k);
      SumWithout(keys, g, k);
      SumWithout(keys, h, k);
      SumOfTwo(keys - {k}, f, g, h);
    }
  }

  lemma {:induction false} SumGrows(keys: set<string>, f: string -> real, g: string -> real)
    requires forall k :: k in keys ==> f(k) <= g(k)
    ensures Sum(keys, f) <= Sum(keys, g)
    ensures Sum(keys, f) == Sum(keys, g) ==> forall k :: k in keys ==> f(k) == g(k)
    decreases |keys|
  {
    if keys != {} {
      var k :| k in keys;
      SumWithout(keys, f, k);
      SumWithout(keys, g, k);
      SumGrows(keys - {k}, f, g);
      assert forall j :: j in keys ==> j == k || j in keys - {k};
    }
  }

  function AllKeys(l: Weights, r: Weights): set<string> { l.Keys + r.Keys }
  function MinAt(l: Weights, r: Weights): string -> real { k => Min(Weight(l, k), Weight(r, k)) }
  function MaxAt(l: Weights, r: Weights): string -> real { k => Max(Weight(l, k), Weight(r, k)) }
  function WeightAt(m: Weights): string -> real { k => Weight(m, k) }

  ghost predicate NonNegative(m: Weights) { forall k :: k in m ==> m[k] >= 0.0 }

  ghost predicate Positive(m: Weights) { forall k :: k in m ==> m[k] > 0.0 }

  ghost function Elements(keys: seq<string>): set<string> { set k | k in keys }

  lemma {:induction false} TotalIsSum(m: Weights, keys: seq<string>)
    requires Ascending(keys, Codes)
    ensures Total(m, keys) == Sum(Elements(keys), WeightAt(m))
  {
    if keys != [] {
      TotalIsSum(m, keys[1..]);
      HeadAndRest(keys);
      SumWithout(Elements(keys), WeightAt(m), keys[0]);
    }
  }

  lemma HeadAndRest(keys: seq<string>)
    requires Ascending(keys, Codes) && keys != []
    ensures keys[0] in Elements(keys) && Elements(keys) - {keys[0]} == Elements(keys[1..])
  {
    assert keys == [keys[0]] + keys[1..];
    forall k | k in keys[1..] ensures k != keys[0] { RestExcludesHead(keys, k, Codes); }
  }

  lemma {:induction false} OverlapIsSum(small: Weights, large: Weights, keys: seq<string>)
    requires Ascending(keys, Codes) && (forall k :: k in keys ==> k in small)
    requires NonNegative(small) && NonNegative(large)
    ensures Overlap(small, large, keys) == Sum(Elements(keys), MinAt(small, large))
  {
    if keys != [] {
      assert forall k :: k in keys[1..] ==> k in keys;
      OverlapIsSum(small, large, keys[1..]);
      HeadAndRest(keys);
      SumWithout(Elements(keys), MinAt(small, large), keys[0]);
      assert keys[0] in small;
    }
  }

  lemma IntersectionIsSumOfMinima(small: Weights, large: Weights)
    requires NonNegative(small) && NonNegative(large)
    ensures Overlap(small, large, KeysInOrder(small)) == Sum(AllKeys(small, large), MinAt(small, large))
  {
    OverlapIsSum(small, large, KeysInOrder(small));
    assert Elements(KeysInOrder(small)) == small.Keys;
    SumOnSubset(small.Keys, AllKeys(small, large), MinAt(small, large));
  }

  lemma TotalOverMore(m: Weights, keys: set<string>)
    requires m.Keys <= keys
    ensures WithTotal(m).total == Sum(keys, WeightAt(m))
  {
    hide Total, Overlap, Less, Codes;
    TotalIsSum(m, KeysInOrder(m));
    assert Elements(KeysInOrder(m)) == m.Keys;
    SumOnSubset(m.Keys, keys, WeightAt(m));
  }

  lemma PointsExchange(l: Weights, r: Weights, k: string)
    ensures WeightAt(l)(k) + WeightAt(r)(k) == MinAt(l, r)(k) + MaxAt(l, r)(k)
  {
  }

  lemma TotalsAreMinPlusMax(l: Weights, r: Weights, keys: set<string>)
    requires keys == AllKeys(l, r)
    ensures WithTotal(l).total + WithTotal(r).total == Sum(keys, MinAt(l, r)) + Sum(keys, MaxAt(l, r))
  {
    var f, g, low, high := WeightAt(l), WeightAt(r), MinAt(l, r), MaxAt(l, r);
    forall k | k in keys ensures f(k) + g(k) == low(k) + high(k) { PointsExchange(l, r, k); }
    SumsExchange(keys, f, g, low, high);
    TotalOverMore(l, keys);
    TotalOverMore(r, keys);
  }

  lemma SumsExchange(
    keys: set<string>, f: string -> real, g: string -> real, low: string -> real, high: string -> real)
    requires forall k :: k in keys ==> f(k) + g(k) == low(k) + high(k)
    ensures Sum(keys, f) + Sum(keys, g) == Sum(keys, low) + Sum(keys, high)
  {
    var both: string -> real := k => f(k) + g(k);
    SumOfTwo(keys, f, g, both);
    SumOfTwo(keys, low, high, both);
  }

  lemma {:induction false} SumCongruent(keys: set<string>, f: string -> real, g: string -> real)
    requires forall k :: k in keys ==> f(k) == g(k)
    ensures Sum(keys, f) == Sum(keys, g)
  {
    SumGrows(keys, f, g);
    SumGrows(keys, g, f);
  }

  lemma SumsAreSymmetric(l: Weights, r: Weights)
    ensures AllKeys(l, r) == AllKeys(r, l)
    ensures Sum(AllKeys(l, r), MinAt(l, r)) == Sum(AllKeys(r, l), MinAt(r, l))
    ensures Sum(AllKeys(l, r), MaxAt(l, r)) == Sum(AllKeys(r, l), MaxAt(r, l))
  {
    SumCongruent(AllKeys(l, r), MinAt(l, r), MinAt(r, l));
    SumCongruent(AllKeys(l, r), MaxAt(l, r), MaxAt(r, l));
  }

  lemma SumsCompare(l: Weights, r: Weights)
    requires NonNegative(l) && NonNegative(r)
    ensures 0.0 <= Sum(AllKeys(l, r), MinAt(l, r)) <= Sum(AllKeys(l, r), MaxAt(l, r))
  {
    var zero: string -> real := k => 0.0;
    SumGrows(AllKeys(l, r), zero, MinAt(l, r));
    SumOfTwo(AllKeys(l, r), zero, zero, zero);
    SumGrows(AllKeys(l, r), MinAt(l, r), MaxAt(l, r));
  }

  /** The code's intersection is the sum of minima, whichever map is the smaller. */
  lemma SmallerMapSuffices(l: Weights, r: Weights)
    requires NonNegative(l) && NonNegative(r)
    ensures |l| <= |r| ==> Overlap(l, r, KeysInOrder(l)) == Sum(AllKeys(l, r), MinAt(l, r))
    ensures |l| > |r| ==> Overlap(r, l, KeysInOrder(r)) == Sum(AllKeys(l, r), MinAt(l, r))
  {
    if |l| <= |r| {
      IntersectionIsSumOfMinima(l, r);
    } else {
      IntersectionIsSumOfMinima(r, l);
      SumsAreSymmetric(l, r);
    }
  }

  function Ratio(least: real, most: real): real { if most == 0.0 then 0.0 else least / most }

  /** What the code computes, from its intersection and its two totals. */
  lemma ScoreFromTotals(left: WeightedTerms, right: WeightedTerms, least: real, most: real)
    requires left.terms != map[] || right.terms != map[]
    requires if |left.terms| <= |right.terms| then Overlap(left.terms, right.terms, KeysInOrder(left.terms)) == least
             else Overlap(right.terms, left.terms, KeysInOrder(right.terms)) == least
    requires left.total + right.total == least + most && 0.0 <= least <= most
    ensures WeightedJaccard(left, right) == Ratio(least, most)
  {
    ShareIsRatio(least, most);
    assert left.total + right.total - least == most;
  }

  lemma ShareIsRatio(least: real, most: real)
    requires 0.0 <= least <= most
    ensures Share(least, most) == Ratio(least, most)
  {
    if most != 0.0 { QuotientAtMostOne(least, most); }
  }

  /** The score from two totals and one pass over the smaller map is the sum of minima over the sum of maxima. */
  lemma JaccardIsSimilarity(l: Weights, r: Weights)
    requires NonNegative(l) && NonNegative(r)
    ensures WeightedJaccard(WithTotal(l), WithTotal(r))
            == Ratio(Sum(AllKeys(l, r), MinAt(l, r)), Sum(AllKeys(l, r), MaxAt(l, r)))
  {
    if l == map[] && r == map[] {
      NothingToCompare(l, r);
    } else {
      SumsCompare(l, r);
      SmallerMapSuffices(l, r);
      TotalsAreMinPlusMax(l, r, AllKeys(l, r));
      ScoreFromTotals(WithTotal(l), WithTotal(r), Sum(AllKeys(l, r), MinAt(l, r)), Sum(AllKeys(l, r), MaxAt(l, r)));
    }
  }

  lemma NothingToCompare(l: Weights, r: Weights)
    requires l == map[] && r == map[]
    ensures Sum(AllKeys(l, r), MaxAt(l, r)) == 0.0
  {
    assert AllKeys(l, r) == {};
  }

  lemma QuotientAtMostOne(a: real, b: real)
    requires 0.0 <= a <= b && b > 0.0
    ensures 0.0 <= a / b <= 1.0
    ensures a / b == 1.0 <==> a == b
  {
  }

  /** The score is symmetric and between 0 and 1. */
  lemma JaccardIsSymmetricAndBounded(l: Weights, r: Weights)
    requires NonNegative(l) && NonNegative(r)
    ensures WeightedJaccard(WithTotal(l), WithTotal(r)) == WeightedJaccard(WithTotal(r), WithTotal(l))
    ensures 0.0 <= WeightedJaccard(WithTotal(l), WithTotal(r)) <= 1.0
  {
    JaccardIsSimilarity(l, r);
    JaccardIsSimilarity(r, l);
    SumsAreSymmetric(l, r);
    SumsCompare(l, r);
    var least, most := Sum(AllKeys(l, r), MinAt(l, r)), Sum(AllKeys(l, r), MaxAt(l, r));
    if most != 0.0 { QuotientAtMostOne(least, most); }
  }

  /** A perfect score means the same terms with the same weights. */
  lemma JaccardIsOneExactly(l: Weights, r: Weights)
    requires Positive(l) && Positive(r) && (l != map[] || r != map[])
    ensures WeightedJaccard(WithTotal(l), WithTotal(r)) == 1.0 <==> l == r
  {
    JaccardIsSimilarity(l, r);
    SumsCompare(l, r);
    MostIsPositive(l, r);
    QuotientAtMostOne(Sum(AllKeys(l, r), MinAt(l, r)), Sum(AllKeys(l, r), MaxAt(l, r)));
    SumsMeetExactly(l, r);
  }

  lemma SumsMeetExactly(l: Weights, r: Weights)
    requires Positive(l) && Positive(r)
    ensures Sum(AllKeys(l, r), MinAt(l, r)) == Sum(AllKeys(l, r), MaxAt(l, r)) <==> l == r
  {
    var keys, low, high := AllKeys(l, r), MinAt(l, r), MaxAt(l, r);
    SumGrows(keys, low, high);
    if Sum(keys, low) == Sum(keys, high) {
      forall k | k in keys ensures k in l && k in r && l[k] == r[k] { assert low(k) == high(k); }
    }
    if l == r { SumCongruent(keys, low, high); }
  }

  lemma MostIsPositive(l: Weights, r: Weights)
    requires Positive(l) && Positive(r) && (l != map[] || r != map[])
    ensures Sum(AllKeys(l, r), MaxAt(l, r)) > 0.0
  {
    var k :| k in AllKeys(l, r);
    var zero: string -> real := _ => 0.0;
    SumWithout(AllKeys(l, r), MaxAt(l, r), k);
    SumGrows(AllKeys(l, r) - {k}, zero, MaxAt(l, r));
    SumOfTwo(AllKeys(l, r) - {k}, zero, zero, zero);
  }

  // ----- the token index -----

  predicate UsefulTerm(term: string) { |term| >= 3 }

  /** The positions of the profiles with this term, ascending. */
  function Postings(profiles: seq<Weights>, term: string): seq<nat> {
    if profiles == [] then []
    else
      var front := profiles[..|profiles| - 1];
      Postings(front, term) + (if term in profiles[|profiles| - 1] then [|front|] else [])
  }

  lemma {:induction false} PostingsExactly(profiles: seq<Weights>, term: string)
    ensures forall i, j :: 0 <= i < j < |Postings(profiles, term)| ==> Postings(profiles, term)[i] < Postings(profiles, term)[j]
    ensures forall p :: p in Postings(profiles, term) <==> 0 <= p < |profiles| && term in profiles[p]
  {
    if profiles != [] {
      PostingsExactly(profiles[..|profiles| - 1], term);
      var front := Postings(profiles[..|profiles| - 1], term);
      assert forall i :: 0 <= i < |front| ==> front[i] in front;
    }
  }

  function Listed(index: map<string, seq<nat>>, term: string): seq<nat> {
    if term in index then index[term] else []
  }

  /** The index lists, for every useful term and no other, the profiles that have it. */
  ghost predicate IndexOf(index: map<string, seq<nat>>, profiles: seq<Weights>) {
    forall term :: Listed(index, term) == if UsefulTerm(term) then Postings(profiles, term) else []
  }

  /** build_tag_token_index */
  method BuildTagTokenIndex(profiles: seq<Weights>) returns (index: map<string, seq<nat>>)
    ensures IndexOf(index, profiles)
  {
    index := map[];
    for p := 0 to |profiles|
      invariant IndexOf(index, profiles[..p])
    {
      index := AddProfile(index, KeysInOrder(profiles[p]), p);
      assert profiles[..p + 1][..p] == profiles[..p];
    }
    assert profiles[..|profiles|] == profiles;
  }

  /** The index r is `index` with p appended to the lists of the useful terms among the keys. */
  ghost predicate Appended(index: map<string, seq<nat>>, keys: seq<string>, p: nat, r: map<string, seq<nat>>) {
    forall term :: Listed(r, term) == (Listed(index, term) + if UsefulTerm(term) && term in keys then [p] else [])
  }

  lemma AppendedOneMore(
    index: map<string, seq<nat>>, keys: seq<string>, key: string, p: nat, r: map<string, seq<nat>>)
    requires Appended(index, keys, p, r) && key !in keys
    ensures Appended(index, keys + [key], p, if UsefulTerm(key) then r[key := Listed(r, key) + [p]] else r)
  {
    var r' := if UsefulTerm(key) then r[key := Listed(r, key) + [p]] else r;
    forall term
      ensures Listed(r', term) == (Listed(index, term) + if UsefulTerm(term) && term in keys + [key] then [p] else [])
    {
      assert Listed(r, term) == (Listed(index, term) + if UsefulTerm(term) && term in keys then [p] else []);
      assert term in keys + [key] <==> term in keys || term == key;
    }
  }

  /** The inner loop over one profile's terms. */
  method AddProfile(index: map<string, seq<nat>>, keys: seq<string>, p: nat) returns (r: map<string, seq<nat>>)
    requires Ascending(keys, Codes)
    ensures forall term :: Listed(r, term) ==
              (Listed(index, term) + if UsefulTerm(term) && term in keys then [p] else [])
  {
    r := index;
    assert Appended(index, keys[..0], p, r);
    for i := 0 to |keys|
      invariant Appended(index, keys[..i], p, r)
    {
      hide Appended, Less, Codes;
      forall h | 0 <= h < i ensures keys[h] != keys[i] { AscendingIsDistinct(keys, h, i, Codes); }
      AppendedOneMore(index, keys[..i], keys[i], p, r);
      assert keys[..i + 1] == keys[..i] + [keys[i]];
      if UsefulTerm(keys[i]) {
        r := r[keys[i] := Listed(r, keys[i]) + [p]];
      }
    }
    assert keys[..|keys|] == keys;
  }

  /** Some of these terms is useful and in the profile. */
  predicate Shares(terms: seq<string>, profile: Weights) {
    exists h :: 0 <= h < |terms| && UsefulTerm(terms[h]) && terms[h] in profile
  }

  lemma SharesOneMore(terms: seq<string>, term: string, profile: Weights)
    ensures Shares(terms + [term], profile) <==> Shares(terms, profile) || (UsefulTerm(term) && term in profile)
  {
    if Shares(terms, profile) {
      var h :| 0 <= h < |terms| && UsefulTerm(terms[h]) && terms[h] in profile;
      assert (terms + [term])[h] == terms[h];
    }
    if UsefulTerm(term) && term in profile { assert (terms + [term])[|terms|] == term; }
  }

  function IndexPos(i: nat): seq<int> { [i] }

  lemma IndexOrder(a: nat, b: nat)
    requires Less(IndexPos(a), IndexPos(b))
    ensures a < b
  {
    assert IndexPos(a)[1..] == [] && IndexPos(b)[1..] == [];
  }

  function InOrder(indexes: set<nat>): (r: seq<nat>)
    ensures forall i, j :: 0 <= i < j < |r| ==> r[i] < r[j]
    ensures forall p :: p in r <==> p in indexes
  {
    assert Separates(IndexPos, indexes) by {
      forall x, y | x in indexes && y in indexes && IndexPos(x) == IndexPos(y) ensures x == y {
        assert IndexPos(x)[0] == x && IndexPos(y)[0] == y;
      }
    }
    var r := SortBy(indexes, IndexPos);
    assert forall i, j :: 0 <= i < j < |r| ==> r[i] < r[j] by {
      forall i, j | 0 <= i < j < |r| ensures r[i] < r[j] { IndexOrder(r[i], r[j]); }
    }
    r
  }

  /** candidate_tag_profile_indexes: exactly the profiles that share a term of three or more characters with the
      input, in ascending order. */
  method CandidateTagProfileIndexes(profiles: seq<Weights>, index: map<string, seq<nat>>, input: Weights)
    returns (r: seq<nat>)
    requires IndexOf(index, profiles)
    ensures forall i, j :: 0 <= i < j < |r| ==> r[i] < r[j]
    ensures forall p :: p in r <==> 0 <= p < |profiles| && Shares(KeysInOrder(input), profiles[p])
  {
    var indexes := CollectIndexes(profiles, index, KeysInOrder(input));
    r := InOrder(indexes);
  }

  ghost predicate Collected(profiles: seq<Weights>, indexes: set<nat>, terms: seq<string>) {
    forall p :: p in indexes <==> 0 <= p < |profiles| && Shares(terms, profiles[p])
  }

  lemma OneMoreTerm(
    profiles: seq<Weights>, index: map<string, seq<nat>>, indexes: set<nat>, terms: seq<string>, term: string)
    requires IndexOf(index, profiles) && Collected(profiles, indexes, terms)
    ensures Collected(profiles, indexes + (set p | p in Listed(index, term)), terms + [term])
  {
    PostingsExactly(profiles, term);
    assert Listed(index, term) == if UsefulTerm(term) then Postings(profiles, term) else [];
    hide Shares, Postings, IndexOf, Listed, UsefulTerm;
    forall p | 0 <= p < |profiles| ensures Shares(terms + [term], profiles[p])
      <==> Shares(terms, profiles[p]) || (UsefulTerm(term) && term in profiles[p])
    {
      SharesOneMore(terms, term, profiles[p]);
    }
  }

  /** The loop over the input's terms. */
  method CollectIndexes(profiles: seq<Weights>, index: map<string, seq<nat>>, terms: seq<string>)
    returns (indexes: set<nat>)
    requires IndexOf(index, profiles)
    ensures forall p :: p in indexes <==> 0 <= p < |profiles| && Shares(terms, profiles[p])
  {
    indexes := {};
    assert Collected(profiles, indexes, terms[..0]);
    for i := 0 to |terms|
      invariant Collected(profiles, indexes, terms[..i])
    {
      hide Collected, IndexOf;
      OneMoreTerm(profiles, index, indexes, terms[..i], terms[i]);
      assert terms[..i + 1] == terms[..i] + [terms[i]];
      indexes := indexes + set p | p in Listed(index, terms[i]);
    }
    assert terms[..|terms|] == terms;
  }

  /** The terms in iteration order stand for the map: sharing is about the input's terms of three or more
      characters. */
  lemma SharesExactly(input: Weights, profile: Weights)
    ensures Shares(KeysInOrder(input), profile) <==>
              exists term :: term in input && |term| >= 3 && term in profile
  {
    var keys := KeysInOrder(input);
    if exists term :: term in input && |term| >= 3 && term in profile {
      var term :| term in input && |term| >= 3 && term in profile;
      var h :| 0 <= h < |keys| && keys[h] == term;
    }
    if Shares(keys, profile) {
      var h :| 0 <= h < |keys| && UsefulTerm(keys[h]) && keys[h] in profile;
      assert keys[h] in keys;
    }
  }
}
