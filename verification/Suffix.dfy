/** did:oan identifiers: unbiased base58 suffixes from random or derived byte blocks, and the parser. */
module Suffix {
  import opened Wrappers

  newtype Byte = b: int | 0 <= b < 256

  const DID_PREFIX: string := "did:oan:"
  const ROUTING_CODE_LEN: nat := 5
  const SUFFIX_CODE_LEN: nat := 32
  const DID_LEN: nat := 46
  const BASE58_ALPHABET: string :=
    "123456789" + "ABCDEFGH" + "JKLMN" + "PQRSTUVWXYZ" + "abcdefghijk" + "mnopqrstuvwxyz"

  datatype DidOanError = InvalidPrefix | InvalidPartCount | InvalidRoutingCode | InvalidSuffixCode | InvalidSyntax

  datatype DidOan = DidOan(value: string, routingCode: string, suffixCode: string)

  // ----- rejection sampling -----

  /** u8::MAX - (u8::MAX % alphabet.len() as u8): bytes from here up are rejected. */
  function Zone(n: nat): nat
    requires 1 <= n <= 255
  {
    255 - 255 % n
  }

  function BytesFor(n: nat, c: nat, below: nat): set<nat>
    requires n >= 1
  {
    set b | 0 <= b < below && b % n == c
  }

  lemma AtLeastOnce(a: int, n: int)
    requires a >= 1 && n >= 0
    ensures a * n >= n
  {
  }

  lemma DivMod(n: nat, k: nat, c: nat)
    requires c < n
    ensures (k * n + c) % n == c && (k * n + c) / n == k
  {
    var y := k * n + c;
    var q, r := y / n, y % n;
    assert y == q * n + r;
    assert (q - k) * n == c - r && (k - q) * n == r - c;
    if q > k { AtLeastOnce(q - k, n); }
    if q < k { AtLeastOnce(k - q, n); }
  }

  lemma OnlyByteInRow(n: nat, c: nat, q: nat, b: nat)
    requires n >= 1 && q >= 1 && (q - 1) * n <= b < q * n && b % n == c
    ensures b == (q - 1) * n + c
  {
    assert (q - 1) * n + n == q * n;
    DivMod(n, q - 1, b - (q - 1) * n);
    assert b == (b / n) * n + b % n;
  }

  lemma OneMoreByte(n: nat, c: nat, lo: nat, hi: nat, m: nat)
    requires n >= 1 && lo <= m < hi && m % n == c
    requires forall b: nat :: lo <= b < hi && b % n == c ==> b == m
    ensures |BytesFor(n, c, hi)| == |BytesFor(n, c, lo)| + 1
  {
    assert BytesFor(n, c, hi) == BytesFor(n, c, lo) + {m};
  }

  lemma {:induction false} BytesInRows(n: nat, c: nat, q: nat)
    requires c < n
    ensures |BytesFor(n, c, q * n)| == q
  {
    if q > 0 {
      BytesInRows(n, c, q - 1);
      DivMod(n, q - 1, c);
      var lo, hi := (q - 1) * n, q * n;
      assert lo + n == hi && lo >= 0;
      forall b: nat | lo <= b < hi && b % n == c ensures b == lo + c { OnlyByteInRow(n, c, q, b); }
      OneMoreByte(n, c, lo, hi, lo + c);
    }
  }

  /** The zone is the largest whole number of alphabets up to 255, and every character has the same number of accepted
      bytes. */
  lemma SamplingIsUnbiased(n: nat, c: nat)
    requires 1 <= n <= 255 && c < n
    ensures Zone(n) % n == 0 && Zone(n) <= 255 < Zone(n) + n
    ensures |BytesFor(n, c, Zone(n))| == Zone(n) / n
  {
    var q := 255 / n;
    assert Zone(n) == q * n;
    DivMod(n, q, 0);
    BytesInRows(n, c, q);
  }

  // ----- the suffix loop -----

  function Accepted(bytes: seq<Byte>): string {
    if bytes == [] then ""
    else
      (if bytes[0] as int < Zone(|BASE58_ALPHABET|) then [BASE58_ALPHABET[bytes[0] as int % |BASE58_ALPHABET|]] else "")
      + Accepted(bytes[1..])
  }

  lemma {:induction false} AcceptedInAlphabet(bytes: seq<Byte>)
    ensures IsBase58(Accepted(bytes))
  {
    if bytes != [] {
      AcceptedInAlphabet(bytes[1..]);
    }
  }

  function Truncated(s: string): string {
    if |s| <= SUFFIX_CODE_LEN then s else s[..SUFFIX_CODE_LEN]
  }

  lemma {:induction false} AcceptedInTwo(a: seq<Byte>, b: seq<Byte>)
    ensures Accepted(a + b) == Accepted(a) + Accepted(b)
  {
    if a == [] {
      assert a + b == b;
    } else {
      assert (a + b)[1..] == a[1..] + b;
      AcceptedInTwo(a[1..], b);
    }
  }

  lemma AcceptedOne(bytes: seq<Byte>, i: nat)
    requires i < |bytes|
    ensures Accepted(bytes[..i + 1]) == Accepted(bytes[..i]) + Accepted([bytes[i]])
  {
    assert bytes[..i + 1] == bytes[..i] + [bytes[i]];
    AcceptedInTwo(bytes[..i], [bytes[i]]);
  }

  lemma AcceptedSingle(b: Byte)
    ensures Accepted([b]) ==
              if b as int < Zone(|BASE58_ALPHABET|) then [BASE58_ALPHABET[b as int % |BASE58_ALPHABET|]] else ""
  {
    assert [b][1..] == [];
  }

  lemma AlphabetSize()
    ensures |BASE58_ALPHABET| == 58
  {
  }

  lemma CutWhereFull(full: string, more: string)
    requires |full| == SUFFIX_CODE_LEN
    ensures Truncated(full + more) == full
  {
  }

  lemma FullAt(output: string, bytes: seq<Byte>, i: nat, r: string)
    requires i <= |bytes| && r == output + Accepted(bytes[..i]) && |r| == SUFFIX_CODE_LEN
    ensures r == Truncated(output + Accepted(bytes))
  {
    hide Accepted, Truncated;
    AcceptedInTwo(bytes[..i], bytes[i..]);
    assert bytes == bytes[..i] + bytes[i..];
    assert output + (Accepted(bytes[..i]) + Accepted(bytes[i..])) == r + Accepted(bytes[i..]);
    CutWhereFull(r, Accepted(bytes[i..]));
  }

  /** push_unbiased_base58_chars: it stops when the output is just full, so an output that is already full, which
      no caller's loop passes, takes all of the bytes. */
  method PushUnbiasedBase58Chars(output: string, bytes: seq<Byte>) returns (r: string)
    ensures r == if |output| < SUFFIX_CODE_LEN then Truncated(output + Accepted(bytes)) else output + Accepted(bytes)
  {
    AlphabetSize();
    var rejectionZone := Zone(|BASE58_ALPHABET|);
    r := output;
    assert Accepted(bytes[..0]) == "";
    hide Accepted, Zone;
    for i := 0 to |bytes|
      invariant r == output + Accepted(bytes[..i])
      invariant |output| < SUFFIX_CODE_LEN ==> |r| < SUFFIX_CODE_LEN
    {
      AcceptedOne(bytes, i);
      AcceptedSingle(bytes[i]);
      if bytes[i] as int < rejectionZone {
        r := r + [BASE58_ALPHABET[bytes[i] as int % |BASE58_ALPHABET|]];
        if |r| == SUFFIX_CODE_LEN {
          FullAt(output, bytes, i + 1, r);
          return;
        }
      }
    }
    assert bytes[..|bytes|] == bytes;
  }

  /** The character in a place of the alphabet. */
  function CharAt(i: nat): char
    requires i < 58
  {
    if i < 9 then ('1' as int + i) as char
    else if i < 17 then ('A' as int + i - 9) as char
    else if i < 22 then ('J' as int + i - 17) as char
    else if i < 33 then ('P' as int + i - 22) as char
    else if i < 44 then ('a' as int + i - 33) as char
    else ('m' as int + i - 44) as char
  }

  lemma AlphabetAt(i: nat)
    requires i < 58
    ensures |BASE58_ALPHABET| == 58 && BASE58_ALPHABET[i] == CharAt(i)
  {
    AlphabetSize();
    AlphabetRuns();
    PartAt("123456789", "ABCDEFGH", "JKLMN", "PQRSTUVWXYZ", "abcdefghijk", "mnopqrstuvwxyz", i);
  }

  lemma PartAt(a: string, b: string, c: string, d: string, e: string, f: string, i: nat)
    requires |a| == 9 && |b| == 8 && |c| == 5 && |d| == 11 && |e| == 11 && |f| == 14 && i < 58
    requires Run(a, '1', '9') && Run(b, 'A', 'H') && Run(c, 'J', 'N') && Run(d, 'P', 'Z') && Run(e, 'a', 'k') && Run(f, 'm', 'z')
    ensures (a + b + c + d + e + f)[i] == CharAt(i)
  {
    if i < 9 { assert a[i] as int == '1' as int + i; }
    else if i < 17 { assert b[i - 9] as int == 'A' as int + i - 9; }
    else if i < 22 { assert c[i - 17] as int == 'J' as int + i - 17; }
    else if i < 33 { assert d[i - 22] as int == 'P' as int + i - 22; }
    else if i < 44 { assert e[i - 33] as int == 'a' as int + i - 33; }
    else { assert f[i - 44] as int == 'm' as int + i - 44; }
  }

  /** Of the 256 bytes exactly four give any one character of the alphabet: i, i + 58, i + 116 and i + 174 for the
      character in place i. */
  lemma EveryCharacterHasFourBytes(i: nat)
    requires i < 58
    ensures |BASE58_ALPHABET| == 58
    ensures forall b: Byte :: Accepted([b]) == [BASE58_ALPHABET[i]] <==> b as int in BytesFor(58, i, 232)
    ensures |BytesFor(58, i, 232)| == 4 && BytesFor(58, i, 232) == {i, i + 58, i + 116, i + 174}
  {
    AlphabetSize();
    SamplingIsUnbiased(58, i);
    forall b: Byte ensures Accepted([b]) == [BASE58_ALPHABET[i]] <==> b as int in BytesFor(58, i, 232) {
      AcceptedSingle(b);
      OtherPlaceOtherChar(b as int % 58, i);
    }
    FourBytes(i);
  }

  lemma OtherPlaceOtherChar(i: nat, j: nat)
    requires i < 58 && j < 58
    ensures |BASE58_ALPHABET| == 58 && (BASE58_ALPHABET[i] == BASE58_ALPHABET[j] <==> i == j)
  {
    AlphabetAt(i);
    AlphabetAt(j);
  }

  lemma FourBytes(i: nat)
    requires i < 58
    ensures BytesFor(58, i, 232) == {i, i + 58, i + 116, i + 174}
  {
    forall b ensures b in BytesFor(58, i, 232) <==> b in {i, i + 58, i + 116, i + 174} {
    }
  }

  /** The first n blocks, one after the other. */
  function Joined(blocks: nat -> seq<Byte>, n: nat): seq<Byte> {
    if n == 0 then [] else Joined(blocks, n - 1) + blocks(n - 1)
  }

  lemma {:induction false} JoinedIsPrefix(blocks: nat -> seq<Byte>, m: nat, n: nat)
    requires m <= n
    ensures Joined(blocks, m) <= Joined(blocks, n)
    decreases n
  {
    if m < n { JoinedIsPrefix(blocks, m, n - 1); }
  }

  lemma PrefixAccepted(a: seq<Byte>, b: seq<Byte>)
    requires a <= b
    ensures Accepted(a) <= Accepted(b)
  {
    assert b == a + b[|a|..];
    AcceptedInTwo(a, b[|a|..]);
  }

  lemma OneMoreBlock(blocks: nat -> seq<Byte>, n: nat)
    ensures Accepted(Joined(blocks, n + 1)) == Accepted(Joined(blocks, n)) + Accepted(blocks(n))
  {
    AcceptedInTwo(Joined(blocks, n), blocks(n));
  }

  lemma TruncatedOfLonger(a: string, b: string)
    requires a <= b && |a| >= SUFFIX_CODE_LEN
    ensures Truncated(a) == b[..SUFFIX_CODE_LEN]
  {
  }

  /** The suffix so far, from the first n of as many blocks as may be needed. */
  ghost predicate Sampled(blocks: nat -> seq<Byte>, n: nat, enough: nat, suffix: string) {
    n <= enough && suffix == Truncated(Accepted(Joined(blocks, n)))
  }

  lemma NothingSampled(blocks: nat -> seq<Byte>)
    ensures forall enough: nat :: Sampled(blocks, 0, enough, "")
  {
  }

  lemma NextBlock(blocks: nat -> seq<Byte>, n: nat, enough: nat, suffix: string)
    requires Sampled(blocks, n, enough, suffix) && |suffix| < SUFFIX_CODE_LEN
    requires |Accepted(Joined(blocks, enough))| >= SUFFIX_CODE_LEN
    ensures n < enough && Sampled(blocks, n + 1, enough, Truncated(suffix + Accepted(blocks(n))))
  {
    OneMoreBlock(blocks, n);
  }

  lemma EnoughBlocks(blocks: nat -> seq<Byte>, n: nat, enough: nat, suffix: string)
    requires Sampled(blocks, n, enough, suffix) && |suffix| >= SUFFIX_CODE_LEN
    ensures |Accepted(Joined(blocks, enough))| >= SUFFIX_CODE_LEN
    ensures Truncated(suffix) == suffix == Accepted(Joined(blocks, enough))[..SUFFIX_CODE_LEN]
  {
    JoinedIsPrefix(blocks, n, enough);
    PrefixAccepted(Joined(blocks, n), Joined(blocks, enough));
    TruncatedOfLonger(Accepted(Joined(blocks, n)), Accepted(Joined(blocks, enough)));
  }

  /** The loop of random_base58_suffix and derived_base58_suffix: block after block until the suffix is full. If some
      finite number of blocks holds 32 accepted bytes it ends, with their first 32 characters. */
  method SampleSuffix(blocks: nat -> seq<Byte>, ghost enough: nat) returns (suffix: string)
    requires |Accepted(Joined(blocks, enough))| >= SUFFIX_CODE_LEN
    ensures suffix == Accepted(Joined(blocks, enough))[..SUFFIX_CODE_LEN]
  {
    suffix := "";
    var counter: nat := 0;
    NothingSampled(blocks);
    while |suffix| < SUFFIX_CODE_LEN
      invariant Sampled(blocks, counter, enough, suffix)
      decreases enough - counter
    {
      hide *;
      NextBlock(blocks, counter, enough, suffix);
      suffix := PushUnbiasedBase58Chars(suffix, blocks(counter));
      counter := counter + 1;
    }
    EnoughBlocks(blocks, counter, enough, suffix);
    suffix := Truncated(suffix);
  }

  /** How the byte stream is cut into blocks does not show: streams that agree as far as the shorter one goes give
      one suffix. */
  lemma BlockSizeIsInvisible(small: nat -> seq<Byte>, large: nat -> seq<Byte>, m: nat, n: nat)
    requires |Accepted(Joined(small, m))| >= SUFFIX_CODE_LEN && |Accepted(Joined(large, n))| >= SUFFIX_CODE_LEN
    requires Joined(small, m) <= Joined(large, n) || Joined(large, n) <= Joined(small, m)
    ensures Accepted(Joined(small, m))[..SUFFIX_CODE_LEN] == Accepted(Joined(large, n))[..SUFFIX_CODE_LEN]
  {
    if Joined(small, m) <= Joined(large, n) {
      PrefixAccepted(Joined(small, m), Joined(large, n));
    } else {
      PrefixAccepted(Joined(large, n), Joined(small, m));
    }
  }

  // ----- parsing -----

  function Split(s: string): (r: seq<string>)
    ensures |r| >= 1
  {
    if s == [] then [""]
    else if s[0] == ':' then [""] + Split(s[1..])
    else
      var rest := Split(s[1..]);
      [[s[0]] + rest[0]] + rest[1..]
  }

  predicate IsBase58(s: string) {
    forall i :: 0 <= i < |s| ==> s[i] in BASE58_ALPHABET
  }

  predicate ValidRoutingCode(s: string) { |s| == ROUTING_CODE_LEN && IsBase58(s) }

  predicate ValidSuffixCode(s: string) { |s| == SUFFIX_CODE_LEN && IsBase58(s) }

  /** The regex's character class [1-9A-HJ-NP-Za-km-z]. */
  predicate InClass(c: char) {
    '1' <= c <= '9' || 'A' <= c <= 'H' || 'J' <= c <= 'N' || 'P' <= c <= 'Z' || 'a' <= c <= 'k' || 'm' <= c <= 'z'
  }

  /** ^did:oan:[class]{5}:[class]{32}$ */
  predicate MatchesRegex(v: string) {
    && |v| == DID_LEN && DID_PREFIX <= v && v[13] == ':'
    && (forall i :: 8 <= i < 13 ==> InClass(v[i])) && (forall i :: 14 <= i < DID_LEN ==> InClass(v[i]))
  }

  function Parse(v: string): Result<DidOan, DidOanError> {
    if !(DID_PREFIX <= v) then Err(InvalidPrefix)
    else
      var parts := Split(v);
      if |parts| != 4 then Err(InvalidPartCount)
      else if !ValidRoutingCode(parts[2]) then Err(InvalidRoutingCode)
      else if !ValidSuffixCode(parts[3]) then Err(InvalidSuffixCode)
      else if !MatchesRegex(v) then Err(InvalidSyntax)
      else Ok(DidOan(v, parts[2], parts[3]))
  }

  predicate Run(s: string, first: char, last: char) {
    |s| == last as int - first as int + 1 && forall i :: 0 <= i < |s| ==> s[i] as int == first as int + i
  }

  lemma InRun(s: string, first: char, last: char, c: char)
    requires Run(s, first, last)
    ensures c in s <==> first <= c <= last
  {
    if first <= c <= last { assert s[c as int - first as int] == c; }
  }

  lemma AlphabetRuns()
    ensures Run("123456789", '1', '9') && Run("ABCDEFGH", 'A', 'H') && Run("JKLMN", 'J', 'N')
    ensures Run("PQRSTUVWXYZ", 'P', 'Z') && Run("abcdefghijk", 'a', 'k') && Run("mnopqrstuvwxyz", 'm', 'z')
  {
  }

  /** The regex's class is the alphabet. */
  lemma ClassIsAlphabet(c: char)
    ensures c in BASE58_ALPHABET <==> InClass(c)
  {
    AlphabetRuns();
    InRun("123456789", '1', '9', c);
    InRun("ABCDEFGH", 'A', 'H', c);
    InRun("JKLMN", 'J', 'N', c);
    InRun("PQRSTUVWXYZ", 'P', 'Z', c);
    InRun("abcdefghijk", 'a', 'k', c);
    InRun("mnopqrstuvwxyz", 'm', 'z', c);
  }

  lemma {:induction false} SplitFirst(a: string, b: string)
    requires ':' !in a
    ensures Split(a) == [a]
    ensures Split(a + ([':'] + b)) == [a] + Split(b)
  {
    if a == [] {
      assert (a + ([':'] + b))[1..] == b;
    } else {
      SplitFirst(a[1..], b);
      assert (a + ([':'] + b))[1..] == a[1..] + ([':'] + b);
      assert a == [a[0]] + a[1..];
    }
  }

  function Join(parts: seq<string>): string {
    if parts == [] then "" else if |parts| == 1 then parts[0] else parts[0] + ([':'] + Join(parts[1..]))
  }

  lemma {:induction false} JoinOfSplit(s: string)
    ensures Join(Split(s)) == s
  {
    if s != [] {
      JoinOfSplit(s[1..]);
      var rest := Split(s[1..]);
      assert s == [s[0]] + s[1..];
      if s[0] == ':' {
        assert Split(s)[1..] == rest;
      } else {
        assert Split(s)[1..] == rest[1..];
      }
    }
  }

  function Identifier(routing: string, suffix: string): string {
    DID_PREFIX + (routing + ([':'] + suffix))
  }

  lemma Base58HasNoColon(s: string)
    requires IsBase58(s)
    ensures ':' !in s
  {
    ClassIsAlphabet(':');
  }

  lemma PrefixParts(rest: string)
    ensures Split(DID_PREFIX + rest) == ["did", "oan"] + Split(rest)
  {
    hide Split;
    SplitFirst("oan", rest);
    SplitFirst("did", "oan" + ([':'] + rest));
    assert DID_PREFIX + rest == "did" + ([':'] + ("oan" + ([':'] + rest)));
  }

  lemma CodeInClass(s: string)
    requires IsBase58(s)
    ensures forall i :: 0 <= i < |s| ==> InClass(s[i])
  {
    forall i | 0 <= i < |s| ensures InClass(s[i]) { ClassIsAlphabet(s[i]); }
  }

  lemma IdentifierMatches(routing: string, suffix: string)
    requires ValidRoutingCode(routing) && ValidSuffixCode(suffix)
    ensures MatchesRegex(Identifier(routing, suffix))
  {
    CodeInClass(routing);
    CodeInClass(suffix);
    var v := Identifier(routing, suffix);
    assert |DID_PREFIX| == 8 && v[8..13] == routing && v[13] == ':' && v[14..] == suffix;
    forall i | 8 <= i < 13 ensures InClass(v[i]) { assert v[i] == routing[i - 8]; }
    forall i | 14 <= i < DID_LEN ensures InClass(v[i]) { assert v[i] == suffix[i - 14]; }
  }

  /** Two parts without a colon behind the prefix: the routing code is looked at first, then the suffix. */
  lemma ParseOfParts(routing: string, suffix: string)
    requires ':' !in routing && ':' !in suffix
    ensures Parse(Identifier(routing, suffix)) ==
              if !ValidRoutingCode(routing) then Err(InvalidRoutingCode)
              else if !ValidSuffixCode(suffix) then Err(InvalidSuffixCode)
              else Ok(DidOan(Identifier(routing, suffix), routing, suffix))
  {
    PrefixParts(routing + ([':'] + suffix));
    SplitFirst(routing, suffix);
    SplitFirst(suffix, "");
    if ValidRoutingCode(routing) && ValidSuffixCode(suffix) { IdentifierMatches(routing, suffix); }
  }

  function Colons(s: string): nat {
    if s == [] then 0 else (if s[0] == ':' then 1 else 0) + Colons(s[1..])
  }

  lemma {:induction false} PartsAreColons(s: string)
    ensures |Split(s)| == Colons(s) + 1
  {
    if s != [] { PartsAreColons(s[1..]); }
  }

  /** Before the parts are looked at, the prefix and then their number decide. */
  lemma ParseRefusesExactly(v: string)
    ensures Parse(v) == Err(InvalidPrefix) <==> !(DID_PREFIX <= v)
    ensures Parse(v) == Err(InvalidPartCount) <==> DID_PREFIX <= v && Colons(v) != 3
  {
    PartsAreColons(v);
  }

  /** What is put together from valid codes parses back to them. */
  lemma ParseOfIdentifier(routing: string, suffix: string)
    requires ValidRoutingCode(routing) && ValidSuffixCode(suffix)
    ensures Parse(Identifier(routing, suffix)) == Ok(DidOan(Identifier(routing, suffix), routing, suffix))
  {
    Base58HasNoColon(routing);
    Base58HasNoColon(suffix);
    ParseOfParts(routing, suffix);
  }

  /** Parsing accepts nothing else, and the final regex check never is what fails. */
  lemma ParseExactly(v: string)
    ensures Parse(v).Ok? <==>
              exists routing, suffix :: ValidRoutingCode(routing) && ValidSuffixCode(suffix) && v == Identifier(routing, suffix)
    ensures Parse(v).Ok? ==> v == Identifier(Parse(v).value.routingCode, Parse(v).value.suffixCode)
    ensures Parse(v) != Err(InvalidSyntax)
  {
    if DID_PREFIX <= v && |Split(v)| == 4 && ValidRoutingCode(Split(v)[2]) && ValidSuffixCode(Split(v)[3]) {
      FourParts(v);
      ParseOfIdentifier(Split(v)[2], Split(v)[3]);
    }
    forall routing, suffix | ValidRoutingCode(routing) && ValidSuffixCode(suffix) && v == Identifier(routing, suffix)
      ensures Parse(v).Ok?
    {
      ParseOfIdentifier(routing, suffix);
    }
  }

  lemma FourParts(v: string)
    requires DID_PREFIX <= v && |Split(v)| == 4
    ensures v == Identifier(Split(v)[2], Split(v)[3])
  {
    var rest := v[8..];
    assert v == DID_PREFIX + rest;
    PrefixParts(rest);
    JoinOfSplit(rest);
    assert Split(rest) == [Split(v)[2], Split(v)[3]];
    assert Split(rest)[1..] == [Split(v)[3]];
  }

  /** DidOan::generate and DidOan::derive: a valid routing code with a sampled suffix is an identifier that parses
      to its own parts. */
  method Generate(routing: string, blocks: nat -> seq<Byte>, ghost enough: nat) returns (r: Result<DidOan, DidOanError>)
    requires |Accepted(Joined(blocks, enough))| >= SUFFIX_CODE_LEN
    ensures r == if ValidRoutingCode(routing)
                 then var suffix := Accepted(Joined(blocks, enough))[..SUFFIX_CODE_LEN];
                      Ok(DidOan(Identifier(routing, suffix), routing, suffix))
                 else Err(InvalidRoutingCode)
  {
    if !ValidRoutingCode(routing) {
      return Err(InvalidRoutingCode);
    }
    var suffix := SampleSuffix(blocks, enough);
    AcceptedInAlphabet(Joined(blocks, enough));
    ParseOfIdentifier(routing, suffix);
    r := Parse(Identifier(routing, suffix));
  }
}
