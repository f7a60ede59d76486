/** The canonical JSON printer, and a reader that inverts it: equal texts come from equal values. */
module CanonicalJson {

  /** An object is its members in iteration order. Numbers are integers. */
  datatype Json =
    | Null
    | Bool(b: bool)
    | Num(n: int)
    | Str(s: string)
    | Arr(items: seq<Json>)
    | Obj(members: seq<Member>)

  datatype Member = Member(key: string, value: Json)

  // ----- printing -----

  function Digit(d: nat): char
    requires d < 10
  {
    (d + '0' as int) as char
  }

  function Digits(n: nat): string {
    if n < 10 then [Digit(n)] else Digits(n / 10) + [Digit(n % 10)]
  }

  function Decimal(n: int): string {
    if n < 0 then "-" + Digits(-n) else Digits(n)
  }

  function HexDigit(d: nat): char
    requires d < 16
  {
    if d < 10 then Digit(d) else (d - 10 + 'a' as int) as char
  }

  /** The escapes of section 7 of RFC 8259: short forms where they exist, \u00xx for the other control characters,
      everything else as it is. */
  function Escape(c: char): string {
    if c == '"' then ['\\', '"']
    else if c == '\\' then ['\\', '\\']
    else if c as int == 8 then ['\\', 'b']
    else if c as int == 12 then ['\\', 'f']
    else if c == '\n' then ['\\', 'n']
    else if c == '\r' then ['\\', 'r']
    else if c == '\t' then ['\\', 't']
    else if c as int < 32 then ['\\', 'u', '0', '0', HexDigit(c as int / 16), HexDigit(c as int % 16)]
    else [c]
  }

  function EscapeAll(s: string): string {
    if s == [] then [] else Escape(s[0]) + EscapeAll(s[1..])
  }

  function Quote(s: string): string {
    ['"'] + EscapeAll(s) + ['"']
  }

  /** canonical_json_value */
  function Print(v: Json): string
    decreases v
  {
    match v
    case Null => "null"
    case Bool(b) => if b then "true" else "false"
    case Num(n) => Decimal(n)
    case Str(s) => Quote(s)
    case Arr(items) => "[" + PrintItems(items) + "]"
    case Obj(members) => "{" + PrintMembers(members) + "}"
  }

  function PrintItems(items: seq<Json>): string
    decreases items
  {
    if items == [] then ""
    else if |items| == 1 then Print(items[0])
    else Print(items[0]) + "," + PrintItems(items[1..])
  }

  function PrintMembers(members: seq<Member>): string
    decreases members
  {
    if members == [] then ""
    else
      if |members| == 1 then PrintMember(members[0]) else PrintMember(members[0]) + "," + PrintMembers(members[1..])
  }

  function PrintMember(m: Member): string
    decreases m
  {
    Quote(m.key) + ":" + Print(m.value)
  }

  // ----- reading -----

  datatype Read<+T> = Fail | Read(value: T, rest: string)

  predicate IsDigit(c: char) { '0' <= c <= '9' }

  function ReadDigits(s: string, soFar: nat): (nat, string) {
    if s == [] || !IsDigit(s[0]) then (soFar, s)
    else ReadDigits(s[1..], soFar * 10 + (s[0] as int - '0' as int))
  }

  function HexValue(c: char): int {
    if '0' <= c <= '9' then c as int - '0' as int
    else if 'a' <= c <= 'f' then c as int - 'a' as int + 10
    else if 'A' <= c <= 'F' then c as int - 'A' as int + 10
    else -1
  }

  /** The character after a backslash and how many characters its escape takes. */
  function ReadEscape(s: string): (r: Read<char>)
    ensures r.Read? ==> |r.rest| < |s|
  {
    if s == [] then Fail
    else if s[0] == '"' || s[0] == '\\' || s[0] == '/' then Read(s[0], s[1..])
    else if s[0] == 'b' then Read(8 as char, s[1..])
    else if s[0] == 'f' then Read(12 as char, s[1..])
    else if s[0] == 'n' then Read('\n', s[1..])
    else if s[0] == 'r' then Read('\r', s[1..])
    else if s[0] == 't' then Read('\t', s[1..])
    else if s[0] == 'u' && |s| >= 5 then
      var h, i, j, k := HexValue(s[1]), HexValue(s[2]), HexValue(s[3]), HexValue(s[4]);
      if h < 0 || i < 0 || j < 0 || k < 0 then Fail
      else
        var code := h * 4096 + i * 256 + j * 16 + k;
        if 0 <= code < 0xD800 || 0xE000 <= code < 0x10000 then Read(code as char, s[5..]) else Fail
    else Fail
  }

  /** The text up to the closing quote. */
  function ReadChars(s: string): (r: Read<string>)
    ensures r.Read? ==> |r.rest| < |s|
    decreases |s|
  {
    if s == [] || s[0] as int < 32 then Fail
    else if s[0] == '"' then Read("", s[1..])
    else
      var c := if s[0] == '\\' then ReadEscape(s[1..]) else Read(s[0], s[1..]);
      if c.Fail? then Fail
      else
        var more := ReadChars(c.rest);
        if more.Fail? then Fail else Read([c.value] + more.value, more.rest)
  }

  predicate Starts(s: string, word: string) {
    |word| <= |s| && s[..|word|] == word
  }

  function ReadValue(s: string): (r: Read<Json>)
    ensures r.Read? ==> |r.rest| < |s|
    decreases |s|, 1
  {
    if s == [] then Fail
    else if s[0] == '"' then
      var t := ReadChars(s[1..]);
      if t.Fail? then Fail else Read(Str(t.value), t.rest)
    else if s[0] == '[' then
      if |s| > 1 && s[1] == ']' then Read(Arr([]), s[2..])
      else
        var items := ReadItems(s[1..]);
        if items.Fail? then Fail else Read(Arr(items.value), items.rest)
    else if s[0] == '{' then
      if |s| > 1 && s[1] == '}' then Read(Obj([]), s[2..])
      else
        var members := ReadMembers(s[1..]);
        if members.Fail? then Fail else Read(Obj(members.value), members.rest)
    else if Starts(s, "null") then Read(Null, s[4..])
    else if Starts(s, "true") then Read(Bool(true), s[4..])
    else if Starts(s, "false") then Read(Bool(false), s[5..])
    else ReadNumber(s)
  }

  function Signed(negative: bool, n: int): int {
    if negative then -n else n
  }

  /** Section 6 of RFC 8259: no digit follows a leading zero. */
  predicate LeadingZero(digits: string) {
    |digits| > 1 && digits[0] == '0' && IsDigit(digits[1])
  }

  function ReadNumber(s: string): (r: Read<Json>)
    ensures r.Read? ==> |r.rest| < |s|
  {
    var digits := if s != [] && s[0] == '-' then s[1..] else s;
    if digits == [] || !IsDigit(digits[0]) || LeadingZero(digits) then Fail
    else
      DigitsShrink(digits[1..], digits[0] as int - '0' as int);
      var (n, rest) := ReadDigits(digits, 0);
      Read(Num(Signed(s[0] == '-', n)), rest)
  }

  lemma {:induction false} DigitsShrink(s: string, soFar: nat)
    ensures |ReadDigits(s, soFar).1| <= |s|
    decreases |s|
  {
    if s != [] && IsDigit(s[0]) {
      DigitsShrink(s[1..], soFar * 10 + (s[0] as int - '0' as int));
    }
  }

  function ReadItems(s: string): (r: Read<seq<Json>>)
    ensures r.Read? ==> |r.rest| < |s|
    decreases |s|, 2
  {
    var first := ReadValue(s);
    if first.Fail? || first.rest == [] then Fail
    else if first.rest[0] == ']' then Read([first.value], first.rest[1..])
    else if first.rest[0] == ',' then
      var more := ReadItems(first.rest[1..]);
      if more.Fail? then Fail else Read([first.value] + more.value, more.rest)
    else Fail
  }

  function ReadMember(s: string): (r: Read<Member>)
    ensures r.Read? ==> |r.rest| < |s|
    decreases |s|, 2
  {
    if s == [] || s[0] != '"' then Fail
    else
      var key := ReadChars(s[1..]);
      if key.Fail? || key.rest == [] || key.rest[0] != ':' then Fail
      else
        var value := ReadValue(key.rest[1..]);
        if value.Fail? then Fail else Read(Member(key.value, value.value), value.rest)
  }

  function ReadMembers(s: string): (r: Read<seq<Member>>)
    ensures r.Read? ==> |r.rest| < |s|
    decreases |s|, 3
  {
    var first := ReadMember(s);
    if first.Fail? || first.rest == [] then Fail
    else if first.rest[0] == '}' then Read([first.value], first.rest[1..])
    else if first.rest[0] == ',' then
      var more := ReadMembers(first.rest[1..]);
      if more.Fail? then Fail else Read([first.value] + more.value, more.rest)
    else Fail
  }

  // ----- reading back what was printed -----

  predicate Delimited(rest: string) {
    rest == [] || !IsDigit(rest[0])
  }

  lemma {:induction false} DigitsReadBack(n: nat, rest: string)
    ensures Digits(n) != [] && IsDigit(Digits(n)[0])
    ensures Digits(n)[0] == '0' ==> n == 0 && |Digits(n)| == 1
    ensures ReadDigits(Digits(n) + rest, 0) == ReadDigits(rest, n)
  {
    if n < 10 {
      assert (Digits(n) + rest)[1..] == rest;
    } else {
      var d := [Digit(n % 10)];
      DigitsReadBack(n / 10, d + rest);
      assert Digits(n) + rest == Digits(n / 10) + (d + rest);
      assert (d + rest)[1..] == rest;
    }
  }

  lemma NotStarted(s: string, word: string)
    requires s != [] && word != [] && s[0] != word[0]
    ensures !Starts(s, word)
  {
    if |word| <= |s| { assert s[..|word|][0] == s[0]; }
  }

  lemma NumberIsRead(s: string)
    requires s != [] && (s[0] == '-' || IsDigit(s[0]))
    ensures ReadValue(s) == ReadNumber(s)
  {
    hide ReadNumber, ReadChars, ReadItems, ReadMembers;
    NotStarted(s, "null");
    NotStarted(s, "true");
    NotStarted(s, "false");
  }

  lemma NumberReadsBack(n: int, rest: string)
    requires Delimited(rest)
    ensures ReadValue(Decimal(n) + rest) == Read(Num(n), rest)
  {
    hide Digits, ReadValue;
    var s := Decimal(n) + rest;
    if n < 0 {
      DigitsReadBack(-n, rest);
      assert s[1..] == Digits(-n) + rest;
    } else {
      DigitsReadBack(n, rest);
    }
    NumberIsRead(s);
  }

  lemma EscapeReadsBack(c: char, rest: string)
    ensures var s := Escape(c) + rest;
            && s[0] as int >= 32 && s[0] != '"'
            && (if s[0] == '\\' then ReadEscape(s[1..]) else Read(s[0], s[1..])) == Read(c, rest)
  {
    var s := Escape(c) + rest;
    if c as int < 32 && s[1] == 'u' {
      assert s[1..][5..] == rest;
      assert HexValue(s[1..][3]) == c as int / 16 && HexValue(s[1..][4]) == c as int % 16;
    } else if s[0] == '\\' {
      assert s[1..][1..] == rest;
    } else {
      assert s[1..] == rest;
    }
  }

  lemma OneCharReadsBack(c: char, s: string, more: string, rest: string)
    requires ReadChars(more) == Read(s, rest)
    ensures ReadChars(Escape(c) + more) == Read([c] + s, rest)
  {
    EscapeReadsBack(c, more);
  }

  lemma EscapeFirst(s: string, tail: string)
    requires s != []
    ensures EscapeAll(s) + tail == Escape(s[0]) + (EscapeAll(s[1..]) + tail)
  {
  }

  lemma {:induction false} CharsReadBack(s: string, rest: string)
    ensures ReadChars(EscapeAll(s) + (['"'] + rest)) == Read(s, rest)
  {
    var tail := ['"'] + rest;
    if s == [] {
      assert EscapeAll(s) + tail == tail && tail[1..] == rest;
    } else {
      var more := EscapeAll(s[1..]) + tail;
      CharsReadBack(s[1..], rest);
      OneCharReadsBack(s[0], s[1..], more, rest);
      EscapeFirst(s, tail);
      assert s == [s[0]] + s[1..];
    }
  }

  lemma QuoteReadsBack(s: string, rest: string)
    ensures Quote(s) + rest == ['"'] + (EscapeAll(s) + (['"'] + rest))
    ensures ReadChars((Quote(s) + rest)[1..]) == Read(s, rest)
  {
    assert Quote(s) + rest == ['"'] + (EscapeAll(s) + (['"'] + rest));
    assert (Quote(s) + rest)[1..] == EscapeAll(s) + (['"'] + rest);
    CharsReadBack(s, rest);
  }

  lemma KeyReadsBack(key: string, after: string)
    ensures var s := Quote(key) + ([':'] + after);
            && s != [] && s[0] == '"'
            && ReadChars(s[1..]) == Read(key, [':'] + after) && ([':'] + after)[1..] == after
  {
    QuoteReadsBack(key, [':'] + after);
  }

  lemma PrintStarts(v: Json)
    ensures Print(v) != [] && Print(v)[0] !in "]},:"
  {
    if v.Num? {
      if v.n < 0 { DigitsReadBack(-v.n, ""); } else { DigitsReadBack(v.n, ""); }
    }
  }

  lemma WordReadsBack(v: Json, rest: string)
    requires v.Null? || v.Bool?
    ensures ReadValue(Print(v) + rest) == Read(v, rest)
  {
    var s := Print(v) + rest;
    match v
    case Null => assert s[..4] == "null" && s[4..] == rest;
    case Bool(b) =>
      if b { assert s[..4] == "true" && s[4..] == rest; }
      else { assert s[..4][0] == 'f' && s[..5] == "false" && s[5..] == rest; }
  }

  lemma StringReadsBack(t: string, rest: string)
    ensures ReadValue(Quote(t) + rest) == Read(Str(t), rest)
  {
    QuoteReadsBack(t, rest);
  }

  lemma ReadArray(s: string)
    requires |s| > 1 && s[0] == '['
    ensures s[1] == ']' ==> ReadValue(s) == Read(Arr([]), s[2..])
    ensures s[1] != ']' && ReadItems(s[1..]).Read? ==>
              ReadValue(s) == Read(Arr(ReadItems(s[1..]).value), ReadItems(s[1..]).rest)
  {
  }

  lemma ReadObject(s: string)
    requires |s| > 1 && s[0] == '{'
    ensures s[1] == '}' ==> ReadValue(s) == Read(Obj([]), s[2..])
    ensures s[1] != '}' && ReadMembers(s[1..]).Read? ==>
              ReadValue(s) == Read(Obj(ReadMembers(s[1..]).value), ReadMembers(s[1..]).rest)
  {
  }

  lemma Bracketed(open: string, inner: string, close: string, rest: string)
    requires |open| == 1 && |close| == 1
    ensures var s := open + inner + close + rest;
            |s| > 1 && s[0] == open[0] && s[1..] == inner + (close + rest)
            && (inner == "" ==> s[1] == close[0] && s[2..] == rest)
            && (inner != "" ==> s[1] == inner[0])
  {
  }

  lemma ArrayReadsBack(inner: string, items: seq<Json>, rest: string)
    requires if items == [] then inner == ""
             else inner != [] && inner[0] != ']' && ReadItems(inner + ("]" + rest)) == Read(items, rest)
    ensures ReadValue("[" + inner + "]" + rest) == Read(Arr(items), rest)
  {
    Bracketed("[", inner, "]", rest);
    ReadArray("[" + inner + "]" + rest);
  }

  lemma ObjectReadsBack(inner: string, members: seq<Member>, rest: string)
    requires if members == [] then inner == ""
             else inner != [] && inner[0] != '}' && ReadMembers(inner + ("}" + rest)) == Read(members, rest)
    ensures ReadValue("{" + inner + "}" + rest) == Read(Obj(members), rest)
  {
    Bracketed("{", inner, "}", rest);
    ReadObject("{" + inner + "}" + rest);
  }

  /** A value printed in front of anything that does not go on with a digit reads back as itself, leaving just that. */
  lemma {:induction false} ReadsBack(v: Json, rest: string)
    requires Delimited(rest)
    ensures ReadValue(Print(v) + rest) == Read(v, rest)
    decreases v, 1
  {
    match v
    case Null => WordReadsBack(v, rest);
    case Bool(_) => WordReadsBack(v, rest);
    case Num(n) => NumberReadsBack(n, rest);
    case Str(t) => StringReadsBack(t, rest);
    case Arr(items) =>
      if items != [] { ItemsReadBack(items, rest); }
      ArrayReadsBack(PrintItems(items), items, rest);
    case Obj(members) =>
      if members != [] { MembersReadBack(members, rest); }
      ObjectReadsBack(PrintMembers(members), members, rest);
  }

  lemma {:induction false} ItemsReadBack(items: seq<Json>, rest: string)
    requires items != []
    ensures PrintItems(items) != [] && PrintItems(items)[0] != ']'
    ensures ReadItems(PrintItems(items) + ("]" + rest)) == Read(items, rest)
    decreases items, 0
  {
    hide Print, ReadValue;
    PrintStarts(items[0]);
    var s := PrintItems(items) + ("]" + rest);
    if |items| == 1 {
      ReadsBack(items[0], "]" + rest);
      assert ("]" + rest)[1..] == rest && items == [items[0]];
    } else {
      var after := PrintItems(items[1..]) + ("]" + rest);
      assert s == Print(items[0]) + ("," + after);
      ReadsBack(items[0], "," + after);
      assert ("," + after)[1..] == after;
      ItemsReadBack(items[1..], rest);
      assert items == [items[0]] + items[1..];
    }
  }

  lemma MemberFromParts(m: Member, value: string, rest: string)
    requires ReadValue(value + rest) == Read(m.value, rest)
    ensures ReadMember(Quote(m.key) + ":" + value + rest) == Read(m, rest)
  {
    hide ReadChars, ReadValue, EscapeAll;
    KeyReadsBack(m.key, value + rest);
    assert Quote(m.key) + ":" + value + rest == Quote(m.key) + ([':'] + (value + rest));
  }

  lemma {:induction false} MemberReadsBack(m: Member, rest: string)
    requires Delimited(rest)
    ensures PrintMember(m) != [] && PrintMember(m)[0] == '"'
    ensures ReadMember(PrintMember(m) + rest) == Read(m, rest)
    decreases m, 0
  {
    ReadsBack(m.value, rest);
    MemberFromParts(m, Print(m.value), rest);
  }

  lemma {:induction false} MembersReadBack(members: seq<Member>, rest: string)
    requires members != []
    ensures PrintMembers(members) != [] && PrintMembers(members)[0] != '}'
    ensures ReadMembers(PrintMembers(members) + ("}" + rest)) == Read(members, rest)
    decreases members, 0
  {
    hide PrintMember, ReadMember, Print;
    if |members| == 1 {
      MemberReadsBack(members[0], "}" + rest);
      assert ("}" + rest)[1..] == rest && members == [members[0]];
    } else {
      MembersReadBack(members[1..], rest);
      var after := PrintMembers(members[1..]) + ("}" + rest);
      MemberReadsBack(members[0], "," + after);
      assert ("," + after)[1..] == after;
      PrintedMembers(members, rest);
      assert members == [members[0]] + members[1..];
    }
  }

  lemma Regrouped(a: string, b: string, c: string)
    ensures a + "," + b + c == a + ("," + (b + c))
  {
  }

  lemma PrintedMembers(members: seq<Member>, rest: string)
    requires |members| > 1
    ensures PrintMembers(members) + ("}" + rest)
            == PrintMember(members[0]) + ("," + (PrintMembers(members[1..]) + ("}" + rest)))
  {
    hide PrintMember;
    Regrouped(PrintMember(members[0]), PrintMembers(members[1..]), "}" + rest);
  }

  // ----- the canonical text is a shortest one -----

  lemma {:induction false} DigitsGrow(n: nat, d: nat)
    requires d < 10
    ensures |Digits(n * 10 + d)| == if n == 0 then 1 else |Digits(n)| + 1
  {
    if n > 0 { assert (n * 10 + d) / 10 == n; }
  }

  lemma {:induction false} DigitsAreShortest(s: string, soFar: nat)
    ensures var (n, rest) := ReadDigits(s, soFar);
            && |rest| <= |s|
            && |Digits(n)| + |rest| <= |s| + (if soFar == 0 && |rest| < |s| then 0 else |Digits(soFar)|)
    decreases |s|
  {
    if s != [] && IsDigit(s[0]) {
      var d := s[0] as int - '0' as int;
      DigitsGrow(soFar, d);
      DigitsAreShortest(s[1..], soFar * 10 + d);
    }
  }

  lemma NumberIsShortest(s: string)
    requires ReadNumber(s).Read?
    ensures |Print(ReadNumber(s).value)| + |ReadNumber(s).rest| <= |s|
  {
    var digits := if s[0] == '-' then s[1..] else s;
    DigitsAreShortest(digits, 0);
    DigitsTaken(digits);
  }

  lemma DigitsTaken(digits: string)
    requires digits != [] && IsDigit(digits[0])
    ensures |ReadDigits(digits, 0).1| < |digits|
  {
    DigitsShrink(digits[1..], digits[0] as int - '0' as int);
  }

  lemma EscapeIsShortest(s: string)
    requires ReadEscape(s).Read?
    ensures |Escape(ReadEscape(s).value)| + |ReadEscape(s).rest| <= |s| + 1
  {
  }

  lemma {:induction false} CharsAreShortest(s: string)
    requires ReadChars(s).Read?
    ensures |EscapeAll(ReadChars(s).value)| + 1 + |ReadChars(s).rest| <= |s|
    decreases |s|
  {
    if s[0] != '"' {
      if s[0] == '\\' {
        EscapeIsShortest(s[1..]);
        OneCharAtATime(s, ReadEscape(s[1..]).value, ReadEscape(s[1..]).rest);
        CharsAreShortest(ReadEscape(s[1..]).rest);
      } else {
        OneCharAtATime(s, s[0], s[1..]);
        CharsAreShortest(s[1..]);
      }
    }
  }

  lemma OneCharAtATime(s: string, c: char, rest: string)
    requires ReadChars(s).Read? && s[0] != '"'
    requires (if s[0] == '\\' then ReadEscape(s[1..]) else Read(s[0], s[1..])) == Read(c, rest)
    ensures ReadChars(rest).Read? && ReadChars(s).rest == ReadChars(rest).rest
    ensures EscapeAll(ReadChars(s).value) == Escape(c) + EscapeAll(ReadChars(rest).value)
  {
    assert ([c] + ReadChars(rest).value)[1..] == ReadChars(rest).value;
  }

  /** Whatever text reads as a value, the canonical text of that value is no longer. */
  lemma {:induction false} PrintIsShortest(s: string)
    requires ReadValue(s).Read?
    ensures |Print(ReadValue(s).value)| + |ReadValue(s).rest| <= |s|
    decreases |s|, 1
  {
    if s[0] == '"' {
      CharsAreShortest(s[1..]);
    } else if s[0] == '[' && s[1] != ']' {
      ItemsAreShortest(s[1..]);
    } else if s[0] == '{' && s[1] != '}' {
      MembersAreShortest(s[1..]);
    } else if s[0] != '[' && s[0] != '{' && !Starts(s, "null") && !Starts(s, "true") && !Starts(s, "false") {
      NumberIsShortest(s);
    }
  }

  lemma {:induction false} ItemsAreShortest(s: string)
    requires ReadItems(s).Read?
    ensures ReadItems(s).value != [] && |PrintItems(ReadItems(s).value)| + 1 + |ReadItems(s).rest| <= |s|
    decreases |s|, 2
  {
    var first := ReadValue(s);
    PrintIsShortest(s);
    hide Print, ReadValue;
    if first.rest[0] == ',' {
      ItemsAreShortest(first.rest[1..]);
      var more := ReadItems(first.rest[1..]).value;
      assert ([first.value] + more)[1..] == more;
    }
  }

  lemma {:induction false} MemberIsShortest(s: string)
    requires ReadMember(s).Read?
    ensures |PrintMember(ReadMember(s).value)| + |ReadMember(s).rest| <= |s|
    decreases |s|, 2
  {
    CharsAreShortest(s[1..]);
    PrintIsShortest(ReadChars(s[1..]).rest[1..]);
    hide Print, ReadValue, ReadChars, EscapeAll;
  }

  lemma {:induction false} MembersAreShortest(s: string)
    requires ReadMembers(s).Read?
    ensures ReadMembers(s).value != [] && |PrintMembers(ReadMembers(s).value)| + 1 + |ReadMembers(s).rest| <= |s|
    decreases |s|, 3
  {
    var first := ReadMember(s);
    MemberIsShortest(s);
    hide PrintMember, ReadMember;
    if first.rest[0] == ',' {
      MembersAreShortest(first.rest[1..]);
      var more := ReadMembers(first.rest[1..]).value;
      assert ([first.value] + more)[1..] == more;
    }
  }

  /** Where two spellings are equally short, of the hex digits in a control character's escape, it is lower case. */
  lemma ControlEscapes(c: char)
    requires c as int < 32 && Escape(c)[1] == 'u'
    ensures Escape(c) == "\\u00" + ["0123456789abcdef"[c as int / 16], "0123456789abcdef"[c as int % 16]]
  {
  }

  /** Equal canonical texts come from equal values. */
  lemma PrintIsInjective(v: Json, w: Json)
    requires Print(v) == Print(w)
    ensures v == w
  {
    ReadsBack(v, "");
    ReadsBack(w, "");
  }
}
