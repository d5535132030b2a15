/**
  The round trip of src/cJSON.c: parsing what was printed, formatted or not, gives the same
  tree back and consumes all of the text.
 */
module JsonRoundTrip {
  import opened Json
  import opened Slices

  // ----- Printed texts are C strings ------------------------------------------------

  predicate NulFree(s: string) {
    '\0' !in s
  }

  lemma {:induction false} DecimalIsSolid(n: nat)
    ensures |Decimal(n)| > 0 && NulFree(Decimal(n))
    ensures IsDigit(Decimal(n)[0])
    ensures n > 0 ==> '1' <= Decimal(n)[0]
  {
    if n >= 10 {
      DecimalIsSolid(n / 10);
    }
  }

  lemma {:induction false} EscapedIsNulFree(s: string)
    requires NulFree(s)
    ensures NulFree(Escaped(s))
  {
    if s != "" {
      EscapedIsNulFree(s[1..]);
    }
  }

  lemma {:induction false} PrintIsText(t: Json, depth: nat, fmt: bool)
    requires Printable(t)
    ensures NulFree(Print(t, depth, fmt))
    ensures |Print(t, depth, fmt)| > 0 && Print(t, depth, fmt)[0] > ' ' && Print(t, depth, fmt)[0] != ']'
    decreases t, 0
  {
    hide Decimal, Escaped, PrintItems, PrintMembers;
    match t
    case Number(n, _) => DecimalIsSolid(if n < 0 then -n else n);
    case Str(s) => EscapedIsNulFree(s);
    case Array(items) => ItemsAreText(items, depth + 1, fmt);
    case Object(members) => MembersAreText(members, depth + 1, fmt);
    case _ =>
  }

  lemma {:induction false} ItemsAreText(items: seq<Json>, depth: nat, fmt: bool)
    requires PrintableItems(items)
    ensures NulFree(PrintItems(items, depth, fmt))
    decreases items, 1
  {
    if items != [] {
      PrintIsText(items[0], depth, fmt);
      ItemsAreText(items[1..], depth, fmt);
    }
  }

  lemma {:induction false} MembersAreText(members: seq<Member>, depth: nat, fmt: bool)
    requires PrintableMembers(members)
    ensures NulFree(PrintMembers(members, depth, fmt))
    decreases members, 1
  {
    if members != [] {
      EscapedIsNulFree(members[0].name);
      PrintIsText(members[0].value, depth, fmt);
      MembersAreText(members[1..], depth, fmt);
    }
  }

  // ----- White space ------------------------------------------------------------------

  predicate Blank(w: string) {
    forall k :: 0 <= k < |w| ==> w[k] <= ' '
  }

  lemma {:induction false} SkipOver(s: CString, i: nat, w: string)
    requires At(s, i, w) && Blank(w)
    ensures i + |w| <= |s| && Skip(s, i) == Skip(s, i + |w|)
    decreases |w|
  {
    AtBound(s, i, w);
    if w != "" {
      assert w == [w[0]] + w[1..];
      AtSplit(s, i, [w[0]], w[1..]);
      AtOne(s, i, w[0]);
      SkipOver(s, i + 1, w[1..]);
    }
  }

  lemma SkipStays(s: CString, i: nat)
    requires i < |s| && s[i] > ' '
    ensures Skip(s, i) == i
  {
  }

  /** Blanks are skipped up to a character that is none. */
  lemma SkipTo(s: CString, i: nat, w: string, next: string)
    requires At(s, i, w) && Blank(w) && At(s, i + |w|, next)
    requires |next| > 0 && next[0] > ' '
    ensures i + |w| < |s| && s[i + |w|] == next[0]
    ensures Skip(s, i) == i + |w|
  {
    SkipOver(s, i, w);
    AtIndex(s, i + |w|, next, 0);
  }

  // ----- Numbers ------------------------------------------------------------------------

  /** What may follow a number without being read as part of it. */
  predicate EndsNumber(s: CString, i: nat) {
    var c := At0(s, i);
    !IsDigit(c) && c != '.' && c != 'e' && c != 'E'
  }

  lemma {:induction false} DigitsOfDecimal(s: CString, i: nat, m: nat, n: nat) returns (k: nat)
    requires At(s, i, Decimal(m))
    ensures i + |Decimal(m)| <= |s|
    ensures Digits(s, i, n) == Digits(s, i + |Decimal(m)|, k)
    ensures n == 0 ==> k == m
  {
    hide At;
    AtBound(s, i, Decimal(m));
    if m < 10 {
      AtOne(s, i, Digit(m));
      k := n * 10 + m;
    } else {
      AtSplit(s, i, Decimal(m / 10), [Digit(m % 10)]);
      k := DigitsOfDecimal(s, i, m / 10, n);
      AtOne(s, i + |Decimal(m / 10)|, Digit(m % 10));
      k := k * 10 + m % 10;
    }
  }

  lemma ParseInteger(s: CString, i: nat, n: int)
    requires At(s, i, Integer(n)) && EndsNumber(s, i + |Integer(n)|)
    ensures i + |Integer(n)| <= |s|
    ensures ParseNumber(s, i) == Parsed(Number(n, 0), i + |Integer(n)|)
    ensures At0(s, i) == '-' || IsDigit(At0(s, i))
  {
    hide At, Decimal, Digits, ParseExponent;
    var m := if n < 0 then -n else n;
    var i1 := if n < 0 then i + 1 else i;
    DecimalIsSolid(m);
    if n < 0 {
      AtSplit(s, i, "-", Decimal(m));
      AtOne(s, i, '-');
    }
    AtIndex(s, i1, Decimal(m), 0);
    var j := i1 + |Decimal(m)|;
    var k := DigitsOfDecimal(s, i1, m, 0);
    NoDigits(s, j, k);
    NoExponent(s, j);
    if m == 0 {
      ZeroIsOneDigit();
    }
  }

  lemma NoExponent(s: CString, j: nat)
    requires j <= |s| && EndsNumber(s, j)
    ensures ParseExponent(s, j) == (0, j)
  {
  }

  lemma NoDigits(s: CString, j: nat, n: int)
    requires j <= |s| && EndsNumber(s, j)
    ensures Digits(s, j, n) == (n, j)
  {
  }

  lemma ZeroIsOneDigit()
    ensures Decimal(0) == "0"
  {
  }

  // ----- Strings ------------------------------------------------------------------------

  lemma EscapeIsUndone(s: CString, i: nat, c: char)
    requires c != '\0' && At(s, i, Escape(c))
    ensures i + |Escape(c)| <= |s|
    ensures s[i] != '"' && (s[i] != '\\' ==> Escape(c) == [c] && s[i] == c)
    ensures s[i] == '\\' ==> Unescape(s, i + 1) == ([c], i + |Escape(c)|)
  {
    hide At, Hex4;
    var e := Escape(c);
    AtBound(s, i, e);
    AtIndex(s, i, e, 0);
    if |e| > 1 {
      AtIndex(s, i, e, 1);
    }
    if |e| == 6 {
      HexOfControl(s, i, c);
    }
  }

  lemma HexOfControl(s: CString, i: nat, c: char)
    requires 0 < c as int < 32 && At(s, i, "\\u00" + [Hex(c as int / 16), Hex(c as int % 16)])
    ensures Hex4(s, i + 2) == c as int
  {
    hide At;
    var e := "\\u00" + [Hex(c as int / 16), Hex(c as int % 16)];
    AtIndex(s, i, e, 2);
    AtIndex(s, i, e, 3);
    AtIndex(s, i, e, 4);
    AtIndex(s, i, e, 5);
  }

  lemma {:induction false} StringBodyOfEscaped(s: CString, i: nat, str: string)
    requires NulFree(str) && At(s, i, Escaped(str)) && At0(s, i + |Escaped(str)|) == '"'
    ensures i + |Escaped(str)| <= |s|
    ensures StringBody(s, i) == Parsed(str, i + |Escaped(str)|)
    decreases |str|
  {
    hide At, Unescape, Escape;
    AtBound(s, i, Escaped(str));
    if str != "" {
      var c := str[0];
      AtSplit(s, i, Escape(c), Escaped(str[1..]));
      EscapeIsUndone(s, i, c);
      StringBodyOfEscaped(s, i + |Escape(c)|, str[1..]);
      assert str == [c] + str[1..];
    }
  }

  lemma ParseQuoted(s: CString, i: nat, str: string)
    requires NulFree(str) && At(s, i, Quoted(str))
    ensures i + |Quoted(str)| <= |s|
    ensures ParseString(s, i) == Parsed(str, i + |Quoted(str)|)
    ensures At0(s, i) == '"'
  {
    hide At, Escaped, StringBody;
    AtBound(s, i, Quoted(str));
    AtSplit3(s, i, "\"", Escaped(str), "\"");
    AtOne(s, i, '"');
    AtOne(s, i + 1 + |Escaped(str)|, '"');
    StringBodyOfEscaped(s, i + 1, str);
  }

  // ----- Values -------------------------------------------------------------------------

  lemma ParseWord(s: CString, i: nat, t: Json)
    requires t.Null? || t.False? || t.True?
    requires At(s, i, Print(t, 0, false))
    ensures ParseValue(s, i) == Parsed(t, i + |Print(t, 0, false)|)
  {
    hide ParseValue;
    Dispatch(s, i);
  }

  lemma {:induction false} ParseBracket(s: CString, i: nat)
    requires i < |s| && s[i] == '['
    ensures ParseValue(s, i) ==
            var j := Skip(s, i + 1);
            if At0(s, j) == ']' then Parsed(Array([]), j + 1)
            else
              var r := ParseItems(s, j);
              if r.Parsed? then Parsed(Array(r.value), r.pos) else if r.Failed? then Failed else Overread
  {
    hide Skip, ParseItems, ParseValue;
    Dispatch(s, i);
  }

  lemma {:induction false} ParseBrace(s: CString, i: nat)
    requires i < |s| && s[i] == '{'
    ensures ParseValue(s, i) ==
            var j := Skip(s, i + 1);
            if At0(s, j) == '}' then Parsed(Object([]), j + 1)
            else
              var r := ParseMembers(s, j);
              if r.Parsed? then Parsed(Object(r.value), r.pos) else if r.Failed? then Failed else Overread
  {
    hide Skip, ParseMembers, ParseValue;
    Dispatch(s, i);
  }

  lemma ParseItemsStep(s: CString, i: nat, v: Json, p: nat)
    requires i <= |s| && ParseValue(s, i) == Parsed(v, p)
    ensures i < p <= |s|
    ensures
      var j := Skip(s, p);
      && (At0(s, j) == ']' ==> ParseItems(s, i) == Parsed([v], j + 1))
      && (At0(s, j) == ',' ==>
            var rest := ParseItems(s, Skip(s, j + 1));
            ParseItems(s, i) == if rest.Parsed? then Parsed([v] + rest.value, rest.pos) else rest)
  {
    hide ParseValue, Skip;
  }

  lemma ParseMembersStep(s: CString, i: nat, m: Member, p: nat)
    requires i <= |s| && ParseMember(s, i) == Parsed(m, p)
    ensures i < p <= |s|
    ensures
      var j := Skip(s, p);
      && (At0(s, j) == '}' ==> ParseMembers(s, i) == Parsed([m], j + 1))
      && (At0(s, j) == ',' ==>
            var rest := ParseMembers(s, Skip(s, j + 1));
            ParseMembers(s, i) == if rest.Parsed? then Parsed([m] + rest.value, rest.pos) else rest)
  {
    hide ParseMember, Skip;
  }

  lemma ParseMemberStep(s: CString, i: nat, name: string, p: nat)
    requires i <= |s| && ParseString(s, i) == Parsed(name, p)
    ensures i < p <= |s|
    ensures
      var j := Skip(s, p);
      At0(s, j) == ':' ==>
        var r := ParseValue(s, Skip(s, j + 1));
        r.Parsed? ==> ParseMember(s, i) == Parsed(Member(name, r.value), r.pos)
  {
    hide ParseString, ParseValue, Skip;
  }

  lemma {:induction false} ParsePrinted(t: Json, depth: nat, fmt: bool, s: CString, i: nat)
    requires Printable(t) && At(s, i, Print(t, depth, fmt))
    requires EndsNumber(s, i + |Print(t, depth, fmt)|)
    ensures i + |Print(t, depth, fmt)| <= |s|
    ensures ParseValue(s, i) == Parsed(t, i + |Print(t, depth, fmt)|)
    decreases t, 0
  {
    hide At, Quoted, Skip, ParseValue, ParseNumber, ParseString, Integer;
    AtBound(s, i, Print(t, depth, fmt));
    match t
    case Null => ParseWord(s, i, t);
    case False => ParseWord(s, i, t);
    case True => ParseWord(s, i, t);
    case Number(n, _) =>
      ParseInteger(s, i, n);
      Dispatch(s, i);
    case Str(str) =>
      ParseQuoted(s, i, str);
      Dispatch(s, i);
    case Array(items) =>
      ParsePrintedArray(items, depth, fmt, s, i);
    case Object(members) =>
      ParsePrintedObject(members, depth, fmt, s, i);
  }

  /** The text goes on, after blanks, with the given bracket. */
  predicate ClosesWith(s: CString, k: nat, bracket: char) {
    k <= |s| && At0(s, Skip(s, k)) == bracket
  }

  lemma ClosingEndsNumber(s: CString, k: nat, bracket: char)
    requires ClosesWith(s, k, bracket) && (bracket == ']' || bracket == '}')
    ensures k < |s| && EndsNumber(s, k)
  {
  }

  lemma {:induction false} ParsePrintedArray(items: seq<Json>, depth: nat, fmt: bool, s: CString, i: nat)
    requires PrintableItems(items) && At(s, i, Print(Array(items), depth, fmt))
    ensures ParseValue(s, i) == Parsed(Array(items), i + |Print(Array(items), depth, fmt)|)
    decreases items, 2
  {
    hide *;
    ParseBracketAt(items, depth, fmt, s, i);
    if items != [] {
      ParsePrintedItems(items, depth + 1, fmt, s, i + 1);
    }
  }

  /** The brackets of a printed array are found. */
  lemma ParseBracketAt(items: seq<Json>, depth: nat, fmt: bool, s: CString, i: nat)
    requires PrintableItems(items) && At(s, i, Print(Array(items), depth, fmt))
    ensures
      var text := PrintItems(items, depth + 1, fmt);
      var k := i + 1 + |text|;
      && At(s, i + 1, text) && ClosesWith(s, k, ']') && Skip(s, k) == k
      && |Print(Array(items), depth, fmt)| == |text| + 2
      && (items == [] ==> ParseValue(s, i) == Parsed(Array([]), k + 1))
      && (items != [] ==>
            var r := ParseItems(s, i + 1);
            r.Parsed? ==> ParseValue(s, i) == Parsed(Array(r.value), r.pos))
  {
    hide PrintableItems, At, Skip, ParseValue, ParseItems, Print, PrintItems;
    var text := PrintItems(items, depth + 1, fmt);
    ArrayText(items, depth, fmt);
    BracketParts(s, i, text);
    ParseBracket(s, i);
  }

  lemma ArrayText(items: seq<Json>, depth: nat, fmt: bool)
    requires PrintableItems(items)
    ensures
      var text := PrintItems(items, depth + 1, fmt);
      && Print(Array(items), depth, fmt) == "[" + text + "]"
      && (items == [] ==> text == "")
      && (items != [] ==> |text| > 0 && text[0] > ' ' && text[0] != ']')
  {
    if items != [] {
      FirstItem(items, depth + 1, fmt);
    }
  }

  lemma BracketParts(s: CString, i: nat, text: string)
    requires At(s, i, "[" + text + "]") && (text != "" ==> text[0] > ' ' && text[0] != ']')
    ensures
      var k := i + 1 + |text|;
      && k < |s| && s[i] == '[' && At(s, i + 1, text) && s[k] == ']' && Skip(s, k) == k
      && Skip(s, i + 1) == i + 1 && (text != "" ==> s[i + 1] != ']')
  {
    hide At, Skip;
    AtParts3(s, i, "[", text, "]");
    AtOne(s, i, '[');
    AtOne(s, i + 1 + |text|, ']');
    SkipStays(s, i + 1 + |text|);
    if text != "" {
      AtIndex(s, i + 1, text, 0);
    }
    SkipStays(s, i + 1);
  }

  lemma FirstItem(items: seq<Json>, depth: nat, fmt: bool)
    requires PrintableItems(items) && items != []
    ensures |PrintItems(items, depth, fmt)| > 0
    ensures PrintItems(items, depth, fmt)[0] > ' ' && PrintItems(items, depth, fmt)[0] != ']'
  {
    hide Print, Printable;
    PrintIsText(items[0], depth, fmt);
  }

  lemma FirstPrintable(items: seq<Json>)
    requires PrintableItems(items) && items != []
    ensures Printable(items[0]) && PrintableItems(items[1..])
  {
  }

  lemma {:induction false} ParsePrintedItems(items: seq<Json>, depth: nat, fmt: bool, s: CString, i: nat)
    requires PrintableItems(items) && items != [] && At(s, i, PrintItems(items, depth, fmt))
    requires ClosesWith(s, i + |PrintItems(items, depth, fmt)|, ']')
    ensures ParseItems(s, i) == Parsed(items, Skip(s, i + |PrintItems(items, depth, fmt)|) + 1)
    decreases items, 1
  {
    hide *;
    FirstPrintable(items);
    ItemsLayout(items, depth, fmt, s, i);
    var j := i + |Print(items[0], depth, fmt)|;
    ParsePrinted(items[0], depth, fmt, s, i);
    ParseItemsStep(s, i, items[0], j);
    assert items == [items[0]] + items[1..] && (|items| == 1 ==> items == [items[0]]);
    if |items| > 1 {
      ParsePrintedItems(items[1..], depth, fmt, s, j + |Separator(false, fmt)|);
    }
  }

  /** Where the first item, its comma and the other items are. */
  lemma ItemsLayout(items: seq<Json>, depth: nat, fmt: bool, s: CString, i: nat)
    requires PrintableItems(items) && items != [] && At(s, i, PrintItems(items, depth, fmt))
    requires ClosesWith(s, i + |PrintItems(items, depth, fmt)|, ']')
    ensures At(s, i, Print(items[0], depth, fmt))
    ensures
      var j := i + |Print(items[0], depth, fmt)|;
      && j < |s| && EndsNumber(s, j)
      && (|items| == 1 ==>
            At0(s, Skip(s, j)) == ']' && |PrintItems(items, depth, fmt)| == |Print(items[0], depth, fmt)|)
      && (|items| > 1 ==>
            var sep, rest := Separator(false, fmt), PrintItems(items[1..], depth, fmt);
            && At0(s, Skip(s, j)) == ',' && Skip(s, Skip(s, j) + 1) == j + |sep| && At(s, j + |sep|, rest)
            && |PrintItems(items, depth, fmt)| == |Print(items[0], depth, fmt)| + |sep| + |rest|)
  {
    hide *;
    FirstPrintable(items);
    ItemsText(items, depth, fmt);
    var first := Print(items[0], depth, fmt);
    var sep := Separator(|items| == 1, fmt);
    var rest := PrintItems(items[1..], depth, fmt);
    var j := i + |first|;
    AtParts3(s, i, first, sep, rest);
    if |items| == 1 {
      ClosingEndsNumber(s, j, ']');
      ClosingIsThere(s, j, ']');
    } else {
      CommaAt(s, j, sep, rest, fmt);
    }
  }

  lemma ItemsText(items: seq<Json>, depth: nat, fmt: bool)
    requires PrintableItems(items) && items != []
    ensures Printable(items[0]) && PrintableItems(items[1..])
    ensures
      var sep, rest := Separator(|items| == 1, fmt), PrintItems(items[1..], depth, fmt);
      && PrintItems(items, depth, fmt) == Print(items[0], depth, fmt) + sep + rest
      && (|items| == 1 ==> sep == "" && rest == "")
      && (|items| > 1 ==> |rest| > 0 && rest[0] > ' ')
  {
    hide Print, Printable;
    if |items| > 1 {
      FirstItem(items[1..], depth, fmt);
    }
  }

  lemma ClosingIsThere(s: CString, k: nat, bracket: char)
    requires ClosesWith(s, k, bracket)
    ensures k <= |s| && At0(s, Skip(s, k)) == bracket
  {
  }

  lemma CommaAt(s: CString, j: nat, sep: string, rest: string, fmt: bool)
    requires sep == Separator(false, fmt) && At(s, j, sep) && At(s, j + |sep|, rest)
    requires |rest| > 0 && rest[0] > ' '
    ensures j < |s| && EndsNumber(s, j) && At0(s, Skip(s, j)) == ','
    ensures Skip(s, Skip(s, j) + 1) == j + |sep|
  {
    hide At, Skip;
    assert sep == "," + sep[1..];
    AtParts(s, j, ",", sep[1..]);
    AtOne(s, j, ',');
    SkipTo(s, j + 1, sep[1..], rest);
    SkipStays(s, j);
  }

  lemma {:induction false} ParsePrintedObject(members: seq<Member>, depth: nat, fmt: bool, s: CString, i: nat)
    requires PrintableMembers(members) && At(s, i, Print(Object(members), depth, fmt))
    ensures ParseValue(s, i) == Parsed(Object(members), i + |Print(Object(members), depth, fmt)|)
    decreases members, 3
  {
    hide *;
    ParseBraceAt(members, depth, fmt, s, i);
    if members != [] {
      ParsePrintedMembers(members, depth + 1, fmt, s, i + 1 + if fmt then 1 else 0);
    }
  }

  /** The tabs before the closing brace. */
  function ClosingTabs(empty: bool, depth: nat, fmt: bool): string {
    if !fmt then "" else if !empty then Tabs(depth) else Tabs(if depth > 0 then depth - 1 else 0)
  }

  lemma ObjectText(members: seq<Member>, depth: nat, fmt: bool)
    requires PrintableMembers(members)
    ensures Print(Object(members), depth, fmt) ==
            "{" + (if fmt then "\n" else "") +
            ((if members == [] then "" else PrintMembers(members, depth + 1, fmt)) +
             ClosingTabs(members == [], depth, fmt) + "}")
    ensures Blank(ClosingTabs(members == [], depth, fmt)) && Blank("\n") && Blank("")
  {
    hide PrintMembers;
  }

  /** The braces of a printed object are found. */
  lemma ParseBraceAt(members: seq<Member>, depth: nat, fmt: bool, s: CString, i: nat)
    requires PrintableMembers(members) && At(s, i, Print(Object(members), depth, fmt))
    ensures
      var text := if members == [] then "" else PrintMembers(members, depth + 1, fmt);
      var j := i + 1 + if fmt then 1 else 0;
      var k := j + |text|;
      && At(s, j, text) && ClosesWith(s, k, '}') && Skip(s, k) + 1 == i + |Print(Object(members), depth, fmt)|
      && (members == [] ==> ParseValue(s, i) == Parsed(Object([]), Skip(s, k) + 1))
      && (members != [] && At0(s, Skip(s, j)) == '"' ==>
            var r := ParseMembers(s, Skip(s, j));
            r.Parsed? ==> ParseValue(s, i) == Parsed(Object(r.value), r.pos))
  {
    hide At, Skip, PrintMembers, PrintableMembers, Tabs, ParseValue, ParseMembers, Print, ClosingTabs, Blank;
    var open := if fmt then "\n" else "";
    var text := if members == [] then "" else PrintMembers(members, depth + 1, fmt);
    var close := ClosingTabs(members == [], depth, fmt);
    ObjectText(members, depth, fmt);
    ObjectParts(s, i, open, text, close);
    ParseBrace(s, i);
  }

  lemma {:induction false} ObjectParts(s: CString, i: nat, open: string, text: string, close: string)
    requires Blank(open) && Blank(close) && At(s, i, "{" + open + (text + close + "}"))
    ensures
      var j := i + 1 + |open|;
      && i < |s| && s[i] == '{' && j <= |s| && Skip(s, i + 1) == Skip(s, j)
      && At(s, j, text) && ClosesWith(s, j + |text|, '}') && Skip(s, j + |text|) == j + |text| + |close|
  {
    hide *;
    AtParts3(s, i, "{", open, text + close + "}");
    AtOne(s, i, '{');
    SkipOver(s, i + 1, open);
    ClosingParts(s, i + 1 + |open|, text, close);
  }

  lemma ClosingParts(s: CString, j: nat, text: string, close: string)
    requires Blank(close) && At(s, j, text + close + "}")
    ensures j <= |s| && At(s, j, text) && ClosesWith(s, j + |text|, '}')
    ensures Skip(s, j + |text|) == j + |text| + |close|
  {
    hide At, Skip, Blank;
    AtParts3(s, j, text, close, "}");
    SkipTo(s, j + |text|, close, "}");
  }

  /** The members from a point where blanks may come first, up to the closing brace. */
  lemma {:induction false} ParsePrintedMembers(members: seq<Member>, depth: nat, fmt: bool, s: CString, i: nat)
    requires PrintableMembers(members) && members != [] && At(s, i, PrintMembers(members, depth, fmt))
    requires ClosesWith(s, i + |PrintMembers(members, depth, fmt)|, '}')
    ensures i <= |s| && At0(s, Skip(s, i)) == '"'
    ensures ParseMembers(s, Skip(s, i)) ==
            Parsed(members, Skip(s, i + |PrintMembers(members, depth, fmt)|) + 1)
    decreases members, 1
  {
    hide *;
    FirstMember(members);
    var m := members[0];
    var v := i + |MemberStart(m.name, depth, fmt)|;
    var e := v + |Print(m.value, depth, fmt)|;
    MembersLayout(members, depth, fmt, s, i);
    ParsePrinted(m.value, depth, fmt, s, v);
    ParsePrintedMember(m, depth, fmt, s, i);
    ParseMembersStep(s, Skip(s, i), m, e);
    assert members == [m] + members[1..] && (|members| == 1 ==> members == [m]);
    if |members| > 1 {
      ParsePrintedMembers(members[1..], depth, fmt, s, e + |MemberEnd(false, fmt)|);
    }
  }

  lemma FirstMember(members: seq<Member>)
    requires PrintableMembers(members) && members != []
    ensures NulFree(members[0].name) && Printable(members[0].value) && PrintableMembers(members[1..])
  {
  }

  /** Where the first member, what ends it and the other members are. */
  lemma MembersLayout(members: seq<Member>, depth: nat, fmt: bool, s: CString, i: nat)
    requires PrintableMembers(members) && members != [] && At(s, i, PrintMembers(members, depth, fmt))
    requires ClosesWith(s, i + |PrintMembers(members, depth, fmt)|, '}')
    ensures
      var m := members[0];
      var v := i + |MemberStart(m.name, depth, fmt)|;
      var e := v + |Print(m.value, depth, fmt)|;
      var k := i + |PrintMembers(members, depth, fmt)|;
      && At(s, i, MemberStart(m.name, depth, fmt)) && At(s, v, Print(m.value, depth, fmt))
      && v <= e < |s| && EndsNumber(s, e)
      && (|members| == 1 ==> At0(s, Skip(s, e)) == '}' && Skip(s, e) == Skip(s, k))
      && (|members| > 1 ==>
            var end, rest := MemberEnd(false, fmt), PrintMembers(members[1..], depth, fmt);
            && e + |end| <= |s| && k == e + |end| + |rest| && At(s, e + |end|, rest)
            && At0(s, Skip(s, e)) == ',' && Skip(s, Skip(s, e) + 1) == Skip(s, e + |end|))
  {
    hide *;
    MembersText(members, depth, fmt);
    var m := members[0];
    var name, value := MemberStart(m.name, depth, fmt), Print(m.value, depth, fmt);
    var end := MemberEnd(|members| == 1, fmt);
    var rest := PrintMembers(members[1..], depth, fmt);
    var e := i + |name| + |value|;
    AtParts3(s, i, name + value, end, rest);
    AtParts(s, i, name, value);
    if |members| == 1 {
      LastMemberEnds(s, e, end, fmt);
    } else {
      MemberCommaAt(s, e, end, fmt);
    }
  }

  lemma MembersText(members: seq<Member>, depth: nat, fmt: bool)
    requires PrintableMembers(members) && members != []
    ensures Printable(members[0].value) && PrintableMembers(members[1..])
    ensures
      var rest := PrintMembers(members[1..], depth, fmt);
      && PrintMembers(members, depth, fmt) ==
         MemberStart(members[0].name, depth, fmt) + Print(members[0].value, depth, fmt)
           + MemberEnd(|members| == 1, fmt) + rest
      && (|members| == 1 ==> rest == "")
  {
    hide Print, Printable, MemberStart, MemberEnd;
  }

  lemma LastMemberEnds(s: CString, e: nat, end: string, fmt: bool)
    requires end == MemberEnd(true, fmt) && At(s, e, end) && ClosesWith(s, e + |end|, '}')
    ensures e < |s| && EndsNumber(s, e)
    ensures At0(s, Skip(s, e)) == '}' && Skip(s, e) == Skip(s, e + |end|)
  {
    hide At, Skip;
    SkipOver(s, e, end);
    assert ClosesWith(s, e, '}');
    ClosingEndsNumber(s, e, '}');
  }

  lemma MemberCommaAt(s: CString, e: nat, end: string, fmt: bool)
    requires end == MemberEnd(false, fmt) && At(s, e, end)
    ensures e < |s| && EndsNumber(s, e) && e + |end| <= |s|
    ensures At0(s, Skip(s, e)) == ',' && Skip(s, Skip(s, e) + 1) == Skip(s, e + |end|)
  {
    hide At, Skip;
    assert end == "," + end[1..];
    AtParts(s, e, ",", end[1..]);
    AtOne(s, e, ',');
    SkipStays(s, e);
    SkipOver(s, e + 1, end[1..]);
  }

  /** One member, from the blanks before its name to the end of its value. */
  lemma {:induction false} ParsePrintedMember(m: Member, depth: nat, fmt: bool, s: CString, i: nat)
    requires NulFree(m.name) && Printable(m.value)
    requires At(s, i, MemberStart(m.name, depth, fmt))
    requires
      var v := i + |MemberStart(m.name, depth, fmt)|;
      && At(s, v, Print(m.value, depth, fmt)) && v < |s|
      && ParseValue(s, v) == Parsed(m.value, v + |Print(m.value, depth, fmt)|)
    ensures i <= |s| && At0(s, Skip(s, i)) == '"'
    ensures ParseMember(s, Skip(s, i)) ==
            Parsed(m, i + |MemberStart(m.name, depth, fmt)| + |Print(m.value, depth, fmt)|)
  {
    hide ParseMember, ParseValue, Skip, Print, Printable, At, Quoted, MemberStart, NulFree, ParseString;
    var v := i + |MemberStart(m.name, depth, fmt)|;
    PrintIsText(m.value, depth, fmt);
    AtIndex(s, v, Print(m.value, depth, fmt), 0);
    var q, c := NameLayout(m.name, depth, fmt, s, i);
    ParseQuoted(s, q, m.name);
    ParseMemberStep(s, q, m.name, c);
  }

  /** Where a member's name and its colon are. */
  lemma NameLayout(name: string, depth: nat, fmt: bool, s: CString, i: nat) returns (q: nat, c: nat)
    requires At(s, i, MemberStart(name, depth, fmt))
    requires
      var v := i + |MemberStart(name, depth, fmt)|;
      v < |s| && s[v] > ' '
    ensures i <= q < c < |s| && Skip(s, i) == q && At(s, q, Quoted(name)) && c == q + |Quoted(name)|
    ensures s[q] == '"' && s[c] == ':' && Skip(s, c) == c
    ensures Skip(s, c + 1) == i + |MemberStart(name, depth, fmt)|
  {
    hide At, Skip, Quoted, Tabs, Blank, MemberStart;
    var indent := if fmt then Tabs(depth) else "";
    var colon := if fmt then ":\t" else ":";
    StartText(name, depth, fmt);
    q, c := i + |indent|, i + |indent| + |Quoted(name)|;
    NameParts(s, i, indent, Quoted(name), colon);
  }

  lemma StartText(name: string, depth: nat, fmt: bool)
    ensures
      var indent, colon := if fmt then Tabs(depth) else "", if fmt then ":\t" else ":";
      && MemberStart(name, depth, fmt) == indent + Quoted(name) + colon
      && |Quoted(name)| > 0 && Quoted(name)[0] == '"'
      && Blank(indent) && Blank(colon[1..])
  {
    hide Escaped;
  }

  lemma NameParts(s: CString, i: nat, indent: string, quoted: string, colon: string)
    requires At(s, i, indent + quoted + colon) && Blank(indent)
    requires |quoted| > 0 && quoted[0] == '"'
    requires |colon| > 0 && colon[0] == ':' && Blank(colon[1..])
    requires
      var v := i + |indent| + |quoted| + |colon|;
      v < |s| && s[v] > ' '
    ensures
      var q := i + |indent|;
      var c := q + |quoted|;
      && c < |s| && Skip(s, i) == q && At(s, q, quoted) && s[q] == '"' && s[c] == ':' && Skip(s, c) == c
      && Skip(s, c + 1) == c + |colon|
  {
    hide At, Skip, Blank;
    AtParts3(s, i, indent, quoted, colon);
    SkipTo(s, i, indent, quoted);
    AfterName(s, i + |indent| + |quoted|, colon);
  }

  lemma AfterName(s: CString, c: nat, colon: string)
    requires At(s, c, colon) && |colon| > 0 && colon[0] == ':' && Blank(colon[1..])
    requires c + |colon| < |s| && s[c + |colon|] > ' '
    ensures c < |s| && s[c] == ':' && Skip(s, c) == c && Skip(s, c + 1) == c + |colon|
  {
    hide At, Skip, Blank;
    AtIndex(s, c, colon, 0);
    SkipStays(s, c);
    assert colon == [':'] + colon[1..];
    AtParts(s, c, [':'], colon[1..]);
    SkipOver(s, c + 1, colon[1..]);
    SkipStays(s, c + |colon|);
  }

  // ----- The whole text --------------------------------------------------------------------

  /** cJSON_ParseWithOpts: a value after blanks, and nothing but blanks after it when that is asked. */
  function ParseText(s: CString, requireEnd: bool): Parsed<Json> {
    var r := ParseValue(s, Skip(s, 0));
    if r.Parsed? && requireEnd then
      var end := Skip(s, r.pos);
      if end < |s| then Failed else Parsed(r.value, end)
    else r
  }

  /** Printing and parsing back gives the same tree and consumes the whole text. */
  lemma RoundTrip(t: Json, fmt: bool, requireEnd: bool)
    requires Printable(t)
    ensures NulFree(Print(t, 0, fmt))
    ensures ParseText(Print(t, 0, fmt), requireEnd) == Parsed(t, |Print(t, 0, fmt)|)
  {
    var s := Print(t, 0, fmt);
    PrintIsText(t, 0, fmt);
    hide Print, ParseValue;
    AtStart(s);
    ParsePrinted(t, 0, fmt, s, 0);
  }

  /** No two trees are printed alike. */
  lemma PrintIsInjective(a: Json, b: Json, f: bool, g: bool)
    requires Printable(a) && Printable(b) && Print(a, 0, f) == Print(b, 0, g)
    ensures a == b
  {
    RoundTrip(a, f, false);
    RoundTrip(b, g, false);
  }

  // ----- Texts that the parser reads past their end -----------------------------------------

  /** The number of backslashes in a row just before k, as far back as i. */
  function Slashes(s: CString, i: nat, k: nat): nat
    requires i <= k <= |s|
  {
    if k > i && s[k - 1] == '\\' then 1 + Slashes(s, i, k - 1) else 0
  }

  /** What is at k, be it the end of the text, is taken as part of an escape that starts at i or later. */
  predicate Escaping(s: CString, i: nat, k: nat)
    requires i <= k <= |s|
  {
    Slashes(s, i, k) % 2 == 1
  }

  /** No quote from i on ends the string. */
  predicate StaysOpen(s: CString, i: nat)
    requires i <= |s|
  {
    forall k :: i <= k < |s| && s[k] == '"' ==> Escaping(s, i, k)
  }

  predicate NoUnicode(s: CString, i: nat) {
    forall k: nat :: i <= k < |s| && s[k] == '\\' ==> At0(s, k + 1) != 'u'
  }

  lemma {:induction false} SlashesFrom(s: CString, i: nat, j: nat, k: nat)
    requires i < |s| && j <= k <= |s|
    requires j == if s[i] == '\\' then i + 2 else i + 1
    ensures Escaping(s, i, k) == Escaping(s, j, k)
    decreases k
  {
    if k > j && s[k - 1] == '\\' {
      SlashesFrom(s, i, j, k - 1);
    } else if k == j && j == i + 2 && s[i + 1] == '\\' {
      assert Slashes(s, i, i + 1) == 1;
    }
  }

  /**
    Exactly which strings without \u escapes make the parser read past the end of the text:
    those that no quote ends, in a text whose last backslash escapes its end.
   */
  lemma {:induction false} OverreadExactly(s: CString, i: nat)
    requires i < |s| && s[i] == '"' && NoUnicode(s, i + 1)
    ensures ParseString(s, i).Overread? <==> StaysOpen(s, i + 1) && Escaping(s, i + 1, |s|)
  {
    hide StringBody;
    BodyOverread(s, i + 1);
  }

  lemma {:induction false} BodyOverread(s: CString, i: nat)
    requires i <= |s| && NoUnicode(s, i)
    ensures StringBody(s, i).Overread? <==> StaysOpen(s, i) && Escaping(s, i, |s|)
    decreases |s| - i
  {
    if i < |s| && s[i] == '"' {
      assert !Escaping(s, i, i);
    } else if i < |s| {
      var j := if s[i] == '\\' then i + 2 else i + 1;
      if j <= |s| {
        BodyOverread(s, j);
        forall k | j <= k <= |s|
          ensures Escaping(s, i, k) == Escaping(s, j, k)
        {
          SlashesFrom(s, i, j, k);
        }
        assert s[i] == '\\' ==> Escaping(s, i, i + 1);
      } else {
        assert Slashes(s, i, i) == 0 && Escaping(s, i, i + 1);
      }
    }
  }

  /** A quote and a backslash are read past their end. */
  lemma OverreadExample()
    ensures ParseValue("\"\\", 0).Overread?
  {
    var s: CString := "\"\\";
    assert Slashes(s, 1, 1) == 0 && Slashes(s, 1, 2) == 1;
    OverreadExactly(s, 0);
    hide ParseValue, ParseString;
    Dispatch(s, 0);
  }
}
