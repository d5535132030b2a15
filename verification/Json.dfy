/**
  JSON as src/cJSON.c has it: the tree, the text the printers produce (formatted or not)
  and what the parser makes of a text.  Texts are C strings: no NUL inside, one at the end.
 */
module Json {
  type CString = s: string | '\0' !in s

  /** digits * 10^scale is a number; the parser reads fractions and exponents into the scale. */
  datatype Json =
    | Null
    | False
    | True
    | Number(digits: int, scale: int)
    | Str(text: string)
    | Array(items: seq<Json>)
    | Object(members: seq<Member>)

  datatype Member = Member(name: string, value: Json)

  /** What the round trip is promised for: 32-bit integers and NUL-free strings, at every depth. */
  predicate Printable(t: Json)
    decreases t, 0
  {
    match t
    case Number(n, scale) => scale == 0 && -0x8000_0000 <= n < 0x8000_0000
    case Str(s) => '\0' !in s
    case Array(items) => PrintableItems(items)
    case Object(members) => PrintableMembers(members)
    case _ => true
  }

  predicate PrintableItems(items: seq<Json>)
    decreases items, 1
  {
    items == [] || (Printable(items[0]) && PrintableItems(items[1..]))
  }

  predicate PrintableMembers(members: seq<Member>)
    decreases members, 1
  {
    members == [] ||
    (&& '\0' !in members[0].name && Printable(members[0].value) && PrintableMembers(members[1..]))
  }

  // ----- Printing ------------------------------------------------------------------

  function Digit(d: int): char
    requires 0 <= d < 10
  {
    '0' + d as char
  }

  function Decimal(n: nat): string {
    if n < 10 then [Digit(n)] else Decimal(n / 10) + [Digit(n % 10)]
  }

  function Integer(n: int): string {
    if n < 0 then "-" + Decimal(-n) else Decimal(n)
  }

  function Hex(d: int): char
    requires 0 <= d < 16
  {
    if d < 10 then '0' + d as char else 'a' + (d - 10) as char
  }

  /** One character of a string, escaped when it is a quote, a backslash or below 32. */
  function Escape(c: char): string {
    if c == '"' then "\\\""
    else if c == '\\' then "\\\\"
    else if c as int >= 32 then [c]
    else if c as int == 8 then "\\b"
    else if c as int == 12 then "\\f"
    else if c == '\n' then "\\n"
    else if c == '\r' then "\\r"
    else if c == '\t' then "\\t"
    else "\\u00" + [Hex(c as int / 16), Hex(c as int % 16)]
  }

  function Escaped(s: string): string {
    if s == "" then "" else Escape(s[0]) + Escaped(s[1..])
  }

  function Quoted(s: string): string {
    "\"" + Escaped(s) + "\""
  }

  function Tabs(n: nat): string {
    seq(n, _ => '\t')
  }

  /** The text of a value; depth is how many containers it is in, and only matters when formatted. */
  function Print(t: Json, depth: nat, fmt: bool): string
    requires Printable(t)
    decreases t, 0
  {
    match t
    case Null => "null"
    case False => "false"
    case True => "true"
    case Number(n, _) => Integer(n)
    case Str(s) => Quoted(s)
    case Array(items) => "[" + PrintItems(items, depth + 1, fmt) + "]"
    case Object(members) =>
      if members == [] then
        if fmt then "{\n" + Tabs(if depth > 0 then depth - 1 else 0) + "}" else "{}"
      else if fmt then "{\n" + PrintMembers(members, depth + 1, fmt) + Tabs(depth) + "}"
      else "{" + PrintMembers(members, depth + 1, fmt) + "}"
  }

  function Separator(last: bool, fmt: bool): string {
    if last then "" else if fmt then ", " else ","
  }

  function PrintItems(items: seq<Json>, depth: nat, fmt: bool): string
    requires PrintableItems(items)
    decreases items, 1
  {
    if items == [] then ""
    else Print(items[0], depth, fmt) + Separator(|items| == 1, fmt) + PrintItems(items[1..], depth, fmt)
  }

  function MemberEnd(last: bool, fmt: bool): string {
    (if last then "" else ",") + (if fmt then "\n" else "")
  }

  function MemberStart(name: string, depth: nat, fmt: bool): string {
    (if fmt then Tabs(depth) else "") + Quoted(name) + (if fmt then ":\t" else ":")
  }

  function PrintMembers(members: seq<Member>, depth: nat, fmt: bool): string
    requires PrintableMembers(members)
    decreases members, 1
  {
    if members == [] then ""
    else
      MemberStart(members[0].name, depth, fmt) + Print(members[0].value, depth, fmt) +
      MemberEnd(|members| == 1, fmt) + PrintMembers(members[1..], depth, fmt)
  }

  // ----- Parsing -------------------------------------------------------------------

  /** Overread: the C code runs past the end of the text after an unfinished escape. */
  datatype Parsed<+T> = Parsed(value: T, pos: nat) | Failed | Overread

  /** The character at i, or the terminating NUL. */
  function At0(s: CString, i: nat): char {
    if i < |s| then s[i] else '\0'
  }

  /** Skipping everything up to and including the space character. */
  function Skip(s: CString, i: nat): (j: nat)
    requires i <= |s|
    ensures i <= j <= |s|
    decreases |s| - i
  {
    if i < |s| && s[i] <= ' ' then Skip(s, i + 1) else i
  }

  predicate StartsAt(s: CString, i: nat, word: string) {
    i + |word| <= |s| && s[i..i + |word|] == word
  }

  predicate IsDigit(c: char) {
    '0' <= c <= '9'
  }

  /** Digits from i on, folded into n. */
  function Digits(s: CString, i: nat, n: int): (r: (int, nat))
    requires i <= |s|
    ensures i <= r.1 <= |s|
    decreases |s| - i
  {
    if i < |s| && IsDigit(s[i]) then Digits(s, i + 1, n * 10 + (s[i] as int - '0' as int)) else (n, i)
  }

  function ParseNumber(s: CString, i: nat): (r: Parsed<Json>)
    requires i <= |s|
    ensures r.Parsed? && i <= r.pos <= |s|
    ensures At0(s, i) == '-' || IsDigit(At0(s, i)) ==> i < r.pos
  {
    var negative := At0(s, i) == '-';
    var i1 := if negative then i + 1 else i;
    var i2 := if At0(s, i1) == '0' then i1 + 1 else i1;
    var (n, j) := if '1' <= At0(s, i2) <= '9' then Digits(s, i2, 0) else (0, i2);
    var fraction := At0(s, j) == '.' && IsDigit(At0(s, j + 1));
    var (n', k) := if fraction then Digits(s, j + 1, n) else (n, j);
    var scale := if fraction then j + 1 - k else 0;
    var (exponent, end) := ParseExponent(s, k);
    Parsed(Number(if negative then -n' else n', scale + exponent), end)
  }

  function ParseExponent(s: CString, k: nat): (r: (int, nat))
    requires k <= |s|
    ensures k <= r.1 <= |s|
  {
    if At0(s, k) == 'e' || At0(s, k) == 'E' then
      var sign := At0(s, k + 1);
      var (n, end) := Digits(s, if sign == '+' || sign == '-' then k + 2 else k + 1, 0);
      (if sign == '-' then -n else n, end)
    else (0, k)
  }

  function HexValue(c: char): int {
    if '0' <= c <= '9' then c as int - '0' as int
    else if 'A' <= c <= 'F' then 10 + c as int - 'A' as int
    else if 'a' <= c <= 'f' then 10 + c as int - 'a' as int
    else -1
  }

  /** Four hexadecimal digits, or 0 when one of them is not. */
  function Hex4(s: CString, i: nat): (h: int)
    ensures 0 <= h < 0x1_0000
    ensures h != 0 ==> i + 4 <= |s|
  {
    var a, b, c, d := HexValue(At0(s, i)), HexValue(At0(s, i + 1)), HexValue(At0(s, i + 2)), HexValue(At0(s, i + 3));
    if a < 0 || b < 0 || c < 0 || d < 0 then 0
    else
      assert forall x :: x == '\0' ==> HexValue(x) == -1;
      ((a * 16 + b) * 16 + c) * 16 + d
  }

  /** The bytes of a code point in UTF-8. */
  function Utf8(uc: int): string
    requires 0 <= uc < 0x11_0000
  {
    if uc < 0x80 then [uc as char]
    else if uc < 0x800 then [(0xC0 + uc / 0x40) as char, (0x80 + uc % 0x40) as char]
    else if uc < 0x1_0000 then
      [(0xE0 + uc / 0x1000) as char, (0x80 + uc / 0x40 % 0x40) as char, (0x80 + uc % 0x40) as char]
    else
      [(0xF0 + uc / 0x4_0000) as char, (0x80 + uc / 0x1000 % 0x40) as char,
       (0x80 + uc / 0x40 % 0x40) as char, (0x80 + uc % 0x40) as char]
  }

  /** A \u escape whose digits start at i: its bytes, and where the text goes on. */
  function Unicode(s: CString, i: nat): (string, nat) {
    var uc := Hex4(s, i);
    if 0xDC00 <= uc <= 0xDFFF || uc == 0 then ("", i + 4)
    else if 0xD800 <= uc <= 0xDBFF then
      if At0(s, i + 4) != '\\' || At0(s, i + 5) != 'u' then ("", i + 4)
      else
        var uc2 := Hex4(s, i + 6);
        if uc2 < 0xDC00 || uc2 > 0xDFFF then ("", i + 10)
        else (Utf8(0x1_0000 + (uc - 0xD800) * 0x400 + (uc2 - 0xDC00)), i + 10)
    else (Utf8(uc), i + 4)
  }

  /** What one escape stands for, from the character after the backslash. */
  function Unescape(s: CString, i: nat): (string, nat) {
    var c := At0(s, i);
    if c == 'b' then ([8 as char], i + 1)
    else if c == 'f' then ([12 as char], i + 1)
    else if c == 'n' then ("\n", i + 1)
    else if c == 'r' then ("\r", i + 1)
    else if c == 't' then ("\t", i + 1)
    else if c == 'u' then Unicode(s, i + 1)
    else ([c], i + 1)
  }

  function Prepend(a: string, r: Parsed<string>): Parsed<string> {
    if r.Parsed? then Parsed(a + r.value, r.pos) else r
  }

  /** The characters of a string up to its closing quote or the end of the text. */
  function StringBody(s: CString, i: nat): (r: Parsed<string>)
    requires i <= |s|
    ensures r.Parsed? ==> i <= r.pos <= |s|
    decreases |s| - i
  {
    if i == |s| || s[i] == '"' then Parsed("", i)
    else if s[i] != '\\' then Prepend([s[i]], StringBody(s, i + 1))
    else
      var (bytes, j) := Unescape(s, i + 1);
      if j > |s| then Overread else Prepend(bytes, StringBody(s, j))
  }

  function ParseString(s: CString, i: nat): (r: Parsed<string>)
    requires i <= |s|
    ensures r.Parsed? ==> i < r.pos <= |s|
  {
    if At0(s, i) != '"' then Failed
    else
      var r := StringBody(s, i + 1);
      if !r.Parsed? then r
      else Parsed(r.value, if At0(s, r.pos) == '"' then r.pos + 1 else r.pos)
  }

  function ParseValue(s: CString, i: nat): (r: Parsed<Json>)
    requires i <= |s|
    ensures r.Parsed? ==> i < r.pos <= |s|
    decreases |s| - i, 2
  {
    var c := At0(s, i);
    if StartsAt(s, i, "null") then Parsed(Null, i + 4)
    else if StartsAt(s, i, "false") then Parsed(False, i + 5)
    else if StartsAt(s, i, "true") then Parsed(True, i + 4)
    else if c == '"' then
      var r := ParseString(s, i);
      if r.Parsed? then Parsed(Str(r.value), r.pos) else if r.Failed? then Failed else Overread
    else if c == '-' || IsDigit(c) then ParseNumber(s, i)
    else if c == '[' then ParseArray(s, i)
    else if c == '{' then ParseObject(s, i)
    else Failed
  }

  function ParseArray(s: CString, i: nat): (r: Parsed<Json>)
    requires i < |s|
    ensures r.Parsed? ==> i < r.pos <= |s|
    decreases |s| - i, 1
  {
    var j := Skip(s, i + 1);
    if At0(s, j) == ']' then Parsed(Array([]), j + 1)
    else
      var r := ParseItems(s, j);
      if r.Parsed? then Parsed(Array(r.value), r.pos) else if r.Failed? then Failed else Overread
  }

  function ParseObject(s: CString, i: nat): (r: Parsed<Json>)
    requires i < |s|
    ensures r.Parsed? ==> i < r.pos <= |s|
    decreases |s| - i, 1
  {
    var j := Skip(s, i + 1);
    if At0(s, j) == '}' then Parsed(Object([]), j + 1)
    else
      var r := ParseMembers(s, j);
      if r.Parsed? then Parsed(Object(r.value), r.pos) else if r.Failed? then Failed else Overread
  }

  lemma StartsBy(s: CString, i: nat, word: string)
    requires word != ""
    ensures StartsAt(s, i, word) ==> At0(s, i) == word[0]
  {
    assert i + |word| <= |s| ==> s[i..i + |word|][0] == s[i];
  }

  /** How the value at i is read, by what it starts with. */
  lemma {:induction false} Dispatch(s: CString, i: nat)
    requires i < |s|
    ensures StartsAt(s, i, "null") ==> ParseValue(s, i) == Parsed(Null, i + 4)
    ensures StartsAt(s, i, "false") ==> ParseValue(s, i) == Parsed(False, i + 5)
    ensures StartsAt(s, i, "true") ==> ParseValue(s, i) == Parsed(True, i + 4)
    ensures s[i] == '"' ==>
      var r := ParseString(s, i);
      ParseValue(s, i) == if r.Parsed? then Parsed(Str(r.value), r.pos) else if r.Failed? then Failed else Overread
    ensures s[i] == '-' || IsDigit(s[i]) ==> ParseValue(s, i) == ParseNumber(s, i)
    ensures s[i] == '[' ==> ParseValue(s, i) == ParseArray(s, i)
    ensures s[i] == '{' ==> ParseValue(s, i) == ParseObject(s, i)
  {
    hide StartsAt, ParseArray, ParseObject, ParseNumber, ParseString;
    StartsBy(s, i, "null");
    StartsBy(s, i, "false");
    StartsBy(s, i, "true");
  }

  /** The items from i to the closing bracket. */
  function ParseItems(s: CString, i: nat): (r: Parsed<seq<Json>>)
    requires i <= |s|
    ensures r.Parsed? ==> i < r.pos <= |s|
    decreases |s| - i, 3
  {
    var r := ParseValue(s, i);
    match r
    case Failed => Failed
    case Overread => Overread
    case Parsed(v, p) =>
      var j := Skip(s, p);
      if At0(s, j) == ',' then
        var rest := ParseItems(s, Skip(s, j + 1));
        if rest.Parsed? then Parsed([v] + rest.value, rest.pos) else rest
      else if At0(s, j) == ']' then Parsed([v], j + 1)
      else Failed
  }

  /** One member: its name, a colon and its value. */
  function ParseMember(s: CString, i: nat): (r: Parsed<Member>)
    requires i <= |s|
    ensures r.Parsed? ==> i < r.pos <= |s|
    decreases |s| - i, 0
  {
    var n := ParseString(s, i);
    match n
    case Failed => Failed
    case Overread => Overread
    case Parsed(name, p) =>
      var j := Skip(s, p);
      if At0(s, j) != ':' then Failed
      else
        var r := ParseValue(s, Skip(s, j + 1));
        match r
        case Failed => Failed
        case Overread => Overread
        case Parsed(v, q) => Parsed(Member(name, v), q)
  }

  /** The members from i to the closing brace. */
  function ParseMembers(s: CString, i: nat): (r: Parsed<seq<Member>>)
    requires i <= |s|
    ensures r.Parsed? ==> i < r.pos <= |s|
    decreases |s| - i, 1
  {
    var r := ParseMember(s, i);
    match r
    case Failed => Failed
    case Overread => Overread
    case Parsed(m, p) =>
      var j := Skip(s, p);
      if At0(s, j) == ',' then
        var rest := ParseMembers(s, Skip(s, j + 1));
        if rest.Parsed? then Parsed([m] + rest.value, rest.pos) else rest
      else if At0(s, j) == '}' then Parsed([m], j + 1)
      else Failed
  }
}
