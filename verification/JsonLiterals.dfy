/**
  What the texts of src/cJSON.c stand for: numbers with a fraction and an exponent by their
  value, escapes by their characters and code points, and the layout of formatted text.
 */
module JsonLiterals {
  import opened Json
  import opened JsonRoundTrip
  import opened Slices

  // ----- Numbers ------------------------------------------------------------------------

  predicate AllDigits(d: string) {
    forall k :: 0 <= k < |d| ==> IsDigit(d[k])
  }

  /** The number whose decimal digits are those of n followed by d. */
  function Appended(n: nat, d: string): nat
    requires AllDigits(d)
  {
    if d == "" then n else Appended(n, d[..|d| - 1]) * 10 + (d[|d| - 1] as int - '0' as int)
  }

  function Pow10(k: nat): nat {
    if k == 0 then 1 else 10 * Pow10(k - 1)
  }

  /** It is n shifted by as many places, and the number that d is by itself. */
  lemma {:induction false} AppendedIsShifted(n: nat, d: string)
    requires AllDigits(d)
    ensures Appended(n, d) == n * Pow10(|d|) + Appended(0, d)
  {
    if d != "" {
      var d' := d[..|d| - 1];
      AppendedIsShifted(n, d');
      assert n * (10 * Pow10(|d'|)) == n * Pow10(|d'|) * 10;
    }
  }

  /** Printing and then reading digits gives the number. */
  lemma {:induction false} AppendedDecimal(m: nat)
    ensures AllDigits(Decimal(m)) && Appended(0, Decimal(m)) == m
  {
    var d := Decimal(m);
    if m < 10 {
      assert d[..0] == "" && d == [Digit(m)];
    } else {
      AppendedDecimal(m / 10);
      assert d[..|d| - 1] == Decimal(m / 10) && d[|d| - 1] == Digit(m % 10);
    }
  }

  lemma {:induction false} DigitsAre(s: CString, i: nat, d: string, n: nat)
    requires At(s, i, d) && AllDigits(d)
    ensures i + |d| <= |s| && Digits(s, i, n) == Digits(s, i + |d|, Appended(n, d))
  {
    hide At;
    AtBound(s, i, d);
    if d != "" {
      var k := |d| - 1;
      assert d == d[..k] + [d[k]];
      AtSplit(s, i, d[..k], [d[k]]);
      AtOne(s, i + k, d[k]);
      DigitsAre(s, i, d[..k], n);
    }
  }

  lemma DigitsEnd(s: CString, i: nat, n: int)
    requires i <= |s| && !IsDigit(At0(s, i))
    ensures Digits(s, i, n) == (n, i)
  {
  }

  /** An exponent: its letter, a sign or none, and its digits; there may be none after a sign. */
  datatype Exponent = Exponent(letter: char, sign: string, digits: string)

  predicate Proper(e: Exponent) {
    && (e.letter == 'e' || e.letter == 'E') && e.sign in {"", "+", "-"} && AllDigits(e.digits)
    && e.sign + e.digits != ""
  }

  function ExponentText(e: Exponent): string {
    [e.letter] + e.sign + e.digits
  }

  /** The power of ten that it stands for. */
  function Shift(e: Exponent): int
    requires Proper(e)
  {
    var x: int := Appended(0, e.digits);
    if e.sign == "-" then -x else x
  }

  lemma ExponentIsRead(s: CString, i: nat, e: Exponent)
    requires Proper(e) && At(s, i, ExponentText(e)) && !IsDigit(At0(s, i + |ExponentText(e)|))
    ensures i + |ExponentText(e)| <= |s|
    ensures ParseExponent(s, i) == (Shift(e), i + |ExponentText(e)|)
  {
    hide At, Digits;
    var j := i + 1 + |e.sign|;
    AtSplit3(s, i, [e.letter], e.sign, e.digits);
    AtOne(s, i, e.letter);
    if e.sign != "" {
      AtIndex(s, i + 1, e.sign, 0);
    }
    if e.digits != "" {
      AtIndex(s, j, e.digits, 0);
    }
    DigitsAre(s, j, e.digits, 0);
    DigitsEnd(s, j + |e.digits|, Appended(0, e.digits));
  }

  /** The text of a number: a sign, the digits of m, a fraction if f is not empty, and an exponent if there is one. */
  function NumberText(negative: bool, m: nat, f: string, e: seq<Exponent>): string
    requires |e| <= 1
  {
    (if negative then "-" else "") + (Decimal(m) + (Fraction(f) + Tail(e)))
  }

  function Fraction(f: string): string {
    if f == "" then "" else "." + f
  }

  /**
    A decimal is read, wherever nothing that could continue it follows, as the digits of m
    and f together, and a scale of one less for each digit of f, shifted by the exponent.
   */
  lemma DecimalIsRead(s: CString, i: nat, negative: bool, m: nat, f: string, e: seq<Exponent>)
    requires AllDigits(f) && |e| <= 1 && (e != [] ==> Proper(e[0]))
    requires At(s, i, NumberText(negative, m, f, e)) && EndsNumber(s, i + |NumberText(negative, m, f, e)|)
    ensures i + |NumberText(negative, m, f, e)| <= |s|
    ensures
      var digits: int := Appended(m, f);
      var scale := (if e == [] then 0 else Shift(e[0])) - |f|;
      ParseNumber(s, i) ==
      Parsed(Number(if negative then -digits else digits, scale), i + |NumberText(negative, m, f, e)|)
  {
    hide *;
    var tail := Tail(e);
    var i1 := if negative then i + 1 else i;
    var j := i1 + |Decimal(m)|;
    var k := j + |Fraction(f)|;
    NumberParts(s, i, negative, m, f, e);
    StartsSolid(s, i, i1, negative, m);
    TailIsRead(s, k, e);
    FractionIsRead(s, j, m, f);
    AppendedDecimal(m);
    DigitsAre(s, i1, Decimal(m), 0);
    DigitsEnd(s, j, m);
    Assembled(s, i, negative, m, j, Appended(m, f), k, |f|, TailShift(e), k + |tail|);
    TailShiftIs(e);
  }

  function Tail(e: seq<Exponent>): string {
    if e == [] then "" else ExponentText(e[0])
  }

  function TailShift(e: seq<Exponent>): int
    requires e != [] ==> Proper(e[0])
  {
    if e == [] then 0 else Shift(e[0])
  }

  lemma TailShiftIs(e: seq<Exponent>)
    requires e != [] ==> Proper(e[0])
    ensures TailShift(e) == if e == [] then 0 else Shift(e[0])
  {
  }

  lemma NumberParts(s: CString, i: nat, negative: bool, m: nat, f: string, e: seq<Exponent>)
    requires |e| <= 1 && At(s, i, NumberText(negative, m, f, e))
    ensures
      var i1 := if negative then i + 1 else i;
      var j := i1 + |Decimal(m)|;
      var k := j + |Fraction(f)|;
      && (negative ==> At(s, i, "-")) && At(s, i1, Decimal(m)) && At(s, j, Fraction(f)) && At(s, k, Tail(e))
      && k + |Tail(e)| == i + |NumberText(negative, m, f, e)| <= |s|
      && |Fraction(f)| == if f == "" then 0 else 1 + |f|
  {
    hide At, Decimal;
    var sign := if negative then "-" else "";
    var i1 := i + |sign|;
    AtBound(s, i, NumberText(negative, m, f, e));
    AtSplit(s, i, sign, Decimal(m) + (Fraction(f) + Tail(e)));
    AtSplit(s, i1, Decimal(m), Fraction(f) + Tail(e));
    AtSplit(s, i1 + |Decimal(m)|, Fraction(f), Tail(e));
  }

  lemma TailIsRead(s: CString, k: nat, e: seq<Exponent>)
    requires |e| <= 1 && (e != [] ==> Proper(e[0])) && k <= |s|
    requires At(s, k, Tail(e)) && EndsNumber(s, k + |Tail(e)|)
    ensures ParseExponent(s, k) == (TailShift(e), k + |Tail(e)|)
    ensures !IsDigit(At0(s, k)) && At0(s, k) != '.'
  {
    hide At, ParseExponent;
    if e == [] {
      NoExponent(s, k);
    } else {
      AtSplit3(s, k, [e[0].letter], e[0].sign, e[0].digits);
      AtOne(s, k, e[0].letter);
      ExponentIsRead(s, k, e[0]);
    }
  }

  /** The fraction, in front of something that is neither a digit nor, if there is none, a point. */
  lemma FractionIsRead(s: CString, j: nat, m: nat, f: string)
    requires AllDigits(f) && At(s, j, Fraction(f)) && !IsDigit(At0(s, j + |Fraction(f)|))
    requires f == "" ==> At0(s, j) != '.'
    ensures !IsDigit(At0(s, j))
    ensures f == "" ==> Appended(m, f) == m && !(At0(s, j) == '.' && IsDigit(At0(s, j + 1)))
    ensures f != "" ==>
      && j + 1 + |f| <= |s| && At0(s, j) == '.' && IsDigit(At0(s, j + 1))
      && Digits(s, j + 1, m) == (Appended(m, f), j + 1 + |f|)
  {
    hide At, Digits;
    if f != "" {
      AtSplit(s, j, ".", f);
      AtOne(s, j, '.');
      AtIndex(s, j + 1, f, 0);
      DigitsAre(s, j + 1, f, m);
      DigitsEnd(s, j + 1 + |f|, Appended(m, f));
    }
  }

  /** The reader's steps, put together. */
  lemma Assembled(s: CString, i: nat, negative: bool, m: nat, j: nat, digits: int, k: nat, places: nat, x: int,
                  end: nat)
    requires i <= |s| && j <= k <= |s| && (At0(s, i) == '-' <==> negative) && !IsDigit(At0(s, j))
    requires
      var i1 := if negative then i + 1 else i;
      && i1 < j
      && (m == 0 ==> At0(s, i1) == '0' && j == i1 + 1)
      && (m > 0 ==> '1' <= At0(s, i1) <= '9' && Digits(s, i1, 0) == (m, j))
    requires places == 0 ==> digits == m && k == j && !(At0(s, j) == '.' && IsDigit(At0(s, j + 1)))
    requires places > 0 ==>
      && k == j + 1 + places && At0(s, j) == '.' && IsDigit(At0(s, j + 1)) && Digits(s, j + 1, m) == (digits, k)
    requires ParseExponent(s, k) == (x, end)
    ensures ParseNumber(s, i) == Parsed(Number(if negative then -digits else digits, x - places), end)
  {
    hide Digits, ParseExponent;
  }

  /** What the sign and the first digit are. */
  lemma StartsSolid(s: CString, i: nat, i1: nat, negative: bool, m: nat)
    requires i1 == i + (if negative then 1 else 0) && At(s, i1, Decimal(m)) && (negative ==> At(s, i, "-"))
    ensures At0(s, i) == '-' <==> negative
    ensures if m == 0 then At0(s, i1) == '0' && |Decimal(m)| == 1 else '1' <= At0(s, i1) <= '9'
    ensures |Decimal(m)| > 0
  {
    hide At;
    DecimalIsSolid(m);
    AtIndex(s, i1, Decimal(m), 0);
    if negative {
      AtOne(s, i, '-');
    }
    if m == 0 {
      ZeroIsOneDigit();
    }
  }

  // ----- Escapes --------------------------------------------------------------------------

  /** Every kind of escape that is printed, by name. */
  lemma EscapesByName()
    ensures Escape(8 as char) == "\\b" && Escape(12 as char) == "\\f" && Escape('\n') == "\\n"
    ensures Escape('\r') == "\\r" && Escape('\t') == "\\t" && Escape('"') == "\\\"" && Escape('\\') == "\\\\"
    ensures Escape(1 as char) == "\\u0001" && Escape(31 as char) == "\\u001f"
    ensures forall c: char :: c as int >= 32 && c != '"' && c != '\\' ==> Escape(c) == [c]
  {
    assert Hex(1) == '1' && Hex(15) == 'f' && Hex(0) == '0';
  }

  /** A hexadecimal digit of this value, in either case. */
  predicate IsHex(c: char, d: int) {
    if 0 <= d < 10 then c as int == '0' as int + d
    else 10 <= d < 16 && (c as int == 'a' as int + (d - 10) || c as int == 'A' as int + (d - 10))
  }

  /** The four hexadecimal digits of n stand at i. */
  predicate HexAt(s: CString, i: nat, n: nat) {
    && n < 0x1_0000
    && IsHex(At0(s, i), n / 0x1000) && IsHex(At0(s, i + 1), n / 0x100 % 0x10)
    && IsHex(At0(s, i + 2), n / 0x10 % 0x10) && IsHex(At0(s, i + 3), n % 0x10)
  }

  lemma HexIsRead(s: CString, i: nat, n: nat)
    requires HexAt(s, i, n)
    ensures Hex4(s, i) == n
  {
    HexValueOf(At0(s, i), n / 0x1000);
    HexValueOf(At0(s, i + 1), n / 0x100 % 0x10);
    HexValueOf(At0(s, i + 2), n / 0x10 % 0x10);
    HexValueOf(At0(s, i + 3), n % 0x10);
    FourDigits(n);
    hide HexValue, IsHex;
  }

  lemma HexValueOf(c: char, d: int)
    requires IsHex(c, d)
    ensures HexValue(c) == d && 0 <= d
  {
  }

  lemma FourDigits(n: nat)
    ensures ((n / 0x1000 * 16 + n / 0x100 % 0x10) * 16 + n / 0x10 % 0x10) * 16 + n % 0x10 == n
  {
    OneDigit(n);
    OneDigit(n / 0x10);
    OneDigit(n / 0x100);
    assert n / 0x10 / 0x10 == n / 0x100 && n / 0x100 / 0x10 == n / 0x1000;
  }

  lemma OneDigit(n: nat)
    ensures n / 0x10 * 0x10 + n % 0x10 == n
  {
  }

  /** The code point of UTF-8 bytes, by their number. */
  function CodePoint(b: string): int {
    if |b| == 1 then b[0] as int
    else if |b| == 2 then (b[0] as int - 0xC0) * 0x40 + (b[1] as int - 0x80)
    else if |b| == 3 then ((b[0] as int - 0xE0) * 0x40 + (b[1] as int - 0x80)) * 0x40 + (b[2] as int - 0x80)
    else if |b| == 4 then
      (((b[0] as int - 0xF0) * 0x40 + (b[1] as int - 0x80)) * 0x40 + (b[2] as int - 0x80)) * 0x40
      + (b[3] as int - 0x80)
    else -1
  }

  /** A leading byte that tells the number of bytes, in the shortest form. */
  predicate Leads(lead: int, n: nat) {
    match n
    case 1 => 0 <= lead < 0x80
    case 2 => 0xC2 <= lead < 0xE0
    case 3 => 0xE0 <= lead < 0xF0
    case 4 => 0xF0 <= lead < 0xF5
    case _ => false
  }

  predicate Continues(b: int) {
    0x80 <= b < 0xC0
  }

  /** The bytes of a code point are its UTF-8: the leading byte tells their number, the others continue. */
  lemma Utf8IsDecoded(uc: int)
    requires 0 <= uc < 0x11_0000
    ensures CodePoint(Utf8(uc)) == uc
    ensures |Utf8(uc)| == if uc < 0x80 then 1 else if uc < 0x800 then 2 else if uc < 0x1_0000 then 3 else 4
    ensures Leads(Utf8(uc)[0] as int, |Utf8(uc)|)
    ensures forall k :: 1 <= k < |Utf8(uc)| ==> Continues(Utf8(uc)[k] as int)
  {
    hide CodePoint, Leads, Continues;
    if uc < 0x80 {
      assert Utf8(uc) == [uc as char];
      LeadsIs(uc, 1);
    } else if uc < 0x800 {
      TwoBytes(uc);
    } else if uc < 0x1_0000 {
      ThreeBytes(uc);
    } else {
      FourBytes(uc);
    }
    CodePointIs(Utf8(uc));
  }

  lemma LeadsIs(lead: int, n: nat)
    ensures n == 1 && 0 <= lead < 0x80 ==> Leads(lead, n)
    ensures n == 2 && 0xC2 <= lead < 0xE0 ==> Leads(lead, n)
    ensures n == 3 && 0xE0 <= lead < 0xF0 ==> Leads(lead, n)
    ensures n == 4 && 0xF0 <= lead < 0xF5 ==> Leads(lead, n)
    ensures Continues(lead) <==> 0x80 <= lead < 0xC0
  {
  }

  lemma TwoBytes(uc: int)
    requires 0x80 <= uc < 0x800
    ensures
      var b := Utf8(uc);
      && |b| == 2 && Leads(b[0] as int, 2) && Continues(b[1] as int)
      && (b[0] as int - 0xC0) * 0x40 + (b[1] as int - 0x80) == uc
  {
  }

  lemma ThreeAre(uc: int)
    requires 0x800 <= uc < 0x1_0000
    ensures
      var b := Utf8(uc);
      && |b| == 3 && b[0] as int == 0xE0 + uc / 0x1000
      && b[1] as int == 0x80 + uc / 0x40 % 0x40 && b[2] as int == 0x80 + uc % 0x40
  {
  }

  lemma FourAre(uc: int)
    requires 0x1_0000 <= uc < 0x11_0000
    ensures
      var b := Utf8(uc);
      && |b| == 4 && b[0] as int == 0xF0 + uc / 0x4_0000 && b[1] as int == 0x80 + uc / 0x1000 % 0x40
      && b[2] as int == 0x80 + uc / 0x40 % 0x40 && b[3] as int == 0x80 + uc % 0x40
  {
  }

  lemma ThreeBytes(uc: int)
    requires 0x800 <= uc < 0x1_0000
    ensures
      var b := Utf8(uc);
      && |b| == 3 && Leads(b[0] as int, 3) && Continues(b[1] as int) && Continues(b[2] as int)
      && ((b[0] as int - 0xE0) * 0x40 + (b[1] as int - 0x80)) * 0x40 + (b[2] as int - 0x80) == uc
  {
    hide *;
    ThreeAre(uc);
    var x, y, z := 0xE0 + uc / 0x1000, 0x80 + uc / 0x40 % 0x40, 0x80 + uc % 0x40;
    assert uc / 0x1000 * 0x40 + uc / 0x40 % 0x40 == uc / 0x40;
    LeadsIs(x, 3);
    LeadsIs(y, 3);
    LeadsIs(z, 3);
  }

  lemma FourBytes(uc: int)
    requires 0x1_0000 <= uc < 0x11_0000
    ensures
      var b := Utf8(uc);
      && |b| == 4 && Leads(b[0] as int, 4) && Continues(b[1] as int) && Continues(b[2] as int)
      && Continues(b[3] as int)
      && (((b[0] as int - 0xF0) * 0x40 + (b[1] as int - 0x80)) * 0x40 + (b[2] as int - 0x80)) * 0x40
         + (b[3] as int - 0x80) == uc
  {
    hide *;
    FourAre(uc);
    var w, x := 0xF0 + uc / 0x4_0000, 0x80 + uc / 0x1000 % 0x40;
    var y, z := 0x80 + uc / 0x40 % 0x40, 0x80 + uc % 0x40;
    assert uc / 0x4_0000 * 0x40 + uc / 0x1000 % 0x40 == uc / 0x1000;
    assert uc / 0x1000 * 0x40 + uc / 0x40 % 0x40 == uc / 0x40;
    LeadsIs(w, 4);
    LeadsIs(x, 4);
    LeadsIs(y, 4);
    LeadsIs(z, 4);
  }

  lemma CodePointIs(b: string)
    requires 1 <= |b| <= 4
    ensures |b| == 1 ==> CodePoint(b) == b[0] as int
    ensures |b| == 2 ==> CodePoint(b) == (b[0] as int - 0xC0) * 0x40 + (b[1] as int - 0x80)
    ensures |b| == 3 ==>
      CodePoint(b) == ((b[0] as int - 0xE0) * 0x40 + (b[1] as int - 0x80)) * 0x40 + (b[2] as int - 0x80)
    ensures |b| == 4 ==>
      CodePoint(b) ==
      (((b[0] as int - 0xF0) * 0x40 + (b[1] as int - 0x80)) * 0x40 + (b[2] as int - 0x80)) * 0x40
      + (b[3] as int - 0x80)
  {
  }

  /** A \u escape stands for the UTF-8 of its code point, and so do two for one beyond 16 bits. */
  lemma UnicodeIsRead(s: CString, i: nat, uc: int)
    requires 0 < uc < 0x11_0000 && !(0xD800 <= uc < 0xE000)
    ensures uc < 0x1_0000 && HexAt(s, i, uc) ==> Unicode(s, i) == (Utf8(uc), i + 4)
    ensures
      var high, low := 0xD800 + (uc - 0x1_0000) / 0x400, 0xDC00 + (uc - 0x1_0000) % 0x400;
      uc >= 0x1_0000 && HexAt(s, i, high) && At0(s, i + 4) == '\\' && At0(s, i + 5) == 'u' && HexAt(s, i + 6, low) ==>
        Unicode(s, i) == (Utf8(uc), i + 10)
  {
    hide HexAt, Hex4, Utf8;
    if uc < 0x1_0000 {
      if HexAt(s, i, uc) {
        HexIsRead(s, i, uc);
      }
    } else {
      var high, low := 0xD800 + (uc - 0x1_0000) / 0x400, 0xDC00 + (uc - 0x1_0000) % 0x400;
      if HexAt(s, i, high) && HexAt(s, i + 6, low) {
        HexIsRead(s, i, high);
        HexIsRead(s, i + 6, low);
      }
    }
  }

  // ----- Layout ---------------------------------------------------------------------------

  /** An object with an array and an object inside. */
  function Nested(): Json {
    Object([Member("a", Array([Null, True])), Member("b", Object([Member("c", False)]))])
  }

  /** How the formatted and the plain printer lay it out, piece by piece. */
  lemma LayoutByExample()
    ensures Printable(Nested())
    ensures Print(Nested(), 0, true) ==
            "{\n"
            + ("\t" + "\"a\"" + ":\t" + "[null, true]" + ",\n"
               + ("\t" + "\"b\"" + ":\t" + "{\n"
                  + ("\t\t" + "\"c\"" + ":\t" + "false" + "\n")
                  + ("\t" + "}" + "\n")))
            + "}"
    ensures Print(Nested(), 0, false) ==
            "{"
            + ("\"a\"" + ":" + "[null,true]" + ","
               + ("\"b\"" + ":" + "{" + ("\"c\"" + ":" + "false" + "") + ("" + "}" + "")))
            + "}"
  {
    hide *;
    LayoutOf(true);
    LayoutOf(false);
    LinesAre();
  }

  /** One member without its value: indentation, name and colon. */
  function Line(depth: nat, name: string, fmt: bool): string {
    (if fmt then Tabs(depth) else "") + Quoted(name) + (if fmt then ":\t" else ":")
  }

  lemma LinesAre()
    ensures Line(1, "a", true) == "\t" + "\"a\"" + ":\t" && Line(1, "a", false) == "\"a\"" + ":"
    ensures Line(1, "b", true) == "\t" + "\"b\"" + ":\t" && Line(1, "b", false) == "\"b\"" + ":"
    ensures Line(2, "c", true) == "\t\t" + "\"c\"" + ":\t" && Line(2, "c", false) == "\"c\"" + ":"
  {
    assert Tabs(1) == "\t" && Tabs(2) == "\t\t";
    LetterLine('a', 1);
    LetterLine('b', 1);
    LetterLine('c', 2);
  }

  lemma LetterLine(c: char, depth: nat)
    requires 'a' <= c <= 'z'
    ensures Line(depth, [c], true) == Tabs(depth) + ("\"" + [c] + "\"") + ":\t"
    ensures Line(depth, [c], false) == "\"" + [c] + "\"" + ":"
  {
    QuotedLetter(c);
    hide Quoted, Tabs;
  }

  lemma NestedIsPrintable()
    ensures Printable(Nested())
    ensures PrintableMembers([Member("c", False)]) && Printable(Array([Null, True]))
    ensures PrintableMembers([Member("a", Array([Null, True])), Member("b", Object([Member("c", False)]))])
    ensures PrintableMembers([Member("b", Object([Member("c", False)]))])
  {
    var items, inner := [Null, True], [Member("c", False)];
    var first, second := Member("a", Array(items)), Member("b", Object(inner));
    assert items[1..] == [True] && [True][1..] == [] && inner[1..] == [];
    assert [first, second][1..] == [second] && [second][1..] == [];
    assert PrintableItems([True]) && PrintableItems(items);
    assert PrintableMembers(inner);
    assert Printable(Object(inner)) && PrintableMembers([second]);
    assert PrintableMembers([first, second]);
  }

  lemma LayoutOf(fmt: bool)
    ensures Printable(Nested())
    ensures
      var items := if fmt then "[null, true]" else "[null,true]";
      var open, end, more := if fmt then "{\n" else "{", if fmt then "\n" else "", if fmt then ",\n" else ",";
      Print(Nested(), 0, fmt) ==
      open
      + (Line(1, "a", fmt) + items + more
         + (Line(1, "b", fmt) + open + (Line(2, "c", fmt) + "false" + end) + ((if fmt then "\t" else "") + "}" + end)))
      + "}"
  {
    hide *;
    var open, end, more := if fmt then "{\n" else "{", if fmt then "\n" else "", if fmt then ",\n" else ",";
    var inner, third := [Member("c", False)], Member("c", False);
    var first, second := Member("a", Array([Null, True])), Member("b", Object(inner));
    NestedIsPrintable();
    LayoutOfItems(fmt);
    SmallTexts(fmt);
    ObjectLayout(inner, 1, fmt);
    ObjectLayout([first, second], 0, fmt);
    OneMember(third, 2, fmt);
    OneMember(second, 1, fmt);
    TwoMembers(first, second, 1, fmt);
    var items := if fmt then "[null, true]" else "[null,true]";
    Regroup(Line(1, "a", fmt) + items + more, Line(1, "b", fmt), open, Line(2, "c", fmt) + "false" + end,
            if fmt then "\t" else "", end);
  }

  lemma Regroup(a: string, b: string, open: string, c: string, tab: string, end: string)
    ensures open + (a + (b + (open + c + tab + "}") + end)) + "" + "}" ==
            open + (a + (b + open + c + (tab + "}" + end))) + "}"
  {
    assert b + (open + c + tab + "}") + end == b + open + c + (tab + "}" + end);
    var body := a + (b + open + c + (tab + "}" + end));
    assert open + body + "" + "}" == open + body + "}";
  }

  lemma SmallTexts(fmt: bool)
    ensures Printable(False) && Print(False, 2, fmt) == "false" && Tabs(0) == "" && Tabs(1) == "\t"
    ensures Nested() == Object([Member("a", Array([Null, True])), Member("b", Object([Member("c", False)]))])
    ensures Printable(Object([Member("c", False)]))
  {
    NestedIsPrintable();
  }

  lemma LayoutOfItems(fmt: bool)
    ensures Print(Array([Null, True]), 1, fmt) == if fmt then "[null, true]" else "[null,true]"
  {
    var items := [Null, True];
    assert items[1..] == [True] && [True][1..] == [];
    assert PrintItems([True], 2, fmt) == "true" + "" + "";
    assert PrintItems(items, 2, fmt) == "null" + (if fmt then ", " else ",") + ("true" + "" + "");
  }

  lemma ObjectLayout(members: seq<Member>, depth: nat, fmt: bool)
    requires members != [] && PrintableMembers(members)
    ensures Print(Object(members), depth, fmt) ==
            (if fmt then "{\n" else "{") + PrintMembers(members, depth + 1, fmt)
            + (if fmt then Tabs(depth) else "") + "}"
  {
    hide PrintMembers, Tabs;
    assert "{" + PrintMembers(members, depth + 1, fmt) + "" == "{" + PrintMembers(members, depth + 1, fmt);
  }

  lemma OneMember(m: Member, depth: nat, fmt: bool)
    requires PrintableMembers([m])
    ensures [m][1..] == [] && Printable(m.value)
    ensures PrintMembers([m], depth, fmt) ==
            Line(depth, m.name, fmt) + Print(m.value, depth, fmt) + if fmt then "\n" else ""
  {
    assert [m][1..] == [];
    hide Quoted, Print, Tabs;
    var start, value := MemberStart(m.name, depth, fmt), Print(m.value, depth, fmt);
    var end := if fmt then "\n" else "";
    assert MemberEnd(true, fmt) == "" + end == end;
    assert PrintMembers([m], depth, fmt) == start + value + end + "";
  }

  lemma TwoMembers(m: Member, n: Member, depth: nat, fmt: bool)
    requires PrintableMembers([m, n])
    ensures [m, n][1..] == [n] && Printable(m.value) && PrintableMembers([n])
    ensures PrintMembers([m, n], depth, fmt) ==
            Line(depth, m.name, fmt) + Print(m.value, depth, fmt) + (if fmt then ",\n" else ",")
            + PrintMembers([n], depth, fmt)
  {
    assert [m, n][1..] == [n];
    hide Quoted, Print, Tabs;
    var start, value := MemberStart(m.name, depth, fmt), Print(m.value, depth, fmt);
    var rest := PrintMembers([n], depth, fmt);
    var end := if fmt then ",\n" else ",";
    assert MemberEnd(false, fmt) == end;
    assert PrintMembers([m, n], depth, fmt) == start + value + end + rest;
  }

  lemma QuotedLetter(c: char)
    requires 'a' <= c <= 'z'
    ensures Quoted([c]) == "\"" + [c] + "\""
  {
    assert [c][1..] == "";
    assert Escaped([c]) == Escape(c) + "";
  }
}
