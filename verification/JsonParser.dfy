/** The parser of src/cJSON.c: loops over the text that build the children one after the other. */
module JsonParser {
  import opened Json

  method SkipBlanks(s: CString, i: nat) returns (j: nat)
    requires i <= |s|
    ensures j == Skip(s, i)
  {
    j := i;
    while j < |s| && s[j] <= ' '
      invariant i <= j <= |s| && Skip(s, j) == Skip(s, i)
    {
      j := j + 1;
    }
  }

  method ReadDigits(s: CString, i: nat, n: int) returns (n': int, j: nat)
    requires i <= |s|
    ensures (n', j) == Digits(s, i, n)
  {
    n', j := n, i;
    while j < |s| && IsDigit(s[j])
      invariant i <= j <= |s| && Digits(s, j, n') == Digits(s, i, n)
    {
      n', j := n' * 10 + (s[j] as int - '0' as int), j + 1;
    }
  }

  method ReadExponent(s: CString, i: nat) returns (exponent: int, num: nat)
    requires i <= |s|
    ensures (exponent, num) == ParseExponent(s, i)
  {
    hide Digits;
    exponent, num := 0, i;
    if At0(s, num) == 'e' || At0(s, num) == 'E' {
      num := num + 1;
      var sign := At0(s, num);
      if sign == '+' || sign == '-' { num := num + 1; }
      exponent, num := ReadDigits(s, num, 0);
      if sign == '-' { exponent := -exponent; }
    }
  }

  method ReadNumber(s: CString, i: nat) returns (r: Parsed<Json>)
    requires i <= |s|
    ensures r == ParseNumber(s, i)
  {
    hide Digits, ParseExponent;
    var n, scale, exponent := 0, 0, 0;
    var num: nat := i;
    var negative := At0(s, num) == '-';
    if negative { num := num + 1; }
    if At0(s, num) == '0' { num := num + 1; }
    if '1' <= At0(s, num) <= '9' {
      n, num := ReadDigits(s, num, 0);
    }
    if At0(s, num) == '.' && IsDigit(At0(s, num + 1)) {
      var start := num + 1;
      n, num := ReadDigits(s, start, n);
      scale := start - num;
    }
    exponent, num := ReadExponent(s, num);
    return Parsed(Number(if negative then -n else n, scale + exponent), num);
  }

  lemma PrependTwice(a: string, b: string, r: Parsed<string>)
    ensures Prepend(a + b, r) == Prepend(a, Prepend(b, r))
  {
    if r.Parsed? {
      assert a + b + r.value == a + (b + r.value);
    }
  }

  method ReadString(s: CString, i: nat) returns (r: Parsed<string>)
    requires i <= |s|
    ensures r == ParseString(s, i)
  {
    hide Unescape;
    if At0(s, i) != '"' {
      return Failed;
    }
    var out, ptr := "", i + 1;
    ghost var body := StringBody(s, i + 1);
    assert body.Parsed? ==> "" + body.value == body.value;
    while ptr < |s| && s[ptr] != '"'
      invariant i < ptr <= |s|
      invariant body == Prepend(out, StringBody(s, ptr))
    {
      ghost var rest := StringBody(s, ptr);
      if s[ptr] != '\\' {
        PrependTwice(out, [s[ptr]], StringBody(s, ptr + 1));
        out, ptr := out + [s[ptr]], ptr + 1;
      } else {
        var (bytes, next) := Unescape(s, ptr + 1);
        if next > |s| {
          return Overread;
        }
        UnescapeMoves(s, ptr + 1);
        PrependTwice(out, bytes, StringBody(s, next));
        out, ptr := out + bytes, next;
      }
    }
    assert StringBody(s, ptr) == Parsed("", ptr);
    assert out + "" == out;
    if At0(s, ptr) == '"' {
      ptr := ptr + 1;
    }
    return Parsed(out, ptr);
  }

  lemma UnescapeMoves(s: CString, i: nat)
    ensures Unescape(s, i).1 > i
  {
  }

  method ReadValue(s: CString, i: nat) returns (r: Parsed<Json>)
    requires i <= |s|
    ensures r == ParseValue(s, i)
    decreases |s| - i, 2
  {
    hide Skip, ParseNumber, ParseString, ParseItems, ParseMembers;
    var c := At0(s, i);
    if StartsAt(s, i, "null") {
      return Parsed(Null, i + 4);
    } else if StartsAt(s, i, "false") {
      return Parsed(False, i + 5);
    } else if StartsAt(s, i, "true") {
      return Parsed(True, i + 4);
    } else if c == '"' {
      var str := ReadString(s, i);
      return match str
             case Parsed(text, p) => Parsed(Str(text), p)
             case Failed => Failed
             case Overread => Overread;
    } else if c == '-' || IsDigit(c) {
      r := ReadNumber(s, i);
    } else if c == '[' {
      r := ReadArray(s, i);
    } else if c == '{' {
      r := ReadObject(s, i);
    } else {
      r := Failed;
    }
  }

  /** The rest of an array in terms of the items already read. */
  function WithItems(before: seq<Json>, r: Parsed<seq<Json>>): Parsed<Json> {
    match r
    case Parsed(items, p) => Parsed(Array(before + items), p)
    case Failed => Failed
    case Overread => Overread
  }

  method ReadArray(s: CString, i: nat) returns (r: Parsed<Json>)
    requires i <= |s| && At0(s, i) == '['
    ensures r == ParseValue(s, i)
    decreases |s| - i, 1
  {
    hide Skip, ParseValue, ParseItems, WithItems;
    ArrayIs(s, i);
    var p := SkipBlanks(s, i + 1);
    if At0(s, p) == ']' {
      return Parsed(Array([]), p + 1);
    }
    var items := [];
    while true
      invariant i < p <= |s|
      invariant ParseValue(s, i) == WithItems(items, ParseItems(s, p))
      decreases |s| - p
    {
      ItemsStep(s, p, items);
      var v := ReadValue(s, p);
      if !v.Parsed? {
        return if v.Failed? then Failed else Overread;
      }
      items := items + [v.value];
      p := SkipBlanks(s, v.pos);
      if At0(s, p) == ',' {
        p := SkipBlanks(s, p + 1);
      } else if At0(s, p) == ']' {
        return Parsed(Array(items), p + 1);
      } else {
        return Failed;
      }
    }
  }

  lemma ArrayIs(s: CString, i: nat)
    requires i <= |s| && At0(s, i) == '['
    ensures
      var j := Skip(s, i + 1);
      ParseValue(s, i) ==
        if At0(s, j) == ']' then Parsed(Array([]), j + 1) else WithItems([], ParseItems(s, j))
  {
    hide Skip, ParseItems, ParseValue, WithItems;
    Dispatch(s, i);
    WithNone(ParseItems(s, Skip(s, i + 1)));
  }

  lemma WithNone(r: Parsed<seq<Json>>)
    ensures WithItems([], r) ==
            if r.Parsed? then Parsed(Array(r.value), r.pos) else if r.Failed? then Failed else Overread
  {
    if r.Parsed? {
      assert [] + r.value == r.value;
    }
  }

  lemma ItemsStep(s: CString, p: nat, before: seq<Json>)
    requires p <= |s|
    ensures
      var v := ParseValue(s, p);
      WithItems(before, ParseItems(s, p)) ==
        match v
        case Failed => Failed
        case Overread => Overread
        case Parsed(x, q) =>
          var j := Skip(s, q);
          if At0(s, j) == ',' then WithItems(before + [x], ParseItems(s, Skip(s, j + 1)))
          else if At0(s, j) == ']' then Parsed(Array(before + [x]), j + 1)
          else Failed
  {
    hide Skip, ParseValue;
    var v := ParseValue(s, p);
    if v.Parsed? {
      var j := Skip(s, v.pos);
      if At0(s, j) == ',' {
        var rest := ParseItems(s, Skip(s, j + 1));
        if rest.Parsed? {
          assert before + ([v.value] + rest.value) == before + [v.value] + rest.value;
        }
      }
    }
  }

  function WithMembers(before: seq<Member>, r: Parsed<seq<Member>>): Parsed<Json> {
    match r
    case Parsed(members, p) => Parsed(Object(before + members), p)
    case Failed => Failed
    case Overread => Overread
  }

  method ReadObject(s: CString, i: nat) returns (r: Parsed<Json>)
    requires i <= |s| && At0(s, i) == '{'
    ensures r == ParseValue(s, i)
    decreases |s| - i, 1
  {
    hide Skip, ParseValue, ParseString, ParseMembers, WithMembers;
    ObjectIs(s, i);
    var p := SkipBlanks(s, i + 1);
    if At0(s, p) == '}' {
      return Parsed(Object([]), p + 1);
    }
    var members := [];
    while true
      invariant i < p <= |s|
      invariant ParseValue(s, i) == WithMembers(members, ParseMembers(s, p))
      decreases |s| - p
    {
      MembersStep(s, p, members);
      var name := ReadString(s, p);
      if !name.Parsed? {
        return if name.Failed? then Failed else Overread;
      }
      var colon := SkipBlanks(s, name.pos);
      if At0(s, colon) != ':' {
        return Failed;
      }
      var start := SkipBlanks(s, colon + 1);
      var v := ReadValue(s, start);
      if !v.Parsed? {
        return if v.Failed? then Failed else Overread;
      }
      members := members + [Member(name.value, v.value)];
      p := SkipBlanks(s, v.pos);
      if At0(s, p) == ',' {
        p := SkipBlanks(s, p + 1);
      } else if At0(s, p) == '}' {
        return Parsed(Object(members), p + 1);
      } else {
        return Failed;
      }
    }
  }

  lemma ObjectIs(s: CString, i: nat)
    requires i <= |s| && At0(s, i) == '{'
    ensures
      var j := Skip(s, i + 1);
      ParseValue(s, i) ==
        if At0(s, j) == '}' then Parsed(Object([]), j + 1) else WithMembers([], ParseMembers(s, j))
  {
    hide Skip, ParseMembers, ParseValue;
    Dispatch(s, i);
    var r := ParseMembers(s, Skip(s, i + 1));
    if r.Parsed? {
      assert [] + r.value == r.value;
    }
  }

  lemma MembersStep(s: CString, p: nat, before: seq<Member>)
    requires p <= |s|
    ensures
      var m := ParseMember(s, p);
      WithMembers(before, ParseMembers(s, p)) ==
        match m
        case Failed => Failed
        case Overread => Overread
        case Parsed(x, q) =>
          var j := Skip(s, q);
          if At0(s, j) == ',' then WithMembers(before + [x], ParseMembers(s, Skip(s, j + 1)))
          else if At0(s, j) == '}' then Parsed(Object(before + [x]), j + 1)
          else Failed
  {
    hide Skip, ParseMember;
    var m := ParseMember(s, p);
    if m.Parsed? {
      var j := Skip(s, m.pos);
      if At0(s, j) == ',' {
        var rest := ParseMembers(s, Skip(s, j + 1));
        if rest.Parsed? {
          assert before + ([m.value] + rest.value) == before + [m.value] + rest.value;
        }
      }
    }
  }
}
