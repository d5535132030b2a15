/**
  What src/cJSON.c refuses, skips and drops: blanks between tokens, texts that are no value,
  separators out of place, and escapes that stand for no character.
 */
module JsonRefusals {
  import opened Json
  import opened JsonLiterals

  /** Blanks are all characters up to the space, and skipping stops at the first other one. */
  lemma {:induction false} SkipExactly(s: CString, i: nat, j: nat)
    requires i <= j <= |s|
    ensures Skip(s, i) == j <==> (forall k :: i <= k < j ==> s[k] as int <= 32) && (j < |s| ==> s[j] as int > 32)
    decreases |s| - i
  {
    if i < j && s[i] <= ' ' {
      SkipExactly(s, i + 1, j);
    }
    if i == j && i < |s| && s[i] <= ' ' {
      assert Skip(s, i + 1) > i;
    }
  }

  /** Where no value starts: at the end, at another character, and at a misspelt word. */
  predicate NoValueAt(s: CString, i: nat) {
    i >= |s| ||
    (match s[i]
     case 'n' => i + 4 > |s| || s[i..i + 4] != "null"
     case 't' => i + 4 > |s| || s[i..i + 4] != "true"
     case 'f' => i + 5 > |s| || s[i..i + 5] != "false"
     case c => !('0' <= c <= '9') && c !in {'-', '"', '[', '{'})
  }

  lemma NoValueIsRefused(s: CString, i: nat)
    requires i <= |s| && NoValueAt(s, i)
    ensures ParseValue(s, i) == Failed
  {
    hide ParseArray, ParseObject, ParseNumber, ParseString;
    StartsBy(s, i, "null");
    StartsBy(s, i, "false");
    StartsBy(s, i, "true");
  }

  /** An array: empty, of one item, or refused for what stands where a comma or the end should. */
  lemma ArrayOutcomes(s: CString, i: nat)
    requires i < |s| && s[i] == '['
    ensures
      var first := Skip(s, i + 1);
      && (At0(s, first) == ']' ==> ParseValue(s, i) == Parsed(Array([]), first + 1))
      && (At0(s, first) != ']' && !ParseValue(s, first).Parsed? ==> !ParseValue(s, i).Parsed?)
      && (At0(s, first) != ']' && ParseValue(s, first).Parsed? ==>
            var v := ParseValue(s, first);
            var next := Skip(s, v.pos);
            && (At0(s, next) == ']' ==> ParseValue(s, i) == Parsed(Array([v.value]), next + 1))
            && (At0(s, next) == ',' && NoValueAt(s, Skip(s, next + 1)) ==> ParseValue(s, i) == Failed)
            && (At0(s, next) != ']' && At0(s, next) != ',' ==> ParseValue(s, i) == Failed))
  {
    hide Skip, ParseObject, ParseNumber, ParseString, NoValueAt, ParseValue;
    Dispatch(s, i);
    var first := Skip(s, i + 1);
    if At0(s, first) != ']' && ParseValue(s, first).Parsed? {
      var next := Skip(s, ParseValue(s, first).pos);
      if At0(s, next) == ',' && NoValueAt(s, Skip(s, next + 1)) {
        NoValueIsRefused(s, Skip(s, next + 1));
        assert ParseItems(s, Skip(s, next + 1)) == Failed;
      }
    }
  }

  /** An object: empty, of one member, or refused for a name without quotes or colon, or a separator out of place. */
  lemma ObjectOutcomes(s: CString, i: nat)
    requires i < |s| && s[i] == '{'
    ensures
      var first := Skip(s, i + 1);
      && (At0(s, first) == '}' ==> ParseValue(s, i) == Parsed(Object([]), first + 1))
      && (At0(s, first) != '}' && At0(s, first) != '"' ==> ParseValue(s, i) == Failed)
      && (At0(s, first) == '"' && ParseString(s, first).Parsed? ==>
            var name := ParseString(s, first);
            var colon := Skip(s, name.pos);
            && (At0(s, colon) != ':' ==> ParseValue(s, i) == Failed)
            && (At0(s, colon) == ':' && ParseValue(s, Skip(s, colon + 1)).Parsed? ==>
                  var v := ParseValue(s, Skip(s, colon + 1));
                  var next := Skip(s, v.pos);
                  && (At0(s, next) == '}' ==>
                        ParseValue(s, i) == Parsed(Object([Member(name.value, v.value)]), next + 1))
                  && (At0(s, next) == ',' && At0(s, Skip(s, next + 1)) != '"' ==> ParseValue(s, i) == Failed)
                  && (At0(s, next) != '}' && At0(s, next) != ',' ==> ParseValue(s, i) == Failed)))
  {
    hide Skip, ParseValue, ParseMembers, ParseString;
    Dispatch(s, i);
    MembersOutcomes(s, Skip(s, i + 1));
  }

  lemma MembersOutcomes(s: CString, first: nat)
    requires first <= |s|
    ensures At0(s, first) != '"' ==> ParseMembers(s, first) == Failed
    ensures At0(s, first) == '"' && ParseString(s, first).Parsed? ==>
      var name := ParseString(s, first);
      var colon := Skip(s, name.pos);
      && (At0(s, colon) != ':' ==> ParseMembers(s, first) == Failed)
      && (At0(s, colon) == ':' && ParseValue(s, Skip(s, colon + 1)).Parsed? ==>
            var v := ParseValue(s, Skip(s, colon + 1));
            var next := Skip(s, v.pos);
            && (At0(s, next) == '}' ==> ParseMembers(s, first) == Parsed([Member(name.value, v.value)], next + 1))
            && (At0(s, next) == ',' && At0(s, Skip(s, next + 1)) != '"' ==> ParseMembers(s, first) == Failed)
            && (At0(s, next) != '}' && At0(s, next) != ',' ==> ParseMembers(s, first) == Failed))
  {
    hide Skip, ParseValue, ParseString;
    NoName(s, first);
    if At0(s, first) == '"' && ParseString(s, first).Parsed? {
      var colon := Skip(s, ParseString(s, first).pos);
      if At0(s, colon) == ':' && ParseValue(s, Skip(s, colon + 1)).Parsed? {
        var next := Skip(s, ParseValue(s, Skip(s, colon + 1)).pos);
        NoName(s, if At0(s, next) == ',' then Skip(s, next + 1) else first);
      }
    }
  }

  lemma NoName(s: CString, i: nat)
    requires i <= |s|
    ensures At0(s, i) != '"' ==> ParseMembers(s, i) == Failed
  {
    hide Skip, ParseValue, StringBody;
    if At0(s, i) != '"' {
      assert ParseMember(s, i) == Failed;
    }
  }

  /** An escaped character without a meaning of its own stands for itself. */
  lemma OtherEscapes(s: CString, i: nat)
    requires i < |s| && s[i] !in {'b', 'f', 'n', 'r', 't', 'u'}
    ensures Unescape(s, i) == ([s[i]], i + 1)
  {
  }

  /** A low half of a pair, a zero, and a high half with no low one behind it stand for nothing. */
  lemma DroppedEscapes(s: CString, i: nat, uc: nat, low: nat)
    requires HexAt(s, i, uc)
    ensures uc == 0 || 0xDC00 <= uc < 0xE000 ==> Unicode(s, i) == ("", i + 4)
    ensures 0xD800 <= uc < 0xDC00 && !(At0(s, i + 4) == '\\' && At0(s, i + 5) == 'u') ==> Unicode(s, i) == ("", i + 4)
    ensures
      0xD800 <= uc < 0xDC00 && At0(s, i + 4) == '\\' && At0(s, i + 5) == 'u'
      && HexAt(s, i + 6, low) && !(0xDC00 <= low < 0xE000) ==>
        Unicode(s, i) == ("", i + 10)
  {
    hide HexAt, Hex4, Utf8;
    HexIsRead(s, i, uc);
    if HexAt(s, i + 6, low) {
      HexIsRead(s, i + 6, low);
    }
  }
}
