/**
  The printer of src/cJSON.c that works without a buffer: it allocates each text at the size
  it computed beforehand.  Arrays make every write past a computed size an error.
 */
module JsonPrinter {
  import opened Json
  import opened JsonRoundTrip
  import opened Slices

  /** The C string that starts at a position of a buffer. */
  predicate TextAt(buf: array<char>, at: nat, text: string)
    reads buf
  {
    && at + |text| < buf.Length
    && buf[at..at + |text|] == text
    && buf[at + |text|] == '\0'
  }

  /** memcpy: text goes to buf at a position. */
  method CopyAt(buf: array<char>, at: nat, text: string)
    requires at + |text| <= buf.Length
    modifies buf
    ensures buf[..at + |text|] == old(buf[..at]) + text
    ensures buf[at + |text|..] == old(buf[at + |text|..])
  {
    for k := 0 to |text|
      invariant buf[..at + k] == old(buf[..at]) + text[..k]
      invariant buf[at + |text|..] == old(buf[at + |text|..])
    {
      buf[at + k] := text[k];
    }
  }

  /** The last character of a text and the NUL behind it. */
  method PutLast(buf: array<char>, ptr: nat, c: char, ghost head: string, ghost text: string)
    requires ptr + 1 < buf.Length && buf[..ptr] == head + text
    modifies buf
    ensures buf[..|head|] == head && TextAt(buf, |head|, text + [c])
  {
    buf[ptr] := c;
    buf[ptr + 1] := '\0';
    assert buf[..ptr] == head + text;
    assert buf[..ptr + 1] == buf[..ptr] + [c];
    SplitText(buf[..ptr + 1], head, text, c);
    assert buf[|head|..ptr + 1] == buf[..ptr + 1][|head|..];
    assert buf[..|head|] == buf[..ptr + 1][..|head|];
  }

  lemma SplitText(all: string, head: string, text: string, c: char)
    requires all == head + text + [c]
    ensures all[..|head|] == head && all[|head|..] == text + [c]
  {
    assert all == head + (text + [c]);
  }

  /** strlen. */
  method Length(buf: array<char>, at: nat, ghost text: string) returns (n: nat)
    requires NulFree(text) && TextAt(buf, at, text)
    ensures n == |text|
  {
    n := 0;
    assert forall k :: 0 <= k < |text| ==> buf[at + k] == buf[at..at + |text|][k] && text[k] in text;
    while buf[at + n] != '\0'
      invariant n <= |text|
      decreases |text| - n
    {
      n := n + 1;
    }
  }

  /** The size print_string_ptr asks for: two quotes, a NUL and the escaped characters. */
  method StringSize(str: string) returns (size: nat)
    requires NulFree(str)
    ensures size == |Quoted(str)| + 1
  {
    var flag := false;
    for k := 0 to |str|
      invariant !flag ==> forall i :: 0 <= i < k ==> Escape(str[i]) == [str[i]]
    {
      if str[k] < ' ' || str[k] == '"' || str[k] == '\\' {
        flag := true;
      }
    }
    if !flag {
      NothingToEscape(str);
      return |str| + 3;
    }
    var len := 0;
    for k := 0 to |str|
      invariant len + |Escaped(str[k..])| == |Escaped(str)|
    {
      assert str[k..][0] == str[k] && str[k..][1..] == str[k + 1..];
      var c := str[k];
      len := len + 1;
      if c == '"' || c == '\\' || c as int == 8 || c as int == 12 || c == '\n' || c == '\r' || c == '\t' {
        len := len + 1;
      } else if c < ' ' {
        len := len + 5;
      }
    }
    return len + 3;
  }

  lemma {:induction false} NothingToEscape(str: string)
    requires forall i :: 0 <= i < |str| ==> Escape(str[i]) == [str[i]]
    ensures Escaped(str) == str
  {
    if str != "" {
      NothingToEscape(str[1..]);
      assert str == [str[0]] + str[1..];
    }
  }

  /** print_string_ptr, into room that is large enough. */
  method WriteString(buf: array<char>, at: nat, str: string)
    requires NulFree(str) && at + |Quoted(str)| + 1 <= buf.Length
    modifies buf
    ensures buf[..at] == old(buf[..at]) && TextAt(buf, at, Quoted(str))
  {
    hide Escape, TextAt;
    ghost var head := buf[..at];
    buf[at] := '"';
    var ptr := at + 1;
    ghost var done := "\"";
    assert str[0..] == str;
    assert buf[..ptr] == head + done;
    for k := 0 to |str|
      invariant at < ptr && ptr + |Escaped(str[k..])| == at + 1 + |Escaped(str)|
      invariant buf[..ptr] == head + done && done + Escaped(str[k..]) == "\"" + Escaped(str)
    {
      var e := Escape(str[k]);
      assert str[k..][0] == str[k] && str[k..][1..] == str[k + 1..];
      Assoc3(done, e, [], Escaped(str[k + 1..]));
      Assoc3(head, done, e, []);
      CopyAt(buf, ptr, e);
      ptr, done := ptr + |e|, done + e;
    }
    assert Escaped(str[|str|..]) == "";
    assert Quoted(str) == done + ['"'];
    PutLast(buf, ptr, '"', head, done);
  }

  // ----- Printing into fresh memory ---------------------------------------------------

  method Allocated(text: string) returns (out: array<char>)
    ensures fresh(out) && TextAt(out, 0, text)
  {
    out := new char[|text| + 1];
    CopyAt(out, 0, text);
    out[|text|] := '\0';
    assert out[0..|text|] == out[..|text|];
  }

  lemma {:induction false} DecimalIsShort(n: nat, k: nat)
    requires k > 0 && n < Pow10(k)
    ensures |Decimal(n)| <= k
    decreases n
  {
    if n >= 10 {
      DecimalIsShort(n / 10, k - 1);
    }
  }

  function Pow10(k: nat): nat {
    if k == 0 then 1 else 10 * Pow10(k - 1)
  }

  lemma IntegerIsShort(n: int)
    requires -0x8000_0000 <= n < 0x8000_0000
    ensures 0 < |Integer(n)| <= 11
    ensures n == 0 ==> |Integer(n)| == 1
  {
    assert Pow10(10) == 10 * 10 * 10 * 10 * 10 * 10 * 10 * 10 * 10 * 10;
    DecimalIsShort(if n < 0 then -n else n, 10);
    DecimalIsSolid(if n < 0 then -n else n);
  }

  /** Two characters for zero, room for 21 otherwise. */
  method PrintNumber(n: int) returns (out: array<char>)
    requires -0x8000_0000 <= n < 0x8000_0000
    ensures fresh(out) && out.Length == (if n == 0 then 2 else 21) && TextAt(out, 0, Integer(n))
  {
    hide Decimal;
    IntegerIsShort(n);
    out := new char[if n == 0 then 2 else 21];
    var text := Integer(n);
    CopyAt(out, 0, text);
    out[|text|] := '\0';
    assert out[0..|text|] == out[..|text|];
  }

  /** print_value without a buffer: every text is allocated at the size computed for it. */
  method PrintValue(t: Json, depth: nat, fmt: bool) returns (out: array<char>)
    requires Printable(t)
    ensures fresh(out) && TextAt(out, 0, Print(t, depth, fmt))
    decreases t, 1
  {
    match t {
      case Null => out := Allocated("null");
      case False => out := Allocated("false");
      case True => out := Allocated("true");
      case Number(n, _) => out := PrintNumber(n);
      case Str(str) =>
        var size := StringSize(str);
        out := new char[size];
        WriteString(out, 0, str);
      case Array(items) => out := PrintArray(items, depth, fmt);
      case Object(members) => out := PrintObject(members, depth, fmt);
    }
  }

  // Texts of the children, put together.

  function JoinItems(texts: seq<string>, i: nat, fmt: bool): string
    requires i <= |texts|
    decreases |texts| - i
  {
    if i == |texts| then "" else texts[i] + Separator(i == |texts| - 1, fmt) + JoinItems(texts, i + 1, fmt)
  }

  function JoinMembers(names: seq<string>, texts: seq<string>, i: nat, depth: nat, fmt: bool): string
    requires i <= |texts| == |names|
    decreases |texts| - i
  {
    if i == |texts| then ""
    else
      MemberText(names[i], texts[i], i == |texts| - 1, depth, fmt) + JoinMembers(names, texts, i + 1, depth, fmt)
  }

  ghost predicate ItemTexts(items: seq<Json>, texts: seq<string>, depth: nat, fmt: bool) {
    && PrintableItems(items) && |texts| == |items|
    && forall k :: 0 <= k < |items| ==> Printable(items[k]) && texts[k] == Print(items[k], depth, fmt)
  }

  lemma {:induction false} JoinIsPrintItems(items: seq<Json>, texts: seq<string>, i: nat, depth: nat, fmt: bool)
    requires i <= |items| && ItemTexts(items, texts, depth, fmt)
    ensures PrintableItems(items[i..])
    ensures JoinItems(texts, i, fmt) == PrintItems(items[i..], depth, fmt)
    decreases |items| - i
  {
    hide Print, Printable, Separator;
    ItemsFrom(items, i);
    if i < |items| {
      JoinIsPrintItems(items, texts, i + 1, depth, fmt);
      assert items[i..][0] == items[i] && items[i..][1..] == items[i + 1..];
    }
  }

  lemma {:induction false} ItemsFrom(items: seq<Json>, i: nat)
    requires i <= |items| && PrintableItems(items)
    ensures PrintableItems(items[i..])
    ensures i < |items| ==> Printable(items[i])
    decreases i
  {
    hide Printable;
    if i == 0 {
      assert items[0..] == items;
    } else {
      ItemsFrom(items[1..], i - 1);
      assert items[1..][i - 1..] == items[i..];
    }
  }

  lemma {:induction false} MembersFrom(members: seq<Member>, i: nat)
    requires i <= |members| && PrintableMembers(members)
    ensures PrintableMembers(members[i..])
    ensures i < |members| ==> NulFree(members[i].name) && Printable(members[i].value)
    decreases i
  {
    hide Printable;
    if i == 0 {
      assert members[0..] == members;
    } else {
      MembersFrom(members[1..], i - 1);
      assert members[1..][i - 1..] == members[i..];
    }
  }

  /** What one item adds to the size computed beforehand. */
  function ItemRoom(text: string, fmt: bool): nat {
    |text| + 2 + if fmt then 1 else 0
  }

  function ItemsRoom(texts: seq<string>, i: nat, fmt: bool): nat
    requires i <= |texts|
    decreases |texts| - i
  {
    if i == |texts| then 0 else ItemRoom(texts[i], fmt) + ItemsRoom(texts, i + 1, fmt)
  }

  lemma {:induction false} ItemsRoomOfLonger(texts: seq<string>, text: string, i: nat, fmt: bool)
    requires i <= |texts|
    ensures ItemsRoom(texts + [text], i, fmt) == ItemsRoom(texts, i, fmt) + ItemRoom(text, fmt)
    decreases |texts| - i
  {
    if i < |texts| {
      ItemsRoomOfLonger(texts, text, i + 1, fmt);
    } else {
      assert ItemsRoom(texts + [text], i + 1, fmt) == 0;
    }
  }

  lemma {:induction false} JoinFits(texts: seq<string>, i: nat, fmt: bool)
    requires i <= |texts|
    ensures |JoinItems(texts, i, fmt)| <= ItemsRoom(texts, i, fmt)
    decreases |texts| - i
  {
    if i < |texts| {
      JoinFits(texts, i + 1, fmt);
    }
  }

  /** The texts of an array's items between brackets, in the room computed for them. */
  method ComposeArray(texts: seq<string>, fmt: bool, len: nat) returns (out: array<char>)
    requires len == 5 + ItemsRoom(texts, 0, fmt)
    ensures fresh(out) && TextAt(out, 0, "[" + JoinItems(texts, 0, fmt) + "]")
  {
    hide ItemsRoom, TextAt, Separator;
    JoinFits(texts, 0, fmt);
    out := new char[len];
    ghost var whole := JoinItems(texts, 0, fmt);
    out[0] := '[';
    var ptr := 1;
    ghost var done := "[";
    for i := 0 to |texts|
      invariant 0 < ptr && ptr + |JoinItems(texts, i, fmt)| == 1 + |whole|
      invariant out[..ptr] == done && done + JoinItems(texts, i, fmt) == "[" + whole
    {
      var sep := Separator(i == |texts| - 1, fmt);
      Assoc3(done, texts[i], sep, JoinItems(texts, i + 1, fmt));
      CopyAt(out, ptr, texts[i]);
      ptr, done := ptr + |texts[i]|, done + texts[i];
      CopyAt(out, ptr, sep);
      ptr, done := ptr + |sep|, done + sep;
    }
    assert done == [] + done && done == "[" + whole;
    PutLast(out, ptr, ']', [], done);
  }

  method PrintArray(items: seq<Json>, depth: nat, fmt: bool) returns (out: array<char>)
    requires PrintableItems(items)
    ensures fresh(out) && TextAt(out, 0, Print(Array(items), depth, fmt))
    decreases items, 0
  {
    hide Print, Printable, TextAt, JoinItems, ItemsRoom, NulFree;
    ArrayText(items, depth, fmt);
    if items == [] {
      assert "[" + "" + "]" == "[]";
      out := Allocated("[]");
      return;
    }
    var len := 5;
    var entries: seq<string> := [];
    RoomOfNone(fmt);
    for i := 0 to |items|
      invariant |entries| == i && len == 5 + ItemsRoom(entries, 0, fmt)
      invariant forall k :: 0 <= k < i ==> Printable(items[k]) && entries[k] == Print(items[k], depth + 1, fmt)
    {
      ItemsFrom(items, i);
      var ret := PrintValue(items[i], depth + 1, fmt);
      PrintIsText(items[i], depth + 1, fmt);
      var text := TextOf(ret, Print(items[i], depth + 1, fmt));
      ItemsRoomOfLonger(entries, text, 0, fmt);
      entries := entries + [text];
      len := len + |text| + 2 + if fmt then 1 else 0;
    }
    JoinIsPrintItems(items, entries, 0, depth + 1, fmt);
    assert items[0..] == items;
    out := ComposeArray(entries, fmt, len);
  }

  lemma RoomOfNone(fmt: bool)
    ensures ItemsRoom([], 0, fmt) == 0
  {
  }

  /** Reading a C string out of a buffer. */
  method TextOf(buf: array<char>, ghost text: string) returns (s: string)
    requires NulFree(text) && TextAt(buf, 0, text)
    ensures s == text
  {
    var n := Length(buf, 0, text);
    s := buf[..n];
    assert buf[0..n] == buf[..n];
  }

  // ----- Objects -----------------------------------------------------------------------

  function MemberRoom(name: string, text: string, depth: nat, fmt: bool): nat {
    |text| + |name| + 2 + if fmt then 2 + depth else 0
  }

  function MembersRoom(names: seq<string>, texts: seq<string>, i: nat, depth: nat, fmt: bool): nat
    requires i <= |texts| == |names|
    decreases |texts| - i
  {
    if i == |texts| then 0
    else MemberRoom(names[i], texts[i], depth, fmt) + MembersRoom(names, texts, i + 1, depth, fmt)
  }

  lemma {:induction false} MembersRoomOfLonger(
      names: seq<string>, texts: seq<string>, name: string, text: string, i: nat, depth: nat, fmt: bool)
    requires i <= |texts| == |names|
    ensures MembersRoom(names + [name], texts + [text], i, depth, fmt) ==
            MembersRoom(names, texts, i, depth, fmt) + MemberRoom(name, text, depth, fmt)
    decreases |texts| - i
  {
    if i < |texts| {
      MembersRoomOfLonger(names, texts, name, text, i + 1, depth, fmt);
    } else {
      assert MembersRoom(names + [name], texts + [text], i + 1, depth, fmt) == 0;
    }
  }

  lemma {:induction false} JoinMembersFits(names: seq<string>, texts: seq<string>, i: nat, depth: nat, fmt: bool)
    requires i <= |texts| == |names|
    ensures |JoinMembers(names, texts, i, depth, fmt)| <= MembersRoom(names, texts, i, depth, fmt)
    decreases |texts| - i
  {
    if i < |texts| {
      JoinMembersFits(names, texts, i + 1, depth, fmt);
    }
  }

  ghost predicate MemberTexts(
      members: seq<Member>, names: seq<string>, texts: seq<string>, depth: nat, fmt: bool) {
    && PrintableMembers(members) && |texts| == |names| == |members|
    && forall k :: 0 <= k < |members| ==>
         && Printable(members[k].value) && names[k] == Quoted(members[k].name)
         && texts[k] == Print(members[k].value, depth, fmt)
  }

  lemma {:induction false} JoinIsPrintMembers(
      members: seq<Member>, names: seq<string>, texts: seq<string>, i: nat, depth: nat, fmt: bool)
    requires i <= |members| && MemberTexts(members, names, texts, depth, fmt)
    ensures PrintableMembers(members[i..])
    ensures JoinMembers(names, texts, i, depth, fmt) == PrintMembers(members[i..], depth, fmt)
    decreases |members| - i
  {
    hide Print, Printable, MemberEnd, Quoted, Tabs;
    MembersFrom(members, i);
    if i < |members| {
      JoinIsPrintMembers(members, names, texts, i + 1, depth, fmt);
      assert members[i..][0] == members[i] && members[i..][1..] == members[i + 1..];
    }
  }

  /** The members of an object between braces, in the room computed for them. */
  method ComposeObject(names: seq<string>, texts: seq<string>, depth: nat, fmt: bool, len: nat)
      returns (out: array<char>)
    requires |texts| == |names| && depth > 0
    requires len == 7 + (if fmt then depth else 0) + MembersRoom(names, texts, 0, depth, fmt)
    ensures fresh(out)
    ensures TextAt(out, 0, (if fmt then "{\n" else "{") + JoinMembers(names, texts, 0, depth, fmt)
                             + (if fmt then Tabs(depth - 1) else "") + "}")
  {
    hide MembersRoom, TextAt, MemberText, JoinMembers, Tabs;
    JoinMembersFits(names, texts, 0, depth, fmt);
    out := new char[len];
    var open := if fmt then "{\n" else "{";
    ghost var whole := JoinMembers(names, texts, 0, depth, fmt);
    CopyAt(out, 0, open);
    var ptr := |open|;
    ghost var done := open;
    for i := 0 to |texts|
      invariant 0 < ptr && ptr + |JoinMembers(names, texts, i, depth, fmt)| == |open| + |whole|
      invariant out[..ptr] == done && done + JoinMembers(names, texts, i, depth, fmt) == open + whole
    {
      ghost var piece := MemberText(names[i], texts[i], i == |texts| - 1, depth, fmt);
      JoinMembersStep(names, texts, i, depth, fmt, done);
      ptr := ComposeMember(out, ptr, names[i], texts[i], i == |texts| - 1, depth, fmt);
      done := done + piece;
    }
    JoinMembersEnd(names, texts, depth, fmt);
    assert done == open + whole;
    CloseObject(out, ptr, depth, fmt, done);
  }

  lemma JoinMembersStep(names: seq<string>, texts: seq<string>, i: nat, depth: nat, fmt: bool, done: string)
    requires i < |texts| == |names|
    ensures
      var piece, rest := MemberText(names[i], texts[i], i == |texts| - 1, depth, fmt),
                         JoinMembers(names, texts, i + 1, depth, fmt);
      && JoinMembers(names, texts, i, depth, fmt) == piece + rest
      && done + JoinMembers(names, texts, i, depth, fmt) == done + piece + rest
  {
    hide MemberText;
    Assoc3(done, MemberText(names[i], texts[i], i == |texts| - 1, depth, fmt), [],
           JoinMembers(names, texts, i + 1, depth, fmt));
  }

  lemma JoinMembersEnd(names: seq<string>, texts: seq<string>, depth: nat, fmt: bool)
    requires |texts| == |names|
    ensures JoinMembers(names, texts, |texts|, depth, fmt) == ""
  {
  }

  method CloseObject(out: array<char>, ptr: nat, depth: nat, fmt: bool, ghost done: string)
    requires depth > 0 && ptr + (if fmt then depth - 1 else 0) + 1 < out.Length && out[..ptr] == done
    modifies out
    ensures TextAt(out, 0, done + (if fmt then Tabs(depth - 1) else "") + "}")
  {
    hide TextAt;
    var close := if fmt then Tabs(depth - 1) else "";
    CopyAt(out, ptr, close);
    assert done + close == [] + (done + close);
    PutLast(out, ptr + |close|, '}', [], done + close);
  }

  function NameText(name: string, depth: nat, fmt: bool): string {
    (if fmt then Tabs(depth) else "") + name + (if fmt then ":\t" else ":")
  }

  function MemberText(name: string, text: string, last: bool, depth: nat, fmt: bool): string {
    NameText(name, depth, fmt) + text + MemberEnd(last, fmt)
  }

  method ComposeName(out: array<char>, at: nat, name: string, depth: nat, fmt: bool) returns (ptr: nat)
    requires at + |NameText(name, depth, fmt)| <= out.Length
    modifies out
    ensures ptr == at + |NameText(name, depth, fmt)|
    ensures out[..ptr] == old(out[..at]) + NameText(name, depth, fmt)
  {
    var tabs := if fmt then Tabs(depth) else "";
    var colon := if fmt then ":\t" else ":";
    Assoc3(out[..at], tabs, name, colon);
    CopyAt(out, at, tabs);
    ptr := at + |tabs|;
    CopyAt(out, ptr, name);
    ptr := ptr + |name|;
    CopyAt(out, ptr, colon);
    ptr := ptr + |colon|;
  }

  method ComposeMember(out: array<char>, at: nat, name: string, text: string, last: bool, depth: nat, fmt: bool)
      returns (ptr: nat)
    requires at + |MemberText(name, text, last, depth, fmt)| <= out.Length
    modifies out
    ensures ptr == at + |MemberText(name, text, last, depth, fmt)|
    ensures out[..ptr] == old(out[..at]) + MemberText(name, text, last, depth, fmt)
  {
    hide NameText, MemberEnd;
    var end := MemberEnd(last, fmt);
    Assoc3(out[..at], NameText(name, depth, fmt), text, end);
    ptr := ComposeName(out, at, name, depth, fmt);
    CopyAt(out, ptr, text);
    ptr := ptr + |text|;
    CopyAt(out, ptr, end);
    ptr := ptr + |end|;
  }

  method PrintObject(members: seq<Member>, depth: nat, fmt: bool) returns (out: array<char>)
    requires PrintableMembers(members)
    ensures fresh(out) && TextAt(out, 0, Print(Object(members), depth, fmt))
    decreases members, 0
  {
    hide Print, Printable, TextAt, JoinMembers, MembersRoom, NulFree, Quoted;
    ObjectIsComposed(members, depth, fmt);
    if members == [] {
      out := PrintEmptyObject(depth, fmt);
      return;
    }
    var inner := depth + 1;
    var len := 7 + if fmt then inner else 0;
    var names, entries: seq<string> := [], [];
    MembersRoomOfNone(inner, fmt);
    for i := 0 to |members|
      invariant |entries| == |names| == i
      invariant len == 7 + (if fmt then inner else 0) + MembersRoom(names, entries, 0, inner, fmt)
      invariant forall k :: 0 <= k < i ==>
                  && Printable(members[k].value) && names[k] == Quoted(members[k].name)
                  && entries[k] == Print(members[k].value, inner, fmt)
    {
      MembersFrom(members, i);
      var str := PrintName(members[i].name);
      var ret := PrintValue(members[i].value, inner, fmt);
      PrintIsText(members[i].value, inner, fmt);
      var text := TextOf(ret, Print(members[i].value, inner, fmt));
      MembersRoomOfLonger(names, entries, str, text, 0, inner, fmt);
      names, entries := names + [str], entries + [text];
      len := len + |text| + |str| + 2 + if fmt then 2 + inner else 0;
    }
    JoinIsPrintMembers(members, names, entries, 0, inner, fmt);
    assert members[0..] == members;
    out := ComposeObject(names, entries, inner, fmt, len);
  }

  lemma MembersRoomOfNone(depth: nat, fmt: bool)
    ensures MembersRoom([], [], 0, depth, fmt) == 0
  {
  }

  lemma ObjectIsComposed(members: seq<Member>, depth: nat, fmt: bool)
    requires PrintableMembers(members)
    ensures members != [] ==>
              Print(Object(members), depth, fmt) ==
              (if fmt then "{\n" else "{") + PrintMembers(members, depth + 1, fmt)
                + (if fmt then Tabs(depth + 1 - 1) else "") + "}"
    ensures members == [] ==> Print(Object(members), depth, fmt) == EmptyObject(depth, fmt)
  {
    hide PrintMembers;
  }

  function EmptyObject(depth: nat, fmt: bool): string {
    if fmt then "{\n" + Tabs(if depth > 0 then depth - 1 else 0) + "}" else "{}"
  }

  method PrintName(name: string) returns (str: string)
    requires NulFree(name)
    ensures str == Quoted(name)
  {
    hide Quoted;
    var size := StringSize(name);
    var out := new char[size];
    QuotedIsNulFree(name);
    WriteString(out, 0, name);
    str := TextOf(out, Quoted(name));
  }

  lemma QuotedIsNulFree(name: string)
    requires NulFree(name)
    ensures NulFree(Quoted(name))
  {
    EscapedIsNulFree(name);
  }

  method PrintEmptyObject(depth: nat, fmt: bool) returns (out: array<char>)
    ensures fresh(out) && TextAt(out, 0, EmptyObject(depth, fmt))
  {
    out := new char[if fmt then depth + 4 else 3];
    WriteEmptyObject(out, 0, depth, fmt);
  }

  /** "{}", with a line break and depth - 1 tabs when formatted. */
  method WriteEmptyObject(buf: array<char>, at: nat, depth: nat, fmt: bool)
    requires at + (if fmt then depth + 4 else 3) <= buf.Length
    modifies buf
    ensures buf[..at] == old(buf[..at]) && TextAt(buf, at, EmptyObject(depth, fmt))
  {
    ghost var before := buf[..at];
    buf[at] := '{';
    var ptr := at + 1;
    if fmt {
      buf[ptr] := '\n';
      ptr := ptr + 1;
      var tabs := Tabs(if depth > 0 then depth - 1 else 0);
      CopyAt(buf, ptr, tabs);
      ptr := ptr + |tabs|;
    }
    buf[ptr] := '}';
    buf[ptr + 1] := '\0';
    assert buf[..ptr + 1] == before + EmptyObject(depth, fmt);
  }
}
