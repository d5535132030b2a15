/**
  The growing-buffer printer of src/cJSON.c (cJSON_PrintBuffered): one buffer, an offset,
  and a reallocation to a power of two when a piece does not fit.
 */
module JsonBuffer {
  import opened Json
  import opened JsonRoundTrip
  import opened JsonPrinter
  import opened Slices

  // ----- pow2gt ------------------------------------------------------------------------

  function Pow2(k: nat): nat {
    if k == 0 then 1 else 2 * Pow2(k - 1)
  }

  /** The least power of two that is at least x. */
  function PowerAtLeast(x: nat): (p: nat)
    ensures x <= p && (exists k :: p == Pow2(k))
    ensures p > 1 ==> p / 2 < x && p % 2 == 0
  {
    PowerFrom(x, 0)
  }

  function PowerFrom(x: nat, k: nat): (p: nat)
    requires k == 0 || Pow2(k - 1) < x
    ensures x <= p && (exists k :: p == Pow2(k))
    ensures p > 1 ==> p / 2 < x && p % 2 == 0
    decreases if Pow2(k) >= x then 0 else x - Pow2(k)
  {
    if Pow2(k) >= x then
      Pow2(k)
    else
      PowerPositive(k);
      PowerFrom(x, k + 1)
  }

  lemma PowerPositive(k: nat)
    ensures Pow2(k) > 0
  {
  }

  /** The bit trick of the source, on 32-bit integers. */
  function Pow2Gt(x: bv32): bv32 {
    var a := x - 1;
    var b := a | (a >> 1);
    var c := b | (b >> 2);
    var d := c | (c >> 4);
    var e := d | (d >> 8);
    var f := e | (e >> 16);
    f + 1
  }

  /** For a request up to 2^30 the trick gives a power of two, large enough and less than twice as large. */
  lemma Pow2GtIsPower(x: bv32)
    requires 0 < x <= 0x4000_0000
    ensures Pow2Gt(x) >= x
    ensures Pow2Gt(x) != 0 && Pow2Gt(x) & (Pow2Gt(x) - 1) == 0
    ensures x > 1 ==> (Pow2Gt(x) >> 1) < x
  {
  }

  /** The least power of two at or above x, if `c` is it. */
  lemma PowerIs(x: bv32, k: nat, c: bv32)
    requires c as int == Pow2(k) && c <= 0x4000_0000 && c & (c - 1) == 0
    requires (c >> 1) < x <= c
    requires x as int <= Pow2(k) && (k == 0 || Pow2(k - 1) < x as int)
    ensures Pow2Gt(x) as int == PowerAtLeast(x as int)
  {
    SmearedTo(x, c);
    PowerFromFound(x as int, 0, k);
  }

  lemma SmearedTo(x: bv32, c: bv32)
    requires 0 != c <= 0x4000_0000 && c & (c - 1) == 0 && (c >> 1) < x <= c
    ensures Pow2Gt(x) == c
  {
  }

  lemma {:induction false} PowerFromFound(n: nat, i: nat, k: nat)
    requires i <= k && n <= Pow2(k) && (k == 0 || Pow2(k - 1) < n) && (i == 0 || Pow2(i - 1) < n)
    ensures PowerFrom(n, i) == Pow2(k)
    decreases k - i
  {
    if i < k {
      PowersGrow(i, k - 1);
      PowerFromFound(n, i + 1, k);
    }
  }

  lemma {:induction false} PowersGrow(i: nat, k: nat)
    requires i <= k
    ensures Pow2(i) <= Pow2(k)
    decreases k - i
  {
    if i < k {
      PowersGrow(i, k - 1);
      PowerPositive(k - 1);
    }
  }

  lemma PowersAre()
    ensures Pow2(0) == 0x1 && Pow2(1) == 0x2 && Pow2(2) == 0x4 && Pow2(3) == 0x8
    ensures Pow2(4) == 0x10 && Pow2(5) == 0x20 && Pow2(6) == 0x40 && Pow2(7) == 0x80
    ensures Pow2(8) == 0x100 && Pow2(9) == 0x200 && Pow2(10) == 0x400 && Pow2(11) == 0x800
    ensures Pow2(12) == 0x1000 && Pow2(13) == 0x2000 && Pow2(14) == 0x4000 && Pow2(15) == 0x8000
    ensures Pow2(16) == 0x10000 && Pow2(17) == 0x20000 && Pow2(18) == 0x40000 && Pow2(19) == 0x80000
    ensures Pow2(20) == 0x100000 && Pow2(21) == 0x200000 && Pow2(22) == 0x400000 && Pow2(23) == 0x800000
    ensures Pow2(24) == 0x1000000 && Pow2(25) == 0x2000000 && Pow2(26) == 0x4000000 && Pow2(27) == 0x8000000
    ensures Pow2(28) == 0x10000000 && Pow2(29) == 0x20000000 && Pow2(30) == 0x40000000
  {
  }

  lemma PowersTo5(x: bv32)
    requires 0 < x <= 0x20
    ensures Pow2Gt(x) as int == PowerAtLeast(x as int)
  {
    hide Pow2Gt, PowerAtLeast, Pow2;
    PowersAre();
    if x <= 0x1 {
      PowerIs(x, 0, 0x1);
    } else if x <= 0x2 {
      PowerIs(x, 1, 0x2);
    } else if x <= 0x4 {
      PowerIs(x, 2, 0x4);
    } else if x <= 0x8 {
      PowerIs(x, 3, 0x8);
    } else if x <= 0x10 {
      PowerIs(x, 4, 0x10);
    } else {
      PowerIs(x, 5, 0x20);
    }
  }

  lemma PowersTo11(x: bv32)
    requires 0x20 < x <= 0x800
    ensures Pow2Gt(x) as int == PowerAtLeast(x as int)
  {
    hide Pow2Gt, PowerAtLeast, Pow2;
    PowersAre();
    if x <= 0x40 {
      PowerIs(x, 6, 0x40);
    } else if x <= 0x80 {
      PowerIs(x, 7, 0x80);
    } else if x <= 0x100 {
      PowerIs(x, 8, 0x100);
    } else if x <= 0x200 {
      PowerIs(x, 9, 0x200);
    } else if x <= 0x400 {
      PowerIs(x, 10, 0x400);
    } else {
      PowerIs(x, 11, 0x800);
    }
  }

  lemma PowersTo16(x: bv32)
    requires 0x800 < x <= 0x10000
    ensures Pow2Gt(x) as int == PowerAtLeast(x as int)
  {
    hide Pow2Gt, PowerAtLeast, Pow2;
    PowersAre();
    if x <= 0x1000 {
      PowerIs(x, 12, 0x1000);
    } else if x <= 0x2000 {
      PowerIs(x, 13, 0x2000);
    } else if x <= 0x4000 {
      PowerIs(x, 14, 0x4000);
    } else if x <= 0x8000 {
      PowerIs(x, 15, 0x8000);
    } else {
      PowerIs(x, 16, 0x10000);
    }
  }

  lemma PowersTo21(x: bv32)
    requires 0x10000 < x <= 0x200000
    ensures Pow2Gt(x) as int == PowerAtLeast(x as int)
  {
    hide Pow2Gt, PowerAtLeast, Pow2;
    PowersAre();
    if x <= 0x20000 {
      PowerIs(x, 17, 0x20000);
    } else if x <= 0x40000 {
      PowerIs(x, 18, 0x40000);
    } else if x <= 0x80000 {
      PowerIs(x, 19, 0x80000);
    } else if x <= 0x100000 {
      PowerIs(x, 20, 0x100000);
    } else {
      PowerIs(x, 21, 0x200000);
    }
  }

  lemma PowersTo26(x: bv32)
    requires 0x200000 < x <= 0x4000000
    ensures Pow2Gt(x) as int == PowerAtLeast(x as int)
  {
    hide Pow2Gt, PowerAtLeast, Pow2;
    PowersAre();
    if x <= 0x400000 {
      PowerIs(x, 22, 0x400000);
    } else if x <= 0x800000 {
      PowerIs(x, 23, 0x800000);
    } else if x <= 0x1000000 {
      PowerIs(x, 24, 0x1000000);
    } else if x <= 0x2000000 {
      PowerIs(x, 25, 0x2000000);
    } else {
      PowerIs(x, 26, 0x4000000);
    }
  }

  lemma PowersTo30(x: bv32)
    requires 0x4000000 < x <= 0x40000000
    ensures Pow2Gt(x) as int == PowerAtLeast(x as int)
  {
    hide Pow2Gt, PowerAtLeast, Pow2;
    PowersAre();
    if x <= 0x8000000 {
      PowerIs(x, 27, 0x8000000);
    } else if x <= 0x10000000 {
      PowerIs(x, 28, 0x10000000);
    } else if x <= 0x20000000 {
      PowerIs(x, 29, 0x20000000);
    } else {
      PowerIs(x, 30, 0x40000000);
    }
  }

  /** The bit trick computes the size that the buffer grows to, for requests up to 2^30. */
  lemma Pow2GtIsPowerAtLeast(x: bv32)
    requires 0 < x <= 0x4000_0000
    ensures Pow2Gt(x) as int == PowerAtLeast(x as int)
  {
    hide Pow2Gt, PowerAtLeast, PowerFrom;
    if x <= 0x20 {
      PowersTo5(x);
    } else if x <= 0x800 {
      PowersTo11(x);
    } else if x <= 0x10000 {
      PowersTo16(x);
    } else if x <= 0x200000 {
      PowersTo21(x);
    } else if x <= 0x4000000 {
      PowersTo26(x);
    } else {
      PowersTo30(x);
    }
  }

  // ----- The buffer -----------------------------------------------------------------------

  class PrintBuffer {
    var buffer: array<char>
    var offset: nat

    ghost predicate Valid()
      reads this
    {
      offset <= buffer.Length
    }

    constructor (prebuffer: nat)
      ensures Valid() && fresh(buffer) && offset == 0 && buffer.Length == prebuffer
    {
      buffer := new char[prebuffer];
      offset := 0;
    }

    /** ensure: room for needed characters, by moving to a larger buffer when there is none. */
    method Ensure(needed: nat)
      requires Valid()
      modifies this`buffer
      ensures Valid() && offset + needed <= buffer.Length
      ensures buffer == old(buffer) || fresh(buffer)
      ensures buffer.Length == if offset + needed <= old(buffer.Length) then old(buffer.Length)
                               else PowerAtLeast(offset + needed)
      ensures buffer[..offset] == old(buffer[..offset])
    {
      var room := needed + offset;
      if room <= buffer.Length {
        return;
      }
      var newbuffer := new char[PowerAtLeast(room)];
      CopyAt(newbuffer, 0, buffer[..]);
      assert newbuffer[..offset] == newbuffer[..buffer.Length][..offset];
      buffer := newbuffer;
    }

    /** A piece of text at the offset, which moves behind it. */
    method Append(piece: string)
      requires Valid() && offset + |piece| <= buffer.Length
      modifies this`offset, buffer
      ensures Valid() && offset == old(offset) + |piece|
      ensures buffer[..offset] == old(buffer[..offset]) + piece
    {
      CopyAt(buffer, offset, piece);
      offset := offset + |piece|;
    }

    /** The last piece of a text, with its NUL; the offset stays. */
    method Finish(piece: string, c: char)
      requires Valid() && offset + |piece| + 1 < buffer.Length
      modifies buffer
      ensures buffer[..offset] == old(buffer[..offset])
      ensures TextAt(buffer, offset, piece + [c])
    {
      hide TextAt;
      CopyAt(buffer, offset, piece);
      PutLast(buffer, offset + |piece|, c, old(buffer[..offset]), piece);
    }

    /** update: the offset moves to the NUL of the text that was printed from start on. */
    method Update(ghost start: nat, ghost text: string)
      requires Valid() && NulFree(text) && TextAt(buffer, start, text)
      requires start <= offset <= start + |text|
      modifies this`offset
      ensures Valid() && offset == start + |text|
      ensures buffer[..offset] == buffer[..start] + text
    {
      ghost var rest := text[offset - start..];
      assert buffer[offset..offset + |rest|] == buffer[start..start + |text|][offset - start..];
      var n := Length(buffer, offset, rest);
      offset := offset + n;
    }

    method PrintString(str: string)
      requires Valid() && NulFree(str)
      modifies this`buffer, buffer
      ensures Valid() && (buffer == old(buffer) || fresh(buffer))
      ensures buffer[..offset] == old(buffer[..offset])
      ensures TextAt(buffer, offset, Quoted(str))
    {
      hide Quoted, TextAt;
      var size := StringSize(str);
      Ensure(size);
      WriteString(buffer, offset, str);
    }

    method PrintWord(word: string)
      requires Valid() && word != ""
      modifies this`buffer, buffer
      ensures Valid() && (buffer == old(buffer) || fresh(buffer))
      ensures buffer[..offset] == old(buffer[..offset])
      ensures TextAt(buffer, offset, word)
    {
      hide TextAt;
      Ensure(|word| + 1);
      var last := |word| - 1;
      assert word == word[..last] + [word[last]];
      Finish(word[..last], word[last]);
    }

    /** print_value with a buffer: the text goes to the offset, which moves at most to its end. */
    method PrintValue(t: Json, depth: nat, fmt: bool)
      requires Valid() && Printable(t)
      modifies this, buffer
      ensures Valid() && (buffer == old(buffer) || fresh(buffer))
      ensures old(offset) <= offset <= old(offset) + |Print(t, depth, fmt)|
      ensures old(offset) <= buffer.Length && buffer[..old(offset)] == old(buffer[..offset])
      ensures TextAt(buffer, old(offset), Print(t, depth, fmt))
      decreases t, 1
    {
      PrintIsText(t, depth, fmt);
      match t {
        case Null => PrintWord("null");
        case False => PrintWord("false");
        case True => PrintWord("true");
        case Number(n, _) => PrintNumber(n);
        case Str(str) => PrintString(str);
        case Array(items) => PrintArray(items, depth, fmt);
        case Object(members) => PrintObject(members, depth, fmt);
      }
    }

    /** Two characters for zero, room for 21 otherwise. */
    method PrintNumber(n: int)
      requires Valid() && -0x8000_0000 <= n < 0x8000_0000
      modifies this`buffer, buffer
      ensures Valid() && (buffer == old(buffer) || fresh(buffer))
      ensures buffer[..offset] == old(buffer[..offset])
      ensures TextAt(buffer, offset, Integer(n))
    {
      hide TextAt, Decimal;
      Ensure(if n == 0 then 2 else 21);
      var text := Integer(n);
      IntegerIsShort(n);
      var last := |text| - 1;
      assert text == text[..last] + [text[last]];
      Finish(text[..last], text[last]);
    }

    /** The text before the offset. */
    ghost predicate Holds(text: string)
      reads this, buffer
    {
      offset == |text| <= buffer.Length && buffer[..offset] == text
    }

    method Add(piece: string, room: nat, ghost text: string)
      requires Holds(text) && |piece| <= room
      modifies this, buffer
      ensures Holds(text + piece)
      ensures buffer == old(buffer) || fresh(buffer)
    {
      Ensure(room);
      Append(piece);
    }

    method AddValue(t: Json, depth: nat, fmt: bool, ghost text: string)
      requires Holds(text) && Printable(t)
      modifies this, buffer
      ensures Holds(text + Print(t, depth, fmt))
      ensures buffer == old(buffer) || fresh(buffer)
      decreases t, 2
    {
      hide Print, Printable, TextAt, NulFree;
      PrintIsText(t, depth, fmt);
      PrintValue(t, depth, fmt);
      Update(|text|, Print(t, depth, fmt));
    }

    method AddName(name: string, ghost text: string)
      requires Holds(text) && NulFree(name)
      modifies this, buffer
      ensures Holds(text + Quoted(name))
      ensures buffer == old(buffer) || fresh(buffer)
    {
      hide Quoted, TextAt, NulFree;
      QuotedIsNulFree(name);
      PrintString(name);
      Update(|text|, Quoted(name));
    }

    /** The end of a container: its text goes from where the container began. */
    method Close(piece: string, c: char, room: nat, ghost head: string, ghost done: string)
      requires Holds(head + done) && |piece| + 2 <= room
      modifies this`buffer, buffer
      ensures buffer == old(buffer) || fresh(buffer)
      ensures |head| <= offset <= buffer.Length && buffer[..|head|] == head
      ensures TextAt(buffer, |head|, done + (piece + [c]))
    {
      Ensure(room);
      Finish(piece, c);
      assert buffer[..|head|] == buffer[..offset][..|head|];
      assert buffer[|head|..offset] == buffer[..offset][|head|..];
      JoinTexts(buffer, |head|, done, piece + [c]);
    }

    method PrintArray(items: seq<Json>, depth: nat, fmt: bool)
      requires Valid() && PrintableItems(items)
      modifies this, buffer
      ensures Valid() && (buffer == old(buffer) || fresh(buffer))
      ensures old(offset) <= offset <= old(offset) + |Print(Array(items), depth, fmt)|
      ensures old(offset) <= buffer.Length && buffer[..old(offset)] == old(buffer[..offset])
      ensures TextAt(buffer, old(offset), Print(Array(items), depth, fmt))
      decreases items, 0
    {
      hide Print, Printable, TextAt, PrintItems, NulFree, Separator, PrintableItems;
      ArrayText(items, depth, fmt);
      if items == [] {
        assert "[" + "" + "]" == "[]";
        PrintWord("[]");
        return;
      }
      ghost var head, whole := buffer[..offset], PrintItems(items, depth + 1, fmt);
      Add("[", 1, head);
      ghost var done := "[";
      assert items[0..] == items;
      for i := 0 to |items|
        invariant buffer == old(buffer) || fresh(buffer)
        invariant PrintableItems(items[i..]) && Holds(head + done)
        invariant done + PrintItems(items[i..], depth + 1, fmt) == "[" + whole
      {
        PrintItemsStep(items, i, depth + 1, fmt, done);
        ghost var text := Print(items[i], depth + 1, fmt);
        var sep := Separator(i == |items| - 1, fmt);
        TwoMore(head, done, text, sep);
        AddValue(items[i], depth + 1, fmt, head + done);
        if i < |items| - 1 {
          Add(sep, |sep| + 1, head + done + text);
        }
        done := done + text + sep;
      }
      NothingLeft(depth + 1, fmt);
      assert items[|items|..] == [];
      assert done == "[" + whole;
      Close("", ']', 2, head, done);
      assert done + ("" + "]") == "[" + whole + "]";
    }

    method PrintObject(members: seq<Member>, depth: nat, fmt: bool)
      requires Valid() && PrintableMembers(members)
      modifies this, buffer
      ensures Valid() && (buffer == old(buffer) || fresh(buffer))
      ensures old(offset) <= offset <= old(offset) + |Print(Object(members), depth, fmt)|
      ensures old(offset) <= buffer.Length && buffer[..old(offset)] == old(buffer[..offset])
      ensures TextAt(buffer, old(offset), Print(Object(members), depth, fmt))
      decreases members, 0
    {
      hide Print, Printable, TextAt, PrintMembers, NulFree, MemberEnd, MemberStart, PrintableMembers, EmptyObject, Tabs;
      ObjectIsComposed(members, depth, fmt);
      if members == [] {
        Ensure(if fmt then depth + 4 else 3);
        WriteEmptyObject(buffer, offset, depth, fmt);
        return;
      }
      var inner := depth + 1;
      ghost var head, whole := buffer[..offset], PrintMembers(members, inner, fmt);
      var open := if fmt then "{\n" else "{";
      Add(open, |open| + 1, head);
      ghost var done := open;
      assert members[0..] == members;
      for i := 0 to |members|
        invariant buffer == old(buffer) || fresh(buffer)
        invariant PrintableMembers(members[i..]) && Holds(head + done)
        invariant done + PrintMembers(members[i..], inner, fmt) == open + whole
      {
        PrintMembersStep(members, i, inner, fmt, head, done);
        AddMember(members[i], i == |members| - 1, inner, fmt, head + done);
        done := done + MemberText(Quoted(members[i].name), Print(members[i].value, inner, fmt), i == |members| - 1,
          inner, fmt);
      }
      NothingLeft(inner, fmt);
      assert members[|members|..] == [];
      assert done == open + whole;
      var close := if fmt then Tabs(depth) else "";
      TabsLength(depth);
      Close(close, '}', if fmt then inner + 1 else 2, head, done);
      assert done + (close + "}") == open + whole + close + "}";
    }

    method AddMember(m: Member, last: bool, depth: nat, fmt: bool, ghost text: string)
      requires Holds(text) && NulFree(m.name) && Printable(m.value)
      modifies this, buffer
      ensures Holds(text + MemberText(Quoted(m.name), Print(m.value, depth, fmt), last, depth, fmt))
      ensures buffer == old(buffer) || fresh(buffer)
      decreases m, 3
    {
      hide Print, Printable, NulFree, Quoted, Tabs, MemberEnd;
      var tabs := if fmt then Tabs(depth) else "";
      var colon := if fmt then ":\t" else ":";
      var end := MemberEnd(last, fmt);
      TabsLength(depth);
      MemberTextJoins(text, Quoted(m.name), Print(m.value, depth, fmt), last, depth, fmt);
      if fmt {
        Add(tabs, depth, text);
      }
      AddName(m.name, text + tabs);
      Add(colon, |colon|, text + tabs + Quoted(m.name));
      AddValue(m.value, depth, fmt, text + tabs + Quoted(m.name) + colon);
      Add(end, |end| + 1, text + tabs + Quoted(m.name) + colon + Print(m.value, depth, fmt));
    }
  }

  lemma TabsLength(n: nat)
    ensures |Tabs(n)| == n
  {
  }

  lemma TwoMore(head: string, done: string, a: string, b: string)
    ensures head + done + a == head + (done + a)
    ensures head + done + a + b == head + (done + a + b)
    ensures b == "" ==> head + done + a == head + (done + a + b)
  {
    assert head + done + a + b == head + (done + a + b);
  }

  lemma MemberTextJoins(text: string, name: string, value: string, last: bool, depth: nat, fmt: bool)
    ensures
      var tabs := if fmt then Tabs(depth) else "";
      var colon := if fmt then ":\t" else ":";
      && text + tabs + name + colon + value + MemberEnd(last, fmt) ==
         text + MemberText(name, value, last, depth, fmt)
      && (!fmt ==> text + tabs == text)
  {
    hide MemberEnd, Tabs;
    var tabs := if fmt then Tabs(depth) else "";
    var colon := if fmt then ":\t" else ":";
    Assoc3(text, tabs, name, colon);
    Assoc3(text, tabs + name + colon, value, MemberEnd(last, fmt));
  }

  lemma NothingLeft(depth: nat, fmt: bool)
    ensures PrintableItems([]) && PrintItems([], depth, fmt) == ""
    ensures PrintableMembers([]) && PrintMembers([], depth, fmt) == ""
  {
  }

  lemma PrintMembersStep(members: seq<Member>, i: nat, depth: nat, fmt: bool, head: string, done: string)
    requires i < |members| && PrintableMembers(members[i..])
    ensures NulFree(members[i].name) && Printable(members[i].value) && PrintableMembers(members[i + 1..])
    ensures
      var text := MemberText(Quoted(members[i].name), Print(members[i].value, depth, fmt), i == |members| - 1,
        depth, fmt);
      && done + PrintMembers(members[i..], depth, fmt) == done + text + PrintMembers(members[i + 1..], depth, fmt)
      && head + done + text == head + (done + text)
  {
    hide Print, Printable, Quoted, MemberEnd, Tabs;
    assert members[i..][0] == members[i] && members[i..][1..] == members[i + 1..];
    Assoc3(done, MemberText(Quoted(members[i].name), Print(members[i].value, depth, fmt), i == |members| - 1,
      depth, fmt),
           [], PrintMembers(members[i + 1..], depth, fmt));
  }

  // ----- The two printers as the library offers them --------------------------------------

  /** cJSON_Print and cJSON_PrintUnformatted. */
  method PrintAllocated(t: Json, fmt: bool) returns (text: string)
    requires Printable(t)
    ensures text == Print(t, 0, fmt)
  {
    hide Print;
    PrintIsText(t, 0, fmt);
    var out := JsonPrinter.PrintValue(t, 0, fmt);
    text := TextOf(out, Print(t, 0, fmt));
  }

  /** cJSON_PrintBuffered, whatever the size guessed for the buffer: the same characters. */
  method PrintBuffered(t: Json, prebuffer: nat, fmt: bool) returns (text: string)
    requires Printable(t)
    ensures text == Print(t, 0, fmt)
  {
    hide Print;
    PrintIsText(t, 0, fmt);
    var p := new PrintBuffer(prebuffer);
    p.PrintValue(t, 0, fmt);
    text := TextOf(p.buffer, Print(t, 0, fmt));
  }

  lemma PrintItemsStep(items: seq<Json>, i: nat, depth: nat, fmt: bool, done: string)
    requires i < |items| && PrintableItems(items[i..])
    ensures Printable(items[i]) && PrintableItems(items[i + 1..])
    ensures
      var text, sep := Print(items[i], depth, fmt), Separator(i == |items| - 1, fmt);
      && done + PrintItems(items[i..], depth, fmt) == done + text + sep + PrintItems(items[i + 1..], depth, fmt)
      && (i == |items| - 1 ==> sep == "")
      && (i < |items| - 1 ==> |sep| == if fmt then 2 else 1)
  {
    hide Print, Printable;
    assert items[i..][0] == items[i] && items[i..][1..] == items[i + 1..];
    Assoc3(done, Print(items[i], depth, fmt), Separator(i == |items| - 1, fmt), PrintItems(items[i + 1..], depth, fmt));
  }

  /** A text and its last piece behind it are one text. */
  lemma JoinTexts(buf: array<char>, at: nat, text: string, last: string)
    requires at + |text| <= buf.Length && at <= buf.Length
    requires buf[at..at + |text|] == text && TextAt(buf, at + |text|, last)
    ensures TextAt(buf, at, text + last)
  {
    assert buf[at..at + |text| + |last|] == buf[at..at + |text|] + buf[at + |text|..at + |text| + |last|];
  }
}
