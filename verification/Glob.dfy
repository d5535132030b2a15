/**
  The URI and file pattern matcher of src/mongoose.c (match_prefix):
  `?` one character, `*` characters other than '/', `**` any characters,
  `$` the end of the text, `|` between alternatives.
 */
module Glob {
  /** The pattern, without alternatives, matches the first n characters of s. */
  ghost predicate Matches(p: string, s: string, n: nat)
    decreases |p|
  {
    if p == "" then n == 0
    else if p[0] == '$' then s == "" && n == 0
    else if p[0] == '*' then
      if |p| > 1 && p[1] == '*' then
        exists k :: 0 <= k <= n && k <= |s| && Matches(p[2..], s[k..], n - k)
      else
        exists k :: 0 <= k <= n && k <= |s| && '/' !in s[..k] && Matches(p[1..], s[k..], n - k)
    else
      && n > 0 && s != "" && (p[0] == '?' || p[0] == s[0])
      && Matches(p[1..], s[1..], n - 1)
  }

  /** p[a..b] is one of the alternatives of p. */
  predicate IsAlternative(p: string, a: nat, b: nat) {
    && a <= b <= |p| && '|' !in p[a..b]
    && (a == 0 || p[a - 1] == '|')
    && (b == |p| || p[b] == '|')
  }

  ghost predicate AnyMatches(p: string, s: string, n: nat) {
    exists a: nat, b: nat :: IsAlternative(p, a, b) && Matches(p[a..b], s, n)
  }

  lemma BarFree(p: string, a: nat, b: nat)
    requires a <= b <= |p|
    ensures '|' !in p[a..b] <==> forall i :: a <= i < b ==> p[i] != '|'
  {
    assert forall i :: a <= i < b ==> p[i] == p[a..b][i - a];
  }

  lemma OnlyAlternative(p: string, s: string, n: nat)
    requires '|' !in p
    ensures AnyMatches(p, s, n) <==> Matches(p, s, n)
  {
    assert p[0..|p|] == p;
    assert IsAlternative(p, 0, |p|);
    if AnyMatches(p, s, n) {
      var a: nat, b: nat :| IsAlternative(p, a, b) && Matches(p[a..b], s, n);
      BarFree(p, 0, |p|);
      assert a == 0 && b == |p|;
    }
  }

  /** The alternatives are the one before the first bar, and those after it. */
  lemma AlternativesSplit(p: string, bar: nat, s: string, n: nat)
    requires bar < |p| && p[bar] == '|' && '|' !in p[..bar]
    ensures AnyMatches(p, s, n) <==> Matches(p[..bar], s, n) || AnyMatches(p[bar + 1..], s, n)
  {
    var q := p[bar + 1..];
    if Matches(p[..bar], s, n) {
      assert p[0..bar] == p[..bar];
      assert IsAlternative(p, 0, bar);
    }
    if AnyMatches(q, s, n) {
      var a: nat, b: nat :| IsAlternative(q, a, b) && Matches(q[a..b], s, n);
      LaterAlternative(p, bar, a, b);
    }
    if AnyMatches(p, s, n) {
      var a: nat, b: nat :| IsAlternative(p, a, b) && Matches(p[a..b], s, n);
      FirstOrLater(p, bar, a, b);
      if a > 0 {
        LaterAlternative(p, bar, a - bar - 1, b - bar - 1);
      }
    }
  }

  lemma LaterAlternative(p: string, bar: nat, a: nat, b: nat)
    requires bar < |p| && p[bar] == '|'
    ensures IsAlternative(p[bar + 1..], a, b) <==> a <= b && IsAlternative(p, bar + 1 + a, bar + 1 + b)
    ensures a <= b <= |p[bar + 1..]| ==> p[bar + 1..][a..b] == p[bar + 1 + a..bar + 1 + b]
  {
    var q := p[bar + 1..];
    assert a <= b <= |q| ==> q[a..b] == p[bar + 1 + a..bar + 1 + b];
    assert 0 < a <= |q| ==> q[a - 1] == p[bar + a];
    assert b < |q| ==> q[b] == p[bar + 1 + b];
  }

  lemma FirstOrLater(p: string, bar: nat, a: nat, b: nat)
    requires bar < |p| && p[bar] == '|' && '|' !in p[..bar]
    requires IsAlternative(p, a, b)
    ensures if a == 0 then b == bar && p[a..b] == p[..bar] else a > bar
  {
    assert p[0..bar] == p[..bar];
    BarFree(p, 0, bar);
    BarFree(p, a, b);
  }

  /** strcspn(s, "/"): how many characters come before the first slash. */
  method BeforeSlash(s: string) returns (len: nat)
    ensures len <= |s| && '/' !in s[..len]
    ensures len < |s| ==> s[len] == '/'
  {
    len := 0;
    while len < |s| && s[len] != '/'
      invariant len <= |s| && '/' !in s[..len]
    {
      len := len + 1;
    }
  }

  /** A star takes k characters: any up to len, and no more. */
  ghost predicate StarSpan(double: bool, s: string, k: nat) {
    k <= |s| && (double || '/' !in s[..k])
  }

  /**
    What a result promises: the length of the longest prefix that the pattern matches, and -1
    where it matches none, not even the empty one.
   */
  ghost predicate Promise(p: string, s: string, res: int) {
    && -1 <= res <= |s|
    && (res >= 0 ==> Matches(p, s, res) && forall n: nat | Matches(p, s, n) :: n <= res)
    && (res == -1 ==> forall n: nat :: !Matches(p, s, n))
  }

  function FirstBar(p: string): (bar: nat)
    requires '|' in p
    ensures bar < |p| && p[bar] == '|' && '|' !in p[..bar]
  {
    if p[0] == '|' then 0
    else
      var bar := 1 + FirstBar(p[1..]);
      assert forall i :: 1 <= i < bar ==> p[i] == p[1..][..bar - 1][i - 1];
      bar
  }

  /** The pattern matches a prefix that is not empty. */
  ghost predicate Reaches(p: string, s: string) {
    exists n: nat :: n > 0 && Matches(p, s, n)
  }

  /** The first alternative that matches anything but the empty prefix, by its longest; else what the last one says. */
  ghost predicate Chosen(p: string, s: string, res: int)
    decreases |p|
  {
    if '|' !in p then Promise(p, s, res)
    else
      var bar := FirstBar(p);
      if Reaches(p[..bar], s) then res > 0 && Promise(p[..bar], s, res)
      else Chosen(p[bar + 1..], s, res)
  }

  /** So the pattern and the text leave no choice. */
  lemma {:induction false} ChosenOnce(p: string, s: string, r1: int, r2: int)
    requires Chosen(p, s, r1) && Chosen(p, s, r2)
    ensures r1 == r2
    decreases |p|
  {
    if '|' in p {
      var bar := FirstBar(p);
      if !Reaches(p[..bar], s) {
        ChosenOnce(p[bar + 1..], s, r1, r2);
      }
    }
  }

  lemma ChosenAt(p: string, bar: nat, s: string, res: int)
    requires bar < |p| && p[bar] == '|' && '|' !in p[..bar]
    ensures Chosen(p, s, res) <==>
            if Reaches(p[..bar], s) then res > 0 && Promise(p[..bar], s, res)
            else Chosen(p[bar + 1..], s, res)
  {
    assert p[bar] in p;
    var first := FirstBar(p);
    assert p[0..bar] == p[..bar] && p[0..first] == p[..first];
    BarFree(p, 0, bar);
    BarFree(p, 0, first);
  }

  /**
    Sound and complete: a positive result counts characters that some alternative matches,
    and without one no alternative matches a non-empty prefix.  The first alternative to
    match one is taken, at its longest.
   */
  method MatchPrefix(pattern: string, str: string) returns (res: int)
    ensures -1 <= res <= |str|
    ensures res > 0 ==> AnyMatches(pattern, str, res)
    ensures res <= 0 ==> forall n: nat | n > 0 :: !AnyMatches(pattern, str, n)
    ensures Chosen(pattern, str, res)
    decreases |pattern|, 2
  {
    var bar := 0;
    while bar < |pattern| && pattern[bar] != '|'
      invariant bar <= |pattern| && '|' !in pattern[..bar]
    {
      bar := bar + 1;
    }
    if bar < |pattern| {
      assert pattern[bar] in pattern;
      forall n: nat
        ensures AnyMatches(pattern, str, n) <==>
                Matches(pattern[..bar], str, n) || AnyMatches(pattern[bar + 1..], str, n)
      {
        AlternativesSplit(pattern, bar, str, n);
      }
      res := MatchPrefix(pattern[..bar], str);
      if res <= 0 {
        res := MatchPrefix(pattern[bar + 1..], str);
      }
      ChosenAt(pattern, bar, str, res);
    } else {
      assert pattern[..bar] == pattern;
      res := MatchOne(pattern, str);
      forall n: nat
        ensures AnyMatches(pattern, str, n) <==> Matches(pattern, str, n)
      {
        OnlyAlternative(pattern, str, n);
      }
    }
  }

  /** Where the pattern stands after i characters that took j of the text. */
  ghost predicate Follows(pattern: string, str: string, i: nat, j: nat) {
    && i <= |pattern| && j <= |str|
    && forall n: nat ::
         Matches(pattern, str, n) <==> n >= j && Matches(pattern[i..], str[j..], n - j)
  }

  lemma PromiseFollows(pattern: string, str: string, i: nat, j: nat, res: int)
    requires Follows(pattern, str, i, j) && Promise(pattern[i..], str[j..], res)
    ensures Promise(pattern, str, if res == -1 then -1 else j + res)
  {
  }

  /** One character of the pattern takes one character of the text. */
  lemma FollowsOne(pattern: string, str: string, i: nat, j: nat)
    requires Follows(pattern, str, i, j) && i < |pattern| && j < |str|
    requires pattern[i] == '?' || (pattern[i] == str[j] && pattern[i] != '$' && pattern[i] != '*')
    ensures Follows(pattern, str, i + 1, j + 1)
  {
    assert pattern[i..][1..] == pattern[i + 1..] && str[j..][1..] == str[j + 1..];
  }

  /** An alternative on its own: the loop over its characters. */
  method MatchOne(pattern: string, str: string) returns (res: int)
    requires '|' !in pattern
    ensures Promise(pattern, str, res)
    decreases |pattern|, 1
  {
    var i, j := 0, 0;
    assert pattern[0..] == pattern && str[0..] == str;
    while i < |pattern|
      invariant 0 <= i && 0 <= j && Follows(pattern, str, i, j)
    {
      if pattern[i] == '?' && j < |str| {
        FollowsOne(pattern, str, i, j);
        i, j := i + 1, j + 1;
      } else if pattern[i] == '$' {
        res := if j == |str| then 0 else -1;
        assert Promise(pattern[i..], str[j..], res);
        PromiseFollows(pattern, str, i, j, res);
        return if j == |str| then j else -1;
      } else if pattern[i] == '*' {
        res := MatchStar(pattern[i..], str[j..]);
        PromiseFollows(pattern, str, i, j, res);
        return if res == -1 then -1 else j + res;
      } else if j == |str| || pattern[i] != str[j] {
        assert Promise(pattern[i..], str[j..], -1);
        PromiseFollows(pattern, str, i, j, -1);
        return -1;
      } else {
        FollowsOne(pattern, str, i, j);
        i, j := i + 1, j + 1;
      }
    }
    assert Promise(pattern[i..], str[j..], 0);
    PromiseFollows(pattern, str, i, j, 0);
    return j;
  }

  /** A star: the longest span first, then one character less each time. */
  method MatchStar(p: string, s: string) returns (res: int)
    requires p != "" && p[0] == '*' && '|' !in p
    ensures Promise(p, s, res)
    decreases |p|, 0
  {
    var i := 1;
    var len;
    ghost var double := |p| > 1 && p[1] == '*';
    if i < |p| && p[i] == '*' {
      i := i + 1;
      len := |s|;
    } else {
      len := BeforeSlash(s);
    }
    ghost var longest := len;
    SpanBound(double, s, longest);
    StarMatches(p, s, double);
    if i == |p| {
      assert p[i..] == "" && Matches(p[i..], s[len..], 0);
      return len;
    }
    while true
      invariant 0 <= len <= longest
      invariant forall k: nat, n: nat | len < k <= longest :: !Matches(p[i..], s[k..], n)
      decreases len
    {
      assert forall c | c in p[i..] :: c in p;
      res := MatchPrefix(p[i..], s[len..]);
      if res != -1 {
        break;
      }
      if len == 0 {
        return -1;
      }
      len := len - 1;
    }
    StarResult(p, s, double, longest, len, res);
    return len + res;
  }

  lemma StarResult(p: string, s: string, double: bool, longest: nat, len: nat, res: nat)
    requires p != "" && p[0] == '*' && double == (|p| > 1 && p[1] == '*')
    requires len <= longest <= |s| && forall k: nat :: StarSpan(double, s, k) <==> k <= longest
    requires
      var rest := p[if double then 2 else 1..];
      && Promise(rest, s[len..], res)
      && forall k: nat, n: nat | len < k <= longest :: !Matches(rest, s[k..], n)
    ensures Promise(p, s, len + res)
  {
    StarMatches(p, s, double);
    var rest := p[if double then 2 else 1..];
    assert StarSpan(double, s, len) && Matches(rest, s[len..], len + res - len);
    forall n: nat | Matches(p, s, n)
      ensures n <= len + res
    {
      var k: nat :| k <= n && StarSpan(double, s, k) && Matches(rest, s[k..], n - k);
      var m := LaterIsLonger(rest, s, k, len, n - k, res);
    }
  }

  /** A pattern that matches from an earlier and from a later place reaches as far from the later one. */
  lemma {:induction false} LaterIsLonger(p: string, s: string, a: nat, b: nat, n: nat, m: nat) returns (m': nat)
    requires a <= b <= |s| && Matches(p, s[a..], n) && Matches(p, s[b..], m)
    ensures Matches(p, s[b..], m') && b + m' >= a + n
    decreases |p|
  {
    hide Matches;
    if p == "" || p[0] == '$' {
      EmptyMatches(p, s[a..], n);
      EmptyMatches(p, s[b..], m);
      m' := m;
    } else if p[0] == '*' {
      var double := |p| > 1 && p[1] == '*';
      var rest := p[if double then 2 else 1..];
      StarMatches(p, s[a..], double);
      StarMatches(p, s[b..], double);
      var k: nat :| k <= n && StarSpan(double, s[a..], k) && Matches(rest, s[a..][k..], n - k);
      var l: nat :| l <= m && StarSpan(double, s[b..], l) && Matches(rest, s[b..][l..], m - l);
      SpanFrom(double, s, a, b, k);
      SpanFrom(double, s, b, b, l);
      if a + k >= b {
        m' := a + k - b + (n - k);
        assert m' - (a + k - b) == n - k;
      } else {
        var m2 := LaterIsLonger(rest, s, a + k, b + l, n - k, m - l);
        m' := l + m2;
        assert m' - l == m2;
      }
    } else {
      StepMatches(p, s, a, n);
      StepMatches(p, s, b, m);
      var m1 := LaterIsLonger(p[1..], s, a + 1, b + 1, n - 1, m - 1);
      m' := m1 + 1;
      StepMatches(p, s, b, m');
    }
  }

  lemma EmptyMatches(p: string, s: string, n: nat)
    requires (p == "" || p[0] == '$') && Matches(p, s, n)
    ensures n == 0
  {
  }

  lemma StepMatches(p: string, s: string, a: nat, n: nat)
    requires p != "" && p[0] != '$' && p[0] != '*' && a <= |s|
    ensures Matches(p, s[a..], n) <==>
            && n > 0 && a < |s| && (p[0] == '?' || p[0] == s[a])
            && Matches(p[1..], s[a + 1..], n - 1)
  {
    assert a < |s| ==> s[a..][1..] == s[a + 1..];
  }

  /** What a star takes from place a, seen from place b. */
  lemma SpanFrom(double: bool, s: string, a: nat, b: nat, k: nat)
    requires a <= b <= |s| && StarSpan(double, s[a..], k)
    ensures a + k <= |s| && s[a..][k..] == s[a + k..]
    ensures a + k >= b ==> StarSpan(double, s[b..], a + k - b) && s[b..][a + k - b..] == s[a + k..]
  {
    if a + k >= b {
      var taken := s[a..][..k];
      assert s[b..][..a + k - b] == taken[b - a..];
      assert forall c | c in taken[b - a..] :: c in taken;
    }
  }

  lemma SpanBound(double: bool, s: string, longest: nat)
    requires longest <= |s|
    requires if double then longest == |s| else '/' !in s[..longest] && (longest < |s| ==> s[longest] == '/')
    ensures forall k: nat :: StarSpan(double, s, k) <==> k <= longest
  {
    forall k: nat
      ensures StarSpan(double, s, k) <==> k <= longest
    {
      if !double && k <= |s| {
        if k <= longest {
          assert forall c | c in s[..k] :: c in s[..longest];
        } else {
          assert s[..k][longest] == '/';
        }
      }
    }
  }

  lemma StarMatches(p: string, s: string, double: bool)
    requires p != "" && p[0] == '*' && double == (|p| > 1 && p[1] == '*')
    ensures forall n: nat ::
              Matches(p, s, n) <==>
              exists k: nat :: k <= n && StarSpan(double, s, k) && Matches(p[if double then 2 else 1..], s[k..], n - k)
  {
  }

  // ----- Patterns by example --------------------------------------------------------------------

  predicate Plain(t: string) {
    forall c | c in t :: c != '?' && c != '*' && c != '$'
  }

  lemma {:induction false} PlainThen(t: string, p: string, s: string, n: nat)
    requires Plain(t)
    ensures Matches(t + p, s, n) <==> |t| <= n && |t| <= |s| && s[..|t|] == t && Matches(p, s[|t|..], n - |t|)
    decreases |t|
  {
    hide Matches;
    if t == "" {
      assert t + p == p && s[0..] == s;
    } else {
      assert (t + p)[1..] == t[1..] + p && t[0] in t && s[0..] == s;
      assert forall c | c in t[1..] :: c in t;
      StepMatches(t + p, s, 0, n);
      if n > 0 && s != "" {
        PlainThen(t[1..], p, s[1..], n - 1);
        PrefixFrom(t, s);
      }
    }
  }

  lemma PrefixFrom(t: string, s: string)
    requires t != "" && s != ""
    ensures |t| <= |s| && s[..|t|] == t <==> s[0] == t[0] && |t| - 1 <= |s| - 1 && s[1..][..|t| - 1] == t[1..]
    ensures |t| <= |s| ==> s[1..][|t| - 1..] == s[|t|..]
  {
    if |t| <= |s| {
      assert s[..|t|] == [s[0]] + s[1..][..|t| - 1] && t == [t[0]] + t[1..];
      assert s[..|t|][1..] == s[1..][..|t| - 1] && s[..|t|][0] == s[0];
    }
  }

  /** Text without special characters matches itself. */
  lemma PlainMatches(t: string, s: string, n: nat)
    requires Plain(t)
    ensures Matches(t, s, n) <==> n == |t| <= |s| && s[..n] == t
  {
    PlainThen(t, "", s, n);
    assert t + "" == t;
  }

  /** `t*` matches t with anything behind it up to the next slash, and `t**` with anything at all. */
  lemma StarMatchesExactly(t: string, s: string, n: nat)
    requires Plain(t)
    ensures Matches(t + "*", s, n) <==> |t| <= n <= |s| && s[..|t|] == t && '/' !in s[|t|..n]
    ensures Matches(t + "**", s, n) <==> |t| <= n <= |s| && s[..|t|] == t
  {
    PlainThen(t, "*", s, n);
    PlainThen(t, "**", s, n);
    if |t| <= n <= |s| {
      var rest, k := s[|t|..], n - |t|;
      assert rest[..k] == s[|t|..n];
      assert "*"[1..] == "" && "**"[2..] == "";
      assert Matches("", rest[k..], k - k);
      assert forall l: nat :: l <= |rest| && l <= k ==> (Matches("", rest[l..], k - l) <==> l == k);
    }
  }

  /** `**t$` matches exactly the texts that end with t, to their end. */
  lemma EndMatchesExactly(t: string, s: string, n: nat)
    requires Plain(t)
    ensures Matches("**" + t + "$", s, n) <==> n == |s| >= |t| && s[|s| - |t|..] == t
  {
    var rest := t + "$";
    assert ("**" + t + "$")[2..] == rest;
    forall k: nat | k <= n && k <= |s|
      ensures Matches(rest, s[k..], n - k) <==> n == |s| && k + |t| == |s| && s[k..] == t
    {
      PlainThen(t, "$", s[k..], n - k);
      if |t| <= |s[k..]| {
        assert s[k..][|t|..] == "" ==> s[k..][..|t|] == s[k..];
      }
    }
    if n == |s| >= |t| && s[|s| - |t|..] == t {
      var k := |s| - |t|;
      assert Matches(rest, s[k..], n - k);
    }
  }

  /** Each `?` takes one character, whatever it is. */
  lemma {:induction false} QuestionsMatchExactly(q: string, s: string, n: nat)
    requires forall c | c in q :: c == '?'
    ensures Matches(q, s, n) <==> n == |q| <= |s|
    decreases |q|
  {
    if q != "" {
      assert q[0] in q && forall c | c in q[1..] :: c in q;
    }
    if q != "" && s != "" && n > 0 {
      QuestionsMatchExactly(q[1..], s[1..], n - 1);
    }
  }
}
