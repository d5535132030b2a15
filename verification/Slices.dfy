// A part of a sequence at a position.
module Slices {
  predicate At<T(==)>(s: seq<T>, p: nat, part: seq<T>) {
    p + |part| <= |s| && s[p..p + |part|] == part
  }

  lemma AtSplit<T>(s: seq<T>, p: nat, a: seq<T>, b: seq<T>)
    ensures At(s, p, a + b) <==> At(s, p, a) && At(s, p + |a|, b)
  {
    if At(s, p, a + b) {
      assert s[p..p + |a|] == (a + b)[..|a|];
      assert s[p + |a|..p + |a| + |b|] == (a + b)[|a|..];
    }
    if At(s, p, a) && At(s, p + |a|, b) {
      assert s[p..p + |a + b|] == s[p..p + |a|] + s[p + |a|..p + |a| + |b|];
    }
  }

  lemma AtSplit3<T>(s: seq<T>, p: nat, a: seq<T>, b: seq<T>, c: seq<T>)
    ensures At(s, p, a + b + c) <==> At(s, p, a) && At(s, p + |a|, b) && At(s, p + |a| + |b|, c)
  {
    AtSplit(s, p, a + b, c);
    AtSplit(s, p, a, b);
  }

  lemma AtIndex<T>(s: seq<T>, p: nat, part: seq<T>, k: nat)
    requires At(s, p, part) && k < |part|
    ensures p + k < |s| && s[p + k] == part[k]
  {
    assert s[p + k] == s[p..p + |part|][k];
  }

  lemma AtBound<T>(s: seq<T>, p: nat, part: seq<T>)
    requires At(s, p, part)
    ensures p + |part| <= |s|
  {
  }

  lemma AtOne<T>(s: seq<T>, p: nat, x: T)
    ensures At(s, p, [x]) <==> p < |s| && s[p] == x
  {
    assert p < |s| ==> s[p..p + 1] == [s[p]];
  }

  lemma AtStart<T>(s: seq<T>)
    ensures At(s, 0, s)
  {
    assert s[0..|s|] == s;
  }

  lemma AtParts<T>(s: seq<T>, p: nat, a: seq<T>, b: seq<T>)
    requires At(s, p, a + b)
    ensures At(s, p, a) && At(s, p + |a|, b) && p + |a| + |b| <= |s|
  {
    AtSplit(s, p, a, b);
  }

  lemma AtParts3<T>(s: seq<T>, p: nat, a: seq<T>, b: seq<T>, c: seq<T>)
    requires At(s, p, a + b + c)
    ensures At(s, p, a) && At(s, p + |a|, b) && At(s, p + |a| + |b|, c)
    ensures p + |a| + |b| + |c| <= |s|
  {
    AtSplit3(s, p, a, b, c);
  }

  lemma Assoc3<T>(a: seq<T>, b: seq<T>, c: seq<T>, d: seq<T>)
    ensures a + (b + c + d) == a + b + c + d
  {
    assert a + (b + c + d) == a + (b + c) + d;
    assert a + (b + c) == a + b + c;
  }
}
