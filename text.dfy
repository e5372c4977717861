/** The Python string built-ins the quiz generator relies on: str.strip(),
    str.startswith(), str.split(sep) and str.replace(pat, ''), each stated
    over `string` (a sequence of code points) with the properties the parser
    and the grading step need. */
module Text {

  datatype Option<T> = None | Some(value: T)

  /** Python's str.isspace() for one code point: the characters that
      str.strip() without an argument removes. */
  predicate IsSpace(c: char) {
    || '\t' <= c <= '\r'
    || '\U{1C}' <= c <= ' '
    || c == '\U{85}' || c == '\U{A0}' || c == '\U{1680}'
    || '\U{2000}' <= c <= '\U{200A}'
    || c == '\U{2028}' || c == '\U{2029}' || c == '\U{202F}'
    || c == '\U{205F}' || c == '\U{3000}'
  }

  predicate AllSpace(s: string) {
    forall i :: 0 <= i < |s| ==> IsSpace(s[i])
  }

  /** No whitespace at either end: the shape of every str.strip() result. */
  predicate IsStripped(s: string) {
    s == [] || (!IsSpace(s[0]) && !IsSpace(s[|s| - 1]))
  }

  /** What is left after dropping the longest all-whitespace prefix. */
  function TrimLeft(s: string): string
    decreases |s|
  {
    if s != [] && IsSpace(s[0]) then TrimLeft(s[1..]) else s
  }

  /** What is left after dropping the longest all-whitespace suffix. */
  function TrimRight(s: string): string
    decreases |s|
  {
    if s != [] && IsSpace(s[|s| - 1]) then TrimRight(s[..|s| - 1]) else s
  }

  /** TrimLeft keeps a suffix, drops only whitespace, and stops at the first
      other character. */
  lemma {:induction false} TrimLeftShape(s: string)
    ensures |TrimLeft(s)| <= |s| && TrimLeft(s) == s[|s| - |TrimLeft(s)|..]
    ensures AllSpace(s[..|s| - |TrimLeft(s)|])
    ensures TrimLeft(s) == [] || !IsSpace(TrimLeft(s)[0])
    decreases |s|
  {
    if s != [] && IsSpace(s[0]) {
      TrimLeftShape(s[1..]);
      var r := TrimLeft(s[1..]);
      assert s[..|s| - |r|] == [s[0]] + s[1..][..|s[1..]| - |r|];
    }
  }

  /** TrimRight keeps a prefix, drops only whitespace, and stops at the last
      other character. */
  lemma {:induction false} TrimRightShape(s: string)
    ensures |TrimRight(s)| <= |s| && TrimRight(s) == s[..|TrimRight(s)|]
    ensures AllSpace(s[|TrimRight(s)|..])
    ensures TrimRight(s) == [] || !IsSpace(TrimRight(s)[|TrimRight(s)| - 1])
    decreases |s|
  {
    if s != [] && IsSpace(s[|s| - 1]) {
      TrimRightShape(s[..|s| - 1]);
      var r := TrimRight(s[..|s| - 1]);
      assert s[|r|..] == s[..|s| - 1][|r|..] + [s[|s| - 1]];
    }
  }

  /** Python's str.strip() with no argument. */
  function Strip(s: string): (r: string)
    ensures IsStripped(r)
    ensures |r| <= |s|
  {
    TrimLeftShape(s);
    TrimRightShape(TrimLeft(s));
    TrimRight(TrimLeft(s))
  }

  lemma {:induction false} TrimLeftSpaces(a: string, t: string)
    requires AllSpace(a)
    requires t == [] || !IsSpace(t[0])
    ensures TrimLeft(a + t) == t
    decreases |a|
  {
    if a == [] {
      assert a + t == t;
    } else {
      assert (a + t)[1..] == a[1..] + t;
      TrimLeftSpaces(a[1..], t);
    }
  }

  lemma {:induction false} TrimRightSpaces(t: string, b: string)
    requires AllSpace(b)
    requires t == [] || !IsSpace(t[|t| - 1])
    ensures TrimRight(t + b) == t
    decreases |b|
  {
    if b == [] {
      assert t + b == t;
    } else {
      assert (t + b)[..|t + b| - 1] == t + b[..|b| - 1];
      TrimRightSpaces(t, b[..|b| - 1]);
    }
  }

  lemma AllSpaceConcat(x: string, y: string)
    requires AllSpace(x) && AllSpace(y)
    ensures AllSpace(x + y)
  {
    forall i | 0 <= i < |x + y| ensures IsSpace((x + y)[i]) {
      if i >= |x| { assert (x + y)[i] == y[i - |x|]; }
    }
  }

  /** strip() removes exactly the whitespace around a stripped core: this
      determines Strip completely, independently of how it is computed. */
  lemma StripCore(a: string, m: string, b: string)
    requires AllSpace(a) && AllSpace(b) && IsStripped(m)
    ensures Strip(a + m + b) == m
  {
    if m == [] {
      assert a + m + b == (a + b) + [];
      AllSpaceConcat(a, b);
      TrimLeftSpaces(a + b, []);
    } else {
      assert a + m + b == a + (m + b);
      TrimLeftSpaces(a, m + b);
      TrimRightSpaces(m, b);
    }
  }

  lemma ThreeSlices(s: string, i: nat, j: nat)
    requires i <= j <= |s|
    ensures s == s[..i] + s[i..j] + s[j..]
  {}

  /** Every string is its strip() with whitespace on either side. */
  lemma StripSplits(s: string) returns (a: string, m: string, b: string)
    ensures m == Strip(s) && s == a + m + b
    ensures AllSpace(a) && AllSpace(b)
  {
    var t := TrimLeft(s);
    m := TrimRight(t);
    TrimLeftShape(s);
    TrimRightShape(t);
    var i := |s| - |t|;
    var j := i + |m|;
    assert m == s[i..j];
    assert AllSpace(s[j..]) by {
      assert s[j..] == t[|m|..];
    }
    a, b := s[..i], s[j..];
    ThreeSlices(s, i, j);
  }

  lemma Regroup(a: string, m: string, b: string, w: string)
    ensures (a + m + b) + w == a + m + (b + w)
    ensures w + (a + m + b) == (w + a) + m + b
  {}

  /** Whitespace added at either end of a string does not change its strip(). */
  lemma StripIgnoresOuterSpace(s: string, w: string)
    requires AllSpace(w)
    ensures Strip(s + w) == Strip(s)
    ensures Strip(w + s) == Strip(s)
  {
    var a, m, b := StripSplits(s);
    AllSpaceConcat(b, w);
    AllSpaceConcat(w, a);
    Regroup(a, m, b, w);
    StripCore(a, m, b + w);
    StripCore(w + a, m, b);
  }

  /** A non-whitespace character added at the end survives strip(), so the
      stripped text grows. */
  lemma StripKeepsTrailingChar(s: string, c: char)
    requires !IsSpace(c)
    ensures |Strip(s + [c])| > |Strip(s)|
  {
    var t := TrimLeft(s);
    TrimLeftShape(s);
    TrimRightShape(t);
    var i := |s| - |t|;
    assert t == s[i..];
    AppendAfterSlice(s, i, c);
    assert IsStripped(t + [c]) by {
      if t != [] { assert (t + [c])[0] == t[0]; }
    }
    StripCore(s[..i], t + [c], []);
  }

  lemma AppendAfterSlice(s: string, i: nat, c: char)
    requires i <= |s|
    ensures s + [c] == s[..i] + (s[i..] + [c]) + []
  {}

  predicate StartsWith(s: string, p: string) {
    |p| <= |s| && s[..|p|] == p
  }

  /** p occurs nowhere in s. */
  predicate NoMatch(s: string, p: string) {
    forall i :: 0 <= i < |s| ==> !StartsWith(s[i..], p)
  }

  /** s can stand before a separator sep without sep being found early:
      no occurrence of sep in s + sep starts inside s. */
  predicate SeparableBy(s: string, sep: string) {
    forall i :: 0 <= i < |s| ==> !StartsWith((s + sep)[i..], sep)
  }

  /** Python's s.split(sep) for a non-empty separator: the occurrences of
      sep are found left to right without overlap; there is always at
      least one piece (''.split(sep) == ['']). */
  function Split(s: string, sep: string): (parts: seq<string>)
    requires sep != []
    ensures parts != []
    decreases |s|
  {
    if StartsWith(s, sep) then [""] + Split(s[|sep|..], sep)
    else if s == [] then [""]
    else
      var rest := Split(s[1..], sep);
      [[s[0]] + rest[0]] + rest[1..]
  }

  /** Python's sep.join(parts). */
  function Join(parts: seq<string>, sep: string): string {
    if parts == [] then ""
    else if |parts| == 1 then parts[0]
    else parts[0] + sep + Join(parts[1..], sep)
  }

  /** Python's s.replace(pat, ''): every occurrence of pat, wherever it
      stands, is removed. */
  function RemoveAll(s: string, pat: string): string
    requires pat != []
  {
    Join(Split(s, pat), "")
  }

  lemma JoinCons(p: string, ps: seq<string>, sep: string)
    requires ps != []
    ensures Join([p] + ps, sep) == p + sep + Join(ps, sep)
  {
    assert ([p] + ps)[1..] == ps;
  }

  /** Joining the pieces of a split with the separator gives back the text. */
  lemma {:induction false} JoinSplit(s: string, sep: string)
    requires sep != []
    ensures Join(Split(s, sep), sep) == s
    decreases |s|
  {
    if StartsWith(s, sep) {
      JoinSplit(s[|sep|..], sep);
      JoinSplitSep(s, sep);
    } else if s != [] {
      JoinSplit(s[1..], sep);
      JoinSplitStep(s, sep);
    }
  }

  /** The step of JoinSplit where s starts with sep. */
  lemma JoinSplitSep(s: string, sep: string)
    requires sep != [] && StartsWith(s, sep)
    requires Join(Split(s[|sep|..], sep), sep) == s[|sep|..]
    ensures Join(Split(s, sep), sep) == s
  {
    var t := s[|sep|..];
    var ps := Split(t, sep);
    calc {
      Join(Split(s, sep), sep);
      { assert Split(s, sep) == [""] + ps; }
      Join([""] + ps, sep);
      { JoinCons("", ps, sep); }
      "" + sep + Join(ps, sep);
      { assert "" + sep == sep; }
      sep + t;
      { assert s == s[..|sep|] + t; }
      s;
    }
  }

  /** The step of JoinSplit where s does not start with sep. */
  lemma JoinSplitStep(s: string, sep: string)
    requires sep != [] && s != [] && !StartsWith(s, sep)
    requires Join(Split(s[1..], sep), sep) == s[1..]
    ensures Join(Split(s, sep), sep) == s
  {
    var rest := Split(s[1..], sep);
    assert Split(s, sep) == [[s[0]] + rest[0]] + rest[1..];
    JoinHeadExtend(s[0], rest, sep);
    assert s == [s[0]] + s[1..];
  }

  /** Putting a character in front of the first part puts it in front of
      the joined text. */
  lemma JoinHeadExtend(c: char, parts: seq<string>, sep: string)
    requires parts != []
    ensures Join([[c] + parts[0]] + parts[1..], sep) == [c] + Join(parts, sep)
  {
    var head := [c] + parts[0];
    if |parts| > 1 {
      JoinCons(head, parts[1..], sep);
      JoinCons(parts[0], parts[1..], sep);
      assert [parts[0]] + parts[1..] == parts;
      assert head + sep + Join(parts[1..], sep) == [c] + (parts[0] + sep + Join(parts[1..], sep));
    } else {
      assert [head] + parts[1..] == [head];
    }
  }

  lemma FirstCharAbsent(s: string, p: string)
    requires p != [] && p[0] !in s
    ensures NoMatch(s, p) && SeparableBy(s, p)
  {
    forall i | 0 <= i < |s| ensures !StartsWith(s[i..], p) && !StartsWith((s + p)[i..], p) {
      assert s[i..][0] == s[i];
      assert (s + p)[i..][0] == s[i];
    }
  }

  lemma StartsWithExtend(x: string, y: string, p: string)
    ensures StartsWith(x, p) ==> StartsWith(x + y, p)
  {
    if StartsWith(x, p) {
      assert (x + y)[..|p|] == x[..|p|];
    }
  }

  lemma SeparableNoMatch(s: string, sep: string)
    requires sep != [] && SeparableBy(s, sep)
    ensures NoMatch(s, sep)
  {
    forall i | 0 <= i < |s| ensures !StartsWith(s[i..], sep) {
      assert (s + sep)[i..] == s[i..] + sep;
      StartsWithExtend(s[i..], sep, sep);
    }
  }

  lemma {:induction false} SplitNoMatch(s: string, sep: string)
    requires sep != [] && NoMatch(s, sep)
    ensures Split(s, sep) == [s]
    decreases |s|
  {
    if s != [] {
      assert s[0..] == s;
      assert NoMatch(s[1..], sep) by {
        forall i | 0 <= i < |s[1..]| ensures !StartsWith(s[1..][i..], sep) {
          assert s[1..][i..] == s[i + 1..];
        }
      }
      SplitNoMatch(s[1..], sep);
      assert s == [s[0]] + s[1..];
    }
  }

  /** A piece that is separable by sep comes out of the split unchanged. */
  lemma {:induction false} SplitLeadingPart(p: string, sep: string, rest: string)
    requires sep != [] && SeparableBy(p, sep)
    ensures Split(p + sep + rest, sep) == [p] + Split(rest, sep)
    decreases |p|
  {
    var s := p + sep + rest;
    if p == [] {
      assert s == sep + rest;
      assert s[..|sep|] == sep;
      assert s[|sep|..] == rest;
    } else {
      assert (p + sep)[0..] == p + sep;
      assert s[..|sep|] == (p + sep)[..|sep|];
      assert !StartsWith(s, sep);
      assert s[1..] == p[1..] + sep + rest;
      assert SeparableBy(p[1..], sep) by {
        forall i | 0 <= i < |p[1..]| ensures !StartsWith((p[1..] + sep)[i..], sep) {
          assert (p[1..] + sep)[i..] == (p + sep)[i + 1..];
        }
      }
      SplitLeadingPart(p[1..], sep, rest);
      assert [s[0]] + p[1..] == p;
    }
  }

  /** Splitting a join of separable pieces gives the pieces back. */
  lemma {:induction false} SplitJoin(parts: seq<string>, sep: string)
    requires sep != [] && parts != []
    requires forall k :: 0 <= k < |parts| ==> SeparableBy(parts[k], sep)
    ensures Split(Join(parts, sep), sep) == parts
    decreases |parts|
  {
    if |parts| == 1 {
      SeparableNoMatch(parts[0], sep);
      SplitNoMatch(parts[0], sep);
    } else {
      SplitJoin(parts[1..], sep);
      SplitLeadingPart(parts[0], sep, Join(parts[1..], sep));
      assert parts == [parts[0]] + parts[1..];
    }
  }

  /** The first piece of a join starts it. */
  lemma {:induction false} JoinStartsWith(parts: seq<string>, sep: string)
    requires parts != []
    ensures StartsWith(Join(parts, sep), parts[0])
  {
    if |parts| > 1 {
      var j := Join(parts, sep);
      assert j == parts[0] + (sep + Join(parts[1..], sep));
      assert j[..|parts[0]|] == parts[0];
    }
  }

  /** The last piece of a join ends it. */
  lemma {:induction false} JoinEndsWith(parts: seq<string>, sep: string)
    requires parts != []
    ensures var j := Join(parts, sep);
      |parts[|parts| - 1]| <= |j| && j[|j| - |parts[|parts| - 1]|..] == parts[|parts| - 1]
    decreases |parts|
  {
    if |parts| > 1 {
      JoinEndsWith(parts[1..], sep);
      var r := Join(parts[1..], sep);
      JoinUnfold(parts, sep);
      ConcatSuffix(parts[0] + sep, r);
      assert parts[1..][|parts[1..]| - 1] == parts[|parts| - 1];
      SuffixOfSuffix(Join(parts, sep), r, parts[|parts| - 1]);
    }
  }

  lemma JoinUnfold(parts: seq<string>, sep: string)
    requires |parts| > 1
    ensures Join(parts, sep) == parts[0] + sep + Join(parts[1..], sep)
  {}

  lemma ConcatSuffix(a: string, r: string)
    ensures (a + r)[|a + r| - |r|..] == r
  {}

  lemma SuffixOfSuffix(j: string, r: string, x: string)
    requires |r| <= |j| && j[|j| - |r|..] == r
    requires |x| <= |r| && r[|r| - |x|..] == x
    ensures |x| <= |j| && j[|j| - |x|..] == x
  {
    assert j[|j| - |x|..] == j[|j| - |r|..][|r| - |x|..];
  }

  /** A character found neither in the pieces nor in the separator is not in
      their join. */
  lemma {:induction false} JoinExcludes(parts: seq<string>, sep: string, c: char)
    requires c !in sep
    requires forall k :: 0 <= k < |parts| ==> c !in parts[k]
    ensures c !in Join(parts, sep)
    decreases |parts|
  {
    if |parts| > 1 {
      JoinExcludes(parts[1..], sep, c);
    }
  }

  /** replace(pat, '') on a line that begins with pat and has no other
      occurrence leaves exactly the rest of the line. */
  lemma RemoveAllLeading(pat: string, v: string)
    requires pat != [] && NoMatch(v, pat)
    ensures RemoveAll(pat + v, pat) == v
  {
    var s := pat + v;
    assert s[..|pat|] == pat;
    assert s[|pat|..] == v;
    SplitNoMatch(v, pat);
    assert Split(s, pat) == ["", v];
    assert Join(["", v], "") == "" + "" + Join([v], "");
  }

  /** replace(pat, '') also removes occurrences in the middle of the text,
      not only the leading one. */
  lemma RemoveAllInterior(pat: string, a: string, b: string)
    requires pat != [] && SeparableBy(a, pat) && NoMatch(b, pat)
    ensures RemoveAll(pat + a + pat + b, pat) == a + b
  {
    SplitInterior(pat, a, b);
    JoinThree("", a, b);
  }

  lemma SplitInterior(pat: string, a: string, b: string)
    requires pat != [] && SeparableBy(a, pat) && NoMatch(b, pat)
    ensures Split(pat + a + pat + b, pat) == ["", a, b]
  {
    var t := a + pat + b;
    assert Split(t, pat) == [a, b] by {
      SplitLeadingPart(a, pat, b);
      SplitNoMatch(b, pat);
    }
    assert Split(pat + a + pat + b, pat) == [""] + Split(t, pat) by {
      assert pat + a + pat + b == "" + pat + t;
      SplitLeadingPart("", pat, t);
    }
  }

  lemma JoinThree(x: string, y: string, z: string)
    ensures Join([x, y, z], "") == x + y + z
  {
    assert Join([z], "") == z;
    JoinCons(y, [z], "");
    assert [y] + [z] == [y, z];
    JoinCons(x, [y, z], "");
    assert [x] + [y, z] == [x, y, z];
  }

  /** replace(pat, '') removes a trailing occurrence. */
  lemma RemoveAllTrailing(v: string, pat: string)
    requires pat != [] && SeparableBy(v, pat)
    ensures RemoveAll(v + pat, pat) == v
  {
    assert v + pat == v + pat + "";
    SplitLeadingPart(v, pat, "");
    assert Split("", pat) == [""];
    assert Split(v + pat, pat) == [v, ""];
    assert Join([v, ""], "") == v + "" + Join([""], "");
  }

  /** A text strips to nothing exactly when all of it is whitespace. */
  lemma StripEmptyIffAllSpace(s: string)
    ensures Strip(s) == [] <==> AllSpace(s)
  {
    var a, m, b := StripSplits(s);
    if m == [] {
      assert s == a + b;
      AllSpaceConcat(a, b);
    }
    if AllSpace(s) {
      assert s + [] + [] == s;
      StripCore(s, [], []);
    }
  }

  /** Strip leaves a stripped text as it is. */
  lemma StripStripped(s: string)
    requires IsStripped(s)
    ensures Strip(s) == s
  {
    assert "" + s + "" == s;
    StripCore("", s, "");
  }

  /** No piece of s.split(c) for a one-character separator contains c. */
  lemma {:induction false} SplitDropsChar(s: string, c: char)
    ensures forall k :: 0 <= k < |Split(s, [c])| ==> c !in Split(s, [c])[k]
    decreases |s|
  {
    if StartsWith(s, [c]) {
      SplitDropsChar(s[1..], c);
    } else if s != [] {
      SplitDropsChar(s[1..], c);
      assert s[0] != c;
    }
  }

  /** s.replace(c, '') contains no c at all. */
  lemma RemoveAllDropsChar(s: string, c: char)
    ensures c !in RemoveAll(s, [c])
  {
    SplitDropsChar(s, c);
    JoinExcludes(Split(s, [c]), "", c);
  }

  /** strip() keeps only characters of its input. */
  lemma StripExcludes(s: string, c: char)
    requires c !in s
    ensures c !in Strip(s)
  {
    var a, m, b := StripSplits(s);
    assert forall i :: 0 <= i < |m| ==> m[i] == s[|a| + i];
  }

  /** Joining with a separator is never shorter than joining without one. */
  lemma {:induction false} JoinNoSepShorter(parts: seq<string>, sep: string)
    ensures |Join(parts, "")| <= |Join(parts, sep)|
    decreases |parts|
  {
    if |parts| > 1 {
      JoinNoSepShorter(parts[1..], sep);
    }
  }

  /** s.replace(pat, '') is never longer than s. */
  lemma RemoveAllShorter(s: string, pat: string)
    requires pat != []
    ensures |RemoveAll(s, pat)| <= |s|
  {
    JoinSplit(s, pat);
    JoinNoSepShorter(Split(s, pat), pat);
  }
}
