/** The Python `str` operations the pipeline relies on, on `seq<char>`. */
module PyStr {

  /** `c.isspace()`: the characters `str.strip()` removes (Unicode White_Space
      as Python classifies it). */
  predicate IsSpace(c: char) {
    ('\t' <= c <= '\r') || ('\U{1C}' <= c <= '\U{1F}') || c == ' '
    || c == '\U{85}' || c == '\U{A0}' || c == '\U{1680}'
    || ('\U{2000}' <= c <= '\U{200A}') || c == '\U{2028}' || c == '\U{2029}'
    || c == '\U{202F}' || c == '\U{205F}' || c == '\U{3000}'
  }

  /** An ASCII decimal digit (the model's reading of the regex class `\d`). */
  predicate IsAsciiDigit(c: char) {
    '0' <= c <= '9'
  }

  function LStrip(s: string): (r: string)
    ensures |r| <= |s| && r == s[|s| - |r|..]
    ensures forall k | 0 <= k < |s| - |r| :: IsSpace(s[k])
    ensures r != [] ==> !IsSpace(r[0])
  {
    if |s| > 0 && IsSpace(s[0]) then LStrip(s[1..]) else s
  }

  function RStrip(s: string): (r: string)
    ensures |r| <= |s| && r == s[..|r|]
    ensures forall k | |r| <= k < |s| :: IsSpace(s[k])
    ensures r != [] ==> !IsSpace(r[|r| - 1])
  {
    if |s| > 0 && IsSpace(s[|s| - 1]) then RStrip(s[..|s| - 1]) else s
  }

  /** Every character of `t` is whitespace. */
  predicate AllSpace(t: string) {
    forall k | 0 <= k < |t| :: IsSpace(t[k])
  }

  /** `r` is a stretch of `s` with only whitespace before and after it. */
  predicate IsMiddle(s: string, r: string) {
    exists i | 0 <= i <= |s| - |r| ::
      r == s[i..i + |r|] && AllSpace(s[..i]) && AllSpace(s[i + |r|..])
  }

  /** `s.strip()`: the text between the leading and the trailing whitespace. */
  function Strip(s: string): (r: string)
    ensures r == [] <==> AllSpace(s)
    ensures r != [] ==> !IsSpace(r[0]) && !IsSpace(r[|r| - 1])
    ensures IsMiddle(s, r)
  {
    var l := LStrip(s);
    var r := RStrip(l);
    assert l != [] ==> l[0] == s[|s| - |l|];
    StripBounds(s, l, r);
    r
  }

  /** A right strip `r` of a left strip `l` of `s` is the middle of `s`,
      between whitespace runs. */
  lemma StripBounds(s: string, l: string, r: string)
    requires |l| <= |s| && l == s[|s| - |l|..] && forall k | 0 <= k < |s| - |l| :: IsSpace(s[k])
    requires |r| <= |l| && r == l[..|r|] && forall k | |r| <= k < |l| :: IsSpace(l[k])
    ensures IsMiddle(s, r)
  {
    var i := |s| - |l|;
    var head := s[..i];
    assert forall k | 0 <= k < |head| :: head[k] == s[k];
    var tail := s[i + |r|..];
    assert forall k | 0 <= k < |tail| :: tail[k] == l[|r| + k];
    assert r == s[i..i + |r|] && AllSpace(head) && AllSpace(tail);
  }

  /** `s[:n]`. */
  function Prefix(s: string, n: nat): (r: string)
    ensures |r| == if |s| <= n then |s| else n
    ensures r == s[..|r|]
  {
    if |s| <= n then s else s[..n]
  }

  /** The characters of `s` that `keep` accepts, in order (`re.sub` with a
      negated class and an empty replacement, `s.replace(c, "")`). */
  function Filter(s: string, keep: char -> bool): (r: string)
    ensures |r| <= |s|
    ensures forall k | 0 <= k < |r| :: keep(r[k])
  {
    if s == [] then []
    else
      assert s == [s[0]] + s[1..];
      (if keep(s[0]) then [s[0]] else []) + Filter(s[1..], keep)
  }

  /** Filtering distributes over concatenation: it keeps the order of `s`. */
  lemma {:induction false} FilterConcat(a: string, b: string, keep: char -> bool)
    ensures Filter(a + b, keep) == Filter(a, keep) + Filter(b, keep)
  {
    if a != [] {
      var head: string := if keep(a[0]) then [a[0]] else [];
      assert (a + b)[0] == a[0] && (a + b)[1..] == a[1..] + b;
      assert Filter(a + b, keep) == head + Filter(a[1..] + b, keep);
      FilterConcat(a[1..], b, keep);
      assert Filter(a, keep) == head + Filter(a[1..], keep);
    } else {
      assert a + b == b;
    }
  }

  /** Filtering keeps every occurrence of every accepted character. */
  lemma {:induction false} FilterCount(s: string, keep: char -> bool, c: char)
    requires keep(c)
    ensures multiset(Filter(s, keep))[c] == multiset(s)[c]
  {
    if s != [] {
      FilterCount(s[1..], keep, c);
      assert s == [s[0]] + s[1..];
    }
  }

  /** Filtering keeps a text whose characters are all accepted as it is. */
  lemma {:induction false} FilterAll(s: string, keep: char -> bool)
    requires forall k | 0 <= k < |s| :: keep(s[k])
    ensures Filter(s, keep) == s
  {
    if s != [] {
      FilterAll(s[1..], keep);
    }
  }

  /** Filtering twice with the weaker test first is filtering once. */
  lemma {:induction false} FilterFilter(s: string, p: char -> bool, q: char -> bool)
    requires forall c: char :: q(c) ==> p(c)
    ensures Filter(Filter(s, p), q) == Filter(s, q)
  {
    if s != [] {
      var head: string := if p(s[0]) then [s[0]] else [];
      FilterConcat(head, Filter(s[1..], p), q);
      FilterFilter(s[1..], p, q);
      if p(s[0]) {
        assert head[1..] == [] && head[0] == s[0];
      }
    }
  }

  /** `s.replace(a, b)` for one-character `a` and `b`. */
  function ReplaceChar(s: string, a: char, b: char): (r: string)
    ensures |r| == |s|
    ensures forall k | 0 <= k < |s| :: r[k] == if s[k] == a then b else s[k]
  {
    if s == [] then [] else [if s[0] == a then b else s[0]] + ReplaceChar(s[1..], a, b)
  }

  /** Replacing `a` by an absent `b` is undone by replacing `b` by `a`. */
  lemma ReplaceCharBack(s: string, a: char, b: char)
    requires b !in s
    ensures ReplaceChar(ReplaceChar(s, a, b), b, a) == s
  {
    var r := ReplaceChar(s, a, b);
    assert forall k | 0 <= k < |s| :: ReplaceChar(r, b, a)[k] == s[k];
  }

  /** Replacing a character that does not occur changes nothing. */
  lemma ReplaceCharAbsent(s: string, a: char, b: char)
    requires a !in s
    ensures ReplaceChar(s, a, b) == s
  {
    assert forall k | 0 <= k < |s| :: s[k] != a;
  }

  lemma ReplaceCharConcat(x: string, y: string, a: char, b: char)
    ensures ReplaceChar(x + y, a, b) == ReplaceChar(x, a, b) + ReplaceChar(y, a, b)
  {
    var l, r := ReplaceChar(x + y, a, b), ReplaceChar(x, a, b) + ReplaceChar(y, a, b);
    assert |l| == |r|;
    forall k | 0 <= k < |l|
      ensures l[k] == r[k]
    {
      if k < |x| {
        assert (x + y)[k] == x[k];
      } else {
        assert (x + y)[k] == y[k - |x|];
      }
    }
  }

  /** After the replacement every `a` has become a `b`. */
  lemma {:induction false} ReplaceCharCount(s: string, a: char, b: char)
    requires a != b
    ensures multiset(ReplaceChar(s, a, b))[a] == 0
    ensures multiset(ReplaceChar(s, a, b))[b] == multiset(s)[a] + multiset(s)[b]
  {
    if s != [] {
      ReplaceCharCount(s[1..], a, b);
      assert s == [s[0]] + s[1..];
    }
  }

  /** Replacing one character the filter drops by another it drops does not
      change what the filter keeps. */
  lemma {:induction false} FilterReplace(s: string, a: char, b: char, keep: char -> bool)
    requires !keep(a) && !keep(b)
    ensures Filter(ReplaceChar(s, a, b), keep) == Filter(s, keep)
  {
    if s != [] {
      var r := ReplaceChar(s, a, b);
      assert r[0] == (if s[0] == a then b else s[0]);
      assert r[1..] == ReplaceChar(s[1..], a, b);
      FilterReplace(s[1..], a, b, keep);
    }
  }

  /** `s.find(c)`: the first index of `c`, or -1. */
  function IndexOf(s: string, c: char): (r: int)
    ensures -1 <= r < |s|
    ensures r >= 0 ==> s[r] == c && c !in s[..r]
    ensures r < 0 <==> c !in s
  {
    if s == [] then -1
    else if s[0] == c then 0
    else
      var i := IndexOf(s[1..], c);
      assert s[1..][..if i < 0 then 0 else i] == s[1..1 + (if i < 0 then 0 else i)];
      if i < 0 then -1 else i + 1
  }

  /** A character that occurs once occurs only at its first index. */
  lemma SingleOccurrence(s: string, c: char, k: int)
    requires multiset(s)[c] == 1 && 0 <= k < |s| && s[k] == c
    ensures k == IndexOf(s, c)
  {
    FirstOrRepeated(s, c, k);
  }

  /** An occurrence other than the first is a second one. */
  lemma FirstOrRepeated(s: string, c: char, k: int)
    requires 0 <= k < |s| && s[k] == c
    ensures k == IndexOf(s, c) || multiset(s)[c] >= 2
  {
    var i := IndexOf(s, c);
    if k != i {
      assert i < k;
      assert s == s[..k] + [s[k]] + s[k + 1..];
      assert s[..k][i] == c;
      assert multiset(s) == multiset(s[..k]) + multiset([s[k]]) + multiset(s[k + 1..]);
    }
  }

  /** `s.rfind(c)`: the last index of `c`, or -1. */
  function LastIndexOf(s: string, c: char): (r: int)
    ensures -1 <= r < |s|
    ensures r >= 0 ==> s[r] == c && c !in s[r + 1..]
    ensures r < 0 <==> c !in s
  {
    if s == [] then -1
    else if s[|s| - 1] == c then |s| - 1
    else
      assert s == s[..|s| - 1] + [s[|s| - 1]];
      LastIndexOf(s[..|s| - 1], c)
  }

  /** A text with no whitespace at either end strips to itself. */
  lemma StripUnchanged(s: string)
    requires s != [] ==> !IsSpace(s[0]) && !IsSpace(s[|s| - 1])
    ensures Strip(s) == s
  {
  }

  /** Text after the last occurrence does not move it. */
  lemma {:induction false} LastIndexOfConcat(x: string, y: string, c: char)
    requires c !in y
    ensures LastIndexOf(x + y, c) == LastIndexOf(x, c)
    decreases |y|
  {
    if y == [] {
      assert x + y == x;
    } else {
      var y' := y[..|y| - 1];
      assert (x + y)[..|x + y| - 1] == x + y';
      assert y[|y| - 1] in y;
      LastIndexOfConcat(x, y', c);
    }
  }

  /** `sep.join(parts)`. */
  function Join(sep: string, parts: seq<string>): string {
    if |parts| == 0 then ""
    else if |parts| == 1 then parts[0]
    else parts[0] + sep + Join(sep, parts[1..])
  }

  /** A join is made of the characters of its parts and its separator. */
  lemma {:induction false} JoinChars(sep: string, parts: seq<string>, ok: char -> bool)
    requires forall k | 0 <= k < |sep| :: ok(sep[k])
    requires forall i, k | 0 <= i < |parts| && 0 <= k < |parts[i]| :: ok(parts[i][k])
    ensures forall k | 0 <= k < |Join(sep, parts)| :: ok(Join(sep, parts)[k])
  {
    if |parts| > 1 {
      JoinChars(sep, parts[1..], ok);
      var rest := Join(sep, parts[1..]);
      var j := parts[0] + sep + rest;
      forall k | 0 <= k < |j|
        ensures ok(j[k])
      {
        if k < |parts[0]| {
          assert j[k] == parts[0][k];
        } else if k < |parts[0]| + |sep| {
          assert j[k] == sep[k - |parts[0]|];
        } else {
          assert j[k] == rest[k - |parts[0]| - |sep|];
        }
      }
    } else if |parts| == 1 {
      assert forall k | 0 <= k < |parts[0]| :: ok(parts[0][k]);
    }
  }

  /** A join starts with its first part. */
  lemma JoinStartsWithFirst(sep: string, parts: seq<string>)
    requires parts != []
    ensures |parts[0]| <= |Join(sep, parts)|
    ensures Join(sep, parts)[..|parts[0]|] == parts[0]
  {
    if |parts| > 1 {
      assert (parts[0] + sep + Join(sep, parts[1..]))[..|parts[0]|] == parts[0];
    }
  }

  /** Filtering a kept part, a dropped separator and a rest keeps the part
      and filters the rest. */
  lemma FilterPartThenSeparator(part: string, sep: char, rest: string, keep: char -> bool)
    requires !keep(sep)
    requires forall k | 0 <= k < |part| :: keep(part[k])
    ensures Filter(part + [sep] + rest, keep) == part + Filter(rest, keep)
  {
    var sep1: string := [sep];
    assert sep1[1..] == [];
    assert Filter(sep1, keep) == [];
    FilterAll(part, keep);
    FilterConcat(part, sep1, keep);
    assert Filter(part + sep1, keep) == part;
    FilterConcat(part + sep1, rest, keep);
  }

  /** Filtering out a one-character separator that no part holds joins the
      parts with nothing between them. */
  lemma {:induction false} FilterJoin(sep: char, parts: seq<string>, keep: char -> bool)
    requires !keep(sep)
    requires forall i, k | 0 <= i < |parts| && 0 <= k < |parts[i]| :: keep(parts[i][k])
    ensures Filter(Join([sep], parts), keep) == Join("", parts)
  {
    if |parts| == 1 {
      FilterAll(parts[0], keep);
    } else if |parts| > 1 {
      var tail := parts[1..];
      forall i, k | 0 <= i < |tail| && 0 <= k < |tail[i]|
        ensures keep(tail[i][k])
      {
        assert tail[i] == parts[i + 1];
      }
      FilterPartThenSeparator(parts[0], sep, Join([sep], tail), keep);
      FilterJoin(sep, tail, keep);
      assert parts[0] + "" + Join("", tail) == parts[0] + Join("", tail);
    }
  }

  /** `s.split(c)` for a one-character separator: never empty. */
  function Split(s: string, c: char): (r: seq<string>)
    ensures |r| > 0
    decreases |s|
  {
    var i := IndexOf(s, c);
    if i < 0 then [s] else [s[..i]] + Split(s[i + 1..], c)
  }

  /** Joining the pieces of a split gives back the text. */
  lemma {:induction false} JoinSplit(s: string, c: char)
    ensures Join([c], Split(s, c)) == s
    decreases |s|
  {
    var i := IndexOf(s, c);
    if i >= 0 {
      JoinSplit(s[i + 1..], c);
      assert s == s[..i] + [c] + s[i + 1..];
    }
  }

  /** Splitting a join gives back the pieces when none of them holds the
      separator. */
  lemma {:induction false} SplitJoin(parts: seq<string>, c: char)
    requires |parts| > 0
    requires forall k | 0 <= k < |parts| :: c !in parts[k]
    ensures Split(Join([c], parts), c) == parts
  {
    if |parts| > 1 {
      SplitAfterFirst(parts[0], c, Join([c], parts[1..]));
      SplitJoin(parts[1..], c);
      assert parts == [parts[0]] + parts[1..];
    }
  }

  /** A text whose first occurrence of `c` follows `a` splits there. */
  lemma SplitAfterFirst(a: string, c: char, rest: string)
    requires c !in a
    ensures Split(a + [c] + rest, c) == [a] + Split(rest, c)
  {
    var s := a + [c] + rest;
    assert s[..|a|] == a;
    assert s[|a|] == c;
    assert IndexOf(s, c) == |a|;
    assert s[|a| + 1..] == rest;
  }
}
