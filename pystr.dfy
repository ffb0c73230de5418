/**
 * The Python `str` operations the service relies on (`strip`, `split`,
 * `endswith`, `replace` and substring search), written out over Dafny
 * strings together with the facts the rest of the model needs about them.
 */
module PyStr {

  /** `c.isspace()` in Python: the ASCII whitespace characters, the
      information separators U+001C..U+001F, NEL, no-break space and the
      Unicode space, line and paragraph separators. */
  predicate IsSpace(c: char) {
    c == ' ' || ('\t' <= c <= '\r') || ('\U{1C}' <= c <= '\U{1F}')
    || c == '\U{85}' || c == '\U{A0}' || c == '\U{1680}'
    || ('\U{2000}' <= c <= '\U{200A}') || c == '\U{2028}' || c == '\U{2029}'
    || c == '\U{202F}' || c == '\U{205F}' || c == '\U{3000}'
  }

  predicate AllSpace(s: string) {
    forall i :: 0 <= i < |s| ==> IsSpace(s[i])
  }

  /** `s.lstrip()`: drops the leading whitespace and nothing else. */
  function LStrip(s: string): (r: string)
    ensures |r| <= |s| && r == s[|s| - |r|..]
    ensures AllSpace(s[..|s| - |r|])
    ensures r == [] || !IsSpace(r[0])
    decreases |s|
  {
    if s != [] && IsSpace(s[0]) then
      var t := s[1..];
      var r := LStrip(t);
      var k := |t| - |r|;
      assert AllSpace(s[..k + 1]) by {
        assert forall j :: 1 <= j < k + 1 ==> s[j] == t[j - 1];
      }
      assert t[k..] == s[k + 1..];
      r
    else s
  }

  /** `s.rstrip()`: drops the trailing whitespace and nothing else. */
  function RStrip(s: string): (r: string)
    ensures |r| <= |s| && r == s[..|r|]
    ensures AllSpace(s[|r|..])
    ensures r == [] || !IsSpace(r[|r| - 1])
    decreases |s|
  {
    if s != [] && IsSpace(s[|s| - 1]) then
      var r := RStrip(s[..|s| - 1]);
      assert s[|r|..] == s[..|s| - 1][|r|..] + [s[|s| - 1]];
      r
    else s
  }

  /** `s.strip()`: the text between the leading and the trailing whitespace. */
  function Strip(s: string): string {
    RStrip(LStrip(s))
  }

  /** What `strip` leaves: nothing exactly when the string is all whitespace,
      otherwise a slice of the string with non-space ends and only whitespace
      around it. */
  lemma StripSpec(s: string)
    ensures AllSpace(s) <==> Strip(s) == []
    ensures Strip(s) != [] ==> !IsSpace(Strip(s)[0]) && !IsSpace(Strip(s)[|Strip(s)| - 1])
    ensures exists i :: 0 <= i <= |s| - |Strip(s)| && s[i..i + |Strip(s)|] == Strip(s)
                        && AllSpace(s[..i]) && AllSpace(s[i + |Strip(s)|..])
  {
    StripEmpty(s);
    StripWitness(s);
  }

  lemma StripWitness(s: string)
    ensures exists i :: 0 <= i <= |s| - |Strip(s)| && s[i..i + |Strip(s)|] == Strip(s)
                        && AllSpace(s[..i]) && AllSpace(s[i + |Strip(s)|..])
  {
    var l := LStrip(s);
    var r := RStrip(l);
    var i := |s| - |l|;
    assert l == s[i..];
    assert r == l[..|r|] && AllSpace(l[|r|..]);
    assert s[i..i + |r|] == l[..|r|];
    assert s[i + |r|..] == l[|r|..];
    assert AllSpace(s[..i]);
    assert r == Strip(s);
  }

  lemma StripEmpty(s: string)
    ensures AllSpace(s) <==> Strip(s) == []
  {
    var l := LStrip(s);
    var i := |s| - |l|;
    assert l == s[i..];
    assert l != [] ==> l[0] == s[i];
    assert l[0..] == l;
    assert s[..i] == s[..|s| - |l|];
    assert l == [] ==> s[..i] == s;
  }

  /** Stripping twice is stripping once. */
  lemma StripIdempotent(s: string)
    ensures Strip(Strip(s)) == Strip(s)
  {
    var r := Strip(s);
    if r != [] {
      assert LStrip(r) == r;
      assert RStrip(r) == r;
    }
  }

  /** A string with no whitespace at either end is its own strip. */
  lemma StripClean(s: string)
    requires s != [] && !IsSpace(s[0]) && !IsSpace(s[|s| - 1])
    ensures Strip(s) == s
  {
    assert LStrip(s) == s;
  }

  /** The index of the first `c` in `s`, or `|s|` when there is none. */
  function IndexOf(s: string, c: char): (i: nat)
    ensures i <= |s|
    ensures i < |s| ==> s[i] == c
    decreases |s|
  {
    if s == [] || s[0] == c then 0 else 1 + IndexOf(s[1..], c)
  }

  /** No `c` comes before the index found. */
  lemma {:induction false} IndexOfFirst(s: string, c: char)
    ensures forall j :: 0 <= j < IndexOf(s, c) ==> s[j] != c
    decreases |s|
  {
    if s != [] && s[0] != c {
      IndexOfFirst(s[1..], c);
      assert forall j :: 1 <= j < IndexOf(s, c) ==> s[j] == s[1..][j - 1];
    }
  }

  /** Searching a concatenation finds the first string's `c` if it has one. */
  lemma IndexOfAppend(s: string, t: string, c: char)
    ensures IndexOf(s + t, c) == if IndexOf(s, c) < |s| then IndexOf(s, c) else |s| + IndexOf(t, c)
  {
    var i, k := IndexOf(s, c), IndexOf(s + t, c);
    IndexOfFirst(s, c);
    IndexOfFirst(s + t, c);
    if i < |s| {
      assert (s + t)[i] == c;
    } else {
      var m := IndexOf(t, c);
      IndexOfFirst(t, c);
      assert forall j :: 0 <= j < |s| ==> (s + t)[j] == s[j];
      assert forall j :: |s| <= j < |s| + m ==> (s + t)[j] == t[j - |s|];
      assert m < |t| ==> (s + t)[|s| + m] == c;
    }
  }

  /** `s.split(sep)` for a one-character separator: the text before the first
      separator, then the split of the text after it; a string without the
      separator is a single part. */
  function Split(s: string, sep: char): (parts: seq<string>)
    ensures |parts| >= 1
    decreases |s|
  {
    var i := IndexOf(s, sep);
    if i == |s| then [s] else [s[..i]] + Split(s[i + 1..], sep)
  }

  /** A string holding the separator splits into at least two parts. */
  lemma SplitSecond(s: string, sep: char)
    requires sep in s
    ensures |Split(s, sep)| >= 2
  {
    var k :| 0 <= k < |s| && s[k] == sep;
    IndexOfFirst(s, sep);
    assert IndexOf(s, sep) < |s|;
  }

  /** The first part is the text before the first separator. */
  lemma SplitFirst(s: string, sep: char)
    ensures Split(s, sep)[0] == s[..IndexOf(s, sep)]
  {
    if IndexOf(s, sep) == |s| {
      assert s[..|s|] == s;
    }
  }

  /** No part of a split holds the separator, and a string without the
      separator is its own single part. */
  lemma {:induction false} SplitParts(s: string, sep: char)
    ensures forall i :: 0 <= i < |Split(s, sep)| ==> sep !in Split(s, sep)[i]
    ensures sep !in s ==> Split(s, sep) == [s]
    decreases |s|
  {
    var i := IndexOf(s, sep);
    IndexOfFirst(s, sep);
    if i < |s| {
      SplitParts(s[i + 1..], sep);
      var parts := Split(s, sep);
      assert parts == [s[..i]] + Split(s[i + 1..], sep);
      forall k | 0 <= k < |parts| ensures sep !in parts[k] {
        if k == 0 {
          assert forall j :: 0 <= j < i ==> s[..i][j] == s[j];
        } else {
          assert parts[k] == Split(s[i + 1..], sep)[k - 1];
        }
      }
    }
  }

  /** `sep.join(parts)`. */
  function Join(parts: seq<string>, sep: char): string
    requires |parts| >= 1
    decreases |parts|
  {
    if |parts| == 1 then parts[0] else parts[0] + [sep] + Join(parts[1..], sep)
  }

  /** Joining the parts of a split gives back the string. */
  lemma {:induction false} JoinSplit(s: string, sep: char)
    ensures Join(Split(s, sep), sep) == s
    decreases |s|
  {
    var i := IndexOf(s, sep);
    if i < |s| {
      var rest := Split(s[i + 1..], sep);
      JoinSplit(s[i + 1..], sep);
      var parts := [s[..i]] + rest;
      assert parts[0] == s[..i] && parts[1..] == rest;
      assert s == s[..i] + [sep] + s[i + 1..];
    }
  }

  /** Splitting at a separator splits the two sides independently. */
  lemma SplitAppend(a: string, b: string, sep: char)
    ensures Split(a + [sep] + b, sep) == Split(a, sep) + Split(b, sep)
  {
    var pa, pb := Split(a, sep), Split(b, sep);
    JoinSplit(a, sep);
    JoinSplit(b, sep);
    SplitParts(a, sep);
    SplitParts(b, sep);
    JoinAppend(pa, pb, sep);
    assert forall i :: 0 <= i < |pa + pb| ==> sep !in (pa + pb)[i] by {
      forall i | 0 <= i < |pa + pb| ensures sep !in (pa + pb)[i] {
        if i < |pa| { assert (pa + pb)[i] == pa[i]; } else { assert (pa + pb)[i] == pb[i - |pa|]; }
      }
    }
    SplitJoin(pa + pb, sep);
  }

  /** Joining two lists of parts puts one separator between their joins. */
  lemma {:induction false} JoinAppend(p: seq<string>, q: seq<string>, sep: char)
    requires |p| >= 1 && |q| >= 1
    ensures Join(p + q, sep) == Join(p, sep) + [sep] + Join(q, sep)
    decreases |p|
  {
    assert (p + q)[0] == p[0];
    if |p| == 1 {
      assert (p + q)[1..] == q;
    } else {
      assert (p + q)[1..] == p[1..] + q;
      JoinAppend(p[1..], q, sep);
      var h, jp, jq := p[0], Join(p[1..], sep), Join(q, sep);
      assert h + [sep] + (jp + [sep] + jq) == (h + [sep] + jp) + [sep] + jq;
    }
  }

  /** The first separator of `a + [sep] + b` is the first one of `a`, or the added one. */
  lemma IndexOfSeparated(a: string, b: string, sep: char)
    ensures IndexOf(a + [sep] + b, sep) == if IndexOf(a, sep) < |a| then IndexOf(a, sep) else |a|
  {
    assert a + [sep] + b == a + ([sep] + b);
    IndexOfAppend(a, [sep] + b, sep);
    assert IndexOf([sep] + b, sep) == 0;
  }

  /** Without a separator in `a`, the split of `a + [sep] + b` starts with `a`. */
  lemma SplitAtSeparator(a: string, b: string, sep: char)
    requires IndexOf(a, sep) == |a|
    ensures Split(a + [sep] + b, sep) == [a] + Split(b, sep)
  {
    var s := a + [sep] + b;
    IndexOfSeparated(a, b, sep);
    assert s[..|a|] == a && s[|a| + 1..] == b;
  }

  /** Splitting a join whose parts hold no separator gives back the parts. */
  lemma {:induction false} SplitJoin(parts: seq<string>, sep: char)
    requires |parts| >= 1
    requires forall i :: 0 <= i < |parts| ==> sep !in parts[i]
    ensures Split(Join(parts, sep), sep) == parts
    decreases |parts|
  {
    var h := parts[0];
    SplitParts(h, sep);
    if |parts| > 1 {
      var t := parts[1..];
      assert forall i :: 0 <= i < |t| ==> t[i] == parts[i + 1];
      SplitJoin(t, sep);
      var j := Join(t, sep);
      assert Join(parts, sep) == h + [sep] + j;
      assert IndexOf(h, sep) == |h|;
      SplitAtSeparator(h, j, sep);
      assert parts == [h] + t;
    }
  }

  /** Text after the first separator does not change the first part. */
  lemma SplitHeadExtension(s: string, t: string, sep: char)
    requires sep in s
    ensures Split(s + t, sep)[0] == Split(s, sep)[0]
  {
    var i := IndexOf(s, sep);
    assert i < |s| by {
      var k :| 0 <= k < |s| && s[k] == sep;
      IndexOfFirst(s, sep);
    }
    IndexOfAppend(s, t, sep);
    assert (s + t)[..i] == s[..i];
  }

  /** `s.endswith(suffix)`. */
  predicate EndsWith(s: string, suffix: string) {
    |suffix| <= |s| && s[|s| - |suffix|..] == suffix
  }

  /** `pat` occurs in `s` starting at index `i`. */
  predicate OccursAt(s: string, pat: string, i: int) {
    0 <= i && i + |pat| <= |s| && s[i..i + |pat|] == pat
  }

  /** `pat in s` for strings: `pat` occurs somewhere in `s`. */
  predicate Contains(s: string, pat: string) {
    exists i :: 0 <= i <= |s| && OccursAt(s, pat, i)
  }

  /** `s.replace(target, repl)`: every non-overlapping occurrence of `target`,
      scanning left to right, becomes `repl`; an empty `target` inserts `repl`
      before every character and at the end. */
  function Replace(s: string, target: string, repl: string): string
    decreases |s|
  {
    if target == [] then
      if s == [] then repl else repl + [s[0]] + Replace(s[1..], target, repl)
    else if |s| < |target| then s
    else if s[..|target|] == target then repl + Replace(s[|target|..], target, repl)
    else [s[0]] + Replace(s[1..], target, repl)
  }

  lemma ContainsTail(s: string, pat: string)
    requires s != [] && Contains(s[1..], pat)
    ensures Contains(s, pat)
  {
    var i :| 0 <= i <= |s[1..]| && OccursAt(s[1..], pat, i);
    assert s[1..][i..i + |pat|] == s[i + 1..i + 1 + |pat|];
    assert OccursAt(s, pat, i + 1);
  }

  /** Replacing a target that does not occur changes nothing. */
  lemma {:induction false} ReplaceAbsent(s: string, target: string, repl: string)
    requires target != [] && !Contains(s, target)
    ensures Replace(s, target, repl) == s
    decreases |s|
  {
    if |s| >= |target| {
      assert !OccursAt(s, target, 0);
      assert s[0..0 + |target|] == s[..|target|];
      if Contains(s[1..], target) {
        ContainsTail(s, target);
      }
      ReplaceAbsent(s[1..], target, repl);
      assert s == [s[0]] + s[1..];
    }
  }

  /** When the first character of `target` does not recur inside it (as for
      ".npy"), a `target` appended to a string free of it is the only
      occurrence, and replacing rewrites exactly that suffix. */
  lemma {:induction false} ReplaceSuffix(s: string, target: string, repl: string)
    requires target != [] && !Contains(s, target)
    requires forall k :: 0 < k < |target| ==> target[k] != target[0]
    ensures Replace(s + target, target, repl) == s + repl
    decreases |s|
  {
    var t := s + target;
    if s == [] {
      assert t == target && t[|target|..] == [];
      assert Replace(t, target, repl) == repl + Replace([], target, repl);
    } else {
      if |s| >= |target| {
        assert !OccursAt(s, target, 0);
        assert t[..|target|] == s[0..0 + |target|];
      } else {
        assert t[..|target|][|s|] == target[0];
        assert target[|s|] != target[0];
      }
      assert t[..|target|] != target;
      if Contains(s[1..], target) {
        ContainsTail(s, target);
      }
      assert t[1..] == s[1..] + target;
      assert Replace(t, target, repl) == [t[0]] + Replace(t[1..], target, repl);
      ReplaceSuffix(s[1..], target, repl);
      assert s == [s[0]] + s[1..];
      assert [s[0]] + (s[1..] + repl) == s + repl;
    }
  }
}
