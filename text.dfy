/** The handful of Go `strings` functions the client relies on, over Dafny strings.
    A Go string is the UTF-8 encoding of the Dafny string; every function here looks
    for ASCII characters only, and ASCII bytes never occur inside a multi-byte UTF-8
    sequence, so byte positions and character positions agree on what is found. */
module Text {
  import opened Wrappers

  /** strings.IndexByte: the position of the first `c` in `s`. */
  function IndexOf(s: string, c: char): (r: Option<nat>)
    ensures r.None? <==> c !in s
    ensures r.Some? ==> r.value < |s| && s[r.value] == c && c !in s[..r.value]
  {
    if |s| == 0 then None
    else if s[0] == c then Some(0)
    else
      match IndexOf(s[1..], c)
      case None => None
      case Some(i) =>
        assert s[..i + 1] == [s[0]] + s[1..][..i];
        Some(i + 1)
  }

  /** strings.LastIndexByte: the position of the last `c` in `s`. */
  function LastIndexOf(s: string, c: char): (r: Option<nat>)
    ensures r.None? <==> c !in s
    ensures r.Some? ==> r.value < |s| && s[r.value] == c && c !in s[r.value + 1..]
  {
    if |s| == 0 then None
    else if s[|s| - 1] == c then Some(|s| - 1)
    else
      match LastIndexOf(s[..|s| - 1], c)
      case None =>
        assert s == s[..|s| - 1] + [s[|s| - 1]];
        None
      case Some(i) =>
        assert s[i + 1..] == s[..|s| - 1][i + 1..] + [s[|s| - 1]];
        Some(i)
  }

  /** strings.Cut with a one-character separator: the text before the first `c`,
      the text after it, and whether `c` was found at all. */
  function Cut(s: string, c: char): (r: (string, string, bool))
    ensures r.2 <==> c in s
    ensures r.2 ==> s == r.0 + [c] + r.1 && c !in r.0
    ensures !r.2 ==> r.0 == s && r.1 == ""
  {
    match IndexOf(s, c)
    case None => (s, "", false)
    case Some(i) =>
      assert s == s[..i] + [c] + s[i + 1..];
      (s[..i], s[i + 1..], true)
  }

  /** Splitting at the last `c` (strings.LastIndex followed by slicing). */
  function LastCut(s: string, c: char): (r: (string, string, bool))
    ensures r.2 <==> c in s
    ensures r.2 ==> s == r.0 + [c] + r.1 && c !in r.1
    ensures !r.2 ==> r.0 == s && r.1 == ""
  {
    match LastIndexOf(s, c)
    case None => (s, "", false)
    case Some(i) =>
      assert s == s[..i] + [c] + s[i + 1..];
      (s[..i], s[i + 1..], true)
  }

  /** The first `c` of `a + [c] + b` is the one after `a` when `a` has none. */
  lemma {:induction false} IndexOfAt(a: string, c: char, b: string)
    requires c !in a
    ensures IndexOf(a + [c] + b, c) == Some(|a|)
  {
    if a != [] {
      assert (a + [c] + b)[1..] == a[1..] + [c] + b;
      IndexOfAt(a[1..], c, b);
    }
  }

  /** The last `c` of `a + [c] + b` is the one before `b` when `b` has none. */
  lemma {:induction false} LastIndexOfAt(a: string, c: char, b: string)
    requires c !in b
    ensures LastIndexOf(a + [c] + b, c) == Some(|a|)
  {
    if b != [] {
      var s := a + [c] + b;
      assert s[..|s| - 1] == a + [c] + b[..|b| - 1];
      LastIndexOfAt(a, c, b[..|b| - 1]);
    }
  }

  /** The first occurrence is unique: a split whose left part avoids `c` is the one
      Cut finds. */
  lemma CutAt(a: string, c: char, b: string)
    requires c !in a
    ensures Cut(a + [c] + b, c) == (a, b, true)
  {
    IndexOfAt(a, c, b);
    var s := a + [c] + b;
    assert s[..|a|] == a && s[|a| + 1..] == b;
  }

  /** The last occurrence is unique: a split whose right part avoids `c` is the one
      LastCut finds. */
  lemma LastCutAt(a: string, c: char, b: string)
    requires c !in b
    ensures LastCut(a + [c] + b, c) == (a, b, true)
  {
    LastIndexOfAt(a, c, b);
    var s := a + [c] + b;
    assert s[..|a|] == a && s[|a| + 1..] == b;
  }

  /** Cutting text that only has `c` after a prefix free of `c`. */
  lemma CutPrefixed(p: string, s: string, c: char)
    requires c !in p
    ensures Cut(p + s, c) == (p + Cut(s, c).0, Cut(s, c).1, Cut(s, c).2)
  {
    var r := Cut(s, c);
    if r.2 {
      assert p + s == (p + r.0) + [c] + r.1;
      CutAt(p + r.0, c, r.1);
    } else {
      assert c !in p + s;
    }
  }

  /** strings.HasPrefix. */
  predicate HasPrefix(s: string, p: string) {
    |p| <= |s| && s[..|p|] == p
  }

  /** `p` occurs in `s` starting at position `i`. */
  predicate OccursAt(s: string, p: string, i: int) {
    0 <= i <= |s| - |p| && s[i..i + |p|] == p
  }

  /** strings.Contains: `p` occurs in `s` at some position. */
  function Contains(s: string, p: string): (r: bool)
    ensures r <==> exists i :: OccursAt(s, p, i)
  {
    if |s| < |p| then false
    else if s[..|p|] == p then
      assert OccursAt(s, p, 0);
      true
    else
      var r := Contains(s[1..], p);
      assert r ==> exists i :: OccursAt(s, p, i) by {
        if r {
          var j :| OccursAt(s[1..], p, j);
          assert OccursAt(s, p, j + 1);
        }
      }
      assert (exists i :: OccursAt(s, p, i)) ==> r by {
        if exists i :: OccursAt(s, p, i) {
          var i :| OccursAt(s, p, i);
          assert i != 0;
          assert OccursAt(s[1..], p, i - 1);
        }
      }
      r
  }

  /** unicode.ToLower restricted to what can matter when the result is searched for
      ASCII text: ASCII capitals, and the two non-ASCII letters whose lower case is
      ASCII (KELVIN SIGN to 'k', LATIN CAPITAL LETTER I WITH DOT ABOVE to 'i'). Every
      other character keeps its code, which is non-ASCII exactly when Go's lower case
      of it is. */
  function LowerChar(c: char): (r: char)
    ensures !('A' <= r <= 'Z')
    ensures c as int < 0x80 ==> r as int < 0x80
  {
    if 'A' <= c <= 'Z' then (c as int + 32) as char
    else if c == 'K' then 'k'
    else if c == 'İ' then 'i'
    else c
  }

  /** strings.ToLower, one character at a time. */
  function ToLower(s: string): (r: string)
    ensures |r| == |s| && forall i :: 0 <= i < |r| ==> !('A' <= r[i] <= 'Z')
  {
    seq(|s|, i requires 0 <= i < |s| => LowerChar(s[i]))
  }

  /** Lower-casing twice is lower-casing once. */
  lemma ToLowerIdempotent(s: string)
    ensures ToLower(ToLower(s)) == ToLower(s)
  {
  }

  /** Text with no ASCII capital and neither of the two non-ASCII letters that
      lower to ASCII is its own lower case. */
  lemma ToLowerUnchanged(s: string)
    requires forall i :: 0 <= i < |s| ==> !('A' <= s[i] <= 'Z') && s[i] != 'K' && s[i] != 'İ'
    ensures ToLower(s) == s
  {
  }

  lemma ToLowerConcat(a: string, b: string)
    ensures ToLower(a + b) == ToLower(a) + ToLower(b)
  {
  }

  /** `m` is `p`, or its capital when `p` is an ASCII lower-case letter. */
  predicate CaseOf(m: char, p: char) {
    m == p || ('a' <= p <= 'z' && m as int + 32 == p as int)
  }

  /** Lower-casing text written in any case of an ASCII pattern without capitals
      gives the pattern. */
  lemma ToLowerAnyCase(m: string, p: string)
    requires |m| == |p| && forall i :: 0 <= i < |p| ==> CaseOf(m[i], p[i])
    requires forall i :: 0 <= i < |p| ==> p[i] as int < 0x80 && !('A' <= p[i] <= 'Z')
    ensures ToLower(m) == p
  {
    forall i | 0 <= i < |p| ensures ToLower(m)[i] == p[i] {
      if m[i] != p[i] {
        assert 'A' <= m[i] <= 'Z';
      }
    }
  }

  /** An ASCII pattern without capitals is found in the lower-cased text however
      it is capitalised there. */
  lemma ContainsAnyCase(pre: string, m: string, post: string, p: string)
    requires |m| == |p| && forall i :: 0 <= i < |p| ==> CaseOf(m[i], p[i])
    requires forall i :: 0 <= i < |p| ==> p[i] as int < 0x80 && !('A' <= p[i] <= 'Z')
    ensures Contains(ToLower(pre + m + post), p)
  {
    ToLowerConcat(pre + m, post);
    ToLowerConcat(pre, m);
    ToLowerAnyCase(m, p);
    var t := ToLower(pre + m + post);
    assert t == ToLower(pre) + p + ToLower(post);
    assert t[|pre|..|pre| + |p|] == p;
    assert OccursAt(t, p, |pre|);
  }

  /** strings.Join with a one-character separator. */
  function Join(parts: seq<string>, sep: char): (r: string)
    ensures |parts| == 1 ==> r == parts[0]
  {
    if |parts| == 0 then ""
    else if |parts| == 1 then parts[0]
    else parts[0] + [sep] + Join(parts[1..], sep)
  }

  /** strings.Split with a one-character separator. */
  function Split(s: string, sep: char): (r: seq<string>)
    ensures |r| >= 1
    ensures forall i :: 0 <= i < |r| ==> sep !in r[i]
    ensures Join(r, sep) == s
    decreases |s|
  {
    var (before, after, found) := Cut(s, sep);
    if found then
      var rest := Split(after, sep);
      assert ([before] + rest)[1..] == rest;
      [before] + rest
    else [s]
  }

  /** Splitting undoes joining when no part contains the separator. */
  lemma {:induction false} SplitJoin(parts: seq<string>, sep: char)
    requires |parts| >= 1
    requires forall i :: 0 <= i < |parts| ==> sep !in parts[i]
    ensures Split(Join(parts, sep), sep) == parts
  {
    if |parts| == 1 {
      assert Cut(parts[0], sep) == (parts[0], "", false);
    } else {
      var rest := Join(parts[1..], sep);
      assert Join(parts, sep) == parts[0] + [sep] + rest;
      CutAt(parts[0], sep, rest);
      assert Split(Join(parts, sep), sep) == [parts[0]] + Split(rest, sep);
      SplitJoin(parts[1..], sep);
      assert parts == [parts[0]] + parts[1..];
    }
  }
}
