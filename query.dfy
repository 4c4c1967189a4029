/** url.Values and its Encode method, and url.ParseQuery, the reading that undoes
    Encode. */
module Query {
  import opened Wrappers
  import opened Text
  import opened Escape

  /** url.Values: each key with its list of values. */
  type Values = map<string, seq<string>>

  // ---------------------------------------------------------------------------
  // The order of Go strings

  /** `a <= b` in the byte order of Go strings. For UTF-8 text this is the order of
      the code points, character by character. */
  predicate Le(a: string, b: string)
    decreases |a|
  {
    a == [] || (b != [] && (a[0] < b[0] || (a[0] == b[0] && Le(a[1..], b[1..]))))
  }

  lemma {:induction false} LeAntisymmetric(a: string, b: string)
    requires Le(a, b) && Le(b, a)
    ensures a == b
    decreases |a|
  {
    if a != [] {
      LeAntisymmetric(a[1..], b[1..]);
      assert a == [a[0]] + a[1..] && b == [b[0]] + b[1..];
    }
  }

  lemma {:induction false} LeTotal(a: string, b: string)
    ensures Le(a, b) || Le(b, a)
    decreases |a|
  {
    if a != [] && b != [] && a[0] == b[0] {
      LeTotal(a[1..], b[1..]);
    }
  }

  lemma {:induction false} LeTransitive(a: string, b: string, c: string)
    requires Le(a, b) && Le(b, c)
    ensures Le(a, c)
    decreases |a|
  {
    if a != [] && a[0] == b[0] && b[0] == c[0] {
      LeTransitive(a[1..], b[1..], c[1..]);
    }
  }

  lemma LeAntisymmetricAll()
    ensures forall a, b :: Le(a, b) && Le(b, a) ==> a == b
  {
    forall a, b | Le(a, b) && Le(b, a) ensures a == b {
      LeAntisymmetric(a, b);
    }
  }

  lemma LeReflexive(a: string)
    ensures Le(a, a)
  {
    LeTotal(a, a);
  }

  /** `k` is a least element of `keys`. */
  predicate IsLeast(k: string, keys: set<string>) {
    k in keys && forall j :: j in keys ==> Le(k, j)
  }

  /** A least element of `keys - {x}`, compared with `x`, gives a least element of
      `keys`. */
  lemma LeastOfAdded(keys: set<string>, x: string, m: string)
    requires x in keys && IsLeast(m, keys - {x})
    ensures Le(x, m) ==> IsLeast(x, keys)
    ensures !Le(x, m) ==> IsLeast(m, keys)
  {
    if Le(x, m) {
      forall j | j in keys ensures Le(x, j) {
        if j == x {
          LeReflexive(x);
        } else {
          LeTransitive(x, m, j);
        }
      }
    } else {
      LeTotal(x, m);
      forall j | j in keys ensures Le(m, j) {
        if j == x {
        }
      }
    }
  }

  /** Every non-empty set of keys has a least element. */
  lemma {:induction false} LeastExists(keys: set<string>)
    requires keys != {}
    ensures exists k :: IsLeast(k, keys)
    decreases |keys|
  {
    var x :| x in keys;
    var others := keys - {x};
    if others == {} {
      LeReflexive(x);
      assert keys == {x};
      assert IsLeast(x, keys);
    } else {
      LeastExists(others);
      var m :| IsLeast(m, others);
      LeastOfAdded(keys, x, m);
    }
  }

  function Least(keys: set<string>): (k: string)
    requires keys != {}
    ensures k in keys && forall j :: j in keys ==> Le(k, j)
  {
    LeastExists(keys);
    LeAntisymmetricAll();
    var k :| IsLeast(k, keys);
    k
  }

  /** Strictly increasing: no key twice. */
  predicate Increasing(r: seq<string>) {
    forall i, j :: 0 <= i < j < |r| ==> Le(r[i], r[j]) && r[i] != r[j]
  }

  lemma IncreasingCons(k: string, rest: seq<string>)
    requires Increasing(rest)
    requires forall j :: 0 <= j < |rest| ==> Le(k, rest[j]) && k != rest[j]
    ensures Increasing([k] + rest)
  {
    var r := [k] + rest;
    forall i, j | 0 <= i < j < |r| ensures Le(r[i], r[j]) && r[i] != r[j] {
      if i > 0 {
        assert r[i] == rest[i - 1] && r[j] == rest[j - 1];
      } else {
        assert r[j] == rest[j - 1];
      }
    }
  }

  /** The keys in increasing order (slices.Sort on the keys of the map). */
  function SortedKeys(keys: set<string>): (r: seq<string>)
    ensures |r| == |keys|
    ensures forall k :: k in keys <==> k in r
    ensures Increasing(r)
    decreases |keys|
  {
    if keys == {} then []
    else
      var k := Least(keys);
      var rest := SortedKeys(keys - {k});
      assert forall j :: 0 <= j < |rest| ==> Le(k, rest[j]) && k != rest[j] by {
        forall j | 0 <= j < |rest| ensures Le(k, rest[j]) && k != rest[j] {
          assert rest[j] in keys - {k};
        }
      }
      IncreasingCons(k, rest);
      [k] + rest
  }

  // ---------------------------------------------------------------------------
  // Values.Encode

  /** One key with each of its values, in order. */
  function KeyPairs(key: string, vs: seq<string>): seq<(string, string)>
  {
    seq(|vs|, i requires 0 <= i < |vs| => (key, vs[i]))
  }

  function PairsOf(v: Values, keys: seq<string>): seq<(string, string)>
    requires forall i :: 0 <= i < |keys| ==> keys[i] in v
  {
    if keys == [] then [] else KeyPairs(keys[0], v[keys[0]]) + PairsOf(v, keys[1..])
  }

  /** The key/value pairs Encode writes, in the order it writes them: by key in
      increasing order, and the values of each key in their list order. */
  function Pairs(v: Values): seq<(string, string)> {
    PairsOf(v, SortedKeys(v.Keys))
  }

  /** `key=value`, both escaped with url.QueryEscape. */
  function EncodePair(p: (string, string)): string {
    QueryEscape(p.0) + "=" + QueryEscape(p.1)
  }

  function EncodePairs(ps: seq<(string, string)>): seq<string>
  {
    seq(|ps|, i requires 0 <= i < |ps| => EncodePair(ps[i]))
  }

  /** What an encoded query is made of: escaped text, `=` and `&`. In particular
      never `#` or a control character. */
  predicate QueryChar(c: char) {
    Unreserved(c) || c == '+' || c == '%' || c == '=' || c == '&'
  }

  /** Values.Encode: the escaped pairs joined by `&`; the empty string when there
      are none. */
  function Encode(v: Values): (r: string)
    ensures r == "" <==> Pairs(v) == []
    ensures forall i :: 0 <= i < |r| ==> QueryChar(r[i])
  {
    var parts := EncodePairs(Pairs(v));
    forall i | 0 <= i < |parts| ensures forall j :: 0 <= j < |parts[i]| ==> QueryChar(parts[i][j]) {
      EncodePairChars(Pairs(v)[i]);
    }
    JoinQueryChars(parts);
    assert parts != [] ==> Join(parts, '&') != "" by {
      if parts != [] {
        EncodePairText(Pairs(v)[0]);
        JoinFirst(parts, '&');
      }
    }
    Join(parts, '&')
  }

  /** An encoded query ends neither the URL nor url.Parse's patience: it holds no
      `#` and no control character. */
  lemma QueryCharsSafe(q: string)
    requires forall i :: 0 <= i < |q| ==> QueryChar(q[i])
    ensures '#' !in q && !HasCtl(q)
  {
    forall c | c in q ensures c != '#' && !IsCtl(c) {
      var i :| 0 <= i < |q| && q[i] == c;
    }
  }

  lemma EncodePairChars(p: (string, string))
    ensures forall j :: 0 <= j < |EncodePair(p)| ==> QueryChar(EncodePair(p)[j])
  {
    var k, x := QueryEscape(p.0), QueryEscape(p.1);
    assert EncodePair(p) == k + "=" + x;
  }

  lemma {:induction false} JoinQueryChars(parts: seq<string>)
    requires forall i :: 0 <= i < |parts| ==> forall j :: 0 <= j < |parts[i]| ==> QueryChar(parts[i][j])
    ensures forall j :: 0 <= j < |Join(parts, '&')| ==> QueryChar(Join(parts, '&')[j])
    decreases |parts|
  {
    if |parts| > 1 {
      JoinQueryChars(parts[1..]);
      var r := Join(parts[1..], '&');
      assert Join(parts, '&') == parts[0] + ['&'] + r;
      forall j | 0 <= j < |Join(parts, '&')| ensures QueryChar(Join(parts, '&')[j]) {
        if j < |parts[0]| {
          assert Join(parts, '&')[j] == parts[0][j];
        } else if j > |parts[0]| {
          assert Join(parts, '&')[j] == r[j - |parts[0]| - 1];
        }
      }
    }
  }

  lemma JoinFirst(parts: seq<string>, sep: char)
    requires parts != [] && parts[0] != ""
    ensures Join(parts, sep) != ""
  {
    if |parts| > 1 {
      assert Join(parts, sep)[0] == parts[0][0];
    }
  }

  // ---------------------------------------------------------------------------
  // url.ParseQuery

  /** The pairs of `&`-separated segments: an empty segment is skipped, a segment
      holding `;` is refused, and otherwise the text before the first `=` is the
      key and the rest the value, each unescaped with url.QueryUnescape. */
  function ParseSegments(segments: seq<string>): Option<seq<(string, string)>> {
    if segments == [] then Some([])
    else if segments[0] == "" then ParseSegments(segments[1..])
    else if ';' in segments[0] then None
    else
      var (key, value, _) := Cut(segments[0], '=');
      match (QueryUnescape(key), QueryUnescape(value), ParseSegments(segments[1..]))
      case (Some(k), Some(x), Some(rest)) => Some([(k, x)] + rest)
      case _ => None
  }

  /** url.ParseQuery, as the sequence of pairs in the order they are added to the
      map; None where url.ParseQuery reports an error. */
  function ParseQuery(query: string): Option<seq<(string, string)>> {
    ParseSegments(Split(query, '&'))
  }

  lemma EncodePairText(p: (string, string))
    ensures '&' !in EncodePair(p) && ';' !in EncodePair(p) && EncodePair(p) != ""
    ensures Cut(EncodePair(p), '=') == (QueryEscape(p.0), QueryEscape(p.1), true)
  {
    var k := QueryEscape(p.0);
    var x := QueryEscape(p.1);
    assert '=' !in k && '&' !in k && ';' !in k by {
      assert forall i :: 0 <= i < |k| ==> Unreserved(k[i]) || k[i] == '+' || k[i] == '%';
    }
    assert '&' !in x && ';' !in x by {
      assert forall i :: 0 <= i < |x| ==> Unreserved(x[i]) || x[i] == '+' || x[i] == '%';
    }
    assert EncodePair(p) == k + ['='] + x;
    CutAt(k, '=', x);
  }

  lemma {:induction false} ParseEncodedSegments(ps: seq<(string, string)>)
    ensures ParseSegments(EncodePairs(ps)) == Some(ps)
    decreases |ps|
  {
    if ps != [] {
      var segments := EncodePairs(ps);
      EncodePairText(ps[0]);
      QueryRoundTrip(ps[0].0);
      QueryRoundTrip(ps[0].1);
      assert segments[1..] == EncodePairs(ps[1..]);
      ParseEncodedSegments(ps[1..]);
      assert ps == [ps[0]] + ps[1..];
    }
  }

  /** url.ParseQuery reads back the pairs Values.Encode wrote, in the same order. */
  lemma ParseEncode(v: Values)
    ensures ParseQuery(Encode(v)) == Some(Pairs(v))
  {
    var ps := Pairs(v);
    var parts := EncodePairs(ps);
    if parts == [] {
      assert Split("", '&') == [""];
    } else {
      forall i | 0 <= i < |parts| ensures '&' !in parts[i] {
        EncodePairText(ps[i]);
      }
      SplitJoin(parts, '&');
    }
    ParseEncodedSegments(ps);
  }

  /** The values of a key are written consecutively, in their order, and keys are
      written in increasing order: with two keys `a < b`, all pairs of `a` come
      before all pairs of `b`. */
  lemma PairsOfTwo(a: string, va: seq<string>, b: string, vb: seq<string>)
    requires Le(a, b) && a != b
    ensures Pairs(map[a := va, b := vb]) == KeyPairs(a, va) + KeyPairs(b, vb)
  {
    var v := map[a := va, b := vb];
    assert v.Keys == {a, b};
    var keys := SortedKeys({a, b});
    assert |keys| == 2;
    assert keys[0] in {a, b} && keys[1] in {a, b};
    assert Le(keys[0], keys[1]) && keys[0] != keys[1];
    if keys[0] == b {
      assert keys[1] == a;
      LeAntisymmetric(a, b);
    }
    assert keys == [a, b];
    assert v[a] == va && v[b] == vb;
    assert PairsOf(v, [b]) == KeyPairs(b, vb) + PairsOf(v, []);
    assert PairsOf(v, [a, b]) == KeyPairs(a, va) + PairsOf(v, [b]);
  }
}
