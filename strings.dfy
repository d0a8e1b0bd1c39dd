/**
  The Python string operations the generator relies on: `str.strip()`,
  `str.split(sep)` and `sep.join(list)`, over `string` (a `seq<char>`).
  Whitespace is six ASCII whitespace characters; the rest are left out.
 */
module Strings {

  /** Space, tab, line feed, carriage return, vertical tab and form feed. */
  predicate IsSpace(c: char) {
    c == ' ' || c == '\t' || c == '\n' || c == '\r' || c == '\U{B}' || c == '\U{C}'
  }

  predicate AllSpace(s: string) {
    forall i :: 0 <= i < |s| ==> IsSpace(s[i])
  }

  /** No character of `s` belongs to `delims`. */
  predicate NoDelimiter(s: string, delims: set<char>) {
    forall c :: c in s ==> c !in delims
  }

  /** Every character of `s` occurs in `t`. */
  predicate CharsWithin(s: string, t: string) {
    forall c :: c in s ==> c in t
  }

  /** A concatenation is free of separators when both parts are. */
  lemma NoDelimiterConcat(a: string, b: string, delims: set<char>)
    requires NoDelimiter(a, delims) && NoDelimiter(b, delims)
    ensures NoDelimiter(a + b, delims)
  {
    forall c | c in a + b ensures c !in delims {
      var i :| 0 <= i < |a + b| && (a + b)[i] == c;
      if i < |a| {
        assert a[i] == c;
      } else {
        assert b[i - |a|] == c;
      }
    }
  }

  /** Whitespace holds no separator when no separator is whitespace. */
  lemma NoDelimiterInSpace(w: string, delims: set<char>)
    requires AllSpace(w)
    requires forall c :: c in delims ==> !IsSpace(c)
    ensures NoDelimiter(w, delims)
  {
    forall c | c in w ensures c !in delims {
      var i :| 0 <= i < |w| && w[i] == c;
    }
  }

  /** `str.lstrip()`: the suffix left after the leading whitespace. */
  function TrimLeft(s: string): (r: string)
    ensures |r| <= |s|
  {
    if s != [] && IsSpace(s[0]) then TrimLeft(s[1..]) else s
  }

  /** `str.rstrip()`: the prefix left before the trailing whitespace. */
  function TrimRight(s: string): (r: string)
    ensures |r| <= |s|
  {
    if s != [] && IsSpace(s[|s| - 1]) then TrimRight(s[..|s| - 1]) else s
  }

  /** `str.strip()`: a piece of `s` that neither begins nor ends with
      whitespace. */
  function Trim(s: string): (r: string)
    ensures |r| <= |s|
    ensures r == [] || (!IsSpace(r[0]) && !IsSpace(r[|r| - 1]))
  {
    TrimRightSpec(s);
    TrimLeftSpec(TrimRight(s));
    TrimLeft(TrimRight(s))
  }

  /** TrimLeft removes an all-whitespace prefix and stops at the first
      character that is not whitespace. */
  lemma {:induction false} TrimLeftSpec(s: string)
    ensures TrimLeft(s) == s[|s| - |TrimLeft(s)|..]
    ensures AllSpace(s[..|s| - |TrimLeft(s)|])
    ensures TrimLeft(s) == [] || !IsSpace(TrimLeft(s)[0])
  {
    if s != [] && IsSpace(s[0]) {
      TrimLeftSpec(s[1..]);
      var k := |s| - |TrimLeft(s)|;
      assert s[1..][k - 1..] == s[k..];
      assert forall i :: 0 < i < k ==> s[1..][..k - 1][i - 1] == s[i];
    }
  }

  /** TrimRight removes an all-whitespace suffix and stops at the last
      character that is not whitespace. */
  lemma {:induction false} TrimRightSpec(s: string)
    ensures TrimRight(s) == s[..|TrimRight(s)|]
    ensures AllSpace(s[|TrimRight(s)|..])
    ensures TrimRight(s) == [] || !IsSpace(TrimRight(s)[|TrimRight(s)| - 1])
  {
    if s != [] && IsSpace(s[|s| - 1]) {
      TrimRightSpec(s[..|s| - 1]);
      var k := |TrimRight(s)|;
      assert s[..|s| - 1][..k] == s[..k];
      assert forall i :: k <= i < |s| - 1 ==> s[..|s| - 1][k..][i - k] == s[i];
    }
  }

  /** A stripped string is a slice of the original. */
  lemma TrimIsSlice(s: string) returns (k: nat)
    ensures k + |Trim(s)| <= |s| && Trim(s) == s[k..k + |Trim(s)|]
  {
    var t := TrimRight(s);
    TrimRightSpec(s);
    TrimLeftSpec(t);
    k := |t| - |Trim(s)|;
    assert t[k..] == s[k..|t|];
  }

  /** A stripped string is empty exactly when the original is all whitespace,
      and it holds no character the original does not. */
  lemma TrimSpec(s: string)
    ensures Trim(s) == [] <==> AllSpace(s)
    ensures CharsWithin(Trim(s), s)
  {
    var r := Trim(s);
    var k := TrimIsSlice(s);
    forall c | c in r ensures c in s {
      var i :| 0 <= i < |r| && r[i] == c;
      assert s[k + i] == c;
    }
    if r == [] {
      var t := TrimRight(s);
      TrimRightSpec(s);
      TrimLeftSpec(t);
      assert t[..|t|] == t;
      forall i | 0 <= i < |s| ensures IsSpace(s[i]) {
        if i >= |t| {
          assert s[|t|..][i - |t|] == s[i];
        }
      }
    } else {
      assert r[0] == s[k];
    }
  }

  /** TrimLeft is determined by its contract: cutting an all-space prefix that
      leaves nothing or a non-space first character is trimming. */
  lemma {:induction false} TrimLeftUnique(w: string, r: string)
    requires AllSpace(w)
    requires r == [] || !IsSpace(r[0])
    ensures TrimLeft(w + r) == r
  {
    if w == [] {
      assert w + r == r;
    } else {
      assert (w + r)[1..] == w[1..] + r;
      TrimLeftUnique(w[1..], r);
    }
  }

  /** The mirror image of TrimLeftUnique. */
  lemma {:induction false} TrimRightUnique(r: string, w: string)
    requires AllSpace(w)
    requires r == [] || !IsSpace(r[|r| - 1])
    ensures TrimRight(r + w) == r
  {
    if w == [] {
      assert r + w == r;
    } else {
      assert (r + w)[..|r + w| - 1] == r + w[..|w| - 1];
      TrimRightUnique(r, w[..|w| - 1]);
    }
  }

  lemma {:induction false} TrimRightCons(c: char, s: string)
    requires !IsSpace(c) || !AllSpace(s)
    ensures TrimRight([c] + s) == [c] + TrimRight(s)
  {
    if s != [] && IsSpace(s[|s| - 1]) {
      assert ([c] + s)[..|s|] == [c] + s[..|s| - 1];
      assert !IsSpace(c) || !AllSpace(s[..|s| - 1]);
      TrimRightCons(c, s[..|s| - 1]);
    }
  }

  /** A leading whitespace character does not change the stripped string. */
  lemma TrimDropsLeadingSpace(s: string)
    requires s != [] && IsSpace(s[0])
    ensures Trim(s) == Trim(s[1..])
  {
    var u := s[1..];
    assert s == [s[0]] + u;
    if AllSpace(u) {
      TrimRightUnique([], s);
      TrimRightUnique([], u);
      assert [] + s == s && [] + u == u;
    } else {
      TrimRightCons(s[0], u);
      assert ([s[0]] + TrimRight(u))[1..] == TrimRight(u);
    }
  }

  /** Stripping ignores a strip from the left that came first. */
  lemma {:induction false} TrimOfTrimLeft(s: string)
    ensures Trim(TrimLeft(s)) == Trim(s)
  {
    if s != [] && IsSpace(s[0]) {
      TrimOfTrimLeft(s[1..]);
      TrimDropsLeadingSpace(s);
    }
  }

  /** Stripping ignores a strip from the right that came first. */
  lemma TrimOfTrimRight(s: string)
    ensures Trim(TrimRight(s)) == Trim(s)
  {
    TrimRightSpec(s);
    var t := TrimRight(s);
    TrimRightUnique(t, []);
    assert t + [] == t;
  }

  /** Stripping a non-blank text padded with whitespace gives the text back. */
  lemma TrimPadded(w: string, x: string, v: string)
    requires AllSpace(w) && AllSpace(v)
    requires x != [] && !IsSpace(x[0]) && !IsSpace(x[|x| - 1])
    ensures Trim(w + x + v) == x && !AllSpace(w + x + v)
  {
    assert (w + x + v)[|w|] == x[0];
    TrimRightUnique(w + x, v);
    TrimLeftUnique(w, x);
  }

  /** `str.split` generalised to a set of separators: `n` separators give
      `n + 1` pieces, empty pieces included, and no piece holds a separator. */
  function Split(s: string, delims: set<char>): (r: seq<string>)
    ensures |r| >= 1
    ensures forall i :: 0 <= i < |r| ==> NoDelimiter(r[i], delims)
  {
    if s == [] then [""]
    else
      var rest := Split(s[1..], delims);
      if s[0] in delims then [""] + rest
      else [[s[0]] + rest[0]] + rest[1..]
  }

  /** The position of the first separator in `s`, or `|s|` when there is none. */
  function FirstDelimiter(s: string, delims: set<char>): (i: nat)
    ensures i <= |s| && NoDelimiter(s[..i], delims)
    ensures i < |s| ==> s[i] in delims
  {
    if s == [] || s[0] in delims then 0 else 1 + FirstDelimiter(s[1..], delims)
  }

  /** A string without separators is one piece. */
  lemma {:induction false} SplitWhole(s: string, delims: set<char>)
    requires NoDelimiter(s, delims)
    ensures Split(s, delims) == [s]
  {
    if s != [] {
      assert s[0] in s;
      SplitWhole(s[1..], delims);
      assert [s[0]] + s[1..] == s;
    }
  }

  /** Splitting at a separator splits the list of pieces there. */
  lemma {:induction false} SplitConcat(a: string, d: char, b: string, delims: set<char>)
    requires d in delims
    ensures Split(a + [d] + b, delims) == Split(a, delims) + Split(b, delims)
  {
    if a == [] {
      assert a + [d] + b == [d] + b;
      assert ([d] + b)[1..] == b;
    } else {
      assert (a + [d] + b)[1..] == a[1..] + [d] + b;
      SplitConcat(a[1..], d, b, delims);
    }
  }

  /** Removing leading whitespace from the text removes it from the first piece
      only, as long as no separator is whitespace. */
  lemma {:induction false} SplitTrimLeft(s: string, delims: set<char>)
    requires forall c :: c in delims ==> !IsSpace(c)
    ensures Split(TrimLeft(s), delims)
         == [TrimLeft(Split(s, delims)[0])] + Split(s, delims)[1..]
  {
    if s != [] && IsSpace(s[0]) {
      SplitTrimLeft(s[1..], delims);
      var rest := Split(s[1..], delims);
      assert ([s[0]] + rest[0])[1..] == rest[0];
    }
  }

  /** `sep.join(xs)`: empty for no strings, otherwise beginning with the
      first string and ending with the last. */
  function Join(xs: seq<string>, sep: string): (r: string)
    ensures xs == [] ==> r == ""
    ensures xs != [] ==> |xs[0]| <= |r| && r[..|xs[0]|] == xs[0]
    ensures xs != [] ==> |xs[|xs| - 1]| <= |r| && r[|r| - |xs[|xs| - 1]|..] == xs[|xs| - 1]
  {
    if |xs| == 0 then ""
    else if |xs| == 1 then xs[0]
    else Join(xs[..|xs| - 1], sep) + sep + xs[|xs| - 1]
  }

  /** The sum of the lengths of the strings in `xs`. */
  function TotalLength(xs: seq<string>): nat
  {
    if xs == [] then 0 else TotalLength(xs[..|xs| - 1]) + |xs[|xs| - 1]|
  }

  /** A joined list is as long as its parts plus one separator between each
      two neighbours. */
  lemma {:induction false} JoinLength(xs: seq<string>, sep: string)
    requires |xs| > 0
    ensures |Join(xs, sep)| == TotalLength(xs) + |sep| * (|xs| - 1)
  {
    if |xs| > 1 {
      var p := xs[..|xs| - 1];
      JoinLength(p, sep);
      assert |Join(xs, sep)| == |Join(p, sep)| + |sep| + |xs[|xs| - 1]|;
      assert |sep| * (|xs| - 1) == |sep| * (|p| - 1) + |sep|;
    } else {
      assert xs[..0] == [];
    }
  }

  /** Appending a string to a list never shortens its join; behind a
      non-empty list it adds the separator and the new string. */
  lemma JoinAppend(xs: seq<string>, y: string, sep: string)
    ensures |Join(xs + [y], sep)| == if xs == [] then |y| else |Join(xs, sep)| + |sep| + |y|
    ensures |Join(xs + [y], sep)| >= |Join(xs, sep)|
  {
    assert (xs + [y])[..|xs|] == xs;
  }
}
