/**
  `parse_input`: turns the text a user typed into the list of items.
  The two regular-expression substitutions are modelled as left-to-right
  rewrites; the theorem of this module is that, after them, splitting at
  commas, stripping and dropping blanks gives exactly what splitting the raw
  text at every comma and every semicolon would.
 */
module InputParsing {
  import opened Strings

  /** The separators a user may type between items. */
  const Delimiters: set<char> := {',', ';'}

  /** An item as the parser hands it on: non-empty, no surrounding whitespace. */
  predicate IsItem(x: string) {
    x != [] && !IsSpace(x[0]) && !IsSpace(x[|x| - 1])
  }

  predicate StartsWithComma(s: string) {
    s != [] && s[0] == ','
  }

  /** The semicolons at the front of `s` removed. */
  function DropSemicolons(s: string): (r: string)
    ensures |r| <= |s| && r == s[|s| - |r|..]
    ensures r == [] || r[0] != ';'
    ensures forall i :: 0 <= i < |s| - |r| ==> s[i] == ';'
  {
    if s != [] && s[0] == ';' then DropSemicolons(s[1..]) else s
  }

  /** `re.sub(r'[;]+', ',', s)`: every run of semicolons becomes one comma. */
  function CollapseSemicolons(s: string): (r: string)
    ensures ';' !in r
    decreases |s|
  {
    if s == [] then ""
    else if s[0] == ';' then "," + CollapseSemicolons(DropSemicolons(s[1..]))
    else [s[0]] + CollapseSemicolons(s[1..])
  }

  /** `re.sub(r'\s*,\s*', ',', s)`: the whitespace on both sides of every
      comma removed. A whitespace run is dropped when a comma follows it; a
      comma swallows the whitespace run after it. */
  function TightenCommas(s: string): (r: string)
    ensures |r| <= |s|
    decreases |s|
  {
    if s == [] then ""
    else if s[0] == ',' then "," + TightenCommas(TrimLeft(s[1..]))
    else if IsSpace(s[0]) && StartsWithComma(TrimLeft(s)) then TightenCommas(TrimLeft(s))
    else [s[0]] + TightenCommas(s[1..])
  }

  /** `[p.strip() for p in pieces if p.strip()]`. */
  function Clean(pieces: seq<string>): (r: seq<string>)
    ensures |r| <= |pieces|
    ensures forall i :: 0 <= i < |r| ==> IsItem(r[i])
  {
    if pieces == [] then []
    else
      var t := Trim(pieces[0]);
      (if t == "" then [] else [t]) + Clean(pieces[1..])
  }

  /** Line 20: split at commas, strip every piece, keep the non-blank ones. */
  function SplitAndTrim(s: string): (items: seq<string>)
    ensures |items| <= |Split(s, {','})|
    ensures forall x :: x in items ==> IsItem(x) && NoDelimiter(x, {','})
  {
    CleanKeepsNoDelimiter(Split(s, {','}), {','});
    Clean(Split(s, {','}))
  }

  /** `parse_input(raw)`. Its result is what splitting the raw text at every
      comma and semicolon, stripping and dropping blanks gives; so every item
      is non-empty, stripped, and free of both separators. */
  function ParseInput(raw: string): (items: seq<string>)
    ensures items == Clean(Split(raw, Delimiters))
    ensures forall x :: x in items ==> IsItem(x) && NoDelimiter(x, Delimiters)
  {
    var collapsed := CollapseSemicolons(raw);
    CleanKeepsNoDelimiter(Split(raw, Delimiters), Delimiters);
    CleanSplitCollapse(raw);
    CleanSplitTighten(collapsed);
    SplitAndTrim(TightenCommas(collapsed))
  }

  /** Order: text on either side of a separator parses separately, and the
      two lists are concatenated in order. */
  lemma ParseInputConcat(a: string, d: char, b: string)
    requires d in Delimiters
    ensures ParseInput(a + [d] + b) == ParseInput(a) + ParseInput(b)
  {
    SplitConcat(a, d, b, Delimiters);
    CleanConcat(Split(a, Delimiters), Split(b, Delimiters));
  }

  /** Text without separators is one item, stripped, or none when blank. */
  lemma ParseInputSingle(s: string)
    requires NoDelimiter(s, Delimiters)
    ensures ParseInput(s) == if AllSpace(s) then [] else [Trim(s)]
  {
    SplitWhole(s, Delimiters);
    TrimSpec(s);
  }

  /** Empty or whitespace-only input gives no items. */
  lemma ParseInputBlank(s: string)
    requires AllSpace(s)
    ensures ParseInput(s) == []
  {
    forall c | c in s ensures c !in Delimiters {
      var i :| 0 <= i < |s| && s[i] == c;
    }
    ParseInputSingle(s);
  }

  /** Whitespace around a lone item is dropped. */
  lemma ParseInputPadded(w: string, x: string, v: string)
    requires AllSpace(w) && AllSpace(v) && IsItem(x) && NoDelimiter(x, Delimiters)
    ensures ParseInput(w + x + v) == [x]
  {
    NoDelimiterInSpace(w, Delimiters);
    NoDelimiterInSpace(v, Delimiters);
    NoDelimiterConcat(w, x, Delimiters);
    NoDelimiterConcat(w + x, v, Delimiters);
    TrimPadded(w, x, v);
    ParseInputSingle(w + x + v);
  }

  /** An item on its own parses to itself. */
  lemma ParseInputItem(x: string)
    requires IsItem(x) && NoDelimiter(x, Delimiters)
    ensures ParseInput(x) == [x]
  {
    assert [] + x + [] == x;
    ParseInputPadded([], x, []);
  }

  /** An empty piece between two commas gives no item. */
  lemma ParseInputEmptyPiece(s: string)
    ensures ParseInput([','] + s) == ParseInput(s)
  {
    assert [] + [','] + s == [','] + s;
    ParseInputConcat([], ',', s);
    ParseInputBlank([]);
  }

  /** `", c"` parses to `["c"]`, for any item and any padding. */
  lemma ParseInputExampleLast(w: string, z: string)
    requires AllSpace(w) && IsItem(z) && NoDelimiter(z, Delimiters)
    ensures ParseInput([','] + w + z) == [z]
  {
    assert [','] + w + z == [','] + (w + z + []);
    ParseInputEmptyPiece(w + z + []);
    ParseInputPadded(w, z, []);
  }

  /** `" b ,, c"` parses to `["b", "c"]`, for any two items and any padding. */
  lemma ParseInputExampleTail(w: string, y: string, z: string)
    requires AllSpace(w) && IsItem(y) && IsItem(z)
    requires NoDelimiter(y, Delimiters) && NoDelimiter(z, Delimiters)
    ensures ParseInput(w + y + w + [','] + ([','] + w + z)) == [y, z]
  {
    ParseInputConcat(w + y + w, ',', [','] + w + z);
    ParseInputPadded(w, y, w);
    ParseInputExampleLast(w, z);
  }

  /** Where the separators of `x; y ,, z` are. */
  lemma ExampleTextSplits(x: string, y: string, z: string)
    ensures x + "; " + y + " ,, " + z == x + [';'] + (" " + y + " " + [','] + ([','] + " " + z))
  {
    var lhs := x + "; " + y + " ,, " + z;
    var rhs := x + [';'] + (" " + y + " " + [','] + ([','] + " " + z));
    assert |lhs| == |rhs|;
    forall i | 0 <= i < |lhs| ensures lhs[i] == rhs[i] {
    }
  }

  /** `x; y ,, z` with its separators made explicit and any blank `w` for
      the spaces. */
  lemma ParseInputExampleSplit(w: string, x: string, y: string, z: string)
    requires AllSpace(w) && IsItem(x) && IsItem(y) && IsItem(z)
    requires NoDelimiter(x, Delimiters) && NoDelimiter(y, Delimiters) && NoDelimiter(z, Delimiters)
    ensures ParseInput(x + [';'] + (w + y + w + [','] + ([','] + w + z))) == [x, y, z]
  {
    var mid := w + y + w + [','] + ([','] + w + z);
    ParseInputConcat(x, ';', mid);
    ParseInputItem(x);
    ParseInputExampleTail(w, y, z);
    assert ParseInput(x + [';'] + mid) == [x] + [y, z];
  }

  /** The shape of `parse_input("a; b ,, c") == ["a", "b", "c"]`, for any
      three items: semicolons become separators, the blanks around each item
      are stripped and the empty piece between two commas is dropped. */
  lemma ParseInputExample(x: string, y: string, z: string)
    requires IsItem(x) && IsItem(y) && IsItem(z)
    requires NoDelimiter(x, Delimiters) && NoDelimiter(y, Delimiters) && NoDelimiter(z, Delimiters)
    ensures ParseInput(x + "; " + y + " ,, " + z) == [x, y, z]
  {
    ExampleTextSplits(x, y, z);
    ParseInputExampleSplit(" ", x, y, z);
  }

  /** No whitespace stands next to a comma. */
  predicate TightAroundCommas(r: string) {
    forall i :: 0 <= i < |r| && r[i] == ',' ==>
      (i == 0 || !IsSpace(r[i - 1])) && (i == |r| - 1 || !IsSpace(r[i + 1]))
  }

  /** After the second substitution no whitespace is left on either side of
      any comma. */
  lemma {:induction false} TightenCommasTight(s: string)
    ensures TightAroundCommas(TightenCommas(s))
    decreases |s|
  {
    if s == [] {
    } else if s[0] == ',' {
      var u := TrimLeft(s[1..]);
      TrimLeftSpec(s[1..]);
      TightenCommasTight(u);
      TightenHead(u);
      TightCons(',', TightenCommas(u));
    } else if IsSpace(s[0]) && StartsWithComma(TrimLeft(s)) {
      TightenCommasTight(TrimLeft(s));
    } else {
      TightenCommasTight(s[1..]);
      TightenHead(s[1..]);
      assert IsSpace(s[0]) ==> TrimLeft(s) == TrimLeft(s[1..]);
      TightCons(s[0], TightenCommas(s[1..]));
    }
  }

  /** One character in front of a tight text keeps it tight, unless a comma
      comes before whitespace or whitespace before a comma. */
  lemma TightCons(c: char, t: string)
    requires TightAroundCommas(t)
    requires c == ',' ==> t == [] || !IsSpace(t[0])
    requires IsSpace(c) ==> !StartsWithComma(t)
    ensures TightAroundCommas([c] + t)
  {
    var r := [c] + t;
    forall i | 0 <= i < |r| && r[i] == ','
      ensures (i == 0 || !IsSpace(r[i - 1])) && (i == |r| - 1 || !IsSpace(r[i + 1]))
    {
      if i > 0 {
        assert r[i] == t[i - 1];
      }
    }
  }

  /** The first character of the tightened text: a character that is not
      whitespace is kept, and the text starts with a comma exactly when it
      does once its leading whitespace is gone. */
  lemma TightenHead(s: string)
    ensures s != [] && !IsSpace(s[0]) ==> TightenCommas(s) != [] && TightenCommas(s)[0] == s[0]
    ensures StartsWithComma(TightenCommas(s)) <==> StartsWithComma(TrimLeft(s))
  {
    if s != [] && IsSpace(s[0]) && StartsWithComma(TrimLeft(s)) {
      var u := TrimLeft(s);
      assert TightenCommas(u) == [','] + TightenCommas(TrimLeft(u[1..]));
    }
  }

  // ---------------------------------------------------------------------------
  // Proof of the reference characterisation

  lemma {:induction false} CleanConcat(p: seq<string>, q: seq<string>)
    ensures Clean(p + q) == Clean(p) + Clean(q)
  {
    if p != [] {
      assert (p + q)[0] == p[0];
      assert (p + q)[1..] == p[1..] + q;
      CleanConcat(p[1..], q);
      var t := Trim(p[0]);
      var head: seq<string> := if t == "" then [] else [t];
      assert Clean(p + q) == head + Clean(p[1..] + q);
      assert head + (Clean(p[1..]) + Clean(q)) == (head + Clean(p[1..])) + Clean(q);
    } else {
      assert p + q == q;
    }
  }

  /** Stripping leaves items, and never brings in a separator. */
  lemma {:induction false} CleanKeepsNoDelimiter(pieces: seq<string>, delims: set<char>)
    requires forall i :: 0 <= i < |pieces| ==> NoDelimiter(pieces[i], delims)
    ensures forall x :: x in Clean(pieces) ==> IsItem(x) && NoDelimiter(x, delims)
  {
    if pieces != [] {
      CleanKeepsNoDelimiter(pieces[1..], delims);
      assert NoDelimiter(pieces[0], delims);
      TrimSpec(pieces[0]);
    }
  }

  /** Only the stripped form of the first piece matters. */
  lemma CleanFirstTrimLeft(x: string, rest: seq<string>)
    ensures Clean([TrimLeft(x)] + rest) == Clean([x] + rest)
  {
    TrimOfTrimLeft(x);
    assert ([TrimLeft(x)] + rest)[1..] == rest == ([x] + rest)[1..];
  }

  lemma CleanFirstTrimRight(x: string, rest: seq<string>)
    ensures Clean([TrimRight(x)] + rest) == Clean([x] + rest)
  {
    TrimOfTrimRight(x);
    assert ([TrimRight(x)] + rest)[1..] == rest == ([x] + rest)[1..];
  }

  lemma {:induction false} CollapsePrefix(a: string, u: string)
    requires ';' !in a
    ensures CollapseSemicolons(a + u) == a + CollapseSemicolons(u)
  {
    if a != [] {
      assert a[0] in a;
      assert (a + u)[1..] == a[1..] + u;
      CollapsePrefix(a[1..], u);
    } else {
      assert a + u == u;
    }
  }

  /** Extra semicolons only add blank pieces, which are dropped. */
  lemma {:induction false} CleanSplitDropSemicolons(b: string)
    ensures Clean(Split(DropSemicolons(b), Delimiters)) == Clean(Split(b, Delimiters))
  {
    if b != [] && b[0] == ';' {
      assert b == "" + [';'] + b[1..];
      SplitConcat("", ';', b[1..], Delimiters);
      CleanConcat([""], Split(b[1..], Delimiters));
      CleanSplitDropSemicolons(b[1..]);
    }
  }

  /** The text before the first separator is the first piece. */
  lemma CleanSplitHead(a: string, d: char, t: string, delims: set<char>)
    requires NoDelimiter(a, delims) && d in delims
    ensures Clean(Split(a + [d] + t, delims)) == Clean([a]) + Clean(Split(t, delims))
  {
    SplitConcat(a, d, t, delims);
    SplitWhole(a, delims);
    CleanConcat([a], Split(t, delims));
  }

  /** At the first separator, the first substitution copies the text before
      it and puts one comma for the separator and the semicolons after it. */
  lemma CollapseAtDelimiter(a: string, d: char, b: string)
    requires NoDelimiter(a, Delimiters) && d in Delimiters
    ensures CollapseSemicolons(a + [d] + b)
         == a + [','] + CollapseSemicolons(if d == ',' then b else DropSemicolons(b))
  {
    assert ';' !in a;
    assert a + [d] + b == a + ([d] + b);
    CollapsePrefix(a, [d] + b);
    CollapseAtHead(d, b);
  }

  lemma CollapseAtHead(d: char, b: string)
    requires d in Delimiters
    ensures CollapseSemicolons([d] + b)
         == [','] + CollapseSemicolons(if d == ',' then b else DropSemicolons(b))
  {
    assert ([d] + b)[1..] == b;
  }

  /** The first substitution does not change the items. */
  lemma {:induction false} CleanSplitCollapse(s: string)
    ensures Clean(Split(CollapseSemicolons(s), {','})) == Clean(Split(s, Delimiters))
    decreases |s|
  {
    var i := FirstDelimiter(s, Delimiters);
    if i == |s| {
      assert s[..i] == s;
      assert ';' !in s;
      CollapsePrefix(s, "");
      assert s + "" == s;
      SplitWhole(s, {','});
      SplitWhole(s, Delimiters);
    } else {
      var a, d, b := s[..i], s[i], s[i + 1..];
      assert s == a + [d] + b;
      var rest := if d == ',' then b else DropSemicolons(b);
      CollapseAtDelimiter(a, d, b);
      CleanSplitHead(a, ',', CollapseSemicolons(rest), {','});
      CleanSplitHead(a, d, b, Delimiters);
      CleanSplitCollapse(rest);
      if d == ';' {
        CleanSplitDropSemicolons(b);
      }
    }
  }

  /** Stripping a text without commas cannot expose a comma. */
  lemma {:induction false} TrimLeftWithoutComma(a: string)
    requires ',' !in a
    ensures !StartsWithComma(TrimLeft(a))
  {
    if a != [] && IsSpace(a[0]) {
      assert forall c :: c in a[1..] ==> c in a;
      TrimLeftWithoutComma(a[1..]);
    } else if a != [] {
      assert a[0] in a;
    }
  }

  lemma {:induction false} TightenWithoutComma(a: string)
    requires ',' !in a
    ensures TightenCommas(a) == a
  {
    if a != [] {
      assert a[0] in a;
      TrimLeftWithoutComma(a);
      assert forall c :: c in a[1..] ==> c in a;
      TightenWithoutComma(a[1..]);
      assert [a[0]] + a[1..] == a;
    }
  }

  /** Stripping a text that is not all whitespace only touches its front. */
  lemma {:induction false} TrimLeftAppend(a: string, u: string)
    requires !AllSpace(a)
    ensures TrimLeft(a + u) == TrimLeft(a) + u
  {
    if IsSpace(a[0]) {
      assert (a + u)[1..] == a[1..] + u;
      assert !AllSpace(a[1..]);
      TrimLeftAppend(a[1..], u);
    }
  }

  /** Around the first comma, the second substitution strips the text before
      it from the right and the text after it from the left. */
  lemma {:induction false} TightenAtComma(a: string, b: string)
    requires ',' !in a
    ensures TightenCommas(a + [','] + b) == TrimRight(a) + [','] + TightenCommas(TrimLeft(b))
  {
    if AllSpace(a) {
      TightenBlankBeforeComma(a, b);
    } else {
      assert forall c :: c in a[1..] ==> c in a;
      TightenAtComma(a[1..], b);
      TightenCopiesHead(a, b);
      TrimRightKeepsHead(a);
    }
  }

  /** Before the first comma, the first character of a text that is not all
      whitespace is copied. */
  lemma TightenCopiesHead(a: string, b: string)
    requires ',' !in a && !AllSpace(a)
    ensures TightenCommas(a + [','] + b) == [a[0]] + TightenCommas(a[1..] + [','] + b)
  {
    assert a + [','] + b == a + ([','] + b);
    assert a[1..] + ([','] + b) == a[1..] + [','] + b;
    TightenStep(a, [','] + b);
  }

  /** The right strip of a text that is not all whitespace keeps its first
      character. */
  lemma TrimRightKeepsHead(a: string)
    requires !AllSpace(a)
    ensures TrimRight(a) == [a[0]] + TrimRight(a[1..])
  {
    NotAllSpaceCons(a);
    TrimRightCons(a[0], a[1..]);
    assert [a[0]] + a[1..] == a;
  }

  lemma NotAllSpaceCons(a: string)
    requires !AllSpace(a)
    ensures !IsSpace(a[0]) || !AllSpace(a[1..])
  {
    var j :| 0 <= j < |a| && !IsSpace(a[j]);
    if j > 0 {
      assert a[1..][j - 1] == a[j];
    }
  }

  /** A whitespace run in front of a comma is dropped with the comma's own. */
  lemma TightenBlankBeforeComma(a: string, b: string)
    requires AllSpace(a)
    ensures TightenCommas(a + [','] + b) == TrimRight(a) + [','] + TightenCommas(TrimLeft(b))
  {
    var y := [','] + b;
    assert a + [','] + b == a + y;
    TightenAfterBlank(a, y);
    TightenAtLeadingComma(b);
    BlankTrimsAway(a);
    assert TrimRight(a) + [','] == [','];
  }

  lemma TightenAtLeadingComma(b: string)
    ensures TightenCommas([','] + b) == [','] + TightenCommas(TrimLeft(b))
  {
    assert ([','] + b)[1..] == b;
  }

  lemma BlankTrimsAway(a: string)
    requires AllSpace(a)
    ensures TrimRight(a) == []
  {
    TrimRightUnique([], a);
    assert [] + a == a;
  }

  lemma TightenAfterBlank(a: string, y: string)
    requires AllSpace(a) && StartsWithComma(y)
    ensures TightenCommas(a + y) == TightenCommas(y)
  {
    if a != [] {
      assert (a + y)[0] == a[0];
      TrimLeftUnique(a, y);
    } else {
      assert a + y == y;
    }
  }

  /** Before the first comma, a character of a text that is not all
      whitespace is copied. */
  lemma TightenStep(a: string, u: string)
    requires ',' !in a && !AllSpace(a)
    ensures TightenCommas(a + u) == [a[0]] + TightenCommas(a[1..] + u)
  {
    assert a[0] in a;
    assert (a + u)[0] == a[0];
    assert (a + u)[1..] == a[1..] + u;
    if IsSpace(a[0]) {
      TrimLeftAppend(a, u);
      TrimLeftWithoutComma(a);
      TrimLeftSpec(a);
      assert TrimLeft(a) != [] by {
        assert a[..|a|] == a;
      }
      assert TrimLeft(a + u)[0] == TrimLeft(a)[0];
    }
  }

  lemma CleanSplitTrimLeft(b: string)
    ensures Clean(Split(TrimLeft(b), {','})) == Clean(Split(b, {','}))
  {
    SplitTrimLeft(b, {','});
    var pieces := Split(b, {','});
    assert pieces == [pieces[0]] + pieces[1..];
    CleanFirstTrimLeft(pieces[0], pieces[1..]);
  }

  /** The second substitution does not change the items. */
  lemma {:induction false} CleanSplitTighten(t: string)
    ensures Clean(Split(TightenCommas(t), {','})) == Clean(Split(t, {','}))
    decreases |t|
  {
    var i := FirstDelimiter(t, {','});
    if i == |t| {
      assert t[..i] == t;
      TightenWithoutComma(t);
    } else {
      var a, b := t[..i], t[i + 1..];
      assert t == a + [','] + b;
      assert ',' !in a by { assert NoDelimiter(a, {','}); }
      TightenAtComma(a, b);
      var ta := TrimRight(a);
      var rest := TightenCommas(TrimLeft(b));
      assert NoDelimiter(ta, {','}) by {
        TrimRightSpec(a);
        assert ta == a[..|ta|];
      }
      SplitConcat(ta, ',', rest, {','});
      SplitWhole(ta, {','});
      SplitConcat(a, ',', b, {','});
      SplitWhole(a, {','});
      CleanSplitTighten(TrimLeft(b));
      CleanSplitTrimLeft(b);
      CleanConcat([ta], Split(rest, {','}));
      CleanConcat([a], Split(b, {','}));
      CleanFirstTrimRight(a, []);
      assert [ta] + [] == [ta] && [a] + [] == [a];
    }
  }
}
