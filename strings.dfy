/**
 * Python string primitives the pipeline relies on: `str.isspace`, `str.strip`,
 * `re.sub(r"\s+", " ", s)`, `str.lower` (ASCII letters) and the `in` operator
 * on strings.
 */
module Strings {

  /** The characters Python's `str.isspace`, `str.strip()`, `str.split()` and
      the regex class `\s` treat as whitespace. */
  predicate IsSpace(c: char) {
    || c == ' ' || c == '\t' || c == '\n' || c == '\r' || c == '\U{b}' || c == '\U{c}'
    || ('\U{1c}' <= c <= '\U{1f}') || c == '\U{85}' || c == '\U{a0}' || c == '\U{1680}'
    || ('\U{2000}' <= c <= '\U{200a}') || c == '\U{2028}' || c == '\U{2029}'
    || c == '\U{202f}' || c == '\U{205f}' || c == '\U{3000}'
  }

  predicate IsUpper(c: char) { 'A' <= c <= 'Z' }

  function LowerChar(c: char): (d: char)
    ensures !IsUpper(d)
    ensures IsUpper(c) ==> d as int == c as int + 32
    ensures !IsUpper(c) ==> d == c
  {
    if IsUpper(c) then (c as int + 32) as char else c
  }

  /** `str.lower()` on the ASCII letters. */
  function Lower(s: string): (r: string)
    ensures |r| == |s|
    ensures forall i :: 0 <= i < |s| ==> r[i] == LowerChar(s[i])
  {
    seq(|s|, i requires 0 <= i < |s| => LowerChar(s[i]))
  }

  /** The characters of `s` that are not whitespace, in order. */
  function Visible(s: string): string
  {
    if s == [] then [] else (if IsSpace(s[0]) then [] else [s[0]]) + Visible(s[1..])
  }

  predicate AllSpace(s: string) {
    forall i :: 0 <= i < |s| ==> IsSpace(s[i])
  }

  /** Whitespace occurs only as a single plain space between two other characters. */
  predicate SingleSpaced(s: string) {
    forall i :: 0 <= i < |s| && IsSpace(s[i]) ==> s[i] == ' ' && (i + 1 < |s| ==> !IsSpace(s[i + 1]))
  }

  /** What `re.sub(r"\s+", " ", s).strip()` produces: single plain spaces, none at either end. */
  predicate Normalized(s: string) {
    SingleSpaced(s) && (s != [] ==> !IsSpace(s[0]) && !IsSpace(s[|s| - 1]))
  }

  /** `s.lstrip()`: the longest suffix of `s` that does not start with whitespace. */
  function TrimLeft(s: string): (r: string)
    ensures |r| <= |s| && r == s[|s| - |r|..]
    ensures r == [] || !IsSpace(r[0])
    ensures AllSpace(s[..|s| - |r|])
  {
    if s != [] && IsSpace(s[0]) then TrimLeft(s[1..]) else s
  }

  /** `s.rstrip()`: the longest prefix of `s` that does not end with whitespace. */
  function TrimRight(s: string): (r: string)
    ensures |r| <= |s| && r == s[..|r|]
    ensures r == [] || !IsSpace(r[|r| - 1])
    ensures AllSpace(s[|r|..])
  {
    if s != [] && IsSpace(s[|s| - 1]) then TrimRight(s[..|s| - 1]) else s
  }

  /** The number of whitespace characters `s` starts with. */
  function Indent(s: string): (n: nat)
    ensures n <= |s|
  {
    |s| - |TrimLeft(s)|
  }

  /** `s.strip()`: `s` with the whitespace at both ends removed. */
  function Strip(s: string): (r: string)
    ensures r == [] <==> AllSpace(s)
    ensures r == [] || (!IsSpace(r[0]) && !IsSpace(r[|r| - 1]))
    ensures Indent(s) + |r| <= |s| && r == s[Indent(s)..Indent(s) + |r|]
    ensures AllSpace(s[..Indent(s)]) && AllSpace(s[Indent(s) + |r|..])
  {
    var t := TrimLeft(s);
    var r := TrimRight(t);
    StripEmpty(s, t, r);
    StripEnds(s, t, r);
    r
  }

  /** `strip()` leaves nothing exactly of an all-whitespace string. */
  lemma StripEmpty(s: string, t: string, r: string)
    requires t == TrimLeft(s) && r == TrimRight(t)
    ensures r == [] <==> AllSpace(s)
  {
    var k := |s| - |t|;
    if t == [] {
      assert s[..k] == s;
    } else {
      assert s[k] == t[0];
      assert TrimRight(t) != [] by { TrimRightKeeps(t); }
    }
  }

  /** A string that starts with a non-space character is not emptied by `rstrip()`. */
  lemma TrimRightKeeps(t: string)
    requires t != [] && !IsSpace(t[0])
    ensures TrimRight(t) != []
  {

  }

  /** `strip()` cuts a slice out of the middle of its input. */
  lemma StripEnds(s: string, t: string, r: string)
    requires t == TrimLeft(s) && r == TrimRight(t)
    ensures Indent(s) + |r| <= |s| && r == s[Indent(s)..Indent(s) + |r|]
    ensures AllSpace(s[Indent(s) + |r|..])
  {
    SliceOfSlice(s, Indent(s), t, r);
  }

  lemma SliceOfSlice(s: string, k: nat, t: string, r: string)
    requires k <= |s| && t == s[k..] && |r| <= |t| && r == t[..|r|]
    ensures r == s[k..k + |r|] && t[|r|..] == s[k + |r|..]
  {
  }

  /** `re.sub(r"\s+", " ", s)`: every maximal run of whitespace becomes one space. */
  function Collapse(s: string): (r: string)
    ensures SingleSpaced(r)
    ensures r == [] <==> s == []
    ensures s != [] && !IsSpace(s[0]) ==> r[0] == s[0]
    ensures s != [] && IsSpace(s[0]) ==> r[0] == ' '
    decreases |s|
  {
    if s == [] then []
    else if IsSpace(s[0]) then [' '] + Collapse(TrimLeft(s))
    else [s[0]] + Collapse(s[1..])
  }

  /** `re.sub(r"\s+", " ", s).strip()`, the whitespace normalisation used by the
      cleaner, the text normaliser and the key-phrase extractor. */
  function Squeeze(s: string): string
  {
    Strip(Collapse(s))
  }

  /** The leading run of non-whitespace characters of `s`. */
  function WordPrefix(s: string): (w: string)
    ensures |w| <= |s| && w == s[..|w|]
    ensures forall i :: 0 <= i < |w| ==> !IsSpace(w[i])
    ensures |w| < |s| ==> IsSpace(s[|w|])
  {
    if s == [] || IsSpace(s[0]) then [] else [s[0]] + WordPrefix(s[1..])
  }

  /** A token of `split()`: non-empty and free of whitespace. */
  predicate IsWord(w: string) {
    w != [] && forall i :: 0 <= i < |w| ==> !IsSpace(w[i])
  }

  /** The strings of `ws` one after the other. */
  function Concat(ws: seq<string>): string {
    if ws == [] then [] else ws[0] + Concat(ws[1..])
  }

  /** `" ".join(words)`. */
  function JoinSpaced(words: seq<string>): string {
    if words == [] then []
    else if |words| == 1 then words[0]
    else JoinSpaced(words[..|words| - 1]) + " " + words[|words| - 1]
  }

  /** `s.split()`: the maximal runs of non-whitespace characters, in order. Together
      they hold every character of `s` that is not whitespace. */
  function Words(s: string): (ws: seq<string>)
    ensures forall k :: 0 <= k < |ws| ==> IsWord(ws[k])
    ensures Concat(ws) == Visible(s)
    decreases |s|
  {
    var t := TrimLeft(s);
    if t == [] then
      VisibleTrimLeft(s);
      []
    else
      var w := WordPrefix(t);
      assert w != [] by { assert !IsSpace(t[0]); }
      var rest := Words(t[|w|..]);
      assert IsWord(w);
      PrependWord(w, rest);
      WordsVisible(s, w, rest);
      [w] + rest
  }

  lemma PrependWord(w: string, rest: seq<string>)
    requires IsWord(w) && forall k :: 0 <= k < |rest| ==> IsWord(rest[k])
    ensures forall k :: 0 <= k < |[w] + rest| ==> IsWord(([w] + rest)[k])
  {
    assert forall k :: 0 < k <= |rest| ==> ([w] + rest)[k] == rest[k - 1];
  }

  /** The step of `Words`' proof: the leading word followed by the words of the
      rest hold the visible characters of the whole. */
  lemma WordsVisible(s: string, w: string, rest: seq<string>)
    requires TrimLeft(s) != [] && w == WordPrefix(TrimLeft(s))
    requires Concat(rest) == Visible(TrimLeft(s)[|w|..])
    ensures Concat([w] + rest) == Visible(s)
  {
    var t := TrimLeft(s);
    VisibleTrimLeft(s);
    assert t == w + t[|w|..];
    VisibleAppend(w, t[|w|..]);
    VisibleWord(w);
    assert ([w] + rest)[1..] == rest;
  }

  /** Python's `needle in haystack` for strings: a (possibly empty) substring test. */
  predicate Occurs(needle: string, haystack: string) {
    exists i :: 0 <= i <= |haystack| && needle <= haystack[i..]
  }

  // ---------------------------------------------------------------------------
  // Lemmas

  lemma {:induction false} VisibleAppend(a: string, b: string)
    ensures Visible(a + b) == Visible(a) + Visible(b)
  {
    if a == [] {
      assert a + b == b;
    } else {
      assert (a + b)[0] == a[0];
      assert (a + b)[1..] == a[1..] + b;
      VisibleAppend(a[1..], b);
    }
  }

  lemma {:induction false} VisibleAllSpace(s: string)
    requires AllSpace(s)
    ensures Visible(s) == []
  {
    if s != [] {
      VisibleAllSpace(s[1..]);
    }
  }

  lemma VisibleTrimLeft(s: string)
    ensures Visible(TrimLeft(s)) == Visible(s)
  {
    var t := TrimLeft(s);
    assert s == s[..|s| - |t|] + t;
    VisibleAppend(s[..|s| - |t|], t);
    VisibleAllSpace(s[..|s| - |t|]);
  }

  lemma VisibleTrimRight(s: string)
    ensures Visible(TrimRight(s)) == Visible(s)
  {
    var t := TrimRight(s);
    assert s == t + s[|t|..];
    VisibleAppend(t, s[|t|..]);
    VisibleAllSpace(s[|t|..]);
  }

  lemma {:induction false} VisibleCollapse(s: string)
    ensures Visible(Collapse(s)) == Visible(s)
    decreases |s|
  {
    if s == [] {
    } else if IsSpace(s[0]) {
      var t := TrimLeft(s);
      VisibleCollapse(t);
      VisibleTrimLeft(s);
      VisibleAppend([' '], Collapse(t));
    } else {
      VisibleCollapse(s[1..]);
      VisibleAppend([s[0]], Collapse(s[1..]));
    }
  }

  lemma {:induction false} VisibleWord(w: string)
    requires forall i :: 0 <= i < |w| ==> !IsSpace(w[i])
    ensures Visible(w) == w
  {
    if w != [] {
      VisibleWord(w[1..]);
      assert w == [w[0]] + w[1..];
    }
  }

  /** A contiguous slice of a single-spaced string is single-spaced. */
  lemma SliceSingleSpaced(s: string, a: int, b: int)
    requires 0 <= a <= b <= |s| && SingleSpaced(s)
    ensures SingleSpaced(s[a..b])
  {
    var t := s[a..b];
    forall i | 0 <= i < |t| && IsSpace(t[i])
      ensures t[i] == ' ' && (i + 1 < |t| ==> !IsSpace(t[i + 1]))
    {
      assert t[i] == s[a + i];
      if i + 1 < |t| { assert t[i + 1] == s[a + i + 1]; }
    }
  }

  lemma StripSingleSpaced(s: string)
    requires SingleSpaced(s)
    ensures SingleSpaced(Strip(s))
  {
    var t := TrimLeft(s);
    SliceSingleSpaced(s, |s| - |t|, |s|);
    SliceSingleSpaced(t, 0, |TrimRight(t)|);
  }

  lemma {:induction false} TrimLeftIdentity(s: string)
    requires s == [] || !IsSpace(s[0])
    ensures TrimLeft(s) == s
  {
  }

  /** The whitespace normalisation always yields a normalized string, keeps every
      other character in order, and is empty exactly for whitespace-only input. */
  lemma SqueezeSpec(s: string)
    ensures Normalized(Squeeze(s))
    ensures Words(Squeeze(s)) == Words(s)
    ensures Visible(Squeeze(s)) == Visible(s)
    ensures Squeeze(s) == [] <==> AllSpace(s)
  {
    var c := Collapse(s);
    assert Normalized(Squeeze(s)) by { StripSingleSpaced(c); }
    assert Words(Squeeze(s)) == Words(s) by { SqueezeWords(s); }
    assert Visible(Squeeze(s)) == Visible(s) by {
      VisibleCollapse(s);
      VisibleTrimLeft(c);
      VisibleTrimRight(TrimLeft(c));
    }
    assert Squeeze(s) == [] <==> AllSpace(s) by { CollapseAllSpace(s); }
  }

  lemma SqueezeWords(s: string)
    ensures Words(Squeeze(s)) == Words(s)
  {
    WordsJoin(s);
    SplitJoin(Words(s));
  }

  lemma {:induction false} CollapseAllSpace(s: string)
    ensures AllSpace(Collapse(s)) <==> AllSpace(s)
    decreases |s|
  {
    if s == [] {
    } else if IsSpace(s[0]) {
      var t := TrimLeft(s);
      CollapseAllSpace(t);
      assert s == s[..|s| - |t|] + t;
      if AllSpace(t) {
        assert t == [];
        assert s[..|s|] == s;
      } else {
        var j :| 0 <= j < |t| && !IsSpace(t[j]);
        assert s[|s| - |t| + j] == t[j];
        CollapseVisible(s, t);
      }
    } else {
      assert !IsSpace(Collapse(s)[0]);
      assert !IsSpace(s[0]);
    }
  }

  /** A character other than whitespace left after collapsing the rest of a string
      that starts with whitespace survives collapsing the whole string. */
  lemma CollapseVisible(s: string, t: string)
    requires s != [] && IsSpace(s[0]) && t == TrimLeft(s) && !AllSpace(Collapse(t))
    ensures !AllSpace(Collapse(s))
  {
    var c := Collapse(t);
    var k :| 0 <= k < |c| && !IsSpace(c[k]);
    assert Collapse(s)[k + 1] == c[k];
  }

  /** Collapsing whitespace runs and stripping never lengthen a string. */
  lemma {:induction false} SqueezeLength(s: string)
    ensures |Collapse(s)| <= |s|
    ensures |Squeeze(s)| <= |s|
    decreases |s|
  {
    if s != [] {
      if IsSpace(s[0]) {
        SqueezeLength(TrimLeft(s));
      } else {
        SqueezeLength(s[1..]);
      }
    }
  }

  /** A single-spaced string is left unchanged by collapsing whitespace runs. */
  lemma {:induction false} CollapseSingleSpaced(s: string)
    requires SingleSpaced(s)
    ensures Collapse(s) == s
    decreases |s|
  {
    if s == [] {
    } else if IsSpace(s[0]) {
      assert s[0] == ' ';
      SliceSingleSpaced(s, 1, |s|);
      assert TrimLeft(s[1..]) == s[1..];
      assert TrimLeft(s) == s[1..];
      CollapseSingleSpaced(s[1..]);
    } else {
      SliceSingleSpaced(s, 1, |s|);
      CollapseSingleSpaced(s[1..]);
    }
  }

  /** The normalized strings are exactly the fixed points of the normalisation. */
  lemma SqueezeFixedPoint(s: string)
    ensures Squeeze(s) == s <==> Normalized(s)
  {
    if Normalized(s) {
      CollapseSingleSpaced(s);
      TrimLeftIdentity(s);
      assert TrimRight(s) == s;
    }
    SqueezeSpec(s);
  }

  /** Normalising twice is normalising once. */
  lemma SqueezeIdempotent(s: string)
    ensures Squeeze(Squeeze(s)) == Squeeze(s)
  {
    SqueezeSpec(s);
    SqueezeFixedPoint(Squeeze(s));
  }

  lemma {:induction false} VisibleMembers(s: string)
    ensures forall c :: c in Visible(s) <==> c in s && !IsSpace(c)
  {
    if s != [] {
      VisibleMembers(s[1..]);
      assert s == [s[0]] + s[1..];
    }
  }

  /** Whitespace normalisation introduces no character except the plain space. */
  lemma SqueezeChars(s: string)
    ensures forall c :: c in Squeeze(s) ==> c == ' ' || (c in s && !IsSpace(c))
  {
    SqueezeSpec(s);
    VisibleMembers(s);
    VisibleMembers(Squeeze(s));
  }

  // ---------------------------------------------------------------------------
  // split() and " ".join()

  /** A word followed by nothing or by whitespace is the leading run of the whole. */
  lemma {:induction false} WordPrefixOf(w: string, x: string)
    requires forall i :: 0 <= i < |w| ==> !IsSpace(w[i])
    requires x == [] || IsSpace(x[0])
    ensures WordPrefix(w + x) == w
  {
    if w != [] {
      assert (w + x)[1..] == w[1..] + x;
      WordPrefixOf(w[1..], x);
      assert w == [w[0]] + w[1..];
    }
  }

  /** `split()` of a word followed by nothing or by whitespace. */
  lemma WordsCons(w: string, x: string)
    requires IsWord(w) && (x == [] || IsSpace(x[0]))
    ensures Words(w + x) == [w] + Words(x)
  {
    assert TrimLeft(w + x) == w + x;
    WordPrefixOf(w, x);
    assert (w + x)[|w|..] == x;
  }

  /** Leading whitespace does not change `split()`. */
  lemma WordsTrimLeft(s: string)
    ensures Words(TrimLeft(s)) == Words(s)
  {
    TrimLeftIdentity(TrimLeft(s));
  }

  lemma WordsSpaceCons(c: char, x: string)
    requires IsSpace(c)
    ensures Words([c] + x) == Words(x)
  {
    assert ([c] + x)[1..] == x;
    assert TrimLeft([c] + x) == TrimLeft(x);
  }

  lemma {:induction false} JoinSpacedCons(w: string, ws: seq<string>)
    requires ws != []
    ensures JoinSpaced([w] + ws) == w + " " + JoinSpaced(ws)
    decreases |ws|
  {
    var n := |ws|;
    assert ([w] + ws)[..n] == [w] + ws[..n - 1];
    assert ([w] + ws)[n] == ws[n - 1];
    if n > 1 {
      JoinSpacedCons(w, ws[..n - 1]);
    } else {
      assert [w] + ws[..n - 1] == [w];
    }
  }

  /** `" ".join(ws).split() == ws` for words without whitespace. */
  lemma {:induction false} SplitJoin(ws: seq<string>)
    requires forall k :: 0 <= k < |ws| ==> IsWord(ws[k])
    ensures Words(JoinSpaced(ws)) == ws
    decreases |ws|
  {
    if ws == [] {
    } else if |ws| == 1 {
      WordsCons(ws[0], []);
      assert ws[0] + [] == ws[0];
      assert [ws[0]] == ws;
    } else {
      var rest := ws[1..];
      assert ws == [ws[0]] + rest;
      JoinSpacedCons(ws[0], rest);
      var j := JoinSpaced(rest);
      assert ws[0] + " " + j == ws[0] + ([' '] + j);
      WordsCons(ws[0], [' '] + j);
      WordsSpaceCons(' ', j);
      SplitJoin(rest);
    }
  }

  /** Collapsing whitespace leaves a leading word in place. */
  lemma {:induction false} CollapseWord(w: string, r: string)
    requires forall i :: 0 <= i < |w| ==> !IsSpace(w[i])
    ensures Collapse(w + r) == w + Collapse(r)
  {
    if w != [] {
      var c, v := w[0], w[1..];
      assert w == [c] + v;
      assert (w + r)[0] == c && (w + r)[1..] == v + r;
      assert Collapse(w + r) == [c] + Collapse(v + r);
      CollapseWord(v, r);
      AppendAssoc([c], v, Collapse(r));
    } else {
      assert w + r == r && w + Collapse(r) == Collapse(r);
    }
  }

  lemma {:induction false} TrimRightAppendSpace(a: string, b: string)
    requires AllSpace(b)
    ensures TrimRight(a + b) == TrimRight(a)
    decreases |b|
  {
    if b == [] {
      assert a + b == a;
    } else {
      var n := |b| - 1;
      assert (a + b)[..|a + b| - 1] == a + b[..n];
      TrimRightAppendSpace(a, b[..n]);
    }
  }

  lemma {:induction false} TrimRightPrefix(a: string, b: string)
    requires TrimRight(b) != []
    ensures TrimRight(a + b) == a + TrimRight(b)
    decreases |b|
  {
    var n := |b| - 1;
    if IsSpace(b[n]) {
      assert (a + b)[..|a + b| - 1] == a + b[..n];
      TrimRightPrefix(a, b[..n]);
    }
  }

  /** A string that starts with a non-space character keeps it after collapsing
      and trimming on the right. */
  lemma TrimRightCollapseNonEmpty(u: string)
    requires u != [] && !IsSpace(u[0])
    ensures TrimRight(Collapse(u)) != []
  {
  }

  /** The last word: trailing whitespace is dropped. */
  lemma JoinLastWord(w: string, r: string)
    requires IsWord(w) && TrimLeft(r) == []
    ensures JoinSpaced([w] + Words(r)) == TrimRight(w + Collapse(r))
  {
    assert Words(r) == [];
    assert [w] + Words(r) == [w];
    var c := Collapse(r);
    assert c == [] || c == [' '];
    TrimRightAppendSpace(w, c);
    assert TrimRight(w) == w by { assert !IsSpace(w[|w| - 1]); }
  }

  /** A word followed by whitespace and more words. */
  lemma JoinMoreWords(w: string, r: string)
    requires IsWord(w) && r != [] && IsSpace(r[0]) && TrimLeft(r) != []
    requires JoinSpaced(Words(TrimLeft(r))) == TrimRight(Collapse(TrimLeft(r)))
    ensures JoinSpaced([w] + Words(r)) == TrimRight(w + Collapse(r))
  {
    var u := TrimLeft(r);
    var ws := Words(u);
    var cu := Collapse(u);
    assert Words(r) == ws by { WordsTrimLeft(r); }
    assert ws != [] by { TrimLeftIdentity(u); }
    assert JoinSpaced([w] + ws) == w + [' '] + JoinSpaced(ws) by { JoinSpacedCons(w, ws); }
    assert TrimRight(cu) != [] by { TrimRightCollapseNonEmpty(u); }
    assert TrimRight((w + [' ']) + cu) == (w + [' ']) + TrimRight(cu) by { TrimRightPrefix(w + [' '], cu); }
    assert Collapse(r) == [' '] + cu;
    AppendAssoc(w, [' '], cu);
  }

  lemma SplitAt(s: string, k: nat)
    requires k <= |s|
    ensures s == s[..k] + s[k..]
  {
  }

  lemma AppendAssoc(a: string, b: string, c: string)
    ensures a + (b + c) == (a + b) + c
  {
  }

  /** `" ".join(s.split())`, for `s` with no leading whitespace, is `s` with its
      whitespace runs collapsed and the trailing one removed. */
  lemma {:induction false} JoinWordsLeft(s: string)
    requires s == [] || !IsSpace(s[0])
    ensures JoinSpaced(Words(s)) == TrimRight(Collapse(s))
    decreases |s|
  {
    if s != [] {
      var w := WordPrefix(s);
      var r := s[|w|..];
      WordSplit(s, w, r);
      if TrimLeft(r) == [] {
        JoinLastWord(w, r);
      } else {
        JoinWordsLeft(TrimLeft(r));
        JoinMoreWords(w, r);
      }
    }
  }

  /** A string that starts with a word: the word, then the rest. */
  lemma WordSplit(s: string, w: string, r: string)
    requires s != [] && !IsSpace(s[0])
    requires w == WordPrefix(s) && r == s[|w|..]
    ensures IsWord(w) && Words(s) == [w] + Words(r) && Collapse(s) == w + Collapse(r)
  {
    assert s == w + r by { SplitAt(s, |w|); }
    assert IsWord(w) by { assert s[0] == w[0]; }
    WordsCons(w, r);
    CollapseWord(w, r);
  }

  /** `" ".join(s.split()) == re.sub(r"\s+", " ", s).strip()`: the two ways the
      code base normalises whitespace agree. */
  lemma WordsJoin(s: string)
    ensures JoinSpaced(Words(s)) == Squeeze(s)
  {
    var t := TrimLeft(s);
    WordsTrimLeft(s);
    JoinWordsLeft(t);
    SqueezeTrimLeft(s);
  }

  /** Leading whitespace only contributes a space that `strip()` removes again. */
  lemma SqueezeTrimLeft(s: string)
    ensures Squeeze(s) == TrimRight(Collapse(TrimLeft(s)))
  {
    var c := Collapse(TrimLeft(s));
    assert TrimLeft(Collapse(s)) == c by {
      if s != [] && IsSpace(s[0]) {
        CollapseLeadingSpace(s);
      }
      CollapseVisibleStart(TrimLeft(s));
    }
  }

  lemma CollapseLeadingSpace(s: string)
    requires s != [] && IsSpace(s[0])
    ensures TrimLeft(Collapse(s)) == TrimLeft(Collapse(TrimLeft(s)))
  {
    assert Collapse(s) == [' '] + Collapse(TrimLeft(s));
    assert ([' '] + Collapse(TrimLeft(s)))[1..] == Collapse(TrimLeft(s));
  }

  lemma CollapseVisibleStart(t: string)
    requires t == [] || !IsSpace(t[0])
    ensures TrimLeft(Collapse(t)) == Collapse(t)
  {
    TrimLeftIdentity(Collapse(t));
  }

  /** After `lower()` no ASCII capital remains, so a keyword holding one never occurs. */
  lemma UpperKeywordNeverOccurs(kw: string, text: string, k: int)
    requires 0 <= k < |kw| && IsUpper(kw[k])
    ensures !Occurs(kw, Lower(text))
  {
  }
}
