/**
 * `TextNormalizer`: the regex clean-up `_basic_clean` (URL removal, character
 * filter, whitespace collapse, lowercase) and the `normalize` pipeline. SymSpell's
 * `lookup_compound` and spaCy's tokenizer/lemmatizer are parameters.
 */
module Normalizer {
  import opened Table
  import opened Strings
  import Seqs

  // ---------------------------------------------------------------------------
  // re.sub(r"https?://\S+|www\.\S+", " ", txt)

  /** Length of the scheme part of a URL match starting at the head of `s`
      ("https://", "http://" or "www."), or 0. Matching is case-sensitive. */
  function SchemeLength(s: string): (p: nat)
    ensures p == 0 || p == 4 || p == 7 || p == 8
    ensures p <= |s|
  {
    if |s| >= 4 && s[0] == 'w' && s[1] == 'w' && s[2] == 'w' && s[3] == '.' then 4
    else if |s| >= 7 && s[0] == 'h' && s[1] == 't' && s[2] == 't' && s[3] == 'p' then
      if s[4] == ':' && s[5] == '/' && s[6] == '/' then 7
      else if |s| >= 8 && s[4] == 's' && s[5] == ':' && s[6] == '/' && s[7] == '/' then 8
      else 0
    else 0
  }

  /** The URL pattern matches at the head of `s`: a scheme followed by at least one
      non-whitespace character. The match then runs to the end of the leading
      non-whitespace run (`\S+` is greedy). */
  predicate UrlAt(s: string) {
    var p := SchemeLength(s);
    p > 0 && p < |s| && !IsSpace(s[p])
  }

  /** No URL match starts anywhere in `s`. */
  predicate NoUrl(s: string) {
    forall i :: 0 <= i < |s| ==> !UrlAt(s[i..])
  }

  lemma SchemeShape(s: string)
    ensures SchemeLength(s) <= |s|
    ensures forall i :: 0 <= i < SchemeLength(s) ==> !IsSpace(s[i])
  {
  }

  /** The URL pass: scan left to right, replacing each leftmost match by one space. */
  function StripUrls(s: string): (r: string)
    ensures |r| <= |s|
    decreases |s|
  {
    if s == [] then []
    else if UrlAt(s) then
      SchemeShape(s);
      [' '] + StripUrls(s[|WordPrefix(s)|..])
    else [s[0]] + StripUrls(s[1..])
  }

  /** The characters `[A-Za-z0-9.,!?'\s]` keeps. */
  predicate Kept(c: char) {
    || 'a' <= c <= 'z' || 'A' <= c <= 'Z' || '0' <= c <= '9'
    || c == '.' || c == ',' || c == '!' || c == '?' || c == '\'' || IsSpace(c)
  }

  /** `re.sub(r"[^A-Za-z0-9.,!?'\s]", " ", txt)`. */
  function Filter(s: string): (r: string)
    ensures |r| == |s|
    ensures forall i :: 0 <= i < |s| ==> r[i] == (if Kept(s[i]) then s[i] else ' ')
  {
    seq(|s|, i requires 0 <= i < |s| => if Kept(s[i]) then s[i] else ' ')
  }

  /** The characters `_basic_clean` can produce. */
  predicate CleanChar(c: char) {
    || 'a' <= c <= 'z' || '0' <= c <= '9'
    || c == '.' || c == ',' || c == '!' || c == '?' || c == '\'' || c == ' '
  }

  /** `_basic_clean` on a string. */
  function BasicClean(text: string): string {
    Lower(Squeeze(Filter(StripUrls(text))))
  }

  // ---------------------------------------------------------------------------
  // Properties of the URL pass

  /** Text without a URL goes through unchanged. */
  lemma {:induction false} StripUrlsIdentity(s: string)
    requires NoUrl(s)
    ensures StripUrls(s) == s
  {
    if s != [] {
      assert s[0..] == s;
      assert NoUrl(s[1..]) by {
        forall i | 0 <= i < |s[1..]| ensures !UrlAt(s[1..][i..]) {
          assert s[1..][i..] == s[i + 1..];
        }
      }
      StripUrlsIdentity(s[1..]);
    }
  }

  /** Text with a URL gets shorter: a match has at least five characters and
      becomes one space. */
  lemma {:induction false} StripUrlsShrinks(s: string, i: nat)
    requires i < |s| && UrlAt(s[i..])
    ensures |StripUrls(s)| < |s|
    decreases |s|
  {
    if UrlAt(s) {
      SchemeShape(s);
      var w := WordPrefix(s);
      assert |w| > SchemeLength(s);
    } else {
      assert i > 0;
      assert s[1..][i - 1..] == s[i..];
      StripUrlsShrinks(s[1..], i - 1);
    }
  }

  /** The URL pass changes its input exactly when a URL occurs in it. */
  lemma StripUrlsChanges(s: string)
    ensures StripUrls(s) == s <==> NoUrl(s)
  {
    if NoUrl(s) {
      StripUrlsIdentity(s);
    } else {
      var i :| 0 <= i < |s| && UrlAt(s[i..]);
      StripUrlsShrinks(s, i);
    }
  }

  /** Up to the first URL the pass copies its input, and the first URL becomes a space. */
  lemma {:induction false} StripUrlsPrefix(s: string, k: nat)
    requires k <= |s| && forall j :: 0 <= j < k ==> !UrlAt(s[j..])
    ensures k <= |StripUrls(s)| && StripUrls(s)[..k] == s[..k]
    ensures k < |s| && UrlAt(s[k..]) ==> k < |StripUrls(s)| && StripUrls(s)[k] == ' '
    decreases k
  {
    if k > 0 {
      assert s[0..] == s;
      assert StripUrls(s) == [s[0]] + StripUrls(s[1..]);
      assert forall j :: 0 <= j < k - 1 ==> s[1..][j..] == s[j + 1..];
      StripUrlsPrefix(s[1..], k - 1);
      assert s[1..][k - 1..] == s[k..];
      assert s[..k] == [s[0]] + s[1..][..k - 1];
    } else if s != [] && UrlAt(s) {
      assert s[0..] == s;
    }
  }

  /** The URL pass leaves no URL behind: the space it writes cuts off anything a
      match could have joined with. */
  lemma {:induction false} StripUrlsNoUrl(s: string)
    ensures NoUrl(StripUrls(s))
    decreases |s|
  {
    if s == [] {
    } else if UrlAt(s) {
      SchemeShape(s);
      var rest := s[|WordPrefix(s)|..];
      StripUrlsNoUrl(rest);
      SpaceNoUrl(StripUrls(rest));
    } else {
      StripUrlsNoUrl(s[1..]);
      CopyNoUrl(s, StripUrls(s[1..]));
    }
  }

  /** A space put in front of URL-free text creates no URL. */
  lemma SpaceNoUrl(t: string)
    requires NoUrl(t)
    ensures NoUrl([' '] + t)
  {
    var r := [' '] + t;
    forall i | 0 <= i < |r| ensures !UrlAt(r[i..]) {
      if i == 0 {
        assert SchemeLength(r) == 0;
      } else {
        assert r[i..] == t[i - 1..];
      }
    }
  }

  /** Copying a character that starts no URL in front of the pass's output on the
      rest creates no URL. */
  lemma CopyNoUrl(s: string, t: string)
    requires s != [] && !UrlAt(s) && t == StripUrls(s[1..]) && NoUrl(t)
    ensures NoUrl(StripUrls(s))
  {
    var r := StripUrls(s);
    assert r == [s[0]] + t;
    forall i | 0 <= i < |r| ensures !UrlAt(r[i..]) {
      if i == 0 {
        HeadNoUrl(s, t);
      } else {
        assert r[i..] == t[i - 1..];
      }
    }
  }

  /** The first position of a URL in `s`, or `|s|` when there is none. */
  function FirstUrl(s: string): (k: nat)
    ensures k <= |s|
    ensures forall j :: 0 <= j < k ==> !UrlAt(s[j..])
    ensures k < |s| ==> UrlAt(s[k..])
    decreases |s|
  {
    if s == [] then 0
    else if UrlAt(s) then (assert s[0..] == s; 0)
    else
      var k := FirstUrl(s[1..]);
      assert forall j :: 0 < j < k + 1 ==> !UrlAt(s[j..]) by {
        forall j | 0 < j < k + 1 ensures !UrlAt(s[j..]) {
          assert s[1..][j - 1..] == s[j..];
        }
      }
      assert k < |s| - 1 ==> s[1..][k..] == s[k + 1..];
      assert s[0..] == s;
      k + 1
  }

  /** When no URL starts at the head of `s`, none starts at the head of its first
      character followed by the URL pass of the rest. */
  lemma HeadNoUrl(s: string, t: string)
    requires s != [] && !UrlAt(s) && t == StripUrls(s[1..])
    ensures !UrlAt([s[0]] + t)
  {
    var u := [s[0]] + t;
    var k := FirstUrl(s[1..]);
    StripUrlsPrefix(s[1..], k);
    assert forall i :: 0 <= i < k + 1 ==> u[i] == s[i] by {
      forall i | 0 < i < k + 1 ensures u[i] == s[i] {
        assert u[i] == t[..k][i - 1] && s[i] == s[1..][..k][i - 1];
      }
    }
    var p := SchemeLength(u);
    if p > 0 && p < |u| {
      SchemeShape(u);
      if p < k + 1 {
        SchemePrefix(u, s, p + 1);
      } else {
        assert u[k + 1] == ' ';
      }
    }
  }

  /** The scheme test reads at most the scheme itself. */
  lemma SchemePrefix(u: string, s: string, n: nat)
    requires 0 < SchemeLength(u) < n <= |u| && n <= |s|
    requires forall i :: 0 <= i < n ==> u[i] == s[i]
    ensures SchemeLength(s) == SchemeLength(u)
  {
  }

  // ---------------------------------------------------------------------------
  // Properties of _basic_clean

  /** Lowercasing maps whitespace to itself and everything else to non-whitespace. */
  lemma LowerNormalized(s: string)
    requires Normalized(s)
    ensures Normalized(Lower(s))
  {
    var r := Lower(s);
    assert forall i :: 0 <= i < |s| ==> (IsSpace(r[i]) <==> IsSpace(s[i])) && (r[i] == ' ' <==> s[i] == ' ');
  }

  /** A character the filter keeps that is not whitespace lowercases to a clean one. */
  lemma LowerClean(s: string)
    requires forall i :: 0 <= i < |s| ==> s[i] == ' ' || (Kept(s[i]) && !IsSpace(s[i]))
    ensures forall c :: c in Lower(s) ==> CleanChar(c)
  {
    var r := Lower(s);
    assert forall i :: 0 <= i < |s| ==> CleanChar(r[i]);
  }

  /** After the filter and the whitespace squeeze only kept non-whitespace
      characters and plain spaces remain. */
  lemma SqueezeFiltered(s: string)
    ensures forall i :: 0 <= i < |Squeeze(Filter(s))| ==>
              var c := Squeeze(Filter(s))[i]; c == ' ' || (Kept(c) && !IsSpace(c))
  {
    var f := Filter(s);
    var q := Squeeze(f);
    assert forall j :: 0 <= j < |f| ==> Kept(f[j]);
    SqueezeChars(f);
    forall i | 0 <= i < |q| ensures q[i] == ' ' || (Kept(q[i]) && !IsSpace(q[i])) {
      assert q[i] in q;
      if q[i] != ' ' {
        var j :| 0 <= j < |f| && f[j] == q[i];
      }
    }
  }

  /** The output of `_basic_clean` uses only a-z, 0-9, the punctuation . , ! ? '
      and single interior spaces. */
  lemma BasicCleanShape(text: string)
    ensures Normalized(BasicClean(text))
    ensures forall c :: c in BasicClean(text) ==> CleanChar(c)
  {
    var f := Filter(StripUrls(text));
    var q := Squeeze(f);
    assert BasicClean(text) == Lower(q);
    SqueezeSpec(f);
    LowerNormalized(q);
    SqueezeFiltered(StripUrls(text));
    LowerClean(q);
  }

  lemma FilterIdentity(s: string)
    requires forall i :: 0 <= i < |s| ==> Kept(s[i])
    ensures Filter(s) == s
  {
  }

  lemma LowerIdentity(s: string)
    requires forall i :: 0 <= i < |s| ==> !IsUpper(s[i])
    ensures Lower(s) == s
  {
  }

  /** Text that is already clean, lowercase and URL-free is a fixed point. */
  lemma BasicCleanFixedPoint(text: string)
    requires Normalized(text) && NoUrl(text)
    requires forall c :: c in text ==> CleanChar(c)
    ensures BasicClean(text) == text
  {
    assert forall i :: 0 <= i < |text| ==> CleanChar(text[i]) by {
      forall i | 0 <= i < |text| ensures CleanChar(text[i]) {
        assert text[i] in text;
      }
    }
    LowerIdentity(text);
    FilterIdentity(text);
    StripUrlsIdentity(text);
    SqueezeFixedPoint(text);
  }

  /** `_basic_clean` is idempotent except when lowercasing creates a URL: a second
      pass changes the text exactly when the first output holds one. */
  lemma BasicCleanTwice(text: string)
    ensures BasicClean(BasicClean(text)) == BasicClean(text) <==> NoUrl(BasicClean(text))
  {
    var once := BasicClean(text);
    BasicCleanShape(text);
    if NoUrl(once) {
      BasicCleanFixedPoint(once);
    } else {
      var i :| 0 <= i < |once| && UrlAt(once[i..]);
      StripUrlsShrinks(once, i);
      SqueezeLength(Filter(StripUrls(once)));
    }
  }

  /** The pattern is case-sensitive: "WWW.x" survives the URL pass, is lowercased to
      "www.x", and a second pass removes it. */
  lemma BasicCleanNotIdempotent()
    ensures BasicClean("WWW.x") == "www.x"
    ensures BasicClean("www.x") == []
  {
    UpperUrlKept();
    LowerUrlRemoved();
  }

  /** A string of letters and dots is kept whole by the filter and is already
      single-spaced. */
  lemma PlainWord(s: string)
    requires forall i :: 0 <= i < |s| ==> IsUpper(s[i]) || 'a' <= s[i] <= 'z' || s[i] == '.'
    ensures Normalized(s)
    ensures forall i :: 0 <= i < |s| ==> Kept(s[i])
  {
  }

  lemma UpperUrlKept()
    ensures BasicClean("WWW.x") == "www.x"
  {
    var s := "WWW.x";
    assert NoUrl(s) by {
      forall i | 0 <= i < |s| ensures !UrlAt(s[i..]) {
        assert SchemeLength(s[i..]) == 0;
      }
    }
    StripUrlsIdentity(s);
    PlainWord(s);
    FilterIdentity(s);
    SqueezeFixedPoint(s);
    LowerUpperUrl();
  }

  lemma LowerUpperUrl()
    ensures Lower("WWW.x") == "www.x"
  {
    var r := Lower("WWW.x");
    assert r[0] == 'w' && r[1] == 'w' && r[2] == 'w' && r[3] == '.' && r[4] == 'x';
  }

  lemma LowerUrlRemoved()
    ensures BasicClean("www.x") == []
  {
    LowerUrlStripped();
    BlankCleaned();
  }

  lemma LowerUrlStripped()
    ensures StripUrls("www.x") == " "
  {
    var t := "www.x";
    assert UrlAt(t);
    assert |WordPrefix(t)| == 5;
    assert t[5..] == [];
  }

  lemma BlankCleaned()
    ensures Lower(Squeeze(Filter(" "))) == []
  {
    assert Filter(" ") == " ";
    assert AllSpace(" ");
    CollapseAllSpace(" ");
  }

  // ---------------------------------------------------------------------------
  // Optional stages and normalize

  /** A spaCy token as `_lemmatize` reads it. */
  datatype Token = Token(baseForm: string, isStop: bool)

  /** `_correct_spelling`: the input when SymSpell is off or the text is empty,
      otherwise the first `lookup_compound` suggestion, if any. */
  function CorrectSpelling(enabled: bool, lookup: string -> seq<string>, text: string): (r: string)
    ensures !enabled || text == [] ==> r == text
    ensures enabled && text != [] && lookup(text) != [] ==> r == lookup(text)[0]
    ensures enabled && text != [] && lookup(text) == [] ==> r == text
  {
    if !enabled || text == [] then text
    else
      var suggestions := lookup(text);
      if suggestions != [] then suggestions[0] else text
  }

  /** The generator's condition: a non-stopword token whose lemma is not blank. */
  predicate KeepToken(t: Token) {
    !t.isStop && Strip(t.baseForm) != []
  }

  /** The lemmas `_lemmatize` keeps, token by token. */
  function KeptLemmas(tokens: seq<Token>): (lemmas: seq<string>)
    ensures forall i :: 0 <= i < |lemmas| ==> Strip(lemmas[i]) != []
    ensures |lemmas| <= |tokens|
  {
    if tokens == [] then []
    else
      var t := tokens[0];
      var rest := KeptLemmas(tokens[1..]);
      if KeepToken(t) then
        assert forall i :: 0 < i <= |rest| ==> ([t.baseForm] + rest)[i] == rest[i - 1];
        [t.baseForm] + rest
      else rest
  }

  /** The lemmas of the tokens, in order. */
  function BaseForms(tokens: seq<Token>): (lemmas: seq<string>)
    ensures |lemmas| == |tokens|
  {
    if tokens == [] then [] else [tokens[0].baseForm] + BaseForms(tokens[1..])
  }

  /** The kept lemmas are the lemmas of the tokens the generator's condition selects,
      in token order. */
  lemma {:induction false} KeptLemmasSelect(tokens: seq<Token>)
    ensures KeptLemmas(tokens) == BaseForms(Seqs.Filter(tokens, KeepToken))
  {
    if tokens != [] {
      KeptLemmasSelect(tokens[1..]);
      var rest := Seqs.Filter(tokens[1..], KeepToken);
      if KeepToken(tokens[0]) {
        assert Seqs.Filter(tokens, KeepToken) == [tokens[0]] + rest;
        assert ([tokens[0]] + rest)[1..] == rest;
      } else {
        assert Seqs.Filter(tokens, KeepToken) == rest;
      }
    }
  }

  /** `_lemmatize`: the input when spaCy is off or the text is empty, otherwise the
      kept lemmas joined by single spaces. */
  function Lemmatize(enabled: bool, analyze: string -> seq<Token>, text: string): (r: string)
    ensures !enabled || text == [] ==> r == text
    ensures enabled && text != [] && KeptLemmas(analyze(text)) == [] ==> r == []
  {
    if !enabled || text == [] then text
    else JoinSpaced(KeptLemmas(analyze(text)))
  }

  /** The two switches of `TextNormalizer.__init__`. */
  datatype Config = Config(useSymspell: bool, useSpacy: bool)

  /** `normalize`: "" for a non-string or blank cell; otherwise the basic clean,
      then spell correction if enabled, then lemmatisation if enabled. */
  function Normalize(config: Config, lookup: string -> seq<string>, analyze: string -> seq<Token>, text: Cell)
    : string
  {
    if !text.Str? || Strip(text.s) == [] then []
    else
      var result := BasicClean(text.s);
      var result := if config.useSymspell then CorrectSpelling(true, lookup, result) else result;
      if config.useSpacy then Lemmatize(true, analyze, result) else result
  }

  /** Non-strings and blank strings normalise to ""; with both optional stages off
      `normalize` is `_basic_clean` on every other string. */
  lemma NormalizeBasic(config: Config, lookup: string -> seq<string>, analyze: string -> seq<Token>, text: Cell)
    ensures !text.Str? ==> Normalize(config, lookup, analyze, text) == []
    ensures text.Str? && AllSpace(text.s) ==> Normalize(config, lookup, analyze, text) == []
    ensures text.Str? && !AllSpace(text.s) && !config.useSymspell && !config.useSpacy ==>
              Normalize(config, lookup, analyze, text) == BasicClean(text.s)
  {
  }

  /** Each optional stage runs only when it is enabled: a disabled stage's tool has
      no influence on the result. */
  lemma NormalizeStagesGated(config: Config, lookup1: string -> seq<string>, lookup2: string -> seq<string>,
                             analyze1: string -> seq<Token>, analyze2: string -> seq<Token>, text: Cell)
    ensures !config.useSymspell ==>
              Normalize(config, lookup1, analyze1, text) == Normalize(config, lookup2, analyze1, text)
    ensures !config.useSpacy ==>
              Normalize(config, lookup1, analyze1, text) == Normalize(config, lookup1, analyze2, text)
  {
  }

  /** The stages run in the order clean, spell-correct, lemmatize: spell correction
      sees the basic clean's output and lemmatisation sees spell correction's. */
  lemma NormalizeStageOrder(config: Config, lookup: string -> seq<string>, analyze: string -> seq<Token>, text: string)
    requires !AllSpace(text)
    ensures Normalize(config, lookup, analyze, Str(text))
         == Lemmatize(config.useSpacy, analyze, CorrectSpelling(config.useSymspell, lookup, BasicClean(text)))
  {
    assert Strip(text) != [];
  }

  /** A text that the basic clean empties (a bare URL) stays empty whatever the tools. */
  lemma NormalizeCleanedAway(config: Config, lookup: string -> seq<string>, analyze: string -> seq<Token>, text: string)
    requires !AllSpace(text) && BasicClean(text) == []
    ensures Normalize(config, lookup, analyze, Str(text)) == []
  {
    NormalizeStageOrder(config, lookup, analyze, text);
  }

  /** A bare URL normalises to "" under every configuration. */
  lemma NormalizeBareUrl(config: Config, lookup: string -> seq<string>, analyze: string -> seq<Token>)
    ensures Normalize(config, lookup, analyze, Str("www.x")) == []
  {
    BasicCleanNotIdempotent();
  }
}
