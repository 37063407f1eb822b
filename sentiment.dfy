/**
 * The sentiment reconciliation engine of `SentimentEnsembler`: the equal-weight
 * ensemble of three scorer outputs, its three-way label, the population standard
 * deviation of the scores (carried as its square), the star-rating rule, the
 * magnitude-gated disagreement flag and the per-row batch loop of `run`.
 * The three scorers themselves (DistilBERT, VADER, TextBlob) are a parameter.
 */
module Sentiment {
  import opened Table
  import Strings

  const POSITIVE: string := "positive"
  const NEUTRAL: string := "neutral"
  const NEGATIVE: string := "negative"

  /** The labels `flag_disagreement` knows a numeric target for. */
  const LABELS: set<string> := {POSITIVE, NEUTRAL, NEGATIVE}

  /** Label cut-offs of `compute_ensemble`; both are inclusive. */
  const POSITIVE_CUTOFF: real := 0.05
  const NEGATIVE_CUTOFF: real := -0.05

  /** Default `threshold` of `flag_disagreement`, the one `run` uses. */
  const DEFAULT_THRESHOLD: real := 0.5

  /** The outputs of the three scorer adapters for one text. */
  datatype Scores = Scores(bert: real, vader: real, textblob: real)

  /** The dictionary `compute_ensemble` returns. `uncertaintySq` is the square of
      its "uncertainty" entry (the population standard deviation). */
  datatype Ensemble = Ensemble(scores: Scores, ensemble: real, ensLabel: string, uncertaintySq: real)

  /** One record `run` builds: the ensemble fields plus "rule_label" and "flag". */
  datatype SentimentRecord = SentimentRecord(ens: Ensemble, ruleLabel: string, flag: bool)

  /** An input row together with the sentiment columns `run` appends to it. */
  datatype Scored = Scored(row: Row, record: SentimentRecord)

  predicate InUnitRange(x: real) { -1.0 <= x <= 1.0 }

  predicate ScoresInRange(s: Scores) {
    InUnitRange(s.bert) && InUnitRange(s.vader) && InUnitRange(s.textblob)
  }

  function Abs(x: real): real { if x < 0.0 then -x else x }

  function Min3(a: real, b: real, c: real): real {
    if a <= b && a <= c then a else if b <= c then b else c
  }

  function Max3(a: real, b: real, c: real): real {
    if a >= b && a >= c then a else if b >= c then b else c
  }

  // ---------------------------------------------------------------------------
  // compute_ensemble

  /** The equal-weight ensemble score. */
  function Mean(s: Scores): real {
    (s.bert + s.vader + s.textblob) / 3.0
  }

  /** `np.std([b, v, t])` squared (ddof 0): the mean squared deviation from the mean. */
  function Variance(s: Scores): real {
    var m := Mean(s);
    (Square(s.bert - m) + Square(s.vader - m) + Square(s.textblob - m)) / 3.0
  }

  function Square(x: real): real { x * x }

  /** The three-way label of an ensemble score: exactly one label, both cut-offs inclusive. */
  function Classify(e: real): (ensLabel: string)
    ensures ensLabel in LABELS
    ensures ensLabel == POSITIVE <==> e >= POSITIVE_CUTOFF
    ensures ensLabel == NEGATIVE <==> e <= NEGATIVE_CUTOFF
    ensures ensLabel == NEUTRAL <==> NEGATIVE_CUTOFF < e < POSITIVE_CUTOFF
  {
    if e >= POSITIVE_CUTOFF then POSITIVE
    else if e <= NEGATIVE_CUTOFF then NEGATIVE
    else NEUTRAL
  }

  /** `compute_ensemble` with the scorer outputs given. */
  function ComputeEnsemble(s: Scores): (r: Ensemble)
    ensures r.scores == s
    ensures r.ensemble == (s.bert + s.vader + s.textblob) / 3.0
    ensures r.ensLabel == Classify(r.ensemble) && r.ensLabel in LABELS
    ensures Min3(s.bert, s.vader, s.textblob) <= r.ensemble <= Max3(s.bert, s.vader, s.textblob)
    ensures r.uncertaintySq == Variance(s) && r.uncertaintySq >= 0.0
  {
    VarianceNonNegative(s);
    Ensemble(s, Mean(s), Classify(Mean(s)), Variance(s))
  }

  lemma VarianceNonNegative(s: Scores)
    ensures Variance(s) >= 0.0
  {
    var m := Mean(s);
    SquareNonNegative(s.bert - m);
    SquareNonNegative(s.vader - m);
    SquareNonNegative(s.textblob - m);
  }

  /** The sign rule for a product of two reals of the same sign. */
  lemma ProductPositive(a: real, b: real)
    requires (a > 0.0 && b > 0.0) || (a < 0.0 && b < 0.0)
    ensures a * b > 0.0
  {
  }

  lemma SquareNonNegative(x: real)
    ensures Square(x) >= 0.0
  {
    if x != 0.0 {
      SquarePositive(x);
    }
  }

  lemma SquarePositive(x: real)
    requires x != 0.0
    ensures Square(x) > 0.0
  {
    calc {
      Square(x);
    ==
      x * x;
    > { ProductPositive(x, x); }
      0.0;
    }
  }

  /** The ensemble lies in [-1, 1] whenever every score does. */
  lemma EnsembleInRange(s: Scores)
    requires ScoresInRange(s)
    ensures InUnitRange(ComputeEnsemble(s).ensemble)
  {
  }

  /** The uncertainty is never negative, and it is zero exactly when the three
      scorers agree. */
  lemma UncertaintySpec(s: Scores)
    ensures ComputeEnsemble(s).uncertaintySq >= 0.0
    ensures ComputeEnsemble(s).uncertaintySq == 0.0 <==> s.bert == s.vader == s.textblob
  {
    var m := Mean(s);
    VarianceNonNegative(s);
    if !(s.bert == s.vader == s.textblob) {
      if s.bert != m {
        SquarePositive(s.bert - m);
      } else if s.vader != m {
        SquarePositive(s.vader - m);
      } else {
        SquarePositive(s.textblob - m);
      }
    }
  }

  /** Scores 1, -1 and 0 have uncertainty sqrt(2/3). */
  lemma UncertaintyExample()
    ensures ComputeEnsemble(Scores(1.0, -1.0, 0.0)).uncertaintySq == 2.0 / 3.0
  {
    var s := Scores(1.0, -1.0, 0.0);
    assert Mean(s) == 0.0;
    assert Square(1.0) == 1.0 && Square(-1.0) == 1.0 && Square(0.0) == 0.0;
    assert Variance(s) == (1.0 + 1.0 + 0.0) / 3.0;
    assert ComputeEnsemble(s).uncertaintySq == Variance(s);
  }

  // ---------------------------------------------------------------------------
  // apply_rating_rule

  /** The labels a star rating admits. Ratings above 5 and below 1 fall into the
      outer branches. */
  function Allowed(rating: int): set<string> {
    if rating >= 5 then {POSITIVE, NEUTRAL, NEGATIVE}
    else if rating == 4 then {POSITIVE, NEUTRAL, NEGATIVE}
    else if rating == 3 then {POSITIVE, NEUTRAL, NEGATIVE}
    else if rating == 2 then {NEUTRAL, NEGATIVE}
    else {NEGATIVE}
  }

  /** `apply_rating_rule`: keep an admissible label, otherwise fall back to "neutral". */
  function ApplyRatingRule(ensLabel: string, rating: int): (rule: string)
    ensures rule == ensLabel || rule == NEUTRAL
  {
    if ensLabel in Allowed(rating) then ensLabel else NEUTRAL
  }

  /** The rule, rating by rating. */
  lemma {:induction false} RatingRuleByRating(ensLabel: string, rating: int)
    ensures rating >= 3 && ensLabel in LABELS ==> ApplyRatingRule(ensLabel, rating) == ensLabel
    ensures rating == 2 ==> ApplyRatingRule(ensLabel, rating)
                            == (if ensLabel == NEGATIVE then NEGATIVE else NEUTRAL)
    ensures rating <= 1 ==> ApplyRatingRule(ensLabel, rating)
                            == (if ensLabel == NEGATIVE then NEGATIVE else NEUTRAL)
  {
  }

  /** The rule label is never "positive" for ratings of 2 or less, and it is one of
      the three labels whenever the input label is (unknown labels become "neutral"). */
  lemma RuleLabelRange(ensLabel: string, rating: int)
    ensures rating <= 2 ==> ApplyRatingRule(ensLabel, rating) != POSITIVE
    ensures ApplyRatingRule(ensLabel, rating) in LABELS
  {
  }

  /** The fallback is admissible for every rating of 2 or more, but for a rating of
      1 or less it yields "neutral", which that rating does not admit, unless the
      label was already "negative". */
  lemma RuleLabelAdmissible(ensLabel: string, rating: int)
    ensures ApplyRatingRule(ensLabel, rating) in Allowed(rating) <==> rating >= 2 || ensLabel == NEGATIVE
  {
  }

  /** Applying the rule to its own result changes nothing. */
  lemma RatingRuleIdempotent(ensLabel: string, rating: int)
    ensures ApplyRatingRule(ApplyRatingRule(ensLabel, rating), rating) == ApplyRatingRule(ensLabel, rating)
  {
  }

  // ---------------------------------------------------------------------------
  // flag_disagreement

  /** The numeric target of a label. */
  function RuleValue(ensLabel: string): real
    requires ensLabel in LABELS
  {
    if ensLabel == POSITIVE then 1.0 else if ensLabel == NEUTRAL then 0.0 else -1.0
  }

  /** `flag_disagreement`: the dictionary lookup of the rule label comes first and
      raises KeyError for an unknown label, whatever the other arguments are. */
  function FlagDisagreement(ensLabel: string, ruleLabel: string, ensScore: real, threshold: real)
    : (r: Result<bool>)
    ensures r.Err? <==> ruleLabel !in LABELS
    ensures r.Err? ==> r.error == KeyError(ruleLabel)
  {
    if ruleLabel !in LABELS then Err(KeyError(ruleLabel))
    else Ok(ensLabel != ruleLabel && Abs(ensScore - RuleValue(ruleLabel)) > threshold)
  }

  /** Matching labels are never flagged, and a mismatch is flagged exactly when
      the score is further than the threshold (strictly) from the rule's target. */
  lemma FlagSpec(ensLabel: string, ruleLabel: string, ensScore: real, threshold: real)
    requires ruleLabel in LABELS
    ensures ensLabel == ruleLabel ==> FlagDisagreement(ensLabel, ruleLabel, ensScore, threshold) == Ok(false)
    ensures ensLabel != ruleLabel && ruleLabel == POSITIVE ==>
              (FlagDisagreement(ensLabel, ruleLabel, ensScore, threshold) == Ok(true)
               <==> ensScore > 1.0 + threshold || ensScore < 1.0 - threshold)
    ensures ensLabel != ruleLabel && ruleLabel == NEUTRAL ==>
              (FlagDisagreement(ensLabel, ruleLabel, ensScore, threshold) == Ok(true)
               <==> ensScore > threshold || ensScore < -threshold)
    ensures ensLabel != ruleLabel && ruleLabel == NEGATIVE ==>
              (FlagDisagreement(ensLabel, ruleLabel, ensScore, threshold) == Ok(true)
               <==> ensScore > -1.0 + threshold || ensScore < -1.0 - threshold)
  {
  }

  // ---------------------------------------------------------------------------
  // One row of run

  /** The record `run` builds for one review, given its scores and its rating. */
  function Score(s: Scores, rating: int): (rec: SentimentRecord)
    ensures rec.ens == ComputeEnsemble(s)
    ensures rec.ruleLabel == ApplyRatingRule(rec.ens.ensLabel, rating)
    ensures rec.ruleLabel in LABELS
    ensures rec.flag <==> rating <= 2 && Mean(s) > DEFAULT_THRESHOLD
  {
    var e := ComputeEnsemble(s);
    var rule := ApplyRatingRule(e.ensLabel, rating);
    RuleLabelRange(e.ensLabel, rating);
    var flag := FlagDisagreement(e.ensLabel, rule, e.ensemble, DEFAULT_THRESHOLD);
    SentimentRecord(e, rule, flag.value)
  }

  /** With the default threshold, a review with a rating of 3 or more, or with a
      non-positive ensemble, is never flagged. */
  lemma NeverFlagged(s: Scores, rating: int)
    requires rating >= 3 || Mean(s) <= 0.0
    ensures !Score(s, rating).flag
  {
  }

  /** The worked example: unanimous +1 scores with a one-star rating are flagged. */
  lemma FlagExamples()
    ensures Score(Scores(1.0, 1.0, 1.0), 1).flag
    ensures Score(Scores(1.0, 1.0, 1.0), 1).ruleLabel == NEUTRAL
    ensures !Score(Scores(0.05, 0.05, 0.05), 5).flag
    ensures Score(Scores(0.05, 0.05, 0.05), 5).ens.ensLabel == POSITIVE
  {
  }

  // ---------------------------------------------------------------------------
  // int(row["rating"])

  predicate IsDigit(c: char) { '0' <= c <= '9' }

  predicate AllDigits(s: string) {
    forall i :: 0 <= i < |s| ==> IsDigit(s[i])
  }

  function DigitValue(c: char): nat
    requires IsDigit(c)
  {
    c as int - '0' as int
  }

  /** The number a string of decimal digits spells, most significant first. */
  function DigitsValue(s: string): (n: nat)
    requires AllDigits(s)
    ensures s == [] ==> n == 0
  {
    if s == [] then 0
    else DigitsValue(s[..|s| - 1]) * 10 + DigitValue(s[|s| - 1])
  }

  /** The body of a base-10 literal as `int()` accepts it: decimal digits, where a
      single underscore may separate two digits. */
  predicate DigitGroups(d: string) {
    && d != [] && IsDigit(d[0]) && IsDigit(d[|d| - 1])
    && DigitsOrUnderscores(d)
    && (forall i :: 0 <= i < |d| - 1 && d[i] == '_' ==> IsDigit(d[i + 1]))
  }

  /** The digits of `d` with the underscores left out. */
  function Digits(d: string): (r: string)
    ensures DigitsOrUnderscores(d) ==> AllDigits(r)
  {
    if d == [] then []
    else
      var c := d[|d| - 1];
      var init := Digits(d[..|d| - 1]);
      assert DigitsOrUnderscores(d) ==> DigitsOrUnderscores(d[..|d| - 1]);
      if c == '_' then init else init + [c]
  }

  predicate DigitsOrUnderscores(d: string) {
    forall i :: 0 <= i < |d| ==> IsDigit(d[i]) || d[i] == '_'
  }

  /** `t` without a leading sign. */
  function Unsigned(t: string): string {
    if t != [] && (t[0] == '+' || t[0] == '-') then t[1..] else t
  }

  /** The sign a literal starts with, as a factor. */
  function SignOf(t: string): int {
    if t != [] && t[0] == '-' then -1 else 1
  }

  /** The scan of a literal's digits, from the last digit back: a digit, possibly
      preceded by one underscore, preceded by the digits before it. */
  function ScanDigits(d: string): Option<nat>
    decreases |d|
  {
    if d == [] || !IsDigit(d[|d| - 1]) then None
    else if |d| == 1 then Some(DigitValue(d[0]))
    else
      var p := if d[|d| - 2] == '_' then d[..|d| - 2] else d[..|d| - 1];
      match ScanDigits(p)
      case None => None
      case Some(n) => Some(n * 10 + DigitValue(d[|d| - 1]))
  }

  /** `int(x)` for a float: truncation toward zero. */
  function Truncate(x: real): (n: int)
    ensures x >= 0.0 ==> n as real <= x < n as real + 1.0
    ensures x < 0.0 ==> n as real - 1.0 < x <= n as real
  {
    if x >= 0.0 then x.Floor else -((-x).Floor)
  }

  /** `int(s)` for a string: surrounding whitespace, an optional sign and at least
      one decimal digit, with single underscores allowed between digits. */
  function ParseInt(s: string): (r: Result<int>)
    ensures r.Ok? <==> DigitGroups(Unsigned(Strings.Strip(s)))
    ensures r.Ok? ==> r.value == SignOf(Strings.Strip(s)) * DigitsValue(Digits(Unsigned(Strings.Strip(s))))
    ensures r.Err? ==> r.error.ValueError?
  {
    var t := Strings.Strip(s);
    var digits := Unsigned(t);
    ScanDigitsSpec(digits);
    match ScanDigits(digits)
    case Some(n) => Ok(SignOf(t) * n)
    case None => Err(ValueError("invalid literal for int() with base 10"))
  }

  /** The scan accepts exactly the well-formed digit groups, and yields the value
      of their digits. */
  lemma {:induction false} ScanDigitsSpec(d: string)
    ensures ScanDigits(d).Some? <==> DigitGroups(d)
    ensures DigitGroups(d) ==> AllDigits(Digits(d)) && ScanDigits(d).value == DigitsValue(Digits(d))
    decreases |d|
  {
    if d != [] && IsDigit(d[|d| - 1]) && |d| > 1 {
      var n := |d|;
      var p := if d[n - 2] == '_' then d[..n - 2] else d[..n - 1];
      ScanDigitsSpec(p);
      if DigitGroups(d) {
        DigitGroupsInit(d);
      }
      if ScanDigits(p).Some? {
        DigitGroupsSnoc(d, p);
        DigitsStep(d, p);
      }
    } else if d != [] && IsDigit(d[|d| - 1]) {
      assert Digits(d) == Digits(d[..0]) + [d[0]];
      assert Digits(d)[..0] == [];
    }
  }

  /** Dropping the last digit, and the underscore before it, of a well-formed
      literal body leaves one. */
  lemma DigitGroupsInit(d: string)
    requires DigitGroups(d) && |d| > 1
    ensures DigitGroups(if d[|d| - 2] == '_' then d[..|d| - 2] else d[..|d| - 1])
  {
    var n := |d|;
    if d[n - 2] == '_' {
      assert n - 2 > 0;
      assert IsDigit(d[n - 3]);
    }
  }

  /** A digit, possibly with one underscore before it, extends a well-formed
      literal body. */
  lemma DigitGroupsSnoc(d: string, p: string)
    requires |d| > 1 && IsDigit(d[|d| - 1])
    requires p == if d[|d| - 2] == '_' then d[..|d| - 2] else d[..|d| - 1]
    requires DigitGroups(p)
    ensures DigitGroups(d)
  {
    var n := |d|;
    assert d[0] == p[0];
    forall i | 0 <= i < n - 1 && d[i] == '_' ensures IsDigit(d[i + 1]) {
      if i < |p| - 1 {
        assert d[i] == p[i] && d[i + 1] == p[i + 1];
      } else if i == |p| - 1 {
        assert d[i] == p[i];
      }
    }
  }

  lemma DigitsStep(d: string, p: string)
    requires |d| > 1 && IsDigit(d[|d| - 1])
    requires p == if d[|d| - 2] == '_' then d[..|d| - 2] else d[..|d| - 1]
    requires AllDigits(Digits(p))
    ensures AllDigits(Digits(d))
    ensures DigitsValue(Digits(d)) == DigitsValue(Digits(p)) * 10 + DigitValue(d[|d| - 1])
  {
    var n := |d|;
    assert Digits(d) == Digits(p) + [d[n - 1]] by {
      DigitsSnoc(d);
      if d[n - 2] == '_' {
        DigitsSnoc(d[..n - 1]);
        assert d[..n - 1][..n - 2] == p;
      }
    }
    DigitsValueSnoc(Digits(p), d[n - 1]);
  }

  lemma DigitsSnoc(d: string)
    requires d != []
    ensures Digits(d) == Digits(d[..|d| - 1]) + (if d[|d| - 1] == '_' then [] else [d[|d| - 1]])
  {
  }

  lemma DigitsValueSnoc(x: string, c: char)
    requires AllDigits(x) && IsDigit(c)
    ensures AllDigits(x + [c]) && DigitsValue(x + [c]) == DigitsValue(x) * 10 + DigitValue(c)
  {
    assert (x + [c])[..|x|] == x;
  }

  // ---------------------------------------------------------------------------
  // str(n) and int(str(n))

  function DigitChar(k: nat): (c: char)
    requires k < 10
    ensures IsDigit(c) && DigitValue(c) == k
  {
    ('0' as int + k) as char
  }

  /** The decimal digits of a natural number, as `str()` writes them. */
  function NatDigits(n: nat): (s: string)
    ensures s != [] && AllDigits(s) && DigitsValue(s) == n
  {
    if n < 10 then
      var s := [DigitChar(n)];
      assert s[..0] == [];
      s
    else
      var init := NatDigits(n / 10);
      var s := init + [DigitChar(n % 10)];
      assert s[..|s| - 1] == init;
      s
  }

  /** `str(n)` for an int. */
  function IntToString(n: int): string {
    if n < 0 then "-" + NatDigits(-n) else NatDigits(n)
  }

  lemma {:induction false} DigitsOfDigits(d: string)
    requires AllDigits(d)
    ensures Digits(d) == d
  {
    if d != [] {
      DigitsOfDigits(d[..|d| - 1]);
      assert d[..|d| - 1] + [d[|d| - 1]] == d;
    }
  }

  /** A plain digit string is a well-formed literal body that reads as its value. */
  lemma PlainDigits(d: string)
    requires d != [] && AllDigits(d)
    ensures DigitGroups(d) && Digits(d) == d
  {
    DigitsOfDigits(d);
  }

  /** A string that neither starts nor ends with whitespace is its own `strip()`. */
  lemma StripUnchanged(t: string)
    requires t != [] && !Strings.IsSpace(t[0]) && !Strings.IsSpace(t[|t| - 1])
    ensures Strings.Strip(t) == t
  {
    Strings.TrimLeftIdentity(t);
  }

  /** `int(str(n)) == n`. */
  lemma ParseIntRoundTrip(n: int)
    ensures ParseInt(IntToString(n)) == Ok(n)
  {
    if n < 0 {
      var d := NatDigits(-n);
      var t := "-" + d;
      assert Unsigned(t) == d && SignOf(t) == -1;
      ParseTrimmed(t);
      PlainDigits(d);
    } else {
      ParseDigits(NatDigits(n));
    }
  }

  /** `int()` of a literal with no surrounding whitespace reads it as it stands. */
  lemma ParseTrimmed(t: string)
    requires t != [] && !Strings.IsSpace(t[0]) && !Strings.IsSpace(t[|t| - 1])
    ensures ParseInt(t).Ok? <==> DigitGroups(Unsigned(t))
    ensures ParseInt(t).Ok? ==> ParseInt(t).value == SignOf(t) * DigitsValue(Digits(Unsigned(t)))
  {
    StripUnchanged(t);
  }

  /** `int()` strips its argument before reading it. */
  lemma ParseStripped(s: string)
    ensures ParseInt(s) == ParseInt(Strings.Strip(s))
  {
    var t := Strings.Strip(s);
    if t != [] {
      StripUnchanged(t);
    }
  }

  /** `int()` of a string of decimal digits is its value. */
  lemma ParseDigits(s: string)
    requires s != [] && AllDigits(s)
    ensures ParseInt(s) == Ok(DigitsValue(s))
  {
    ParseTrimmed(s);
    assert Unsigned(s) == s && SignOf(s) == 1;
    PlainDigits(s);
  }

  /** A blank before and a newline after a stripped literal are stripped off. */
  lemma StripPadded(t: string)
    requires t != [] && !Strings.IsSpace(t[0]) && !Strings.IsSpace(t[|t| - 1])
    ensures Strings.Strip([' '] + t + ['\n']) == t
  {
    assert [' '] + t + ['\n'] == [' '] + (t + ['\n']);
    TrimLeftBlank(t + ['\n']);
    TrimRightNewline(t);
  }

  lemma TrimLeftBlank(u: string)
    requires u != [] && !Strings.IsSpace(u[0])
    ensures Strings.TrimLeft([' '] + u) == u
  {
    assert ([' '] + u)[1..] == u;
    Strings.TrimLeftIdentity(u);
  }

  lemma TrimRightNewline(t: string)
    requires t != [] && !Strings.IsSpace(t[|t| - 1])
    ensures Strings.TrimRight(t + ['\n']) == t
  {
    assert (t + ['\n'])[..|t|] == t;
  }

  lemma UnderscoreDigits()
    ensures DigitGroups("1_0") && DigitsValue(Digits("1_0")) == 10
  {
    PlainDigits("1");
    assert "1_0"[..1] == "1";
    DigitsStep("1_0", "1");
    DigitGroupsSnoc("1_0", "1");
  }

  /** A blank before and a newline after a literal do not change what `int()` reads. */
  lemma ParseIntPadded(t: string)
    requires t != [] && !Strings.IsSpace(t[0]) && !Strings.IsSpace(t[|t| - 1])
    ensures ParseInt([' '] + t + ['\n']) == ParseInt(t)
  {
    StripPadded(t);
    ParseStripped([' '] + t + ['\n']);
  }

  /** An underscore may separate digits. */
  lemma ParseIntUnderscore()
    ensures ParseInt("1_0") == Ok(10)
  {
    ParseTrimmed("1_0");
    UnderscoreDigits();
  }

  lemma ZeroPaddedDigits()
    ensures DigitGroups("007") && DigitsValue(Digits("007")) == 7
  {
    PlainDigits("007");
  }

  /** Leading zeros are accepted after a sign. */
  lemma ParseIntLeadingZeros()
    ensures ParseInt("-007") == Ok(-7)
  {
    ParseTrimmed("-007");
    assert Unsigned("-007") == "007";
    ZeroPaddedDigits();
  }

  /** A doubled underscore is rejected. */
  lemma ParseIntDoubleUnderscore()
    ensures ParseInt("1__0").Err?
  {
    ParseTrimmed("1__0");
  }

  /** An underscore at either end is rejected. */
  lemma ParseIntEdgeUnderscore()
    ensures ParseInt("_1").Err? && ParseInt("1_").Err?
  {
    ParseTrimmed("_1");
    ParseTrimmed("1_");
  }

  /** A space between the sign and the digits is rejected. */
  lemma ParseIntSignSpace()
    ensures ParseInt("- 1").Err?
  {
    ParseTrimmed("- 1");
  }

  /** A decimal point is rejected, and so is the empty string. */
  lemma ParseIntRejects()
    ensures ParseInt("4.0").Err? && ParseInt("").Err?
  {
    ParseTrimmed("4.0");
  }

  /** `int(cell)` as `run` applies it to the rating column. */
  function RatingOf(c: Cell): (r: Result<int>)
    ensures c.Num? ==> r == Ok(Truncate(c.x))
    ensures c.Str? ==> r == ParseInt(c.s)
    ensures c.Null? || c.Items? ==> r.Err?
  {
    match c
    case Num(x) => Ok(Truncate(x))
    case Str(s) => ParseInt(s)
    case Null => Err(ValueError("cannot convert float NaN to integer"))
    case Items(_) => Err(TypeError("int() argument must be a string or a real number, not 'list'"))
  }

  // ---------------------------------------------------------------------------
  // run

  /** The message `run` raises when a required column is absent. */
  function MissingColumnsMessage(textCol: string): string {
    "Required columns missing: '" + textCol + "' and/or 'rating'"
  }

  /** The rating `run`'s loop reads from one row: `int(row["rating"])`, after
      `row[text_col]`; reading an absent column raises KeyError. */
  function RowRating(row: Row, textCol: string): Result<int>
  {
    if textCol !in row then Err(KeyError(textCol))
    else if "rating" !in row then Err(KeyError("rating"))
    else RatingOf(row["rating"])
  }

  /** One iteration of `run`'s loop. */
  function ScoreRow(row: Row, textCol: string, scorer: string -> Scores, render: Cell -> string)
    : Result<Scored>
  {
    match RowRating(row, textCol)
    case Err(e) => Err(e)
    case Ok(rating) => Ok(Scored(row, Score(scorer(render(row[textCol])), rating)))
  }

  /** The rows of `run` in order, failing with the first row that fails. */
  function ScoreRows(rows: seq<Row>, textCol: string, scorer: string -> Scores, render: Cell -> string)
    : Result<seq<Scored>>
  {
    Traverse(rows, row => ScoreRow(row, textCol, scorer, render))
  }

  /** What `run` returns: the input rows, each with its sentiment record. */
  function RunSpec(df: Frame, textCol: string, scorer: string -> Scores, render: Cell -> string)
    : Result<seq<Scored>>
    requires df.Valid()
  {
    if textCol !in df.columns || "rating" !in df.columns then Err(KeyError(MissingColumnsMessage(textCol)))
    else ScoreRows(df.rows, textCol, scorer, render)
  }

  /** `run`: loop over the rows, appending one record per row. `render` is Python's
      `str()` of the text cell; `scorer` stands for the three scorer adapters. */
  method Run(df: Frame, textCol: string, scorer: string -> Scores, render: Cell -> string)
    returns (r: Result<seq<Scored>>)
    requires df.Valid()
    ensures r == RunSpec(df, textCol, scorer, render)
  {
    if textCol !in df.columns || "rating" !in df.columns {
      return Err(KeyError(MissingColumnsMessage(textCol)));
    }
    var records: seq<Scored> := [];
    var i := 0;
    while i < |df.rows|
      invariant 0 <= i <= |df.rows|
      invariant ScoreRows(df.rows[..i], textCol, scorer, render) == Ok(records)
    {
      var row := df.rows[i];
      assert row.Keys == df.columns;
      var rating := RatingOf(row["rating"]);
      TraverseStep(df.rows, i, row => ScoreRow(row, textCol, scorer, render));
      if rating.Err? {
        return Err(rating.error);
      }
      var rec := Score(scorer(render(row[textCol])), rating.value);
      records := records + [Scored(row, rec)];
      i := i + 1;
    }
    assert df.rows[..i] == df.rows;
    return Ok(records);
  }

  /** `run` end to end: KeyError when the text column or "rating" is missing;
      otherwise it fails exactly when some rating cannot be converted by `int()`,
      and on success it returns one record per row, in input order, each flagged
      exactly when its rating is 2 or less and its ensemble score exceeds 0.5. */
  lemma RunSpecProperties(df: Frame, textCol: string, scorer: string -> Scores, render: Cell -> string)
    requires df.Valid()
    ensures textCol !in df.columns || "rating" !in df.columns
            ==> RunSpec(df, textCol, scorer, render) == Err(KeyError(MissingColumnsMessage(textCol)))
    ensures textCol in df.columns && "rating" in df.columns ==>
              (RunSpec(df, textCol, scorer, render).Err?
               <==> exists i :: 0 <= i < |df.rows| && RatingOf(df.rows[i]["rating"]).Err?)
    ensures RunSpec(df, textCol, scorer, render).Ok? ==>
              var out := RunSpec(df, textCol, scorer, render).value;
              && |out| == |df.rows|
              && forall i :: 0 <= i < |out| ==>
                   && out[i].row == df.rows[i]
                   && RatingOf(df.rows[i]["rating"]).Ok?
                   && out[i].record == Score(scorer(render(df.rows[i][textCol])), RatingOf(df.rows[i]["rating"]).value)
                   && out[i].record.ens == ComputeEnsemble(scorer(render(df.rows[i][textCol])))
                   && (out[i].record.flag <==> RatingOf(df.rows[i]["rating"]).value <= 2
                                               && out[i].record.ens.ensemble > DEFAULT_THRESHOLD)
  {
    if textCol in df.columns && "rating" in df.columns {
      var f := row => ScoreRow(row, textCol, scorer, render);
      TraverseSpec(df.rows, f);
      forall i | 0 <= i < |df.rows|
        ensures f(df.rows[i]).Err? <==> RatingOf(df.rows[i]["rating"]).Err?
      {
        assert df.rows[i].Keys == df.columns;
      }
    }
  }
}
