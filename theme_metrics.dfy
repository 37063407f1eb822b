/**
 * `ThemeMetricsCalculator`: per-theme metrics for one bank. The reviews of the
 * bank are exploded so that every listed theme becomes a row of its own, the
 * rows are grouped by theme, and each group gets its number of mentions, the
 * mean sentiment and mean rating of its rows, and the product of the three;
 * the groups come out most mentioned first.
 */
module ThemeMetrics {
  import opened Table
  import opened Seqs
  import Counter

  const BANK := "bank"
  const THEMES := "themes"
  const REVIEW := "review"
  const ENSEMBLE := "ensemble"
  const RATING := "rating"

  /** The columns the aggregation reads. */
  const AGGREGATED: set<string> := {"review", "ensemble", "rating"}

  const EXPECTED_FRAME := "Expected DataFrame"
  const NEEDS_BANK_AND_THEMES := "DataFrame must have 'bank' and 'themes' columns"
  const BANK_NOT_STR := "bank must be str"
  const UNHASHABLE := "unhashable type: 'list'"
  const NOT_NUMERIC := "agg function failed [how->mean,dtype->object]"

  /** What the constructor can be handed: a DataFrame, or some other Python value. */
  datatype Arg = DataFrameArg(frame: Frame) | OtherArg(value: Cell)

  /** A calculator holds the full frame it was built from. */
  datatype Calculator = Calculator(df: Frame)
  {
    /** What the constructor checks and `compute_for_bank` relies on. */
    predicate Valid() {
      BANK in df.columns && THEMES in df.columns
    }
  }

  /** `ThemeMetricsCalculator(df)`. */
  function NewCalculator(arg: Arg): (r: Result<Calculator>)
    ensures arg.OtherArg? ==> r == Err(TypeError(EXPECTED_FRAME))
    ensures arg.DataFrameArg? && !(BANK in arg.frame.columns && THEMES in arg.frame.columns) ==>
              r == Err(ValueError(NEEDS_BANK_AND_THEMES))
    ensures r.Ok? <==> arg.DataFrameArg? && BANK in arg.frame.columns && THEMES in arg.frame.columns
    ensures r.Ok? ==> r.value.df == arg.frame && r.value.Valid()
  {
    match arg
    case OtherArg(_) => Err(TypeError(EXPECTED_FRAME))
    case DataFrameArg(frame) =>
      if BANK !in frame.columns || THEMES !in frame.columns then Err(ValueError(NEEDS_BANK_AND_THEMES))
      else Ok(Calculator(frame))
  }

  // ---------------------------------------------------------------------------
  // Filter, explode, group

  /** `df["bank"] == bank`: only a string cell can equal the string. */
  function AtBank(b: string): Row -> bool {
    row => Get(row, BANK) == Str(b)
  }

  function BankRows(rows: seq<Row>, b: string): seq<Row> {
    Filter(rows, AtBank(b))
  }

  /** One row of the exploded frame, cut to the theme it carries and the columns
      the aggregation reads. */
  datatype Mention = Mention(theme: Cell, review: Cell, ensemble: Cell, rating: Cell)

  /** The values `explode` spreads a themes cell over: the items of a list, one
      missing value for an empty list, and the cell itself for anything else. */
  function Spread(c: Cell): (vs: seq<Cell>)
    ensures vs != []
    ensures c.Items? && c.xs != [] ==> vs == c.xs
    ensures c.Items? && c.xs == [] ==> vs == [Null]
    ensures !c.Items? ==> vs == [c]
  {
    if c.Items? then (if c.xs == [] then [Null] else c.xs) else [c]
  }

  /** One exploded row per value, each carrying the row's other cells. */
  function Attach(vs: seq<Cell>, review: Cell, ensemble: Cell, rating: Cell): seq<Mention> {
    if vs == [] then [] else [Mention(vs[0], review, ensemble, rating)] + Attach(vs[1..], review, ensemble, rating)
  }

  function ExplodeRow(row: Row): seq<Mention> {
    Attach(Spread(Get(row, THEMES)), Get(row, REVIEW), Get(row, ENSEMBLE), Get(row, RATING))
  }

  /** `sub.explode("themes")`. */
  function Explode(rows: seq<Row>): seq<Mention> {
    if rows == [] then [] else ExplodeRow(rows[0]) + Explode(rows[1..])
  }

  /** The non-null themes of the exploded rows, in order; `groupby` drops the
      rows whose key is missing. */
  function Themes(xs: seq<Mention>): seq<Cell> {
    if xs == [] then [] else (if xs[0].theme.Null? then [] else [xs[0].theme]) + Themes(xs[1..])
  }

  /** The groups, each non-null theme once. */
  function GroupKeys(xs: seq<Mention>): seq<Cell> {
    Counter.Keys(Themes(xs))
  }

  /** `("review", "count")` on group `k`: its rows whose review is not missing. */
  function Mentions(xs: seq<Mention>, k: Cell): nat {
    if xs == [] then 0
    else (if xs[0].theme == k && !xs[0].review.Null? then 1 else 0) + Mentions(xs[1..], k)
  }

  datatype Column = Ensemble | Rating

  function Pick(m: Mention, col: Column): Cell {
    match col
    case Ensemble => m.ensemble
    case Rating => m.rating
  }

  /** The cells of column `col` in group `k`. */
  function GroupValues(xs: seq<Mention>, k: Cell, col: Column): seq<Cell> {
    if xs == [] then []
    else (if xs[0].theme == k then [Pick(xs[0], col)] else []) + GroupValues(xs[1..], k, col)
  }

  /** The numbers among the cells; `mean` skips missing values. */
  function Numbers(cs: seq<Cell>): seq<real> {
    if cs == [] then [] else (if cs[0].Num? then [cs[0].x] else []) + Numbers(cs[1..])
  }

  function Sum(v: seq<real>): real {
    if v == [] then 0.0 else v[0] + Sum(v[1..])
  }

  /** `mean`: missing (NaN) when there is no number to average. */
  function Mean(cs: seq<Cell>): Option<real> {
    var v := Numbers(cs);
    if v == [] then None else Some(Sum(v) / (|v| as real))
  }

  /** `mentions * avg_sentiment * avg_rating`; NaN in either mean gives NaN. */
  function Composite(n: nat, sentiment: Option<real>, rating: Option<real>): Option<real> {
    if sentiment.Some? && rating.Some? then Some(n as real * sentiment.value * rating.value) else None
  }

  /** One output row: `themes`, `mentions`, `avg_sentiment`, `avg_rating`,
      `composite_score`; `None` stands for NaN. */
  datatype ThemeMetric = ThemeMetric(
    theme: Cell, mentions: nat, avgSentiment: Option<real>, avgRating: Option<real>, compositeScore: Option<real>)

  /** The aggregate of group `k`. */
  function MetricFor(xs: seq<Mention>, k: Cell): ThemeMetric {
    var n := Mentions(xs, k);
    var s := Mean(GroupValues(xs, k, Ensemble));
    var r := Mean(GroupValues(xs, k, Rating));
    ThemeMetric(k, n, s, r, Composite(n, s, r))
  }

  /** The aggregates of the groups `ks`, in that order. */
  function MetricsOf(xs: seq<Mention>, ks: seq<Cell>): (ms: seq<ThemeMetric>)
    ensures |ms| == |ks|
    ensures forall i :: 0 <= i < |ks| ==> ms[i] == MetricFor(xs, ks[i])
  {
    if ks == [] then [] else [MetricFor(xs, ks[0])] + MetricsOf(xs, ks[1..])
  }

  // ---------------------------------------------------------------------------
  // sort_values("mentions", ascending=False)

  predicate SortedByMentions(ms: seq<ThemeMetric>) {
    forall i, j :: 0 <= i < j < |ms| ==> ms[i].mentions >= ms[j].mentions
  }

  function Insert(m: ThemeMetric, ms: seq<ThemeMetric>): (r: seq<ThemeMetric>)
    ensures multiset(r) == multiset(ms) + multiset{m}
  {
    if ms == [] || m.mentions >= ms[0].mentions then [m] + ms
    else
      assert ms == [ms[0]] + ms[1..];
      [ms[0]] + Insert(m, ms[1..])
  }

  function ByMentions(ms: seq<ThemeMetric>): (r: seq<ThemeMetric>)
    ensures multiset(r) == multiset(ms)
  {
    if ms == [] then []
    else
      assert ms == [ms[0]] + ms[1..];
      Insert(ms[0], ByMentions(ms[1..]))
  }

  /** The aggregated, sorted metrics of the exploded rows `xs`. */
  function Report(xs: seq<Mention>): seq<ThemeMetric> {
    ByMentions(MetricsOf(xs, GroupKeys(xs)))
  }

  // ---------------------------------------------------------------------------
  // compute_for_bank

  /** Some group key is a list: `groupby` cannot hash it. */
  predicate Unhashable(xs: seq<Mention>) {
    exists i :: 0 <= i < |xs| && xs[i].theme.Items?
  }

  /** A cell `mean` can average or skip. */
  predicate Numeric(c: Cell) {
    c.Num? || c.Null?
  }

  /** Some grouped row holds text or a list where a mean is taken. */
  predicate NonNumeric(xs: seq<Mention>) {
    exists i :: 0 <= i < |xs| && !xs[i].theme.Null? && !(Numeric(xs[i].ensemble) && Numeric(xs[i].rating))
  }

  /** `compute_for_bank(bank)`. */
  function ComputeForBank(calculator: Calculator, bank: Cell): Result<seq<ThemeMetric>>
    requires calculator.Valid()
  {
    if !bank.Str? then Err(TypeError(BANK_NOT_STR))
    else
      var sub := BankRows(calculator.df.rows, bank.s);
      if sub == [] then Err(ValueError("No data found for bank '" + bank.s + "'"))
      else if !(AGGREGATED <= calculator.df.columns) then Err(MissingKeys(AGGREGATED - calculator.df.columns))
      else
        var xs := Explode(sub);
        if Unhashable(xs) then Err(TypeError(UNHASHABLE))
        else if NonNumeric(xs) then Err(TypeError(NOT_NUMERIC))
        else Ok(Report(xs))
  }
  // ---------------------------------------------------------------------------
  // The sort

  lemma SortedTail(ms: seq<ThemeMetric>)
    requires ms != [] && SortedByMentions(ms)
    ensures SortedByMentions(ms[1..])
  {
    forall i, j | 0 <= i < j < |ms[1..]| ensures ms[1..][i].mentions >= ms[1..][j].mentions {
      assert ms[1..][i] == ms[i + 1] && ms[1..][j] == ms[j + 1];
    }
  }

  lemma {:induction false} InsertSorted(m: ThemeMetric, ms: seq<ThemeMetric>)
    requires SortedByMentions(ms)
    ensures SortedByMentions(Insert(m, ms))
  {
    if ms == [] || m.mentions >= ms[0].mentions {
      var q := [m] + ms;
      forall i, j | 0 <= i < j < |q| ensures q[i].mentions >= q[j].mentions {
        if i == 0 && j > 1 {
          assert ms[0].mentions >= ms[j - 1].mentions;
        }
      }
    } else {
      SortedTail(ms);
      InsertSorted(m, ms[1..]);
      var t := Insert(m, ms[1..]);
      var q := [ms[0]] + t;
      forall i, j | 0 <= i < j < |q| ensures q[i].mentions >= q[j].mentions {
        if i == 0 {
          assert q[j] in multiset(t);
          if q[j] != m {
            assert q[j] in ms[1..];
            var k :| 0 <= k < |ms[1..]| && ms[1..][k] == q[j];
            assert ms[k + 1] == q[j];
          }
        } else {
          assert q[i] == t[i - 1] && q[j] == t[j - 1];
        }
      }
    }
  }

  /** The output is in non-increasing order of mentions and is a rearrangement of
      the groups. */
  lemma {:induction false} ByMentionsSorted(ms: seq<ThemeMetric>)
    ensures SortedByMentions(ByMentions(ms))
    ensures multiset(ByMentions(ms)) == multiset(ms)
  {
    if ms != [] {
      ByMentionsSorted(ms[1..]);
      InsertSorted(ms[0], ByMentions(ms[1..]));
    }
  }

  /** The mentions of a list of output rows, added up. */
  function TotalMentions(ms: seq<ThemeMetric>): nat {
    if ms == [] then 0 else ms[0].mentions + TotalMentions(ms[1..])
  }

  lemma {:induction false} InsertTotal(m: ThemeMetric, ms: seq<ThemeMetric>)
    ensures TotalMentions(Insert(m, ms)) == m.mentions + TotalMentions(ms)
  {
    if ms == [] || m.mentions >= ms[0].mentions {
      assert ([m] + ms)[1..] == ms;
    } else {
      InsertTotal(m, ms[1..]);
      assert ([ms[0]] + Insert(m, ms[1..]))[1..] == Insert(m, ms[1..]);
    }
  }

  /** Sorting neither adds nor loses mentions. */
  lemma {:induction false} ByMentionsTotal(ms: seq<ThemeMetric>)
    ensures TotalMentions(ByMentions(ms)) == TotalMentions(ms)
  {
    if ms != [] {
      ByMentionsTotal(ms[1..]);
      InsertTotal(ms[0], ByMentions(ms[1..]));
    }
  }

  // ---------------------------------------------------------------------------
  // Groups and counts

  /** A theme is a group key exactly when some exploded row carries it and it is
      not missing. */
  lemma {:induction false} ThemesSpec(xs: seq<Mention>)
    ensures forall x :: x in Themes(xs) <==> !x.Null? && exists i :: 0 <= i < |xs| && xs[i].theme == x
  {
    if xs != [] {
      ThemesSpec(xs[1..]);
      var head := if xs[0].theme.Null? then [] else [xs[0].theme];
      assert Themes(xs) == head + Themes(xs[1..]);
      forall x ensures x in Themes(xs) <==> !x.Null? && exists i :: 0 <= i < |xs| && xs[i].theme == x {
        if x in Themes(xs[1..]) {
          var i :| 0 <= i < |xs[1..]| && xs[1..][i].theme == x;
          assert xs[i + 1].theme == x;
        }
        if !x.Null? && x != xs[0].theme && exists i :: 0 <= i < |xs| && xs[i].theme == x {
          var i :| 0 <= i < |xs| && xs[i].theme == x;
          assert xs[1..][i - 1].theme == x;
        }
      }
    }
  }

  /** The theme of every exploded row that `count` sees: a theme that is present
      on a row whose review is present. */
  function Counted(xs: seq<Mention>): seq<Cell> {
    if xs == [] then []
    else (if !xs[0].theme.Null? && !xs[0].review.Null? then [xs[0].theme] else []) + Counted(xs[1..])
  }

  /** The mentions of a group are the occurrences of its theme among the counted
      rows. */
  lemma {:induction false} MentionsCounted(xs: seq<Mention>, k: Cell)
    requires !k.Null?
    ensures Mentions(xs, k) == Count(Counted(xs), k)
  {
    if xs != [] {
      MentionsCounted(xs[1..], k);
      var head := if !xs[0].theme.Null? && !xs[0].review.Null? then [xs[0].theme] else [];
      assert Counted(xs) == head + Counted(xs[1..]);
      assert multiset(Counted(xs)) == multiset(head) + multiset(Counted(xs[1..]));
    }
  }

  lemma {:induction false} CountedThemes(xs: seq<Mention>)
    ensures forall x :: x in Counted(xs) ==> x in Themes(xs)
  {
    if xs != [] {
      CountedThemes(xs[1..]);
      var head := if !xs[0].theme.Null? && !xs[0].review.Null? then [xs[0].theme] else [];
      assert Counted(xs) == head + Counted(xs[1..]);
      var keep := if xs[0].theme.Null? then [] else [xs[0].theme];
      assert Themes(xs) == keep + Themes(xs[1..]);
    }
  }

  lemma {:induction false} MetricsTotal(xs: seq<Mention>, ks: seq<Cell>)
    requires forall i :: 0 <= i < |ks| ==> !ks[i].Null?
    ensures TotalMentions(MetricsOf(xs, ks)) == TotalCount(Counted(xs), ks)
  {
    if ks != [] {
      MentionsCounted(xs, ks[0]);
      MetricsTotal(xs, ks[1..]);
      assert MetricsOf(xs, ks)[1..] == MetricsOf(xs, ks[1..]);
    }
  }

  /** How many of the cells are not missing. */
  function NonNullCount(cs: seq<Cell>): nat {
    if cs == [] then 0 else (if cs[0].Null? then 0 else 1) + NonNullCount(cs[1..])
  }

  /** How many themes the rows list where their review is present: the non-missing
      values each themes cell spreads over. */
  function Listed(rows: seq<Row>): nat {
    if rows == [] then 0
    else (if Get(rows[0], REVIEW).Null? then 0 else NonNullCount(Spread(Get(rows[0], THEMES)))) + Listed(rows[1..])
  }

  lemma {:induction false} CountedAppend(a: seq<Mention>, b: seq<Mention>)
    ensures |Counted(a + b)| == |Counted(a)| + |Counted(b)|
  {
    if a == [] {
      assert a + b == b;
    } else {
      assert (a + b)[0] == a[0] && (a + b)[1..] == a[1..] + b;
      CountedAppend(a[1..], b);
    }
  }

  lemma {:induction false} AttachCounted(vs: seq<Cell>, review: Cell, ensemble: Cell, rating: Cell)
    ensures |Counted(Attach(vs, review, ensemble, rating))| == if review.Null? then 0 else NonNullCount(vs)
  {
    if vs != [] {
      AttachCounted(vs[1..], review, ensemble, rating);
      var xs := Attach(vs, review, ensemble, rating);
      assert xs[0] == Mention(vs[0], review, ensemble, rating);
      assert xs[1..] == Attach(vs[1..], review, ensemble, rating);
    }
  }

  /** Exploding and dropping missing themes and reviews leaves one row per
      listed theme. */
  lemma {:induction false} ExplodeCounted(rows: seq<Row>)
    ensures |Counted(Explode(rows))| == Listed(rows)
  {
    if rows != [] {
      var row := rows[0];
      ExplodeCounted(rows[1..]);
      CountedAppend(ExplodeRow(row), Explode(rows[1..]));
      AttachCounted(Spread(Get(row, THEMES)), Get(row, REVIEW), Get(row, ENSEMBLE), Get(row, RATING));
    }
  }

  // ---------------------------------------------------------------------------
  // What compute_for_bank returns

  /** The exploded rows of the bank. */
  function BankMentions(calculator: Calculator, b: string): seq<Mention> {
    Explode(BankRows(calculator.df.rows, b))
  }

  /** A bank that is not a string, a bank without rows, a missing aggregated
      column, a list among the themes and text in a column being averaged each
      raise; nothing else does. */
  lemma ComputeForBankErrors(calculator: Calculator, bank: Cell)
    requires calculator.Valid()
    ensures !bank.Str? ==> ComputeForBank(calculator, bank) == Err(TypeError(BANK_NOT_STR))
    ensures bank.Str? && BankRows(calculator.df.rows, bank.s) == [] ==>
              ComputeForBank(calculator, bank) == Err(ValueError("No data found for bank '" + bank.s + "'"))
    ensures bank.Str? && BankRows(calculator.df.rows, bank.s) != [] && !(AGGREGATED <= calculator.df.columns) ==>
              ComputeForBank(calculator, bank) == Err(MissingKeys(AGGREGATED - calculator.df.columns))
    ensures bank.Str? ==>
              (ComputeForBank(calculator, bank).Ok? <==>
                 && BankRows(calculator.df.rows, bank.s) != []
                 && AGGREGATED <= calculator.df.columns
                 && !Unhashable(BankMentions(calculator, bank.s))
                 && !NonNumeric(BankMentions(calculator, bank.s)))
  {
  }

  /** Each output row is the aggregate of its own theme; every non-missing theme of
      the exploded rows has exactly one output row; the rows are in non-increasing
      order of mentions. */
  lemma ReportGroups(xs: seq<Mention>)
    ensures var out := Report(xs);
      && (forall i :: 0 <= i < |out| ==> out[i] == MetricFor(xs, out[i].theme) && out[i].theme in Themes(xs))
      && (forall i, j :: 0 <= i < j < |out| ==> out[i].theme != out[j].theme)
      && (forall j :: 0 <= j < |xs| && !xs[j].theme.Null? ==> exists i :: 0 <= i < |out| && out[i].theme == xs[j].theme)
      && SortedByMentions(out)
  {
    ByMentionsSorted(MetricsOf(xs, GroupKeys(xs)));
    ReportMembers(xs);
    ReportDistinct(xs);
    ReportComplete(xs);
  }

  lemma ReportMembers(xs: seq<Mention>)
    ensures var out := Report(xs);
      forall i :: 0 <= i < |out| ==> out[i] == MetricFor(xs, out[i].theme) && out[i].theme in Themes(xs)
  {
    var ks := GroupKeys(xs);
    var ms := MetricsOf(xs, ks);
    var out := ByMentions(ms);
    assert out == Report(xs);
    forall i | 0 <= i < |out| ensures out[i] == MetricFor(xs, out[i].theme) && out[i].theme in Themes(xs) {
      assert out[i] in multiset(ms);
      var j :| 0 <= j < |ms| && ms[j] == out[i];
      assert ks[j] in Themes(xs);
    }
  }

  lemma ReportDistinct(xs: seq<Mention>)
    ensures var out := Report(xs);
      forall i, j :: 0 <= i < j < |out| ==> out[i].theme != out[j].theme
  {
    var ks := GroupKeys(xs);
    var ms := MetricsOf(xs, ks);
    var out := ByMentions(ms);
    assert out == Report(xs);
    assert Distinct(ms) by {
      forall i, j | 0 <= i < j < |ms| ensures ms[i] != ms[j] {
        assert ms[i].theme == ks[i] && ms[j].theme == ks[j];
      }
    }
    PermutationDistinct(ms, out);
    ReportMembers(xs);
    forall i, j | 0 <= i < j < |out| ensures out[i].theme != out[j].theme {
      assert out[i] != out[j];
    }
  }

  lemma ReportComplete(xs: seq<Mention>)
    ensures var out := Report(xs);
      forall j :: 0 <= j < |xs| && !xs[j].theme.Null? ==> exists i :: 0 <= i < |out| && out[i].theme == xs[j].theme
  {
    var ks := GroupKeys(xs);
    var ms := MetricsOf(xs, ks);
    var out := ByMentions(ms);
    assert out == Report(xs);
    ThemesSpec(xs);
    forall j | 0 <= j < |xs| && !xs[j].theme.Null? ensures exists i :: 0 <= i < |out| && out[i].theme == xs[j].theme {
      var x := xs[j].theme;
      assert x in Themes(xs);
      var t :| 0 <= t < |Themes(xs)| && Themes(xs)[t] == x;
      var k :| 0 <= k < |ks| && ks[k] == x;
      assert ms[k] in multiset(out);
      var i :| 0 <= i < |out| && out[i] == ms[k];
    }
  }

  /** The mentions of the output rows add up to the number of exploded rows with a
      theme and a review. */
  lemma ReportTotal(xs: seq<Mention>)
    ensures TotalMentions(Report(xs)) == |Counted(xs)|
  {
    var ks := GroupKeys(xs);
    var ms := MetricsOf(xs, ks);
    assert Report(xs) == ByMentions(ms);
    GroupKeysCover(xs);
    MetricsTotal(xs, ks);
    ByMentionsTotal(ms);
    TotalCountAll(Counted(xs), ks);
  }

  /** The group keys are distinct and present, and every counted theme is one. */
  lemma GroupKeysCover(xs: seq<Mention>)
    ensures Distinct(GroupKeys(xs))
    ensures forall i :: 0 <= i < |GroupKeys(xs)| ==> !GroupKeys(xs)[i].Null?
    ensures forall i :: 0 <= i < |Counted(xs)| ==> Counted(xs)[i] in GroupKeys(xs)
  {
    var ks := GroupKeys(xs);
    ThemesPresent(xs);
    assert forall i :: 0 <= i < |ks| ==> ks[i] in Themes(xs);
    CountedThemes(xs);
    assert forall i :: 0 <= i < |Counted(xs)| ==> Counted(xs)[i] in Themes(xs);
    assert Counter.Members(ks, Themes(xs));
  }

  lemma {:induction false} ThemesPresent(xs: seq<Mention>)
    ensures forall x :: x in Themes(xs) ==> !x.Null?
  {
    if xs != [] {
      ThemesPresent(xs[1..]);
      var head := if xs[0].theme.Null? then [] else [xs[0].theme];
      assert Themes(xs) == head + Themes(xs[1..]);
    }
  }

  /** `compute_for_bank` returns, for the bank's exploded rows, one row per
      non-missing theme holding that theme's aggregate, most mentioned first. */
  lemma ComputeForBankGroups(calculator: Calculator, bank: Cell)
    requires calculator.Valid()
    requires ComputeForBank(calculator, bank).Ok?
    ensures var out := ComputeForBank(calculator, bank).value;
      var xs := BankMentions(calculator, bank.s);
      && (forall i :: 0 <= i < |out| ==> out[i] == MetricFor(xs, out[i].theme) && out[i].theme in Themes(xs))
      && (forall i, j :: 0 <= i < j < |out| ==> out[i].theme != out[j].theme)
      && (forall j :: 0 <= j < |xs| && !xs[j].theme.Null? ==> exists i :: 0 <= i < |out| && out[i].theme == xs[j].theme)
      && SortedByMentions(out)
  {
    var xs := BankMentions(calculator, bank.s);
    assert ComputeForBank(calculator, bank).value == Report(xs);
    ReportGroups(xs);
  }

  /** The row's composite score is its mentions times its two means, and is
      missing exactly when either mean is. */
  predicate CompositeOfMeans(m: ThemeMetric) {
    && (m.compositeScore.Some? <==> m.avgSentiment.Some? && m.avgRating.Some?)
    && (m.compositeScore.Some? ==>
          m.compositeScore.value == m.mentions as real * m.avgSentiment.value * m.avgRating.value)
  }

  /** Every output row's composite score is its mentions times its two means. */
  lemma ComputeForBankComposite(calculator: Calculator, bank: Cell)
    requires calculator.Valid()
    requires ComputeForBank(calculator, bank).Ok?
    ensures var out := ComputeForBank(calculator, bank).value;
      forall i :: 0 <= i < |out| ==> CompositeOfMeans(out[i])
  {
    var xs := BankMentions(calculator, bank.s);
    assert ComputeForBank(calculator, bank).value == Report(xs);
    ReportComposite(xs);
  }

  lemma ReportComposite(xs: seq<Mention>)
    ensures var out := Report(xs);
      forall i :: 0 <= i < |out| ==> CompositeOfMeans(out[i])
  {
    var out := Report(xs);
    ReportMembers(xs);
    forall i | 0 <= i < |out| ensures CompositeOfMeans(out[i]) {
      MetricForComposite(xs, out[i].theme);
    }
  }

  lemma MetricForComposite(xs: seq<Mention>, k: Cell)
    ensures CompositeOfMeans(MetricFor(xs, k))
  {
  }

  /** The mentions of all output rows add up to the number of themes the bank's
      reviews list; missing themes, empty lists and rows without a review add
      nothing. */
  lemma ComputeForBankTotal(calculator: Calculator, bank: Cell)
    requires calculator.Valid()
    requires ComputeForBank(calculator, bank).Ok?
    ensures TotalMentions(ComputeForBank(calculator, bank).value) == Listed(BankRows(calculator.df.rows, bank.s))
  {
    var xs := BankMentions(calculator, bank.s);
    assert ComputeForBank(calculator, bank).value == Report(xs);
    ReportTotal(xs);
    ExplodeCounted(BankRows(calculator.df.rows, bank.s));
  }

  /** Rows of other banks change nothing: appending them gives the same result. */
  lemma OtherBanksIgnored(df: Frame, others: seq<Row>, b: string)
    requires Calculator(df).Valid()
    requires forall i :: 0 <= i < |others| ==> Get(others[i], BANK) != Str(b)
    ensures ComputeForBank(Calculator(Frame(df.columns, df.rows + others)), Str(b)) ==
            ComputeForBank(Calculator(df), Str(b))
  {
    FilterAppend(df.rows, others, AtBank(b));
    FilterNone(others, AtBank(b));
    assert BankRows(df.rows + others, b) == BankRows(df.rows, b);
  }

  // ---------------------------------------------------------------------------
  // Means stay within the range of their values

  /** Every number among the cells lies in `[lo, hi]`. */
  predicate Within(cs: seq<Cell>, lo: real, hi: real) {
    forall i :: 0 <= i < |cs| && cs[i].Num? ==> lo <= cs[i].x <= hi
  }

  lemma {:induction false} NumbersWithin(cs: seq<Cell>, lo: real, hi: real)
    requires Within(cs, lo, hi)
    ensures forall i :: 0 <= i < |Numbers(cs)| ==> lo <= Numbers(cs)[i] <= hi
    ensures Numbers(cs) == [] <==> forall i :: 0 <= i < |cs| ==> !cs[i].Num?
  {
    if cs != [] {
      assert Within(cs[1..], lo, hi) by {
        forall i | 0 <= i < |cs[1..]| && cs[1..][i].Num? ensures lo <= cs[1..][i].x <= hi {
          assert cs[1..][i] == cs[i + 1];
        }
      }
      NumbersWithin(cs[1..], lo, hi);
      var head := if cs[0].Num? then [cs[0].x] else [];
      assert Numbers(cs) == head + Numbers(cs[1..]);
      if forall i :: 0 <= i < |cs[1..]| ==> !cs[1..][i].Num? {
        forall i | 0 <= i < |cs| ensures cs[i].Num? ==> i == 0 {
          if i > 0 {
            assert cs[i] == cs[1..][i - 1];
          }
        }
      } else {
        var i :| 0 <= i < |cs[1..]| && cs[1..][i].Num?;
        assert cs[i + 1].Num?;
      }
    }
  }

  lemma {:induction false} SumWithin(v: seq<real>, lo: real, hi: real)
    requires forall i :: 0 <= i < |v| ==> lo <= v[i] <= hi
    ensures (|v| as real) * lo <= Sum(v) <= (|v| as real) * hi
  {
    if v != [] {
      SumWithin(v[1..], lo, hi);
      var n := |v[1..]| as real;
      assert (n + 1.0) * lo == n * lo + lo;
      assert (n + 1.0) * hi == n * hi + hi;
    }
  }

  /** A mean is missing exactly when there is no number to average, and it lies
      between any bounds of the numbers averaged. */
  lemma MeanWithin(cs: seq<Cell>, lo: real, hi: real)
    requires Within(cs, lo, hi)
    ensures Mean(cs).None? <==> forall i :: 0 <= i < |cs| ==> !cs[i].Num?
    ensures Mean(cs).Some? ==> lo <= Mean(cs).value <= hi
  {
    NumbersWithin(cs, lo, hi);
    var v := Numbers(cs);
    if v != [] {
      SumWithin(v, lo, hi);
      QuotientWithin(Sum(v), |v| as real, lo, hi);
    }
  }

  lemma QuotientWithin(sum: real, n: real, lo: real, hi: real)
    requires n > 0.0 && n * lo <= sum <= n * hi
    ensures lo <= sum / n <= hi
  {
    var m := sum / n;
    assert m * n == sum;
    assert (m - lo) * n == sum - n * lo;
    assert (hi - m) * n == n * hi - sum;
  }

  function ColumnName(col: Column): string {
    match col
    case Ensemble => ENSEMBLE
    case Rating => RATING
  }

  /** The mean an output row holds for `col`. */
  function Average(m: ThemeMetric, col: Column): Option<real> {
    match col
    case Ensemble => m.avgSentiment
    case Rating => m.avgRating
  }

  /** Every number in column `col` of the rows lies in `[lo, hi]`. */
  predicate RowsWithin(rows: seq<Row>, col: Column, lo: real, hi: real) {
    forall i :: 0 <= i < |rows| && Get(rows[i], ColumnName(col)).Num? ==> lo <= Get(rows[i], ColumnName(col)).x <= hi
  }

  predicate MentionsWithin(xs: seq<Mention>, col: Column, lo: real, hi: real) {
    forall i :: 0 <= i < |xs| && Pick(xs[i], col).Num? ==> lo <= Pick(xs[i], col).x <= hi
  }

  /** A review explodes into one row per value, in order, each carrying the
      review's own cells. */
  lemma {:induction false} AttachCells(vs: seq<Cell>, review: Cell, ensemble: Cell, rating: Cell)
    ensures var xs := Attach(vs, review, ensemble, rating);
      |xs| == |vs| &&
      forall i :: 0 <= i < |xs| ==>
        xs[i].theme == vs[i] && xs[i].review == review && xs[i].ensemble == ensemble && xs[i].rating == rating
  {
    if vs != [] {
      AttachCells(vs[1..], review, ensemble, rating);
    }
  }

  lemma {:induction false} ExplodeWithin(rows: seq<Row>, col: Column, lo: real, hi: real)
    requires RowsWithin(rows, col, lo, hi)
    ensures MentionsWithin(Explode(rows), col, lo, hi)
  {
    if rows != [] {
      var row := rows[0];
      assert RowsWithin(rows[1..], col, lo, hi) by {
        assert forall i :: 0 <= i < |rows[1..]| ==> rows[1..][i] == rows[i + 1];
      }
      ExplodeWithin(rows[1..], col, lo, hi);
      var head := ExplodeRow(row);
      AttachCells(Spread(Get(row, THEMES)), Get(row, REVIEW), Get(row, ENSEMBLE), Get(row, RATING));
      var xs := Explode(rows);
      assert xs == head + Explode(rows[1..]);
      forall i | 0 <= i < |xs| && Pick(xs[i], col).Num? ensures lo <= Pick(xs[i], col).x <= hi {
        if i < |head| {
          assert Pick(xs[i], col) == Get(rows[0], ColumnName(col));
        } else {
          assert xs[i] == Explode(rows[1..])[i - |head|];
        }
      }
    }
  }

  lemma {:induction false} GroupValuesWithin(xs: seq<Mention>, k: Cell, col: Column, lo: real, hi: real)
    requires MentionsWithin(xs, col, lo, hi)
    ensures Within(GroupValues(xs, k, col), lo, hi)
  {
    if xs != [] {
      assert MentionsWithin(xs[1..], col, lo, hi) by {
        assert forall i :: 0 <= i < |xs[1..]| ==> xs[1..][i] == xs[i + 1];
      }
      GroupValuesWithin(xs[1..], k, col, lo, hi);
      var head := if xs[0].theme == k then [Pick(xs[0], col)] else [];
      var cs := GroupValues(xs, k, col);
      assert cs == head + GroupValues(xs[1..], k, col);
      forall i | 0 <= i < |cs| && cs[i].Num? ensures lo <= cs[i].x <= hi {
        if i >= |head| {
          assert cs[i] == GroupValues(xs[1..], k, col)[i - |head|];
        }
      }
    }
  }

  /** When every number in a column of the frame lies in `[lo, hi]` (sentiment
      scores in `[-1, 1]`, ratings in `[1, 5]`), so does every average of that
      column that `compute_for_bank` reports. */
  lemma ComputeForBankWithin(calculator: Calculator, bank: Cell, col: Column, lo: real, hi: real)
    requires calculator.Valid()
    requires ComputeForBank(calculator, bank).Ok?
    requires RowsWithin(calculator.df.rows, col, lo, hi)
    ensures var out := ComputeForBank(calculator, bank).value;
      forall i :: 0 <= i < |out| && Average(out[i], col).Some? ==> lo <= Average(out[i], col).value <= hi
  {
    var rows := calculator.df.rows;
    var sub := BankRows(rows, bank.s);
    FilterSpec(rows, AtBank(bank.s));
    assert RowsWithin(sub, col, lo, hi) by {
      forall i | 0 <= i < |sub| && Get(sub[i], ColumnName(col)).Num?
        ensures lo <= Get(sub[i], ColumnName(col)).x <= hi
      {
        assert sub[i] in rows;
        var j :| 0 <= j < |rows| && rows[j] == sub[i];
      }
    }
    var xs := Explode(sub);
    ExplodeWithin(sub, col, lo, hi);
    ComputeForBankGroups(calculator, bank);
    var out := ComputeForBank(calculator, bank).value;
    forall i | 0 <= i < |out| && Average(out[i], col).Some? ensures lo <= Average(out[i], col).value <= hi {
      var k := out[i].theme;
      GroupValuesWithin(xs, k, col, lo, hi);
      MeanWithin(GroupValues(xs, k, col), lo, hi);
    }
  }
}
