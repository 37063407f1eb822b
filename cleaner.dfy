/**
 * `ReviewDataCleaner`: holds the loaded review table in its `df` field and
 * `clean` replaces it with the cleaned table: rows with a missing required
 * value dropped, blank reviews dropped, duplicate review ids dropped (first kept),
 * review whitespace normalised, with the drop counts it logs.
 */
module Cleaner {
  import opened Table
  import opened Strings
  import opened Seqs
  import Counter

  const REVIEW := "review"
  const REVIEW_ID := "reviewId"

  /** `REQUIRED_COLUMNS`. */
  const REQUIRED: set<string> := {"review", "rating", "date", "bank", "source"}

  const NOT_LOADED := "Data not loaded. Run `load_raw_data()` first."

  /** The counts `clean` logs. */
  datatype Stats = Stats(before: nat, nullDropped: nat, blankDropped: nat, dupDropped: nat, after: nat)

  /** Every row has exactly the columns `cols`. */
  predicate Shaped(rows: seq<Row>, cols: set<string>) {
    forall i :: 0 <= i < |rows| ==> rows[i].Keys == cols
  }

  // ---------------------------------------------------------------------------
  // The steps of clean

  /** The row has every required column. */
  predicate HasRequired(row: Row) {
    REVIEW in row && "rating" in row && "date" in row && "bank" in row && "source" in row
  }

  /** `dropna(subset=REQUIRED_COLUMNS)` keeps a row with a value in every required column. */
  predicate Complete(row: Row) {
    HasRequired(row)
    && !IsNull(row[REVIEW]) && !IsNull(row["rating"]) && !IsNull(row["date"])
    && !IsNull(row["bank"]) && !IsNull(row["source"])
  }

  /** `df["review"].str.strip().astype(bool)`: a string review survives when something
      is left after stripping; a non-string gives NaN, which is truthy, and survives. */
  predicate NotBlank(row: Row) {
    !(REVIEW in row && row[REVIEW].Str? && Strip(row[REVIEW].s) == [])
  }

  /** The review id of a row; `clean` only reads it when the column exists. */
  function IdOf(row: Row): Cell {
    if REVIEW_ID in row then row[REVIEW_ID] else Null
  }

  /** The key of every element. */
  function Project<T, K>(xs: seq<T>, key: T -> K): (ks: seq<K>)
    ensures |ks| == |xs|
    ensures forall i :: 0 <= i < |xs| ==> ks[i] == key(xs[i])
  {
    seq(|xs|, i requires 0 <= i < |xs| => key(xs[i]))
  }

  /** `drop_duplicates(subset=...)`: an element is kept when no earlier element has
      the same key (missing values count as equal to each other). */
  function Dedup<T, K(==)>(xs: seq<T>, key: T -> K): (r: seq<T>)
    ensures |r| <= |xs|
  {
    if xs == [] then []
    else
      var init := xs[..|xs| - 1];
      var kept := Dedup(init, key);
      if key(xs[|xs| - 1]) in Project(init, key) then kept else kept + [xs[|xs| - 1]]
  }

  /** `str.replace(r"\s+", " ", regex=True).str.strip()` on the review column; a
      non-string review becomes NaN. */
  function NormalizeReview(row: Row): Row
    requires REVIEW in row
  {
    row[REVIEW := if row[REVIEW].Str? then Str(Squeeze(row[REVIEW].s)) else Null]
  }

  function NormalizeReviews(rows: seq<Row>): (r: seq<Row>)
    requires forall i :: 0 <= i < |rows| ==> REVIEW in rows[i]
    ensures |r| == |rows|
    ensures forall i :: 0 <= i < |rows| ==> r[i] == NormalizeReview(rows[i])
  {
    seq(|rows|, i requires 0 <= i < |rows| => NormalizeReview(rows[i]))
  }

  /** Some remaining row holds a list in the id column, which cannot be hashed. */
  predicate UnhashableIds(rows: seq<Row>) {
    exists i :: 0 <= i < |rows| && IdOf(rows[i]).Items?
  }

  lemma FilterShaped(rows: seq<Row>, cols: set<string>, p: Row -> bool)
    requires Shaped(rows, cols)
    ensures Shaped(Filter(rows, p), cols)
  {
    FilterSpec(rows, p);
    var r := Filter(rows, p);
    forall i | 0 <= i < |r| ensures r[i].Keys == cols {
      assert r[i] in rows;
    }
  }

  /** The rows left after the null and blank filters. */
  function Survivors(frame: Frame): (rows: seq<Row>)
    requires frame.Valid()
    ensures Shaped(rows, frame.columns)
  {
    FilterShaped(frame.rows, frame.columns, Complete);
    FilterShaped(Filter(frame.rows, Complete), frame.columns, NotBlank);
    Filter(Filter(frame.rows, Complete), NotBlank)
  }

  /** The rows left after deduplication, before the review text is normalised. */
  function Kept(frame: Frame): (rows: seq<Row>)
    requires frame.Valid()
    ensures Shaped(rows, frame.columns)
  {
    var rows := Survivors(frame);
    if REVIEW_ID in frame.columns then
      var r := Dedup(rows, IdOf);
      DedupSubseq(rows, IdOf);
      SubseqMembers(r, rows);
      assert forall i :: 0 <= i < |r| ==> r[i].Keys == frame.columns by {
        forall i | 0 <= i < |r| ensures r[i].Keys == frame.columns {
          assert r[i] in r;
          var j :| 0 <= j < |rows| && rows[j] == r[i];
        }
      }
      r
    else rows
  }

  /** `clean` on a loaded frame: KeyError when a required column is missing, TypeError
      when a review id is a list, otherwise the cleaned frame. */
  function CleanFrame(frame: Frame): Result<Frame>
    requires frame.Valid()
  {
    if !(REQUIRED <= frame.columns) then Err(MissingKeys(REQUIRED - frame.columns))
    else if REVIEW_ID in frame.columns && UnhashableIds(Survivors(frame)) then Err(TypeError("unhashable type: 'list'"))
    else Ok(Frame(frame.columns, NormalizeReviews(Kept(frame))))
  }

  /** The counts `clean` logs for a frame it cleans. */
  function Tally(frame: Frame): (t: Stats)
    requires frame.Valid()
  {
    var afterNulls := Filter(frame.rows, Complete);
    var rows := Survivors(frame);
    var kept := Kept(frame);
    Stats(|frame.rows|, |frame.rows| - |afterNulls|, |afterNulls| - |rows|, |rows| - |kept|, |kept|)
  }

  // ---------------------------------------------------------------------------
  // The cleaner object

  class ReviewDataCleaner {
    var rawPath: string
    var verbose: bool
    /** The raw table after `load_raw_data`, the cleaned one after `clean`. */
    var df: Option<Frame>

    /** The loaded table, if any, is a well-formed frame. */
    predicate Valid()
      reads this
    {
      df.Some? ==> df.value.Valid()
    }

    constructor (rawPath: string, verbose: bool)
      ensures this.rawPath == rawPath && this.verbose == verbose && df == None
      ensures Valid()
    {
      this.rawPath := rawPath;
      this.verbose := verbose;
      df := None;
    }

    /** `load_raw_data`, with the file system and the CSV parser as parameters:
        `found` says whether the file exists and `contents` is what it parses to. */
    method LoadRawData(found: bool, contents: Frame) returns (r: Result<Frame>)
      requires contents.Valid()
      modifies this
      ensures !found ==> r == Err(FileNotFoundError("File not found: " + rawPath)) && df == old(df)
      ensures found ==> r == Ok(contents) && df == Some(contents)
      ensures rawPath == old(rawPath) && verbose == old(verbose)
      ensures old(Valid()) ==> Valid()
    {
      if !found {
        return Err(FileNotFoundError("File not found: " + rawPath));
      }
      df := Some(contents);
      r := Ok(contents);
    }

    /** `clean`: step by step on a copy of `df`, which it then replaces. */
    method Clean() returns (r: Result<Frame>, stats: Stats)
      requires Valid()
      modifies this
      ensures old(df).None? ==> r == Err(ValueError(NOT_LOADED))
      ensures old(df).Some? ==> r == CleanFrame(old(df).value)
      ensures r.Ok? ==> df == Some(r.value) && stats == Tally(old(df).value)
      ensures r.Err? ==> df == old(df)
      ensures rawPath == old(rawPath) && verbose == old(verbose)
      ensures Valid()
    {
      stats := Stats(0, 0, 0, 0, 0);
      if df.None? {
        return Err(ValueError(NOT_LOADED)), stats;
      }
      var frame := df.value;
      if !(REQUIRED <= frame.columns) {
        return Err(MissingKeys(REQUIRED - frame.columns)), stats;
      }
      var rows := frame.rows;
      var totalBefore := |rows|;

      rows := Filter(rows, Complete);
      var afterNulls := |rows|;
      var nullDropped := totalBefore - afterNulls;

      rows := Filter(rows, NotBlank);
      var afterBlank := |rows|;
      var blankDropped := afterNulls - afterBlank;
      assert rows == Survivors(frame);

      var dupDropped := 0;
      if REVIEW_ID in frame.columns {
        if UnhashableIds(rows) {
          return Err(TypeError("unhashable type: 'list'")), stats;
        }
        var beforeDedup := |rows|;
        rows := Dedup(rows, IdOf);
        dupDropped := beforeDedup - |rows|;
      }
      assert rows == Kept(frame);

      rows := NormalizeReviews(rows);
      var totalAfter := |rows|;
      stats := Stats(totalBefore, nullDropped, blankDropped, dupDropped, totalAfter);
      df := Some(Frame(frame.columns, rows));
      r := Ok(df.value);
    }
  }

  // ---------------------------------------------------------------------------
  // Properties

  /** `clean` fails exactly when a required column is missing (KeyError naming the
      missing ones) or a surviving review id is a list (TypeError). */
  lemma CleanErrors(frame: Frame)
    requires frame.Valid()
    ensures CleanFrame(frame).Err? <==>
              !(REQUIRED <= frame.columns) || (REVIEW_ID in frame.columns && UnhashableIds(Survivors(frame)))
    ensures !(REQUIRED <= frame.columns) ==> CleanFrame(frame) == Err(MissingKeys(REQUIRED - frame.columns))
  {
  }

  /** The logged counts add up: the rows dropped at the three steps are all the rows
      dropped. */
  lemma TallyAccounts(frame: Frame)
    requires frame.Valid() && CleanFrame(frame).Ok?
    ensures var t := Tally(frame);
      t.nullDropped + t.blankDropped + t.dupDropped == t.before - t.after
      && t.before == |frame.rows| && t.after == |CleanFrame(frame).value.rows|
    ensures !(REVIEW_ID in frame.columns) ==> Tally(frame).dupDropped == 0
  {
  }

  // ---------------------------------------------------------------------------
  // drop_duplicates keeps the first row of each id

  /** For each distinct key, in order of first appearance, the first element
      holding it: an independent description of `drop_duplicates(keep="first")`. */
  function FirstOf<T, K(==)>(xs: seq<T>, key: T -> K): seq<T>
  {
    var ids := Project(xs, key);
    var keys := Counter.Keys(ids);
    seq(|keys|, k requires 0 <= k < |keys| => xs[Counter.FirstIndex(ids, keys[k])])
  }

  /** Deduplication keeps exactly the first element of each key, in input order. */
  lemma {:induction false} DedupFirst<T, K>(xs: seq<T>, key: T -> K)
    ensures Dedup(xs, key) == FirstOf(xs, key)
  {
    if xs != [] {
      DedupFirst(xs[..|xs| - 1], key);
      FirstOfSnoc(xs, key);
    }
  }

  /** The first elements of a longer sequence: those of the shorter one, and the
      new last element when its key is new. */
  lemma FirstOfSnoc<T, K>(xs: seq<T>, key: T -> K)
    requires xs != []
    ensures var init := xs[..|xs| - 1];
      FirstOf(xs, key) == FirstOf(init, key) + (if key(xs[|xs| - 1]) in Project(init, key) then [] else [xs[|xs| - 1]])
  {
    var n := |xs|;
    var init := xs[..n - 1];
    var ids := Project(xs, key);
    var initIds := Project(init, key);
    assert initIds == ids[..n - 1];
    Counter.KeysSnoc(ids);
    FirstOfPrefix(xs, key);
    if ids[n - 1] !in initIds {
      Counter.FirstIndexUnique(ids, ids[n - 1], n - 1);
    }
  }

  /** The first elements of the keys already seen stay where they were. */
  lemma FirstOfPrefix<T, K>(xs: seq<T>, key: T -> K)
    requires xs != []
    ensures var g := FirstOf(xs[..|xs| - 1], key);
      |g| <= |FirstOf(xs, key)| && forall k :: 0 <= k < |g| ==> FirstOf(xs, key)[k] == g[k]
  {
    var n := |xs|;
    var init := xs[..n - 1];
    var ids := Project(xs, key);
    var initIds := Project(init, key);
    assert initIds == ids[..n - 1];
    Counter.KeysSnoc(ids);
    var u := Counter.Keys(initIds);
    var f := FirstOf(xs, key);
    var g := FirstOf(init, key);
    forall k | 0 <= k < |u| ensures f[k] == g[k] {
      var v := u[k];
      Counter.FirstIndexPrefix(ids, n - 1, v);
    }
  }

  /** The keys of the first elements are the distinct keys, in order of first
      appearance. */
  lemma FirstOfKeys<T, K>(xs: seq<T>, key: T -> K)
    ensures Project(FirstOf(xs, key), key) == Counter.Keys(Project(xs, key))
  {
  }

  /** Deduplication keeps elements in their input order. */
  lemma {:induction false} DedupSubseq<T, K>(xs: seq<T>, key: T -> K)
    ensures Subseq(Dedup(xs, key), xs)
  {
    if xs != [] {
      var n := |xs|;
      var init := xs[..n - 1];
      DedupSubseq(init, key);
      var isNew := key(xs[n - 1]) !in Project(init, key);
      assert Dedup(xs, key) == Dedup(init, key) + (if isNew then [xs[n - 1]] else []);
      SubseqSnoc(Dedup(init, key), init, xs[n - 1], isNew);
      assert init + [xs[n - 1]] == xs;
    }
  }

  /** Elements whose keys are already distinct are all kept. */
  lemma {:induction false} DedupDistinct<T, K>(xs: seq<T>, key: T -> K)
    requires Distinct(Project(xs, key))
    ensures Dedup(xs, key) == xs
  {
    if xs != [] {
      var n := |xs|;
      var init := xs[..n - 1];
      var ids := Project(xs, key);
      assert Project(init, key) == ids[..n - 1];
      DedupDistinct(init, key);
      assert ids[n - 1] !in ids[..n - 1];
      assert init + [xs[n - 1]] == xs;
    }
  }

  // ---------------------------------------------------------------------------
  // What clean produces

  /** A row as `clean` leaves it: every required column has a value except that a
      review can be missing, and a review that is present is a non-empty string
      with single interior spaces and none at either end. */
  predicate CleanRow(row: Row) {
    HasRequired(row)
    && !IsNull(row["rating"]) && !IsNull(row["date"]) && !IsNull(row["bank"]) && !IsNull(row["source"])
    && (row[REVIEW].Null? || (row[REVIEW].Str? && row[REVIEW].s != [] && Normalized(row[REVIEW].s)))
  }

  /** A row both filters let through. */
  predicate Survives(row: Row) {
    Complete(row) && NotBlank(row)
  }

  /** The null and blank filters keep exactly the complete, non-blank rows, in order,
      each as many times as the input has it. */
  lemma SurvivorsSpec(frame: Frame)
    requires frame.Valid()
    ensures Survivors(frame) == Filter(frame.rows, Survives)
    ensures Subseq(Survivors(frame), frame.rows)
    ensures forall row :: row in Survivors(frame) <==> row in frame.rows && Survives(row)
    ensures forall row :: Count(Survivors(frame), row) == if Survives(row) then Count(frame.rows, row) else 0
  {
    FilterFilter(frame.rows, Complete, NotBlank, Survives);
    FilterSpec(frame.rows, Survives);
    forall row ensures Count(Survivors(frame), row) == if Survives(row) then Count(frame.rows, row) else 0 {
      FilterCount(frame.rows, Survives, row);
    }
  }

  /** The rows `clean` keeps: without a reviewId column, every surviving row; with
      one, the first surviving row of each id, so that the kept ids are the distinct
      surviving ids. Either way they are complete, non-blank input rows, in input
      order. */
  lemma KeptSpec(frame: Frame)
    requires frame.Valid()
    ensures REVIEW_ID !in frame.columns ==> Kept(frame) == Survivors(frame)
    ensures REVIEW_ID in frame.columns ==> Kept(frame) == FirstOf(Survivors(frame), IdOf)
    ensures REVIEW_ID in frame.columns ==>
              Project(Kept(frame), IdOf) == Counter.Keys(Project(Survivors(frame), IdOf))
    ensures Subseq(Kept(frame), frame.rows)
    ensures forall i :: 0 <= i < |Kept(frame)| ==>
              Kept(frame)[i] in frame.rows && Complete(Kept(frame)[i]) && NotBlank(Kept(frame)[i])
  {
    SurvivorsSpec(frame);
    var rows := Survivors(frame);
    if REVIEW_ID in frame.columns {
      DedupSubseq(rows, IdOf);
      DedupFirst(rows, IdOf);
      FirstOfKeys(rows, IdOf);
    } else {
      SubseqRefl(rows);
    }
    SubseqTrans(Kept(frame), rows, frame.rows);
    SubseqMembers(Kept(frame), rows);
    SubseqMembers(Kept(frame), frame.rows);
    forall i | 0 <= i < |Kept(frame)|
      ensures Kept(frame)[i] in frame.rows && Complete(Kept(frame)[i]) && NotBlank(Kept(frame)[i])
    {
      assert Kept(frame)[i] in Kept(frame);
    }
  }

  /** A complete, non-blank row normalises to a clean row that differs from it only
      in the review, whose words are unchanged; a non-string review becomes missing. */
  lemma NormalizeReviewSpec(row: Row)
    requires Complete(row) && NotBlank(row)
    ensures CleanRow(NormalizeReview(row))
    ensures NormalizeReview(row).Keys == row.Keys
    ensures forall c :: c in row && c != REVIEW ==> NormalizeReview(row)[c] == row[c]
    ensures NormalizeReview(row)[REVIEW].Null? <==> !row[REVIEW].Str?
    ensures row[REVIEW].Str? ==> Visible(NormalizeReview(row)[REVIEW].s) == Visible(row[REVIEW].s)
    ensures row[REVIEW].Str? ==> Words(NormalizeReview(row)[REVIEW].s) == Words(row[REVIEW].s)
  {
    if row[REVIEW].Str? {
      SqueezeSpec(row[REVIEW].s);
    }
  }

  /** `clean` on a loaded frame with the required columns and hashable ids: the same
      columns; one output row per kept input row, in input order; every output row
      clean; nothing but the review changed, and the review only in its whitespace
      (or to missing, when it was not a string). */
  lemma CleanOutput(frame: Frame)
    requires frame.Valid() && CleanFrame(frame).Ok?
    ensures var out := CleanFrame(frame).value;
      out.Valid() && out.columns == frame.columns && |out.rows| == |Kept(frame)|
    ensures Subseq(Kept(frame), frame.rows)
    ensures var out := CleanFrame(frame).value;
      forall i :: 0 <= i < |out.rows| ==>
        && CleanRow(out.rows[i])
        && (forall c :: c in out.rows[i] && c != REVIEW ==> out.rows[i][c] == Kept(frame)[i][c])
        && (out.rows[i][REVIEW].Null? <==> !Kept(frame)[i][REVIEW].Str?)
        && (out.rows[i][REVIEW].Str? ==> Visible(out.rows[i][REVIEW].s) == Visible(Kept(frame)[i][REVIEW].s))
        && (out.rows[i][REVIEW].Str? ==> Words(out.rows[i][REVIEW].s) == Words(Kept(frame)[i][REVIEW].s))
  {
    KeptSpec(frame);
    var out := CleanFrame(frame).value;
    forall i | 0 <= i < |out.rows|
      ensures out.rows[i].Keys == frame.columns
      ensures CleanRow(out.rows[i])
      ensures forall c :: c in out.rows[i] && c != REVIEW ==> out.rows[i][c] == Kept(frame)[i][c]
      ensures out.rows[i][REVIEW].Null? <==> !Kept(frame)[i][REVIEW].Str?
      ensures out.rows[i][REVIEW].Str? ==> Visible(out.rows[i][REVIEW].s) == Visible(Kept(frame)[i][REVIEW].s)
      ensures out.rows[i][REVIEW].Str? ==> Words(out.rows[i][REVIEW].s) == Words(Kept(frame)[i][REVIEW].s)
    {
      NormalizeReviewSpec(Kept(frame)[i]);
    }
  }

  /** With a reviewId column the kept rows are the first row of each id among the
      complete, non-blank rows, so the output ids are pairwise distinct and every
      surviving id is still there; without it nothing is deduplicated. */
  lemma CleanIds(frame: Frame)
    requires frame.Valid() && CleanFrame(frame).Ok?
    ensures REVIEW_ID in frame.columns ==>
              Project(CleanFrame(frame).value.rows, IdOf) == Counter.Keys(Project(Survivors(frame), IdOf))
    ensures REVIEW_ID in frame.columns ==> Distinct(Project(CleanFrame(frame).value.rows, IdOf))
  {
    if REVIEW_ID in frame.columns {
      KeptSpec(frame);
      var out := CleanFrame(frame).value;
      assert Project(out.rows, IdOf) == Project(Kept(frame), IdOf);
    }
  }

  /** Every review is text or missing, as reading a CSV gives. */
  predicate TextReviews(rows: seq<Row>) {
    forall i :: 0 <= i < |rows| ==> REVIEW in rows[i] ==> !rows[i][REVIEW].Num? && !rows[i][REVIEW].Items?
  }

  /** Complete rows taken from a table of text reviews have a text review. */
  lemma CompleteTextReviews(kept: seq<Row>, rows: seq<Row>)
    requires TextReviews(rows)
    requires forall i :: 0 <= i < |kept| ==> kept[i] in rows && Complete(kept[i])
    ensures forall i :: 0 <= i < |kept| ==> REVIEW in kept[i] && kept[i][REVIEW].Str?
  {
    forall i | 0 <= i < |kept| ensures REVIEW in kept[i] && kept[i][REVIEW].Str? {
      var j :| 0 <= j < |rows| && rows[j] == kept[i];
    }
  }

  /** When every review is text or missing, no kept review is lost: every output
      review is a string. */
  lemma CleanKeepsTextReviews(frame: Frame)
    requires frame.Valid() && CleanFrame(frame).Ok? && TextReviews(frame.rows)
    ensures forall i :: 0 <= i < |CleanFrame(frame).value.rows| ==> CleanFrame(frame).value.rows[i][REVIEW].Str?
  {
    KeptSpec(frame);
    CompleteTextReviews(Kept(frame), frame.rows);
  }

  // ---------------------------------------------------------------------------
  // Cleaning twice

  /** A non-empty normalised text is not blank and is its own normalisation. */
  lemma CleanTextFixed(t: string)
    requires t != [] && Normalized(t)
    ensures Strip(t) != [] && Squeeze(t) == t
  {
    SqueezeFixedPoint(t);
    assert !IsSpace(t[0]);
  }

  lemma ReviewUpdateSame(row: Row)
    requires REVIEW in row && row[REVIEW].Str?
    ensures row[REVIEW := Str(row[REVIEW].s)] == row
  {
  }

  /** A clean row with a text review passes every step of `clean` unchanged. */
  lemma CleanRowFixed(row: Row)
    requires REVIEW in row && CleanRow(row) && row[REVIEW].Str?
    ensures Complete(row) && NotBlank(row) && NormalizeReview(row) == row
  {
    CleanTextFixed(row[REVIEW].s);
    ReviewUpdateSame(row);
  }

  /** Clean rows with text reviews pass every step of `clean` unchanged. */
  lemma CleanRowsFixed(rows: seq<Row>)
    requires forall i :: 0 <= i < |rows| ==> REVIEW in rows[i] && CleanRow(rows[i]) && rows[i][REVIEW].Str?
    ensures Filter(rows, Complete) == rows
    ensures Filter(rows, NotBlank) == rows
    ensures NormalizeReviews(rows) == rows
  {
    CleanRowsComplete(rows);
    CleanRowsNotBlank(rows);
    CleanRowsNormalized(rows);
  }

  lemma CleanRowsComplete(rows: seq<Row>)
    requires forall i :: 0 <= i < |rows| ==> REVIEW in rows[i] && CleanRow(rows[i]) && rows[i][REVIEW].Str?
    ensures Filter(rows, Complete) == rows
  {
    forall i | 0 <= i < |rows| ensures Complete(rows[i]) {
      CleanRowFixed(rows[i]);
    }
    FilterAll(rows, Complete);
  }

  lemma CleanRowsNotBlank(rows: seq<Row>)
    requires forall i :: 0 <= i < |rows| ==> REVIEW in rows[i] && CleanRow(rows[i]) && rows[i][REVIEW].Str?
    ensures Filter(rows, NotBlank) == rows
  {
    forall i | 0 <= i < |rows| ensures NotBlank(rows[i]) {
      CleanRowFixed(rows[i]);
    }
    FilterAll(rows, NotBlank);
  }

  lemma CleanRowsNormalized(rows: seq<Row>)
    requires forall i :: 0 <= i < |rows| ==> REVIEW in rows[i] && CleanRow(rows[i]) && rows[i][REVIEW].Str?
    ensures NormalizeReviews(rows) == rows
  {
    forall i | 0 <= i < |rows| ensures NormalizeReview(rows[i]) == rows[i] {
      CleanRowFixed(rows[i]);
    }
  }

  /** The ids `clean` leaves are distinct and none of them is a list. */
  lemma CleanIdsHashable(frame: Frame)
    requires frame.Valid() && CleanFrame(frame).Ok? && REVIEW_ID in frame.columns
    ensures !UnhashableIds(CleanFrame(frame).value.rows)
    ensures Distinct(Project(CleanFrame(frame).value.rows, IdOf))
  {
    var out := CleanFrame(frame).value;
    CleanIds(frame);
    var ids := Project(Survivors(frame), IdOf);
    var keys := Counter.Keys(ids);
    assert !UnhashableIds(Survivors(frame));
    forall i | 0 <= i < |out.rows| ensures !IdOf(out.rows[i]).Items? {
      assert IdOf(out.rows[i]) == keys[i];
      var j :| 0 <= j < |ids| && ids[j] == keys[i];
    }
  }

  /** Cleaning a table a second time drops nothing and changes nothing, when its
      reviews were text to begin with (a non-string review is turned into a missing
      value by the first pass and dropped by the second). */
  lemma CleanIdempotent(frame: Frame)
    requires frame.Valid() && CleanFrame(frame).Ok? && TextReviews(frame.rows)
    ensures var out := CleanFrame(frame).value;
      out.Valid() && CleanFrame(out) == Ok(out)
    ensures var out := CleanFrame(frame).value;
      Tally(out) == Stats(|out.rows|, 0, 0, 0, |out.rows|)
  {
    var out := CleanFrame(frame).value;
    CleanSecondPass(frame);
    assert Survivors(out) == out.rows;
    if REVIEW_ID in frame.columns {
      CleanIdsHashable(frame);
      DedupDistinct(out.rows, IdOf);
    }
  }

  /** The output of `clean` consists of clean rows with text reviews. */
  lemma CleanSecondPass(frame: Frame)
    requires frame.Valid() && CleanFrame(frame).Ok? && TextReviews(frame.rows)
    ensures var out := CleanFrame(frame).value;
      out.Valid() && out.columns == frame.columns
      && Filter(out.rows, Complete) == out.rows
      && Filter(out.rows, NotBlank) == out.rows
      && NormalizeReviews(out.rows) == out.rows
  {
    CleanRowsClean(frame);
    CleanKeepsTextReviews(frame);
    CleanRowsFixed(CleanFrame(frame).value.rows);
  }

  lemma CleanRowsClean(frame: Frame)
    requires frame.Valid() && CleanFrame(frame).Ok?
    ensures var out := CleanFrame(frame).value;
      out.Valid() && out.columns == frame.columns
      && forall i :: 0 <= i < |out.rows| ==> CleanRow(out.rows[i])
  {
    CleanOutput(frame);
  }
}
