/**
 * Rule-based theme tagging (`ThemeExtractor`) and key-phrase ranking
 * (`KeyPhraseExtractor`). spaCy's noun chunker is a parameter: the chunk texts of
 * a document are given as a sequence of strings. The stopword set is a parameter.
 */
module Themes {
  import opened Table
  import opened Strings
  import opened Seqs
  import Counter

  /** The default tag when no theme matches. */
  const OTHER: string := "Other"

  /** One entry of a bank's seed dictionary: a theme and its keywords. */
  datatype Theme = Theme(name: string, keywords: seq<string>)

  /** `seed_map`: for each bank, its themes in dictionary order. */
  type SeedMap = map<string, seq<Theme>>

  function Names(themes: seq<Theme>): (r: seq<string>)
    ensures |r| == |themes| && forall i :: 0 <= i < |themes| ==> r[i] == themes[i].name
  {
    if themes == [] then [] else Names(themes[..|themes| - 1]) + [themes[|themes| - 1].name]
  }

  /** `seed_map.get(bank, {})`. */
  function BankSeeds(seedMap: SeedMap, bank: string): seq<Theme> {
    if bank in seedMap then seedMap[bank] else []
  }

  /** Some keyword of the theme is a substring of the (lowercased) text. */
  predicate Matches(theme: Theme, low: string) {
    exists k :: 0 <= k < |theme.keywords| && Occurs(theme.keywords[k], low)
  }

  /** The names of the matching themes, in dictionary order. */
  function Matched(themes: seq<Theme>, low: string): seq<string> {
    if themes == [] then []
    else
      var last := themes[|themes| - 1];
      Matched(themes[..|themes| - 1], low) + (if Matches(last, low) then [last.name] else [])
  }

  /** What `tag_review(text, bank)` returns. */
  function Tags(seedMap: SeedMap, text: string, bank: string): seq<string> {
    var found := Matched(BankSeeds(seedMap, bank), Lower(text));
    if found == [] then [OTHER] else found
  }

  /** `tag_review`: for each theme of the bank, scan its keywords and stop at the
      first one found in the lowercased text. */
  method TagReview(seedMap: SeedMap, text: string, bank: string) returns (themes: seq<string>)
    ensures themes == Tags(seedMap, text, bank)
  {
    var low := Lower(text);
    themes := [];
    var seeds := BankSeeds(seedMap, bank);
    for i := 0 to |seeds|
      invariant themes == Matched(seeds[..i], low)
    {
      var theme := seeds[i];
      assert seeds[..i + 1][..i] == seeds[..i];
      var k := 0;
      while k < |theme.keywords|
        invariant 0 <= k <= |theme.keywords|
        invariant forall j :: 0 <= j < k ==> !Occurs(theme.keywords[j], low)
      {
        if Occurs(theme.keywords[k], low) {
          themes := themes + [theme.name];
          break;
        }
        k := k + 1;
      }
    }
    assert seeds[..|seeds|] == seeds;
    if themes == [] {
      themes := [OTHER];
    }
  }

  // ---------------------------------------------------------------------------
  // Properties of tag_review

  lemma {:induction false} MatchedMembers(themes: seq<Theme>, low: string)
    ensures forall name :: name in Matched(themes, low) <==>
              exists i :: 0 <= i < |themes| && themes[i].name == name && Matches(themes[i], low)
  {
    if themes != [] {
      var init := themes[..|themes| - 1];
      MatchedMembers(init, low);
      forall name ensures name in Matched(themes, low) <==>
          exists i :: 0 <= i < |themes| && themes[i].name == name && Matches(themes[i], low)
      {
        if name in Matched(init, low) {
          var i :| 0 <= i < |init| && init[i].name == name && Matches(init[i], low);
          assert themes[i] == init[i];
        }
        if exists i :: 0 <= i < |themes| && themes[i].name == name && Matches(themes[i], low) {
          var i :| 0 <= i < |themes| && themes[i].name == name && Matches(themes[i], low);
          if i < |init| {
            assert themes[i] == init[i];
          }
        }
      }
    }
  }

  lemma {:induction false} MatchedSubseq(themes: seq<Theme>, low: string)
    ensures Subseq(Matched(themes, low), Names(themes))
  {
    if themes != [] {
      var n := |themes| - 1;
      MatchedSubseq(themes[..n], low);
      SubseqSnoc(Matched(themes[..n], low), Names(themes[..n]), themes[n].name, Matches(themes[n], low));
      assert Names(themes) == Names(themes[..n]) + [themes[n].name];
    }
  }

  lemma {:induction false} MatchedAppend(a: seq<Theme>, b: seq<Theme>, low: string)
    ensures Matched(a + b, low) == Matched(a, low) + Matched(b, low)
  {
    if b == [] {
      assert a + b == a;
    } else {
      var n := |b| - 1;
      MatchedAppend(a, b[..n], low);
      assert (a + b)[..|a + b| - 1] == a + b[..n];
    }
  }

  /** No theme matches exactly when nothing is found. */
  lemma {:induction false} MatchedEmpty(themes: seq<Theme>, low: string)
    ensures Matched(themes, low) == [] <==> forall i :: 0 <= i < |themes| ==> !Matches(themes[i], low)
  {
    if themes != [] {
      var n := |themes| - 1;
      MatchedEmpty(themes[..n], low);
      if Matched(themes, low) == [] {
        forall i | 0 <= i < |themes| ensures !Matches(themes[i], low) {
          if i < n {
            assert themes[i] == themes[..n][i];
          }
        }
      }
    }
  }

  /** `tag_review` never returns an empty list; a bank missing from the seed map
      gets ["Other"]. */
  lemma TagsDefault(seedMap: SeedMap, text: string, bank: string)
    ensures Tags(seedMap, text, bank) != []
    ensures bank !in seedMap ==> Tags(seedMap, text, bank) == [OTHER]
  {
  }

  /** A theme is reported exactly when one of its keywords is a substring of the
      lowercased text; the result is ["Other"] exactly when no theme matches (no
      theme being itself called "Other"). */
  lemma TagsMembers(seedMap: SeedMap, text: string, bank: string)
    requires forall i :: 0 <= i < |BankSeeds(seedMap, bank)| ==> BankSeeds(seedMap, bank)[i].name != OTHER
    ensures forall name :: name != OTHER ==>
              (name in Tags(seedMap, text, bank) <==>
               exists i :: 0 <= i < |BankSeeds(seedMap, bank)| && BankSeeds(seedMap, bank)[i].name == name
                                                        && Matches(BankSeeds(seedMap, bank)[i], Lower(text)))
    ensures Tags(seedMap, text, bank) == [OTHER] <==>
              forall i :: 0 <= i < |BankSeeds(seedMap, bank)| ==> !Matches(BankSeeds(seedMap, bank)[i], Lower(text))
  {
    var seeds := BankSeeds(seedMap, bank);
    var low := Lower(text);
    MatchedMembers(seeds, low);
    MatchedEmpty(seeds, low);
    assert OTHER !in Matched(seeds, low);
    assert Matched(seeds, low) != [OTHER];
    if Tags(seedMap, text, bank) != [OTHER] {
      assert Matched(seeds, low) != [];
      var name := Matched(seeds, low)[0];
      assert name in Matched(seeds, low);
      var i :| 0 <= i < |seeds| && seeds[i].name == name && Matches(seeds[i], low);
      assert seeds[i] in seeds;
    }
  }

  /** Themes come out in the seed dictionary's order, each at most once. */
  lemma TagsOrder(seedMap: SeedMap, text: string, bank: string)
    requires Distinct(Names(BankSeeds(seedMap, bank)))
    ensures Tags(seedMap, text, bank) == [OTHER] ||
            Subseq(Tags(seedMap, text, bank), Names(BankSeeds(seedMap, bank)))
    ensures Distinct(Tags(seedMap, text, bank))
  {
    var seeds := BankSeeds(seedMap, bank);
    MatchedSubseq(seeds, Lower(text));
    SubseqDistinct(Matched(seeds, Lower(text)), Names(seeds));
  }

  /** The seed map of the pipeline script, the same for each bank. */
  function PipelineSeeds(): seq<Theme> {
    [ Theme("Concise Feedback", ["good", "bad", "fine", "ok"]),
      Theme("Account Access", ["login", "otp", "password", "pin"]),
      Theme("Connection Issues", ["network", "offline", "timeout", "disconnect"]),
      Theme("Usability", ["hard to use", "navigate", "layout", "ux"]),
      Theme("Performance", ["slow", "lag", "speed", "delay", "fast"]),
      Theme("Functionality", ["feature", "cannot", "unable", "doesn't", "option"]),
      Theme("Feature Requests", ["should have", "wish", "add", "feature request"]),
      Theme("Security & Trust", ["secure", "fraud", "trust", "encryption", "leak"]),
      Theme("Notifications", ["alert", "notification", "push", "reminder", "email"]),
      Theme("Stability & Bugs", ["crash", "freeze", "error", "bug", "exception"]) ]
  }

  function PipelineSeedMap(): SeedMap {
    map["CBE" := PipelineSeeds(), "BOA" := PipelineSeeds(), "Dashen" := PipelineSeeds()]
  }

  /** A keyword longer than the text, or whose first two letters never appear
      side by side in it, does not occur in it. */
  lemma NotOccurs(kw: string, low: string)
    requires |kw| > |low| || (|kw| >= 2 && forall j :: 0 <= j < |low| - 1 ==> low[j] != kw[0] || low[j + 1] != kw[1])
    ensures !Occurs(kw, low)
  {
    forall j | 0 <= j <= |low| ensures !(kw <= low[j..]) {
      if |kw| <= |low| - j {
        assert low[j..][0] == low[j] && low[j..][1] == low[j + 1];
      }
    }
  }

  /** A theme none of whose keywords can occur in the text, by `NotOccurs`, does not match. */
  lemma Misses(t: Theme, low: string)
    requires forall k :: 0 <= k < |t.keywords| ==>
               |t.keywords[k]| > |low| ||
               (|t.keywords[k]| >= 2 && forall j :: 0 <= j < |low| - 1 ==> low[j] != t.keywords[k][0] || low[j + 1] != t.keywords[k][1])
    ensures !Matches(t, low)
  {
    forall k | 0 <= k < |t.keywords| ensures !Occurs(t.keywords[k], low) {
      NotOccurs(t.keywords[k], low);
    }
  }

  /** With the pipeline's seed map an empty review is tagged "Other". */
  lemma PipelineEmptyReview()
    ensures Tags(PipelineSeedMap(), "", "CBE") == [OTHER]
  {
    var seeds := PipelineSeeds();
    forall t | t in seeds ensures !Matches(t, Lower("")) {
      forall k | 0 <= k < |t.keywords| ensures !Occurs(t.keywords[k], Lower("")) {
        NotOccurs(t.keywords[k], Lower(""));
      }
    }
    TagsMembers(PipelineSeedMap(), "", "CBE");
  }

  /** Of the pipeline's themes only Performance (through "slow") matches "slow". */
  lemma SlowMatches()
    ensures Matches(PipelineSeeds()[4], "slow")
    ensures forall i :: 0 <= i < |PipelineSeeds()| && i != 4 ==> !Matches(PipelineSeeds()[i], "slow")
  {
    var seeds := PipelineSeeds();
    assert Occurs(seeds[4].keywords[0], "slow") by {
      assert seeds[4].keywords[0] <= "slow"[0..];
    }
    SlowMissesFirst();
    SlowMissesMiddle();
    SlowMissesLast();
  }

  lemma SlowMissesFirst()
    ensures forall i :: 0 <= i < 4 ==> !Matches(PipelineSeeds()[i], "slow")
  {
    var seeds := PipelineSeeds();
    Misses(seeds[0], "slow");
    Misses(seeds[1], "slow");
    Misses(seeds[2], "slow");
    Misses(seeds[3], "slow");
  }

  lemma SlowMissesMiddle()
    ensures forall i :: 5 <= i < 8 ==> !Matches(PipelineSeeds()[i], "slow")
  {
    var seeds := PipelineSeeds();
    Misses(seeds[5], "slow");
    Misses(seeds[6], "slow");
    Misses(seeds[7], "slow");
  }

  lemma SlowMissesLast()
    ensures forall i :: 8 <= i < 10 ==> !Matches(PipelineSeeds()[i], "slow")
  {
    var seeds := PipelineSeeds();
    Misses(seeds[8], "slow");
    Misses(seeds[9], "slow");
  }

  /** Matching is by substring after lowercasing: "Slow" is tagged Performance,
      and nothing else. */
  lemma PipelineSlowReview()
    ensures Tags(PipelineSeedMap(), "Slow", "BOA") == ["Performance"]
  {
    var seeds := PipelineSeeds();
    assert Lower("Slow") == "slow";
    SlowMatches();
    var before, after := seeds[..4], seeds[5..];
    MatchedEmpty(before, "slow");
    MatchedEmpty(after, "slow");
    assert seeds == before + [seeds[4]] + after;
    MatchedAppend(before + [seeds[4]], after, "slow");
    MatchedAppend(before, [seeds[4]], "slow");
    assert Matched([seeds[4]], "slow") == ["Performance"];
  }

  // ---------------------------------------------------------------------------
  // tag_corpus

  /** The themes of one row, as `tag_corpus`'s row function computes them:
      `row[text_col].lower()` needs a string, and `seed_map.get(row[bank_col], {})`
      fails on an unhashable list and finds no themes for any other value that is
      not a string (the seed map's keys are bank names), which gives ["Other"]. */
  function TagRow(row: Row, textCol: string, bankCol: string, seedMap: SeedMap): Result<seq<string>> {
    if textCol !in row then Err(KeyError(textCol))
    else if bankCol !in row then Err(KeyError(bankCol))
    else match row[textCol]
      case Str(text) =>
        (match row[bankCol]
         case Str(bank) => Ok(Tags(seedMap, text, bank))
         case Items(_) => Err(TypeError("unhashable type: 'list'"))
         case _ => Ok([OTHER]))
      case _ => Err(AttributeError("object has no attribute 'lower'"))
  }

  function StrCells(names: seq<string>): (cells: seq<Cell>)
    ensures |cells| == |names| && forall i :: 0 <= i < |names| ==> cells[i] == Str(names[i])
  {
    seq(|names|, i requires 0 <= i < |names| => Str(names[i]))
  }

  /** A row with its "themes" column set. */
  function TaggedRow(row: Row, textCol: string, bankCol: string, seedMap: SeedMap): Result<Row> {
    match TagRow(row, textCol, bankCol, seedMap)
    case Err(e) => Err(e)
    case Ok(names) => Ok(row["themes" := Items(StrCells(names))])
  }

  /** `tag_corpus`: a copy of the frame with a "themes" column, or the first error.
      On a frame without rows the row-wise apply hands back a copy of the whole frame
      (its trial call on a row of missing values fails and is swallowed), and that
      copy can only be assigned to the one column "themes" when it has exactly one
      column. */
  function TagCorpus(df: Frame, textCol: string, bankCol: string, seedMap: SeedMap): Result<Frame> {
    if df.rows == [] then
      if |df.columns| == 1 then Ok(Frame(df.columns + {"themes"}, []))
      else Err(ValueError("Cannot set a DataFrame with multiple columns to the single column themes"))
    else
      match Traverse(df.rows, row => TaggedRow(row, textCol, bankCol, seedMap))
      case Err(e) => Err(e)
      case Ok(rows) => Ok(Frame(df.columns + {"themes"}, rows))
  }

  /** `tag_corpus` on a frame without rows succeeds exactly when the frame has one
      column. With rows, it fails on a missing text column, then on a missing bank
      column, and otherwise exactly when some text is not a string or some bank is
      a list; on success it keeps the rows in order and changes nothing but
      "themes", which holds `tag_review(text, bank)` for a string bank and
      ["Other"] for any other bank. */
  lemma TagCorpusSpec(df: Frame, textCol: string, bankCol: string, seedMap: SeedMap)
    requires df.Valid()
    ensures df.rows == [] ==> (TagCorpus(df, textCol, bankCol, seedMap).Ok? <==> |df.columns| == 1)
    ensures df.rows == [] ==> TagCorpus(df, textCol, bankCol, seedMap).Err? ==>
              TagCorpus(df, textCol, bankCol, seedMap).error.ValueError?
    ensures df.rows != [] && textCol !in df.columns ==> TagCorpus(df, textCol, bankCol, seedMap) == Err(KeyError(textCol))
    ensures df.rows != [] && textCol in df.columns && bankCol !in df.columns ==>
              TagCorpus(df, textCol, bankCol, seedMap) == Err(KeyError(bankCol))
    ensures df.rows != [] && textCol in df.columns && bankCol in df.columns ==>
              (TagCorpus(df, textCol, bankCol, seedMap).Err? <==>
               exists i :: 0 <= i < |df.rows| && (!df.rows[i][textCol].Str? || df.rows[i][bankCol].Items?))
    ensures TagCorpus(df, textCol, bankCol, seedMap).Ok? ==>
              var out := TagCorpus(df, textCol, bankCol, seedMap).value;
              && out.Valid()
              && out.columns == df.columns + {"themes"}
              && |out.rows| == |df.rows|
              && (df.rows != [] ==> bankCol in df.columns)
              && forall i :: 0 <= i < |df.rows| ==>
                   && df.rows[i][textCol].Str?
                   && (forall c :: c in df.columns && c != "themes" ==> out.rows[i][c] == df.rows[i][c])
                   && (df.rows[i][bankCol].Str? ==>
                         out.rows[i]["themes"] == Items(StrCells(Tags(seedMap, df.rows[i][textCol].s,
                                                                       df.rows[i][bankCol].s))))
                   && (!df.rows[i][bankCol].Str? ==> out.rows[i]["themes"] == Items([Str(OTHER)]))
  {
    if df.rows != [] {
      TagRowsSpec(df, textCol, bankCol, seedMap);
    }
  }

  /** The row-wise part of `tag_corpus`, on a frame with rows. */
  lemma TagRowsSpec(df: Frame, textCol: string, bankCol: string, seedMap: SeedMap)
    requires df.Valid() && df.rows != []
    ensures textCol !in df.columns ==> TagCorpus(df, textCol, bankCol, seedMap) == Err(KeyError(textCol))
    ensures textCol in df.columns && bankCol !in df.columns ==>
              TagCorpus(df, textCol, bankCol, seedMap) == Err(KeyError(bankCol))
    ensures textCol in df.columns && bankCol in df.columns ==>
              (TagCorpus(df, textCol, bankCol, seedMap).Err? <==>
               exists i :: 0 <= i < |df.rows| && (!df.rows[i][textCol].Str? || df.rows[i][bankCol].Items?))
    ensures TagCorpus(df, textCol, bankCol, seedMap).Ok? ==>
              var out := TagCorpus(df, textCol, bankCol, seedMap).value;
              && out.Valid()
              && out.columns == df.columns + {"themes"}
              && |out.rows| == |df.rows|
              && bankCol in df.columns
              && forall i :: 0 <= i < |df.rows| ==>
                   && df.rows[i][textCol].Str?
                   && (forall c :: c in df.columns && c != "themes" ==> out.rows[i][c] == df.rows[i][c])
                   && (df.rows[i][bankCol].Str? ==>
                         out.rows[i]["themes"] == Items(StrCells(Tags(seedMap, df.rows[i][textCol].s,
                                                                       df.rows[i][bankCol].s))))
                   && (!df.rows[i][bankCol].Str? ==> out.rows[i]["themes"] == Items([Str(OTHER)]))
  {
    var f := row => TaggedRow(row, textCol, bankCol, seedMap);
    TraverseSpec(df.rows, f);
    if textCol !in df.columns {
      assert df.rows[0].Keys == df.columns;
      assert df.rows[..1][..0] == [];
      assert Traverse(df.rows[..1], f) == Err(KeyError(textCol));
      TraversePrefixError(df.rows, 1, f);
    }
    if textCol in df.columns && bankCol in df.columns {
      forall i | 0 <= i < |df.rows|
        ensures f(df.rows[i]).Err? <==> !df.rows[i][textCol].Str? || df.rows[i][bankCol].Items?
      {
        assert df.rows[i].Keys == df.columns;
      }
    }
    if textCol in df.columns && bankCol !in df.columns {
      assert df.rows[0].Keys == df.columns;
      assert df.rows[..1][..0] == [];
      assert Traverse(df.rows[..1], f) == Err(KeyError(bankCol));
      TraversePrefixError(df.rows, 1, f);
    }
    if TagCorpus(df, textCol, bankCol, seedMap).Ok? {
      assert df.rows[0].Keys == df.columns;
      forall i | 0 <= i < |df.rows| ensures df.rows[i][textCol].Str? {
        assert df.rows[i].Keys == df.columns;
      }
    }
  }

  // ---------------------------------------------------------------------------
  // KeyPhraseExtractor

  predicate IsPhraseChar(c: char) { 'a' <= c <= 'z' || '0' <= c <= '9' }

  /** `re.sub(r"[^a-z0-9\s]", " ", s)`. */
  function Scrub(s: string): (r: string)
    ensures |r| == |s|
    ensures forall i :: 0 <= i < |s| ==> r[i] == (if IsPhraseChar(s[i]) || IsSpace(s[i]) then s[i] else ' ')
  {
    seq(|s|, i requires 0 <= i < |s| => if IsPhraseChar(s[i]) || IsSpace(s[i]) then s[i] else ' ')
  }

  /** One noun chunk after lowercasing, stripping, scrubbing and whitespace collapse. */
  function CleanChunk(chunk: string): string {
    Squeeze(Scrub(Strip(Lower(chunk))))
  }

  /** `any(tok in stopwords for tok in tokens)`. */
  predicate AnyStopword(tokens: seq<string>, stopwords: set<string>) {
    tokens != [] && (tokens[0] in stopwords || AnyStopword(tokens[1..], stopwords))
  }

  /** `any` holds exactly when some token is a stopword. */
  lemma {:induction false} AnyStopwordSpec(tokens: seq<string>, stopwords: set<string>)
    ensures AnyStopword(tokens, stopwords) <==> exists k :: 0 <= k < |tokens| && tokens[k] in stopwords
  {
    if tokens != [] {
      AnyStopwordSpec(tokens[1..], stopwords);
      if exists k :: 0 <= k < |tokens| && tokens[k] in stopwords {
        var k :| 0 <= k < |tokens| && tokens[k] in stopwords;
        if k > 0 {
          assert tokens[1..][k - 1] in stopwords;
        }
      }
      if exists k :: 0 <= k < |tokens[1..]| && tokens[1..][k] in stopwords {
        var k :| 0 <= k < |tokens[1..]| && tokens[1..][k] in stopwords;
        assert tokens[k + 1] in stopwords;
      }
    }
  }

  /** The chunk survives: it is not empty and none of its tokens is a stopword. */
  predicate Keep(phrase: string, stopwords: set<string>) {
    phrase != [] && !AnyStopword(Words(phrase), stopwords)
  }

  /** The cleaned chunks that survive the filter, in order. */
  function KeptPhrases(cleaned: seq<string>, stopwords: set<string>): seq<string> {
    if cleaned == [] then []
    else
      var p := cleaned[|cleaned| - 1];
      KeptPhrases(cleaned[..|cleaned| - 1], stopwords) + (if Keep(p, stopwords) then [p] else [])
  }

  function CleanChunks(chunks: seq<string>): (r: seq<string>)
    ensures |r| == |chunks| && forall i :: 0 <= i < |chunks| ==> r[i] == CleanChunk(chunks[i])
  {
    seq(|chunks|, i requires 0 <= i < |chunks| => CleanChunk(chunks[i]))
  }

  /** The phrases `extract_phrases` returns for a document with the given chunks. */
  function Phrases(chunks: seq<string>, stopwords: set<string>): seq<string> {
    KeptPhrases(CleanChunks(chunks), stopwords)
  }

  /** One more chunk adds its cleaned text to the phrases when it survives. */
  lemma PhrasesStep(chunks: seq<string>, i: nat, stopwords: set<string>)
    requires i < |chunks|
    ensures var p := CleanChunk(chunks[i]);
      Phrases(chunks[..i + 1], stopwords) == Phrases(chunks[..i], stopwords) + (if Keep(p, stopwords) then [p] else [])
  {
    var c := CleanChunks(chunks[..i + 1]);
    assert c[..i] == CleanChunks(chunks[..i]);
  }

  /** The rewrites `extract_phrases` applies to one chunk's text. */
  method CleanOne(chunk: string) returns (phrase: string)
    ensures phrase == CleanChunk(chunk)
  {
    phrase := Strip(Lower(chunk));
    phrase := Scrub(phrase);
    phrase := Squeeze(phrase);
  }

  /** `extract_phrases` with the document's noun-chunk texts given. */
  method ExtractPhrases(chunks: seq<string>, stopwords: set<string>) returns (phrases: seq<string>)
    ensures phrases == Phrases(chunks, stopwords)
  {
    phrases := [];
    for i := 0 to |chunks|
      invariant phrases == Phrases(chunks[..i], stopwords)
    {
      var phrase := CleanOne(chunks[i]);
      var keep := Keep(phrase, stopwords);
      assert Phrases(chunks[..i + 1], stopwords) == phrases + (if keep then [phrase] else []) by {
        PhrasesStep(chunks, i, stopwords);
      }
      if !keep {
        continue;
      }
      phrases := phrases + [phrase];
    }
    assert chunks[..|chunks|] == chunks;
  }

  /** A cleaned chunk uses only a-z, 0-9 and single interior spaces. */
  lemma CleanChunkShape(chunk: string)
    ensures Normalized(CleanChunk(chunk))
    ensures forall c :: c in CleanChunk(chunk) ==> IsPhraseChar(c) || c == ' '
  {
    var s := Scrub(Strip(Lower(chunk)));
    SqueezeSpec(s);
    SqueezeChars(s);
  }

  /** A phrase is a kept chunk: well-formed, with only a-z, 0-9 and single interior
      spaces. */
  predicate WellFormedPhrase(p: string, stopwords: set<string>) {
    && p != []
    && (forall k :: 0 <= k < |Words(p)| ==> Words(p)[k] !in stopwords)
    && Normalized(p)
    && forall c :: c in p ==> IsPhraseChar(c) || c == ' '
  }

  lemma {:induction false} KeptPhrasesMembers(cleaned: seq<string>, stopwords: set<string>)
    ensures forall p :: p in KeptPhrases(cleaned, stopwords) ==> p in cleaned && Keep(p, stopwords)
  {
    if cleaned != [] {
      KeptPhrasesMembers(cleaned[..|cleaned| - 1], stopwords);
    }
  }

  /** Every phrase is non-empty, uses only a-z, 0-9 and single interior spaces, and
      has no stopword among its tokens. */
  lemma PhrasesShape(chunks: seq<string>, stopwords: set<string>)
    ensures forall p :: p in Phrases(chunks, stopwords) ==> WellFormedPhrase(p, stopwords)
  {
    var cleaned := CleanChunks(chunks);
    KeptPhrasesMembers(cleaned, stopwords);
    forall p | p in Phrases(chunks, stopwords) ensures WellFormedPhrase(p, stopwords) {
      var i :| 0 <= i < |cleaned| && cleaned[i] == p;
      CleanChunkShape(chunks[i]);
      AnyStopwordSpec(Words(p), stopwords);
    }
  }

  /** The phrases are the kept chunks in chunk order. */
  lemma {:induction false} KeptPhrasesOrder(cleaned: seq<string>, stopwords: set<string>)
    ensures Subseq(KeptPhrases(cleaned, stopwords), cleaned)
  {
    if cleaned != [] {
      var n := |cleaned| - 1;
      KeptPhrasesOrder(cleaned[..n], stopwords);
      SubseqSnoc(KeptPhrases(cleaned[..n], stopwords), cleaned[..n], cleaned[n], Keep(cleaned[n], stopwords));
      assert cleaned == cleaned[..n] + [cleaned[n]];
    }
  }

  /** `extract_phrases` keeps the order of the noun chunks. */
  lemma PhrasesOrder(chunks: seq<string>, stopwords: set<string>)
    ensures Subseq(Phrases(chunks, stopwords), CleanChunks(chunks))
  {
    KeptPhrasesOrder(CleanChunks(chunks), stopwords);
  }

  /** All phrases of a corpus, document by document. */
  function CorpusPhrases(docs: seq<seq<string>>, stopwords: set<string>): seq<string> {
    if docs == [] then []
    else CorpusPhrases(docs[..|docs| - 1], stopwords) + Phrases(docs[|docs| - 1], stopwords)
  }

  /** One more document adds its phrases at the end. */
  lemma CorpusStep(docs: seq<seq<string>>, i: nat, stopwords: set<string>)
    requires i < |docs|
    ensures CorpusPhrases(docs[..i + 1], stopwords) == CorpusPhrases(docs[..i], stopwords) + Phrases(docs[i], stopwords)
  {
    assert docs[..i + 1][..i] == docs[..i];
  }

  /** `extract_top_phrases`: `chunker` gives the noun-chunk texts of a document. */
  method ExtractTopPhrases(texts: seq<string>, chunker: string -> seq<string>, stopwords: set<string>, topN: int)
    returns (top: seq<string>)
    ensures top == Counter.MostCommon(CorpusPhrases(Chunked(texts, chunker), stopwords), topN)
  {
    ghost var docs := Chunked(texts, chunker);
    var all: seq<string> := [];
    for i := 0 to |texts|
      invariant all == CorpusPhrases(docs[..i], stopwords)
    {
      CorpusStep(docs, i, stopwords);
      var phrases := ExtractPhrases(chunker(texts[i]), stopwords);
      all := all + phrases;
    }
    assert docs[..|texts|] == docs;
    top := Counter.MostCommon(all, topN);
  }

  function Chunked(texts: seq<string>, chunker: string -> seq<string>): (docs: seq<seq<string>>)
    ensures |docs| == |texts| && forall i :: 0 <= i < |texts| ==> docs[i] == chunker(texts[i])
  {
    seq(|texts|, i requires 0 <= i < |texts| => chunker(texts[i]))
  }

  /** The top phrases are at most `top_n` distinct phrases of the corpus, in
      non-increasing frequency with ties in first-occurrence order, none ranked
      below a phrase left out; each is a well-formed phrase. */
  lemma TopPhrasesSpec(docs: seq<seq<string>>, stopwords: set<string>, topN: int)
    ensures var all := CorpusPhrases(docs, stopwords);
            var top := Counter.MostCommon(all, topN);
            && |top| <= (if topN <= 0 then 0 else topN)
            && Distinct(top)
            && Counter.Ranked(all, top)
            && (forall i, j :: 0 <= i < j < |top| ==> Count(all, top[i]) >= Count(all, top[j]))
            && (forall p, i :: p in all && p !in top && 0 <= i < |top| ==> Count(all, top[i]) >= Count(all, p))
            && forall p :: p in top ==> WellFormedPhrase(p, stopwords)
  {
    var all := CorpusPhrases(docs, stopwords);
    Counter.MostCommonSpec(all, topN);
    Counter.MostCommonTop(all, topN);
    CorpusPhrasesShape(docs, stopwords);
    var top := Counter.MostCommon(all, topN);
    forall p | p in top ensures p in all {
      var i :| 0 <= i < |top| && top[i] == p;
    }
  }

  lemma {:induction false} CorpusPhrasesShape(docs: seq<seq<string>>, stopwords: set<string>)
    ensures forall p :: p in CorpusPhrases(docs, stopwords) ==> WellFormedPhrase(p, stopwords)
  {
    if docs != [] {
      CorpusPhrasesShape(docs[..|docs| - 1], stopwords);
      PhrasesShape(docs[|docs| - 1], stopwords);
    }
  }
}
