/**
 * Query-time side of the pipeline (search_engine.py): the marketplace
 * search URL synthesised from a product description
 * (`generate_search_url`) and the assembly of result records from the
 * nearest-neighbour hits of one query (`search_image`). The index, the
 * path list and the description table are parameters; the hit lists
 * `D[0]`, `I[0]` are inputs standing for the index search.
 */
module SearchEngine {
  import opened Wrappers
  import opened Strings
  import opened PercentEncoding

  /** The `stop_words` of line 36. */
  const StopWords: set<string> :=
    {"a", "an", "the", "with", "for", "and", "or", "but", "in", "on", "at", "to", "of", "is", "are", "was", "were"}

  /** At most this many keywords go into a query (line 41). */
  const MaxKeywords: nat := 7

  /** The description of a path the table does not know (line 75). */
  const MissingDescription: string := "Description not available"

  const AmazonTemplate: string := "https://www.amazon.com/s?k="
  const GoogleShoppingTemplate: string := "https://www.google.com/search?tbm=shop&q="
  const EbayTemplate: string := "https://www.ebay.com/sch/i.html?_nkw="
  const GoogleTemplate: string := "https://www.google.com/search?q="

  // ---------------------------------------------------------------------
  // generate_search_url

  /** `description.lower().replace(',', '').replace('.', '')`. */
  function Clean(description: string): string {
    Remove(Remove(Lower(description), ','), '.')
  }

  /** A word survives the filter of line 38: not a stop word and longer than two characters. */
  predicate IsKeyword(w: string) {
    w !in StopWords && |w| > 2
  }

  /** `[w for w in words if w not in stop_words and len(w) > 2]`. */
  function FilterKeywords(words: seq<string>): (ks: seq<string>)
    ensures forall w :: w in ks ==> IsKeyword(w) && w in words
    ensures forall w :: w in words && IsKeyword(w) ==> w in ks
    ensures IsSubsequence(ks, words)
  {
    if words == [] then []
    else if IsKeyword(words[0]) then [words[0]] + FilterKeywords(words[1..])
    else
      var ks := FilterKeywords(words[1..]);
      assert ks != [] ==> ks[0] in ks && ks[0] != words[0];
      ks
  }

  /**
   * The filter works word by word: filtering a concatenation concatenates
   * the filtered parts, and a single word is kept exactly when it is a
   * keyword. Together these fix the filtered list, repeated words included.
   */
  lemma {:induction false} FilterKeywordsAppend(a: seq<string>, b: seq<string>)
    ensures FilterKeywords(a + b) == FilterKeywords(a) + FilterKeywords(b)
    ensures |a| == 1 ==> FilterKeywords(a) == (if IsKeyword(a[0]) then a else [])
  {
    if a == [] {
      assert a + b == b;
    } else {
      assert (a + b)[0] == a[0];
      assert (a + b)[1..] == a[1..] + b;
      FilterKeywordsAppend(a[1..], b);
    }
  }

  /** The words of the query: `keywords[:7]` (lines 37-41). */
  function Keywords(description: string): seq<string> {
    var all := FilterKeywords(Split(Clean(description)));
    all[..Min(|all|, MaxKeywords)]
  }

  /** `" ".join(keywords[:7])`. */
  function SearchQuery(description: string): string {
    Join(Keywords(description), " ")
  }

  /** `urllib.parse.quote(search_query)`. */
  function EncodedQuery(description: string): string {
    Quote(SearchQuery(description))
  }

  /** `generate_search_url(description, search_engine)`. */
  function SearchUrl(description: string, engine: string): string {
    var q := EncodedQuery(description);
    if engine == "amazon" then AmazonTemplate + q
    else if engine == "google" then GoogleShoppingTemplate + q
    else if engine == "ebay" then EbayTemplate + q
    else GoogleTemplate + q
  }

  /**
   * The keywords: at most seven, none a stop word, each longer than two
   * characters, free of white space, capitals, `,` and `.`; they are the
   * first of all qualifying words and keep the order of the description.
   */
  lemma KeywordsProperties(description: string)
    ensures Keywords(description) <= FilterKeywords(Split(Clean(description)))
    ensures |Keywords(description)| == Min(|FilterKeywords(Split(Clean(description)))|, MaxKeywords)
    ensures |Keywords(description)| <= MaxKeywords
    ensures forall w :: w in Keywords(description) ==> IsKeyword(w) && NoSpace(w)
    ensures forall w, c :: w in Keywords(description) && c in w ==> !IsUpper(c) && c != ',' && c != '.'
    ensures IsSubsequence(Keywords(description), Split(Clean(description)))
    ensures forall w :: w in Split(Clean(description)) && IsKeyword(w) && |Keywords(description)| < MaxKeywords ==>
      w in Keywords(description)
  {
    var words := Split(Clean(description));
    var all := FilterKeywords(words);
    var ks := Keywords(description);
    var n := |ks|;
    assert ks == all[..n];
    assert n < MaxKeywords ==> ks == all;
    assert forall w :: w in ks ==> w in all;
    PrefixIsSubsequence(all, n);
    SubsequenceTransitive(ks, all, words);
    LowerHasNoUpper(description);
  }

  /**
   * The query part of the URL has no blank, and percent-decoding it gives
   * the UTF-8 bytes of the keywords joined by single blanks; splitting
   * that text gives back exactly the keywords.
   */
  lemma QueryDecodesToKeywords(description: string)
    ensures ' ' !in EncodedQuery(description)
    ensures Unquote(EncodedQuery(description)) == Some(Utf8(SearchQuery(description)))
    ensures Split(SearchQuery(description)) == Keywords(description)
  {
    QuoteHasNoBlank(SearchQuery(description));
    QuoteRoundTrip(SearchQuery(description));
    KeywordsProperties(description);
    assert forall w :: w in Keywords(description) ==> w != [] by {
      forall w | w in Keywords(description) ensures w != [] { assert |w| > 2; }
    }
    SplitJoin(Keywords(description));
  }

  /** Which template each engine name selects; every other name falls back to plain web search. */
  lemma SearchUrlTemplates(description: string, engine: string)
    ensures engine == "amazon" ==> SearchUrl(description, engine) == AmazonTemplate + EncodedQuery(description)
    ensures engine == "google" ==> SearchUrl(description, engine) == GoogleShoppingTemplate + EncodedQuery(description)
    ensures engine == "ebay" ==> SearchUrl(description, engine) == EbayTemplate + EncodedQuery(description)
    ensures engine !in {"amazon", "google", "ebay"} ==>
      SearchUrl(description, engine) == GoogleTemplate + EncodedQuery(description)
  {
  }

  /** Quoting words joined by blanks keeps safe words as they are and turns each blank into `%20`. */
  lemma {:induction false} QuoteJoinedWords(ws: seq<string>)
    requires forall k :: 0 <= k < |ws| ==> IsQuoteSafe(ws[k])
    ensures Quote(Join(ws, " ")) == Join(ws, "%20")
  {
    if ws == [] {
      assert Utf8([]) == [];
    } else if |ws| == 1 {
      QuoteSafeUnchanged(ws[0]);
    } else {
      var rest := ws[1..];
      assert forall k :: 0 <= k < |rest| ==> rest[k] == ws[k + 1];
      QuoteJoinedWords(rest);
      QuoteSafeUnchanged(ws[0]);
      QuoteBlank();
      QuoteAppend(ws[0] + " ", Join(rest, " "));
      QuoteAppend(ws[0], " ");
    }
  }

  /** For keywords `quote` leaves alone, the URL is the template followed by the keywords joined by `%20`. */
  lemma AmazonUrlOfSafeKeywords(description: string)
    requires forall k :: 0 <= k < |Keywords(description)| ==> IsQuoteSafe(Keywords(description)[k])
    ensures SearchUrl(description, "amazon") == AmazonTemplate + Join(Keywords(description), "%20")
  {
    QuoteJoinedWords(Keywords(description));
  }

  // ---------------------------------------------------------------------
  // search_image

  /** `path.replace('//', '/')`: each non-overlapping `//`, scanned left to right, becomes `/`. */
  function CollapseSlashes(p: string): (r: string)
    ensures |r| <= |p|
  {
    if |p| >= 2 && p[0] == '/' && p[1] == '/' then "/" + CollapseSlashes(p[2..])
    else if p == [] then []
    else [p[0]] + CollapseSlashes(p[1..])
  }

  /** Collapsing only drops slashes: every other character stays, in order. */
  lemma {:induction false} CollapseSlashesDropsOnlySlashes(p: string)
    ensures Remove(CollapseSlashes(p), '/') == Remove(p, '/')
  {
    if |p| >= 2 && p[0] == '/' && p[1] == '/' {
      CollapseSlashesDropsOnlySlashes(p[2..]);
      assert ("/" + CollapseSlashes(p[2..]))[1..] == CollapseSlashes(p[2..]);
      assert p[1..][1..] == p[2..];
    } else if p != [] {
      CollapseSlashesDropsOnlySlashes(p[1..]);
      assert ([p[0]] + CollapseSlashes(p[1..]))[1..] == CollapseSlashes(p[1..]);
    }
  }

  /** A path without `//` is left as it is. */
  lemma {:induction false} CollapseSlashesNoDouble(p: string)
    requires forall k :: 0 <= k < |p| - 1 ==> !(p[k] == '/' && p[k + 1] == '/')
    ensures CollapseSlashes(p) == p
  {
    if p != [] {
      CollapseSlashesNoDouble(p[1..]);
      assert p == [p[0]] + p[1..];
    }
  }

  /**
   * A `//` that does not follow a slash becomes one `/`, and the text on
   * either side is collapsed independently of the other.
   */
  lemma {:induction false} CollapseSlashesAtDouble(a: string, b: string)
    requires a == [] || a[|a| - 1] != '/'
    ensures CollapseSlashes(a + "//" + b) == CollapseSlashes(a) + "/" + CollapseSlashes(b)
    decreases |a|
  {
    var p := a + "//" + b;
    if a == [] {
      assert p == "//" + b;
      assert p[2..] == b;
    } else if |a| >= 2 && a[0] == '/' && a[1] == '/' {
      var a' := a[2..];
      assert a' == [] || a'[|a'| - 1] == a[|a| - 1];
      assert p[0] == '/' && p[1] == '/';
      assert p[2..] == a' + "//" + b;
      CollapseSlashesAtDouble(a', b);
      assert CollapseSlashes(p) == "/" + CollapseSlashes(a' + "//" + b);
      assert CollapseSlashes(a) == "/" + CollapseSlashes(a');
    } else {
      var a' := a[1..];
      assert a' == [] || a'[|a'| - 1] == a[|a| - 1];
      assert p[0] == a[0] && p[1] == (a' + "//")[0];
      assert p[1..] == a' + "//" + b;
      CollapseSlashesAtDouble(a', b);
      assert CollapseSlashes(p) == [a[0]] + CollapseSlashes(a' + "//" + b);
      assert CollapseSlashes(a) == [a[0]] + CollapseSlashes(a');
    }
  }

  /** Three slashes in a row leave two: the replacement is a single left-to-right pass. */
  lemma CollapseTripleSlash()
    ensures CollapseSlashes("a///b") == "a//b"
  {
    assert CollapseSlashes("/b") == "/b";
    assert CollapseSlashes("///b") == "/" + CollapseSlashes("/b");
  }

  /** `descriptions.get(path, "Description not available")`. */
  function Describe(descriptions: map<Path, string>, path: Path): string {
    if path in descriptions then descriptions[path] else MissingDescription
  }

  /** One result record (lines 80-85). */
  datatype SearchResult = SearchResult(path: Path, score: real, description: string, url: string)

  /** The record for a hit on a stored path with a score. */
  function Record(descriptions: map<Path, string>, storedPath: Path, score: real): SearchResult {
    var path := CollapseSlashes(storedPath);
    var description := Describe(descriptions, path);
    SearchResult(path, score, description, SearchUrl(description, "amazon"))
  }

  /**
   * A record carries the stored path with `//` collapsed, the score, the
   * table's description of the collapsed path or the placeholder (never
   * an absent value), and the amazon search URL for that description.
   */
  lemma RecordFields(descriptions: map<Path, string>, storedPath: Path, score: real)
    ensures Record(descriptions, storedPath, score).path == CollapseSlashes(storedPath)
    ensures Record(descriptions, storedPath, score).score == score
    ensures CollapseSlashes(storedPath) in descriptions ==>
      Record(descriptions, storedPath, score).description == descriptions[CollapseSlashes(storedPath)]
    ensures CollapseSlashes(storedPath) !in descriptions ==>
      Record(descriptions, storedPath, score).description == MissingDescription
    ensures Record(descriptions, storedPath, score).url ==
      AmazonTemplate + EncodedQuery(Record(descriptions, storedPath, score).description)
  {
  }

  /** The number of real hits: the index search pads its lists with -1 once the index runs out of rows. */
  function HitCount(hits: seq<int>): (n: nat)
    ensures n <= |hits|
    ensures forall r :: 0 <= r < n ==> hits[r] >= 0
    ensures n == |hits| || hits[n] < 0
  {
    if hits == [] || hits[0] < 0 then 0 else 1 + HitCount(hits[1..])
  }

  /**
   * The loop of lines 71-85 over a record builder, stopping at the index
   * search's padding: one record per real hit, in rank order, each built
   * from the hit's stored path and the score of the same rank.
   */
  method CollectRecords(scores: seq<real>, hits: seq<int>, paths: seq<Path>, record: (Path, real) -> SearchResult)
    returns (results: seq<SearchResult>)
    requires |hits| <= |scores|
    requires forall r :: 0 <= r < |hits| ==> hits[r] < |paths|
    ensures |results| == HitCount(hits)
    ensures forall r :: 0 <= r < |results| ==>
      0 <= hits[r] < |paths| && results[r] == record(paths[hits[r]], scores[r])
  {
    results := [];
    for rank := 0 to |hits|
      invariant |results| == rank
      invariant forall r :: 0 <= r < rank ==> hits[r] >= 0
      invariant forall r :: 0 <= r < rank ==> results[r] == record(paths[hits[r]], scores[r])
    {
      var idx := hits[rank];
      if idx < 0 {
        break;
      }
      results := results + [record(paths[idx], scores[rank])];
    }
  }

  /**
   * The results of `search_image` for the search's ranked hits and
   * scores: the loop of lines 71-85 with the record of lines 73-85.
   * Without padding there is a record for every hit.
   */
  method AssembleResults(scores: seq<real>, hits: seq<int>, paths: seq<Path>, descriptions: map<Path, string>)
    returns (results: seq<SearchResult>)
    requires |hits| <= |scores|
    requires forall r :: 0 <= r < |hits| ==> hits[r] < |paths|
    ensures |results| == HitCount(hits)
    ensures (forall r :: 0 <= r < |hits| ==> hits[r] >= 0) ==> |results| == |hits|
    ensures forall r :: 0 <= r < |results| ==>
      0 <= hits[r] < |paths| && results[r] == Record(descriptions, paths[hits[r]], scores[r])
  {
    results := CollectRecords(scores, hits, paths, (p, s) => Record(descriptions, p, s));
  }

  /** Python's `xs[idx]`: a negative index counts from the end. */
  function PyIndex<T>(xs: seq<T>, idx: int): T
    requires -|xs| <= idx < |xs|
  {
    if idx < 0 then xs[|xs| + idx] else xs[idx]
  }

  /** The loop of lines 71-85 as written: every entry of `I[0]`, padding included, is looked up. */
  function ResultsAsWritten(scores: seq<real>, hits: seq<int>, paths: seq<Path>, descriptions: map<Path, string>)
    : (rs: seq<SearchResult>)
    requires |hits| <= |scores|
    requires forall r :: 0 <= r < |hits| ==> -|paths| <= hits[r] < |paths|
    ensures |rs| == |hits|
  {
    seq(|hits|, r requires 0 <= r < |hits| => Record(descriptions, PyIndex(paths, hits[r]), scores[r]))
  }

  /**
   * Asking for five results from an index of two rows: the search pads
   * `I[0]` with -1, and the loop as written turns each padding entry into
   * a record for the last stored path, giving five records instead of two.
   */
  lemma PaddedSearchRepeatsLastPath(scores: seq<real>, hits: seq<int>, paths: seq<Path>, descriptions: map<Path, string>)
    requires |scores| == 5 && |paths| == 2 && hits == [0, 1, -1, -1, -1]
    ensures |ResultsAsWritten(scores, hits, paths, descriptions)| == 5
    ensures HitCount(hits) == 2
    ensures forall r :: 2 <= r < 5 ==>
      ResultsAsWritten(scores, hits, paths, descriptions)[r] == Record(descriptions, paths[1], scores[r])
  {
    assert hits[1..][1..] == [-1, -1, -1];
    assert HitCount(hits[1..][1..]) == 0;
    assert HitCount(hits[1..]) == 1;
    forall r | 2 <= r < 5
      ensures ResultsAsWritten(scores, hits, paths, descriptions)[r] == Record(descriptions, paths[1], scores[r])
    {
      assert hits[r] == -1;
    }
  }

  /** Results agree with the loop as written whenever the search returned no padding. */
  lemma ResultsMatchAsWrittenWithoutPadding(scores: seq<real>, hits: seq<int>, paths: seq<Path>, descriptions: map<Path, string>)
    requires |hits| <= |scores|
    requires forall r :: 0 <= r < |hits| ==> 0 <= hits[r] < |paths|
    ensures HitCount(hits) == |hits|
    ensures forall r :: 0 <= r < |hits| ==>
      ResultsAsWritten(scores, hits, paths, descriptions)[r] == Record(descriptions, paths[hits[r]], scores[r])
  {
  }
}
