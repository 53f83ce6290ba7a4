# SightMatch core, modelled in Dafny

SightMatch is a visual product search. A build script walks a dataset
directory, keeps the image files, encodes each one into an embedding and
stores the embeddings in a flat inner-product index (`faiss.IndexFlatIP`)
next to a JSON list of their paths. A deduplication script then queries
that index for each image's nearest neighbours. Visiting the images in
order, it removes every other kept image that a kept image's neighbour
list names at or above a threshold (0.95 by default). The search engine
answers a query image with ranked records. Each record holds a stored
path, a score, a description and a shopping-search URL built from the
description's keywords.

This project models those three pieces and proves what each one promises:

- `Dedup.dfy` covers the deduplication loop of `remove-dup-image.py`.
  `Dedup.RemoveDuplicates` works in place on a keep mask (an `array<bool>`),
  as the script does. It is proved equal to a left fold `Run` / `Final` over
  the rows. Lemmas about that fold state what the result means:
  - the removal count equals the number of cleared mask entries;
  - the `processed` guard is redundant;
  - no survivor is a listed duplicate of another survivor;
  - with complete, symmetric neighbour lists, every removed row has an
    earlier kept row at or above the threshold.
- `SearchEngine.dfy` covers `generate_search_url` and the result loop of
  `search_image`. `PercentEncoding.dfy` is `urllib.parse.quote`: UTF-8, then
  percent-encoding. It is proved inverse to a percent-decoder.
  `Strings.dfy` holds the Python string built-ins the code uses.
- `BuildIndex.dfy` covers the walk, filter and encode loops of
  `build_index.py` and the index build.
- `VectorIndex.dfy` is the flat index: a class with a fixed dimension and
  a row list that `Add` extends in place.

Several things are parameters rather than code:
- the neural encoder;
- the index's nearest-neighbour search (its result arrays `I` and `D`);
- `os.walk`, given as the sequence of `(root, files)` entries it yields;
- `os.path.join`;
- the JSON description table.

Determinism of `generate_search_url` holds because `SearchEngine.SearchUrl`
is a function of its two arguments.

Two behaviours of the code are easy to misread, and the model follows the
code in both:
- `generate_search_url` splits with `str.split()` (search_engine.py:37),
  which breaks words at white space only. So "A Soft Cotton T-Shirt for
  Men, Blue" yields the keyword `t-shirt`, not `shirt`, and `Strings.Split`
  does the same.
- The deduplication loop searches only the `min(100, N)` nearest
  neighbours of each row (remove-dup-image.py:47-49). It clears every kept
  row that the visited row's list names at or above the threshold, whether
  that row comes before or after the visitor (remove-dup-image.py:61-69).
  An earlier kept image is therefore sure to win only when each neighbour
  list holds every row: `Dedup.CompleteListsLeaveNoDuplicatePair` and
  `Dedup.EarliestRowWins` carry that precondition.
  `Dedup.TruncatedListsLetLaterRowWin` shows a three-image input where
  truncated lists remove rows 0 and 2 and keep row 1.

## Model

| member | source | states |
|---|---|---|
| Dedup.NeighbourCount | remove-dup-image.py:48 | the number of neighbours searched is at most 100 and at most the row count, and equals one of them |
| Dedup.CountsPartition | remove-dup-image.py:77 | kept entries plus cleared entries make up the whole mask |
| Dedup.Init | remove-dup-image.py:41-53 | no contract of its own: the all-true mask, empty `processed` and zero counter before the loop; CountFalseAllTrue and RunConsistent state what it starts from |
| Dedup.CountFalseAllTrue | remove-dup-image.py:41 | the initial all-true mask has no cleared entry |
| Dedup.CountFalseClear | remove-dup-image.py:68-70 | clearing one set entry raises the cleared count by exactly one |
| Dedup.Select | remove-dup-image.py:79-80 | the kept items number as many as the set mask entries, and all come from the input |
| Dedup.KeptIndices | remove-dup-image.py:80 | the kept positions are strictly increasing, all set in the mask, and include every set position |
| Dedup.SelectAt | remove-dup-image.py:80 | the `k`-th unique path is the path at the `k`-th kept position, so order is preserved |
| Dedup.Similar | remove-dup-image.py:60-63 | the collected duplicates are valid row numbers |
| Dedup.SimilarExactly | remove-dup-image.py:61-62 | a row is collected exactly when it is listed, is not the searched row, is still kept and scores at or above the threshold (inclusive) |
| Dedup.MarkOne | remove-dup-image.py:68-71 | no contract of its own: one guarded clearing of `keep_mask[dup_idx]`; CountFalseClear and MarkEffect state its effect |
| Dedup.Mark | remove-dup-image.py:66-71 | marking keeps the mask length |
| Dedup.MarkEffect | remove-dup-image.py:66-71 | after marking, a row is kept iff it was kept and not collected; `processed` gains exactly the newly cleared rows; the counter grows by the number of newly cleared entries |
| Dedup.Step | remove-dup-image.py:55-73 | one visit keeps the mask length |
| Dedup.StepEffect | remove-dup-image.py:55-73 | a visit to a cleared or processed row changes nothing; otherwise it clears exactly the row's listed duplicates, never sets an entry, adds the row and the cleared rows to `processed`, and counts each newly cleared entry once |
| Dedup.Run | remove-dup-image.py:55-73 | the state after the first `i` visits has a mask entry per row |
| Dedup.Final | remove-dup-image.py:55-73 | the state after all visits has a mask entry per row |
| Dedup.StepConsistent | remove-dup-image.py:55-73 | a visit preserves the loop invariant: counter equals the cleared entries, and `processed` is the visited rows plus the cleared rows |
| Dedup.RunConsistent | remove-dup-image.py:52-73 | the invariant holds after every number of visits |
| Dedup.RemovedCountsClearedEntries | remove-dup-image.py:66-71 | `duplicates_removed` always equals the number of false entries of `keep_mask`; the guard prevents double counting |
| Dedup.ProcessedTestRedundant | remove-dup-image.py:56-73 | when row `i` is visited, it is in `processed` iff its mask entry is already cleared, so the `i in processed` test adds nothing |
| Dedup.KeepMaskMonotone | remove-dup-image.py:55-73 | a mask entry once cleared stays cleared |
| Dedup.VisitRow | remove-dup-image.py:55-73 | a cleared row's visit changes nothing; a kept row never removes itself, and its visit clears exactly its listed duplicates |
| Dedup.SurvivorsAreNotDuplicates | remove-dup-image.py:55-73 | no surviving row lists another surviving row at or above the threshold |
| Dedup.CompleteListsLeaveNoDuplicatePair | remove-dup-image.py:55-73 | if every list holds every row, no two distinct survivors have similarity at or above the threshold |
| Dedup.CompleteListsNeedSmallCatalog | remove-dup-image.py:48-49 | neighbour lists can only be complete when the catalogue has at most 100 images |
| Dedup.RemovedAtVisit | remove-dup-image.py:60-71 | a row cleared by visit `i` was listed at or above the threshold by row `i`, which was kept at the time |
| Dedup.RemovalVisitExists | remove-dup-image.py:55-73 | a row cleared between two points of the loop was cleared by one particular visit in between |
| Dedup.RemoverIsEarlier | remove-dup-image.py:55-73 | with complete symmetric lists, the row that clears `y` comes before `y` and is similar to it at or above the threshold |
| Dedup.WinnerSurvives | remove-dup-image.py:55-73 | with complete symmetric lists, a row still kept when it is visited is never removed later |
| Dedup.EarliestRowWins | remove-dup-image.py:55-73 | with complete symmetric lists, every removed row has an earlier surviving row at or above the threshold |
| Dedup.CollectSimilar | remove-dup-image.py:60-63 | the loop collects exactly the specified similar list from the current mask |
| Dedup.MarkDuplicates | remove-dup-image.py:66-71 | the loop updates mask, `processed` and counter exactly as the specified marking does |
| Dedup.RemoveDuplicates | remove-dup-image.py:41-80 | the final mask and counter are those of the fold; the counter equals the cleared entries; the unique paths are the kept paths in order, `len(image_paths) - duplicates_removed` of them |
| Dedup.Deduplicate | remove-dup-image.py:37-85 | the new index has the old dimension and holds exactly the kept rows in order, as many as there are unique paths |
| Dedup.ScenarioSimilarA | remove-dup-image.py:60-63 | three rows, row 1 at 0.97 from row 0: the visit of row 0 collects only row 1 |
| Dedup.ScenarioVisitA | remove-dup-image.py:55-73 | that visit clears row 1 and counts one removal |
| Dedup.ScenarioVisitC | remove-dup-image.py:55-73 | the later visit of row 2 clears nothing |
| Dedup.ThreeImageScenario | remove-dup-image.py:41-80 | images A, B, C with A and B at 0.97: B is removed, A and C are kept, one removal |
| Dedup.TruncatedVisit0 | remove-dup-image.py:55-73 | with two-entry lists, row 0 clears row 2 |
| Dedup.TruncatedVisit1 | remove-dup-image.py:55-73 | row 1, still kept, then clears row 0 |
| Dedup.TruncatedListsLetLaterRowWin | remove-dup-image.py:55-73 | with truncated lists, row 1 survives while the earlier row 0 is removed |
| Strings.Lower | search_engine.py:37 | no contract of its own: ASCII `str.lower`; LowerHasNoUpper and LowerIdempotent state its value |
| Strings.LowerHasNoUpper | search_engine.py:37 | lower-casing keeps the length, leaves every character other than an ASCII capital unchanged, maps each capital to its small letter, and leaves no capital |
| Strings.LowerIdempotent | build_index.py:34 | lower-casing twice equals lower-casing once |
| Strings.Remove | search_engine.py:37 | `replace(c, '')` leaves no `c`, keeps every other character, and does not lengthen the string |
| Strings.RemoveAppend | search_engine.py:37 | `replace(c, '')` works character by character: removing from a concatenation concatenates the removals, and one character is dropped exactly when it is `c`, so every other character stays, in order |
| Strings.WordLength | search_engine.py:37 | a word runs to the first white space or the end of the string |
| Strings.Split | search_engine.py:37 | `split()` yields non-empty words without white space, made of characters of the input |
| Strings.WordLengthOfWord | search_engine.py:37 | a word followed by white space or the end is one whole word |
| Strings.SplitWordThen | search_engine.py:37 | splitting a word followed by white space gives that word, then the rest's words |
| Strings.Join | search_engine.py:41 | no contract of its own: `sep.join(ws)`; SplitJoin and QuoteJoinedWords state its meaning |
| Strings.EndsWith | build_index.py:34 | no contract of its own: `str.endswith`; ImageFileExamples and ImageFileIgnoresCase state what the extension test accepts |
| Strings.SplitJoin | search_engine.py:37-41 | splitting the blank-joined words gives back exactly those words |
| Strings.PrefixIsSubsequence | search_engine.py:41 | a prefix is a subsequence |
| Strings.SubsequenceExtend | search_engine.py:38 | a subsequence stays one when the longer sequence gains a head |
| Strings.SubsequenceDropHead | search_engine.py:38 | dropping the head of a subsequence keeps it a subsequence |
| Strings.SubsequenceTransitive | search_engine.py:38-41 | a subsequence of a subsequence is a subsequence |
| PercentEncoding.Utf8Char | search_engine.py:42 | a character encodes to 1 to 4 bytes; ASCII to its own code; all bytes of a non-ASCII character are 0x80 or above |
| PercentEncoding.Quote | search_engine.py:42 | no contract of its own: `urllib.parse.quote`, UTF-8 then percent-encoding; QuoteRoundTrip, QuoteHasNoBlank, QuoteSafeUnchanged and QuoteAppend state its meaning |
| PercentEncoding.QuoteBytesRoundTrip | search_engine.py:42 | percent-decoding the quoted bytes gives the bytes back |
| PercentEncoding.QuoteRoundTrip | search_engine.py:42 | percent-decoding `quote(s)` gives the UTF-8 bytes of `s` |
| PercentEncoding.QuoteBytesAlphabet | search_engine.py:42 | quoted bytes consist of safe characters, `%` and upper-case hex digits only, with no blank |
| PercentEncoding.QuoteHasNoBlank | search_engine.py:42 | `quote`'s output consists of safe characters, `%` and hex digits only, with no blank |
| PercentEncoding.QuoteSafeUnchanged | search_engine.py:42 | ASCII letters, digits, `_.-~` and `/` pass through unchanged |
| PercentEncoding.Utf8Append | search_engine.py:42 | UTF-8 of a concatenation concatenates the encodings |
| PercentEncoding.QuoteBytesAppend | search_engine.py:42 | quoting concatenated bytes concatenates the quoted parts |
| PercentEncoding.QuoteAppend | search_engine.py:42 | `quote` of a concatenation concatenates the quoted parts |
| PercentEncoding.QuoteBlank | search_engine.py:42 | a blank becomes `%20` |
| SearchEngine.Clean | search_engine.py:37 | no contract of its own: lower-casing and the removal of `,` and `.`; KeywordsProperties states what survives |
| SearchEngine.FilterKeywords | search_engine.py:38 | every kept word is a keyword of the input, every keyword of the input is kept, and the kept words are a subsequence of the input |
| SearchEngine.FilterKeywordsAppend | search_engine.py:38 | the filter works word by word: filtering a concatenation concatenates the filtered parts, and one word is kept exactly when it is not a stop word and longer than two characters; so repeated words are kept as often as they occur, in input order |
| SearchEngine.Keywords | search_engine.py:36-41 | no contract of its own: `keywords[:7]`; KeywordsProperties states it |
| SearchEngine.KeywordsProperties | search_engine.py:36-41 | the keywords are the first `min(7, n)` of the `n` filtered words (a prefix of the filtered list); at most 7 keywords; none is a stop word or of length 2 or less; none holds white space, a capital, `,` or `.`; they keep the description's order; fewer than 7 means every qualifying word is used |
| SearchEngine.SearchQuery | search_engine.py:41 | no contract of its own: the keywords joined by blanks; QueryDecodesToKeywords states it |
| SearchEngine.EncodedQuery | search_engine.py:42 | no contract of its own: the quoted query; QueryDecodesToKeywords and AmazonUrlOfSafeKeywords state it |
| SearchEngine.SearchUrl | search_engine.py:32-51 | no contract of its own: `generate_search_url`; SearchUrlTemplates, KeywordsProperties, QueryDecodesToKeywords and AmazonUrlOfSafeKeywords state it |
| SearchEngine.QueryDecodesToKeywords | search_engine.py:41-42 | the encoded query has no blank, decodes to the UTF-8 of the blank-joined keywords, and that text splits back into the keywords |
| SearchEngine.SearchUrlTemplates | search_engine.py:44-51 | `amazon`, `google` and `ebay` select their templates and every other name falls back to plain Google search, each followed by the encoded query |
| SearchEngine.QuoteJoinedWords | search_engine.py:41-42 | quoting safe words joined by blanks gives the words joined by `%20` |
| SearchEngine.AmazonUrlOfSafeKeywords | search_engine.py:41-45 | when the keywords are quote-safe, the amazon URL is the template followed by the keywords joined by `%20` |
| SearchEngine.CollapseSlashes | search_engine.py:73 | `replace('//', '/')` never lengthens the path |
| SearchEngine.CollapseSlashesDropsOnlySlashes | search_engine.py:73 | collapsing removes only slashes: the other characters stay, in order |
| SearchEngine.CollapseSlashesNoDouble | search_engine.py:73 | a path without `//` is unchanged |
| SearchEngine.CollapseSlashesAtDouble | search_engine.py:73 | a `//` not preceded by a slash becomes one `/`, and the text before and after it is collapsed independently |
| SearchEngine.CollapseTripleSlash | search_engine.py:73 | `a///b` becomes `a//b`: the replacement is one left-to-right pass |
| SearchEngine.Describe | search_engine.py:75 | no contract of its own: `descriptions.get(path, "Description not available")`; RecordFields states it |
| SearchEngine.Record | search_engine.py:73-85 | no contract of its own: one result record; RecordFields states each field |
| SearchEngine.RecordFields | search_engine.py:73-85 | a record has the collapsed path, the score, the table's description or the literal `Description not available`, and the amazon URL of that description |
| SearchEngine.HitCount | search_engine.py:69-72 | the real hits are the longest prefix of non-negative indices |
| SearchEngine.CollectRecords | search_engine.py:71-85 | one record per real hit, in rank order, built from the hit's path and the score of the same rank |
| SearchEngine.AssembleResults | search_engine.py:71-87 | one result per real hit, all hits when none is padding, each the record for `image_paths[I[0][r]]` with score `D[0][r]` |
| SearchEngine.PyIndex | search_engine.py:73 | no contract of its own: Python's `image_paths[idx]`, a negative index counting from the end; PaddedSearchRepeatsLastPath shows it on the padding entries |
| SearchEngine.ResultsAsWritten | search_engine.py:71-85 | the loop as written yields one record per entry of `I[0]`, padding included |
| SearchEngine.PaddedSearchRepeatsLastPath | search_engine.py:69-73 | two stored images and five requested: five records as written, three of them for the last path, against two real hits |
| SearchEngine.ResultsMatchAsWrittenWithoutPadding | search_engine.py:71-85 | without padding the corrected results and the loop as written agree entry by entry |
| BuildIndex.IsImageFile | build_index.py:34 | no contract of its own: the extension test; ImageFileIgnoresCase and ImageFileExamples state it |
| BuildIndex.ImageFileIgnoresCase | build_index.py:34 | a name and its lower-case form are both kept or both dropped |
| BuildIndex.ImageFileExamples | build_index.py:34 | `shirt.JPG` and `a.b.Jpeg` are images; `notes.txt`, `shirt.gif` and `jpg` are not |
| BuildIndex.MatchedIn | build_index.py:33-36 | no contract of its own: the paths recorded for one directory; MatchedInMembers, MatchedInAppend and MatchedInBound state them |
| BuildIndex.MatchedPaths | build_index.py:32-36 | no contract of its own: the paths recorded for the walk; MatchedPathsAppend and Enumerate state them |
| BuildIndex.MatchedInAppend | build_index.py:33-36 | a directory's paths are recorded in file order |
| BuildIndex.MatchedPathsAppend | build_index.py:32-36 | the walk's paths are recorded in directory order |
| BuildIndex.MatchedInMembers | build_index.py:33-36 | a path is recorded iff some image file of the directory joins to it |
| BuildIndex.NonImagesContributeNothing | build_index.py:34 | appending non-image files leaves the recorded paths unchanged |
| BuildIndex.NoImagesNoPaths | build_index.py:34 | a directory without image files records nothing |
| BuildIndex.MatchedInBound | build_index.py:33-36 | at most one path is recorded per file |
| BuildIndex.EncodeAll | build_index.py:36-46 | no contract of its own: encoding the recorded paths in order, failing at the first unreadable image; EncodeAllAligned, EncodeAllFails and EncodeAllFirstFailure state it |
| BuildIndex.EncodeAllAligned | build_index.py:36-46 | after a successful pass, there is one embedding per path and the `k`-th is the encoder's output for the `k`-th path |
| BuildIndex.EncodeAllErrors | build_index.py:38 | encoding fails only on an unreadable image among the given paths |
| BuildIndex.EncodeAllFails | build_index.py:38-46 | encoding fails iff some recorded image cannot be read |
| BuildIndex.EncodeAllFirstFailure | build_index.py:32-46 | the reported image is the first unreadable one; all before it were encoded |
| BuildIndex.EncodeAllFailureSticks | build_index.py:38 | after a failure, later paths do not change the error |
| BuildIndex.Enumerate | build_index.py:32-46 | on success the paths are the walk's image paths in order, with their embeddings aligned; on failure the error is the first unreadable image |
| BuildIndex.ScanDirectory | build_index.py:33-46 | one directory's image paths are appended after the earlier ones, each with its embedding; the first unreadable image stops the scan |
| BuildIndex.MatchedInStep | build_index.py:33-36 | one more file adds its joined path iff it is an image |
| BuildIndex.MatchedPathsStep | build_index.py:32-36 | one more directory adds its recorded paths after the earlier ones |
| BuildIndex.EncodeAllStep | build_index.py:36-46 | one more path adds its embedding, or fails on it |
| BuildIndex.ScanFailureIsFinal | build_index.py:38 | a failure within a directory is the failure of the whole directory |
| BuildIndex.FailureIsFinal | build_index.py:38 | a failure within the first `i` directories is the failure of the whole walk |
| BuildIndex.Build | build_index.py:32-64 | on success the fresh index has the first embedding's dimension and holds the embeddings of the recorded paths, one row per persisted path; the build fails with no images iff none matched, with inconsistent dimension iff the embeddings differ in length, and on an unreadable image iff one exists |
| VectorIndex.FlatIndex.constructor | remove-dup-image.py:84 | a new index has the given dimension and no rows |
| VectorIndex.FlatIndex.Add | remove-dup-image.py:85 | `add` appends the vectors in order after the stored rows and keeps every row at the index's dimension |

## Left out

- The neural encoder (model loading, device choice, preprocessing, `encode_image`) is an opaque parameter. In `BuildIndex` it returns no vector for an image that `Image.open` cannot read.
- The index's nearest-neighbour search and `reconstruct_n` are left out. Their output arrays `I` and `D` are inputs, and so is the index the deduplication reads.
- Floating-point values are `real`s. L2 normalisation (`faiss.normalize_L2`, `np.linalg.norm`, the torch `norm`) and the `float32` conversion are not modelled. Nothing is claimed about unit norms or score ranges.
- File and JSON I/O, the module-level loading of the index, the path list and the description table, and `write_index` are left out. The values are parameters and results.
- The listing of the directory and `os.path.join` are left out. The walk is a given sequence of entries in `os.walk` order, and the join is an opaque function.
- `tqdm` progress bars and `print` output are left out. So is the failure of the last report line (remove-dup-image.py:98): with no rows, `duplicates_removed/num_vectors` raises `ZeroDivisionError` after the outputs are written, while `Dedup.RemoveDuplicates` returns normally. `BuildIndex.Build` never produces an empty index: it fails with `NoImages` instead.
- The `config` module is not part of this model. The model name only appears in file names.
- `app3.py` is not part of this model, since it is user interface only.
- `PercentEncoding`'s UTF-8 encoder takes Dafny `char`s, which are Unicode scalar values and so never surrogates. A Python `str` can hold a lone surrogate, on which `quote` raises `UnicodeEncodeError`. The model has no such input and no such error.
- Strings.Lower: lower-cases the ASCII range only. Python's `str.lower` also maps non-ASCII capitals, and that mapping is not modelled.
- SearchEngine.CollectRecords, SearchEngine.AssembleResults: stop at the first padding entry of `I[0]` instead of reproducing the lookup of `image_paths[-1]`. The literal behaviour is `SearchEngine.ResultsAsWritten` (see Findings).
- `search_image` takes `search_engine="amazon"` from the call at line 78. Other engines are covered by `SearchEngine.SearchUrlTemplates` only.
- `search_image`'s image decoding, preprocessing and query embedding are left out. The ranked hits and scores are inputs.
- No lemma evaluates `generate_search_url` on a particular description. `SearchEngine.KeywordsProperties`, `SearchEngine.QueryDecodesToKeywords` and `SearchEngine.AmazonUrlOfSafeKeywords` state the general properties instead.

## Findings

| source | as written | input that shows it | evidently intended | confidence | as-written member | corrected member |
|---|---|---|---|---|---|---|
| search_engine.py:69-73 | every entry of `I[0]` is looked up as `image_paths[idx]`; the index search pads `I[0]` with `-1` when `top_k` exceeds the number of stored images, and `image_paths[-1]` is the last path | two stored images, `top_k=5` (the app asks for 9): `I[0] == [0, 1, -1, -1, -1]` gives five records, the last three for the second image with padding scores | one record per real hit, `min(top_k, ntotal)` records | medium, not executed | SearchEngine.ResultsAsWritten | SearchEngine.AssembleResults |
