# Document index of local-doc-assistant, modelled in Dafny

This project models `DocumentIndex`, the corpus index and search engine of
local-doc-assistant (`src/document_index.rs`). An index keeps three pieces of
state:

- a list of supported file extensions;
- an inverted term index, mapping each term to an append-only list of
  `(path, line)` postings;
- an `indexed` flag.

Around that state the engine runs these operations:

- a build that scans the corpus once;
- two searches over the corpus: a case-insensitive substring search that
  returns character-window snippets, and a scored line search that returns a
  13-line context window around each hit;
- an extension update that forces the next build to scan again.

All of them are proved against functions that state what they compute.

The model is laid out in modules:

- `Wrappers`: `Option`, `Take` (Rust's `take(n)`), `Min` and `Max`.
- `Text`: character classes (whitespace is the Unicode White_Space set) and ASCII lower-casing, and the string operations
  the source uses. `Split` is `str::split` on a predicate. `Lines` is
  `str::lines`. Lines written back with `"\n"` endings read back unchanged,
  provided no line ends in a carriage return. With `"\r\n"` endings they read
  back unchanged in every case. `JoinLines` is
  `join("\n")`. `Find` and `Contains` are the standard substring search.
- `Tokens`: the index tokenizer (`extract_terms`), the query tokenizer, and
  the per-line match count behind `calculate_relevance`.
- `Corpus`: paths, the abstract file system, and `is_indexable_file`.
- `Postings`: the term index as a function of the lines indexed, and which
  postings each term receives.
- `Ranking`: the score, and the stable descending sort. The sort is proved
  sorted, a permutation, stable, and the unique arrangement with those
  properties.
- `Snippets`: the context window and `extract_snippet`.
- `Search`: what each search returns, as a function of the corpus, and the
  properties the engine promises about it.
- `Engine`: the class `DocumentIndex`, with imperative methods mirroring the
  source's loops. Each method is proved equal to the corresponding function
  above.

The walk of the corpus and the file reads are inputs: a `FileSystem` value
lists the regular files of the walk in order, and maps each readable file to
its text. A file missing from that map is one whose read fails. Both passes of
`search_with_scoring` read the same value, so the model proves that the
second read's `line_idx < lines.len()` guard always holds.

Behaviours the model makes explicit:

- When the index is already built, `build_index` returns the number of
  distinct terms. A fresh scan returns the number of files indexed.
- `update_extensions` clears the built flag but not the term map. The old
  postings stay, including those of files no longer eligible, and the next
  build appends to them. A file eligible both before and after the update
  gets its postings a second time.
- The limit of `search_relevant_code` is checked only after a push. A limit of
  0 therefore still returns the first hit.
- `search_with_scoring` does not lower-case its query terms (the lower-cased
  query it computes is never used). A term containing a capital letter can
  therefore never match the lower-cased line, and a query whose every term is
  capitalised finds nothing.

## Model

| member | source | states |
|---|---|---|
| Engine.DocumentIndex.constructor | src/document_index.rs:30-37 | the new index keeps the root and the extensions, has an empty term map, and is not built |
| Engine.DocumentIndex.BuildIndex | src/document_index.rs:45-73 | when already built: returns the number of distinct terms and changes nothing; otherwise: the map becomes the old map with every indexable, readable file of the walk indexed in walk order, each term's list is its old list followed by its new occurrences, the count is the number of such files, and the index is marked built; the map stays well formed |
| Engine.DocumentIndex.IndexFile | src/document_index.rs:75-85 | the map after the nested loop is the old map with line `i` of the file pushing `(path, i)` onto the list of each of its terms, for every line |
| Engine.DocumentIndex.ExtractTerms | src/document_index.rs:87-98 | the loop builds exactly the set of lower-cased words longer than two; every element is a well-formed term |
| Engine.DocumentIndex.CalculateRelevance | src/document_index.rs:195-210 | the count is the number of query terms the lower-cased line contains, at most the number of terms; the score is the count divided by the number of terms, and it is positive exactly when some term occurs in the line |
| Engine.DocumentIndex.SearchRelevantCode | src/document_index.rs:100-132 | the result is the hits of the walk cut at `max(limit, 1)`; the scan inspects a prefix of the walk and its result is exactly that prefix's hits; when it stops early, the prefix holds exactly `max(limit, 1)` hits and the prefix one file shorter holds fewer, so the last file inspected is the one that reached the cap |
| Engine.DocumentIndex.SearchWithScoring | src/document_index.rs:134-193 | the result is the scored search of the corpus; it holds exactly `min(limit, #candidates)` results with non-increasing match counts |
| Engine.DocumentIndex.Refresh | src/document_index.rs:212-214 | always succeeds and changes nothing |
| Engine.DocumentIndex.UpdateExtensions | src/document_index.rs:243-246 | replaces the extension list and clears `indexed`, even for an identical list; the root and the term map, with its postings, stay as they were |
| Tokens.Terms | src/document_index.rs:87-98 | every term of a line is longer than two, contains only word characters, and has no upper case |
| Tokens.TermOrigin | src/document_index.rs:89-95 | every term is the lower-cased form of a maximal run of alphanumeric or underscore characters longer than two |
| Tokens.TermOfRun | src/document_index.rs:89-95 | conversely, every maximal run of word characters longer than two yields its lower-cased form as a term |
| Tokens.QueryTerms | src/document_index.rs:136-139 | query terms are pieces of the query between whitespace, longer than two characters and free of whitespace; each such piece is a term exactly as often as it occurs in the query, so repeats count in the score's denominator |
| Tokens.QueryTermOrigin | src/document_index.rs:136-139 | every query term is a stretch of the query between whitespace, longer than two characters, taken as written: no case is changed |
| Tokens.QueryTermOfWord | src/document_index.rs:136-139 | conversely, every stretch of the query between whitespace that is longer than two characters is a query term |
| Tokens.MatchCount | src/document_index.rs:196-207 | the count is at most the number of terms, and it is 0 exactly when no term occurs in the line, which includes an empty term list |
| Tokens.CapitalisedTermsNeverMatch | src/document_index.rs:135-139 | a query term with a capital letter never matches the lower-cased line |
| Tokens.KeepLong | src/document_index.rs:91 | a piece is kept exactly when it is longer than two characters |
| Tokens.KeepLongCounts | src/document_index.rs:136-139 | the filter keeps each piece longer than two characters as often as it occurs, and drops every other |
| Text.NonEmptyCounts | src/document_index.rs:137 | dropping the empty pieces of a whitespace split, as `split_whitespace` does, keeps every other piece as often as it occurs |
| Text.Split | src/document_index.rs:90 | splitting always yields at least one piece |
| Text.SplitPieceSound | src/document_index.rs:90 | every piece of a split is a maximal separator-free slice of the input |
| Text.SplitPieceComplete | src/document_index.rs:90 | every maximal separator-free slice of the input is a piece of the split |
| Text.PieceAvoidsSeparator | src/document_index.rs:90 | no piece of a split contains a separator |
| Text.Lines | src/document_index.rs:76 | no line holds a newline, and only empty text has no lines |
| Text.LinesRoundTrip | src/document_index.rs:76 | for text without carriage returns, joining the lines back with a newline after each gives the text, with a final newline added if it was missing |
| Text.LinesOfUnlines | src/document_index.rs:155 | lines ended by `"\n"` read back unchanged, and so does an unterminated last line, provided no line holds a newline or ends with a carriage return |
| Text.LinesOfUnlinesCrLf | src/document_index.rs:171 | lines ended by `"\r\n"` read back unchanged, provided no line holds a newline: exactly one carriage return is cut before each newline, and a carriage return ending an unterminated last line is kept |
| Text.Find | src/document_index.rs:225 | the result is the first position of the query, and there is none exactly when the query does not occur |
| Text.JoinContainsLine | src/document_index.rs:175 | every line of a `"\n"`-joined window occurs in the joined text at its offset |
| Postings.AddFilePostings | src/document_index.rs:75-85 | indexing a file appends to each term's list exactly that term's occurrences in the file |
| Postings.IndexWalkPostings | src/document_index.rs:52-72 | a scan only appends: each term's new list is its old list followed by its occurrences in the indexed files, in walk order |
| Postings.RescanAppends | src/document_index.rs:243-246 | a build after `update_extensions` appends a second round: each term's list is its list before the first build, then the occurrences found under the old extensions, then those found under the new ones |
| Postings.OccurrencesExact | src/document_index.rs:75-85 | a posting of a term in a file is exactly a line of the file whose terms include that term |
| Postings.OccurrencesOrdered | src/document_index.rs:76-83 | a file's postings for one term have strictly increasing line numbers, so a word repeated on a line gives that line one posting |
| Postings.WalkOccurrencesExact | src/document_index.rs:52-72 | every posting a scan appends names an indexable, readable file of the walk and a line inside it that contains the term, and every such line of every such file gets one |
| Postings.AddLineInsert | src/document_index.rs:78-83 | pushing onto the list of one more term extends the effect of one line, whatever order the set is visited in |
| Postings.IndexWalkValid | src/document_index.rs:52-72 | after a scan, every key is a well-formed term with a non-empty list |
| Postings.IndexWalkKeys | src/document_index.rs:52-72 | after a scan, the keys are exactly the old keys plus the terms the scan met |
| Ranking.RelevanceBounds | src/document_index.rs:203-209 | a score with at least one match lies in (0, 1] |
| Ranking.RelevanceOrder | src/document_index.rs:166 | under a shared denominator, scores compare exactly as match counts do |
| Ranking.SortDesc | src/document_index.rs:166 | the sorted candidates have non-increasing scores and are a permutation of the candidates |
| Ranking.SortDescStable | src/document_index.rs:166 | for every score, the candidates with that score keep their original order |
| Ranking.SortDescUnique | src/document_index.rs:166 | any arrangement that is sorted, a permutation and stable equals the sort's output |
| Ranking.TopAreBest | src/document_index.rs:166-169 | a candidate left out by `take(limit)` scores no higher than any candidate kept |
| Snippets.ContextWindowBounds | src/document_index.rs:173-175 | the window lies inside the file and contains the line; it has at most 13 lines, and up to six on each side as far as the file allows |
| Snippets.ContextSnippet | src/document_index.rs:173-175 | the context snippet contains the matching line in full, and every other line of the window too |
| Snippets.ExtractSnippet | src/document_index.rs:223-241 | a snippet is at most `max_len` characters plus the marker |
| Snippets.SnippetAroundMatch | src/document_index.rs:225-233 | with a match at `idx`, the window starts `min(idx, max_len/4)` before `idx` and ends at the content's end or `max_len` further on; the marker is added exactly when it ends early, and never for a clipped start |
| Snippets.SnippetShowsMatch | src/document_index.rs:225-233 | a query of at most three quarters of `max_len` appears whole in the snippet |
| Snippets.SnippetWindow | src/document_index.rs:223-241 | in both branches the snippet is one window `content[start..end]` of at most `max_len` characters; the window reaches the end of the content or is `max_len` long; the marker follows exactly when characters are left out after it; without a match the window starts at 0, and with one it starts `min(idx, max_len/4)` before `idx` |
| Corpus.IsIndexableFile | src/document_index.rs:216-221 | a file qualifies exactly when its extension equals one of the supported extensions; a file without an extension never qualifies |
| Search.HitsSound | src/document_index.rs:108-121 | every hit is an indexable, readable file of the walk whose lower-cased text contains the lower-cased query, and it carries that file's snippet |
| Search.HitsComplete | src/document_index.rs:108-121 | every such file of the walk yields a hit |
| Search.HitsConcat | src/document_index.rs:104-129 | the hits of a walk are those of its first part followed by those of the rest, so hits come in walk order |
| Search.RelevantCodeResults | src/document_index.rs:100-132 | the result has `min(max(limit, 1), #hits)` snippets and is a prefix of the hits in walk order; each comes from an indexable, readable file whose lower-cased text contains the lower-cased query |
| Search.RelevantCodeShowsQuery | src/document_index.rs:116-117 | for a query of at most 768 characters, every snippet returned contains the query regardless of case |
| Search.RelevantCodeStopsAtCap | src/document_index.rs:122-124 | once a first part of the walk yields as many hits as the cap, nothing after it changes the result |
| Search.FileCandidatesExact | src/document_index.rs:155-160 | a candidate of a file is exactly a line of it with a positive match count, scored with that count |
| Search.WalkCandidatesExact | src/document_index.rs:141-164 | a candidate is exactly a line of an indexable, readable file of the walk that matches at least one query term |
| Search.ScoredSearchIsTop | src/document_index.rs:166-190 | over a static corpus, result `k` is built from the `k`-th best candidate, and there are exactly `min(limit, #candidates)` results |
| Search.ScoredSearchSorted | src/document_index.rs:166 | the results' scores never increase |
| Search.ScoredSearchSound | src/document_index.rs:169-187 | each result comes from an indexable, readable file of the walk; its `file_type` is that file's extension, one of the supported extensions, never "unknown"; its line exists and matches between one and all query terms, so its relevance is in (0, 1]; its snippet is the clamped window around the line and shows the line |
| Search.ScoredSearchStable | src/document_index.rs:166-169 | for each score, the kept candidates with that score are the first candidates with that score in walk and line order |
| Search.ScoredSearchKeepsBest | src/document_index.rs:166-169 | a candidate left out scores no higher than any result |
| Search.FinishResolved | src/document_index.rs:169-190 | when every kept candidate's file and line can be read, the results loop skips none of them |
| Search.ShortQueryFindsNothing | src/document_index.rs:136-139 | a query with no word longer than two characters finds nothing |
| Search.CapitalisedQueryFindsNothing | src/document_index.rs:135-139 | a query whose every term has a capital letter finds nothing |

## Left out

- The directory walk (`walkdir`) and `std::fs::read_to_string` are not modelled. They are I/O. The walk order and the readable files are taken as a `FileSystem` input, and a file missing from its map stands for any read error.
- A file changing or vanishing between the two reads of `search_with_scoring` is not modelled. That is I/O timing. The second read's guard is modelled, and proved always true over a static corpus.
- `open_or_build` is not modelled. It only creates a directory, which is I/O, and then calls `new`.
- The `f32` score is not modelled as floating point. The model keeps the integer match count and the term count; `Relevance` is their exact quotient as a real.
- The `corpus_root` field is stored but not used. The walk it would produce is the `FileSystem` input.
- Lengths are counted in characters, not bytes. The source's `w.len() > 2` in `extract_terms` and `search_with_scoring` counts UTF-8 bytes, so it agrees with the model only on ASCII text. A short non-ASCII word such as `éé` (two characters, four bytes) is a term or query term in the source but not in the model, so `ShortQueryFindsNothing` does not cover such queries.
- Unicode case mapping and Unicode `is_alphanumeric` are not modelled. The model uses ASCII for both, so lower-casing keeps the length.
- Byte offsets in `extract_snippet` are not modelled. The model counts characters, and so does not capture the panic when an offset found in the lower-cased copy falls inside a multi-byte character of the original.
- The `serde` derives on `SearchResult` and `CodeSnippet` are left out. They are library code.
- `anyhow` error plumbing is left out. No modelled operation can fail: each `Result` of the source is always `Ok`.
- `src/user_config.rs`, `src/lib.rs` and `src/bin/test_get_template.rs` are not part of this model. They handle configuration I/O, re-exports and a command-line entry point.
- The iteration order of the source's `HashSet` of line terms is not modelled. The loop visits the terms in an arbitrary order, and the map it produces is proved the same for every order.
