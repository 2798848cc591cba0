# A verified model of the search engine

The repository is a small search engine: `parser.cc` turns HTML pages into document records, `cppjieba`
cuts Chinese and ASCII text into words, `index.hpp` keeps a forward and an inverted index over those
words, `searcher.hpp` ranks documents for a query, and the bundled `httplib.h` and `limonp` carry the
answers over HTTP with a thread pool. This project models that code in Dafny, module by module, and
proves what it is for.

What the main theorems say:

- **Segmentation.** The trie on the heap refines a finite map. The ranges that the segmenter emits are a
  segmentation of maximum score among all of them, and the ranges of a non-ASCII run end where a state
  sequence of maximum score says, both with the floor that the code puts under every sum. The mix cut is
  such a segmentation with each longest run of lone runes cut again by the model, filter range by filter
  range. Words never lose or invent a byte: the words of a sentence that decodes concatenate to the
  sentence. In the query cut every word stands behind all its dictionary windows of two and three runes,
  which can be dropped again.
- **Index and search.** After any number of documents the inverted index maps every keyword to its
  posting list, one entry per document that holds it. A search lists exactly what a naive scan of all
  documents lists, each document once, with its url, title and excerpt, sorted by a score that adds 40 for
  each title keyword and 1 for each content keyword that is a query token.
- **Wire formats.** Document records, query strings, chunked coding and multipart form data are printed
  and parsed back. Each round trip is stated with the exact condition under which it holds.
- **MD5.** However its bytes were cut, a message has the digest that RFC 1321 defines by padding and blocks.
- **Threads.** The monitor queue is first-in first-out and forgets no sleeper, and the thread pool's
  stop completes in every interleaving, with every accepted task run exactly once.

## How the model is laid out

One module per source file or protocol, in the file of the same name. Code that changes state step by
step is a class or a method with loops, proved against a specification function; the theorems are
lemmas about those functions. Objects keep the fields of the source. Concurrency is a state machine
whose steps are what one thread does while it holds the mutex.

Runes and bytes are bounded integers. Weights are real numbers given as inputs. A stream returns any
positive number of the bytes asked for. The MD5 block transform, the segmenter that the index calls
and the unordered iteration of hash maps are left arbitrary, so the theorems hold for all of them.

Where code and intent disagree, the model follows the code:

- `Unicode32ToUtf8` masks the lead byte of a four-byte sequence with two bits, so the UTF-8 round trip
  holds exactly for runes below 0x100000 (`StringUtil.Utf8RoundTrip`, `StringUtil.LastPlaneLost`).
- The block loop of MD5's `Update` compares a 32-bit sum that can wrap. The loop stops, and then where it
  should, exactly when the buffered bytes and the input together stay below 2^32 or nothing is buffered;
  otherwise it never stops (`Md5.LoopStopsIff`, `Md5.LongestInputNeverStops`).
- A record with an empty content is read back with too few fields, because separators are compressed
  (`Records.RecordsRoundTrip`, `Records.EmptyContentLost`).
- The excerpt of a hit never includes the last byte of the content, so a keyword that ends the content
  is cut (`Searcher.DescShowsKeyword`, `Searcher.LastKeywordCut`).
- A query-string value that holds a percent escape is decoded to something else, because `encode_url`
  leaves the percent sign alone (`QueryString.QueryRoundTrip`, `QueryString.EscapedValueLost`).
- A multipart content that holds a delimiter is cut short there (`Multipart.DelimiterCutsContent`), and an
  empty item list is not accepted (`Multipart.NothingSent`). Names are not escaped: a quote in a name is
  harmless (`Multipart.HarmlessQuote`) unless a filename field seems to follow it
  (`Multipart.MisleadingQuote`). `Multipart.MultipartRoundTrip` has the exact condition.
- A chunk that lacks its line end is not refused: the reading stops with success, and what came before
  counts as everything (`Chunked.BadChunkEnd`).
- A provider of chunked data that returns without a write keeps the loop going, while an empty write
  ends it without the end marker; the round trip holds exactly when no call but the last stops the loop
  (`Chunked.ChunkedRoundTrip`, `Chunked.EmptyWriteStalls`).

## Model

| member | source | states |
|---|---|---|
| `Unicode.DecodeRunesInString` | cppjieba/Unicode.hpp:142-157 | The decoding loop returns the decoded runes with their offsets, or fails and returns none |
| `Unicode.DecodeTiles` | cppjieba/Unicode.hpp:142-157 | On success the rune offsets tile the bytes: each rune starts where the last one ended, the first at 0, the last ends at the end |
| `StringUtil.Utf8ToUnicode32` | cppjieba/limonp/StringUtil.hpp:224-277 | The second decoder agrees with the first on every byte string: on success, and then on the runes |
| `StringUtil.Unicode32ToUtf8` | cppjieba/limonp/StringUtil.hpp:279-302 | The encoding loop appends the bytes of every rune in order |
| `StringUtil.DecodeOneEncoded` | cppjieba/limonp/StringUtil.hpp:285-299 | One encoded rune in front of any bytes is decoded by itself, with the two bits that the lead byte loses |
| `StringUtil.DecodeEncoded` | cppjieba/limonp/StringUtil.hpp:279-302 | Decoding what was encoded always succeeds, and gives every rune with the lost bits cleared |
| `StringUtil.Utf8RoundTrip` | cppjieba/limonp/StringUtil.hpp:279-302 | The round trip returns the same runes if and only if all are below 0x100000, with offsets tiling the bytes |
| `Unicode.RunEndIsMaximal` | cppjieba/HMMSegment.hpp:86-93 | A run scanned by a rule is the longest one: everything in it satisfies the rule and the next rune does not |
| `Unicode.GetWordsFromWordRanges` | cppjieba/Unicode.hpp:206-210 | The words of ranges inside the runes are the slices of the sentence that the ranges span, in order |
| `Unicode.GetStringsFromWords` | cppjieba/Unicode.hpp:218-223 | The strings of the words, in order |
| `Unicode.TilingConserves` | cppjieba/Unicode.hpp:193-210 | Ranges that tile the runes read back as exactly the bytes between their ends |
| `Trie.LastKeyWins` | cppjieba/Trie.hpp:172-181 | After building from key and value lists, a key has the value of its last equal entry, and no value if there is none |
| `Trie.LongerEdgesExact` | cppjieba/Trie.hpp:104-116 | The collected edges are exactly the dictionary words starting at i within the length limit, in increasing end order |
| `Trie.Trie.constructor` | cppjieba/Trie.hpp:53-56 | The new trie is a tree whose lookups are those of the built map; with either list empty nothing is inserted |
| `Trie.Trie.CreateTrie` | cppjieba/Trie.hpp:172-181 | The building loop inserts the pairs in order |
| `Trie.Trie.InsertNode` | cppjieba/Trie.hpp:120-143 | Insertion keeps the nodes a tree without sharing and changes lookup at the inserted non-empty key only |
| `Trie.Trie.Descend` | cppjieba/Trie.hpp:128-139 | One step down finds or creates the child, and changes no lookup |
| `Trie.Trie.AttachChild` | cppjieba/Trie.hpp:132-136 | A new child joins the tree at its own path and no other |
| `Trie.Trie.StoreValue` | cppjieba/Trie.hpp:141-142 | Storing at the reached node changes the value of that key alone |
| `Trie.Trie.Find` | cppjieba/Trie.hpp:61-79 | The walk over a rune range returns what the map holds for those runes, NULL for an empty range |
| `Trie.Trie.NoLongerEdges` | cppjieba/Trie.hpp:105-111 | Once the walk falls off the tree no longer word can follow, so the early break loses none |
| `Trie.Trie.FindDag` | cppjieba/Trie.hpp:81-118 | Every entry of the graph holds its rune and exactly the edges that independent lookups give |
| `Trie.Trie.SingleRune` | cppjieba/Trie.hpp:93-102 | The single rune is always an edge, with the unit of that one-rune word if there is one |
| `Trie.Trie.OneStep` | cppjieba/Trie.hpp:105-115 | One step of the walk: a missing child ends it with nothing lost, and a node is an edge exactly if it has a value |
| `Trie.Trie.EdgesFrom` | cppjieba/Trie.hpp:90-117 | The incremental walk from one start gives the single rune first and then every longer word |
| `DictTrie.UnitsWellKeyed` | cppjieba/DictTrie.hpp:182-192 | A dictionary built from units maps every word to a unit of that same word |
| `DictTrie.DictTrie.constructor` | cppjieba/DictTrie.hpp:182-192 | The dictionary's trie answers lookups by the last unit of each word |
| `DictTrie.DictTrie.InsertUserWord` | cppjieba/DictTrie.hpp:43-51 | A user word is inserted under its runes if it decodes, and the dictionary is unchanged if it does not |
| `MPSegment.RelaxIsMaximum` | cppjieba/MPSegment.hpp:86-106 | The chosen edge bounds every edge of the entry and is one of them, unless none rises above the floor |
| `MPSegment.RelaxDag` | cppjieba/MPSegment.hpp:86-106 | The inner loop writes the chosen edge and weight into its own entry and leaves all others alone |
| `MPSegment.CalcDP` | cppjieba/MPSegment.hpp:80-108 | The reverse loop fills every entry with the solution of the recurrence and keeps runes and edges |
| `MPSegment.CutByDag` | cppjieba/MPSegment.hpp:109-127 | The forward loop appends the ranges that the chosen units spell |
| `MPSegment.Cut` | cppjieba/MPSegment.hpp:55-66 | The ranges appended cover the range in order, each a single rune or a dictionary word within the given limit, and no other such cut scores more |
| `MPSegment.Problem.NoBetterSegmentation` | cppjieba/MPSegment.hpp:80-108 | No split into single runes and dictionary words within the length limit scores above the table's weight |
| `MPSegment.Problem.CutAttains` | cppjieba/MPSegment.hpp:109-127 | The cut read off the table is a segmentation, and its score is the table's weight |
| `MPSegment.Problem.ChosenIsOptimal` | cppjieba/MPSegment.hpp:80-127 | The chosen segmentation scores at least as much as every other one |
| `MPSegment.Problem.RangesTile` | cppjieba/MPSegment.hpp:109-127 | The chosen ranges are contiguous, disjoint and cover the text |
| `MPSegment.Problem.RangesOptimal` | cppjieba/MPSegment.hpp:80-127 | The emitted ranges themselves are a cut of maximum score within the length limit |
| `MPSegment.Problem.ScoreIsSum` | cppjieba/MPSegment.hpp:86-106 | A score is the plain sum of dictionary weights, and the minimum for unknown runes, as long as no sum falls below -3.14e100; it is never below that sum |
| `HMMSegment.HMMModel.RelaxStateIsMaximum` | cppjieba/HMMSegment.hpp:153-164 | The entry of a state bounds all predecessors and is attained by one, or is the floor with the default back-pointer |
| `HMMSegment.HMMModel.NoBetterStates` | cppjieba/HMMSegment.hpp:143-166 | No state sequence scores above the table's entry for its last state |
| `HMMSegment.HMMModel.BacktrackAttains` | cppjieba/HMMSegment.hpp:177-181 | Following the back-pointers gives a sequence whose score is exactly the table's entry, default pointers included |
| `HMMSegment.HMMModel.DecodedIsOptimal` | cppjieba/HMMSegment.hpp:130-182 | The decoded sequence ends in an odd state and scores at least as much as every sequence that ends in E or S |
| `HMMSegment.HMMModel.ScoreIsSum` | cppjieba/HMMSegment.hpp:143-166 | A score is the plain sum of start, transition and emission terms as long as no sum falls below -3.14e100, and never below that sum |
| `HMMSegment.HMMModel.Viterbi` | cppjieba/HMMSegment.hpp:130-182 | The two tables and the backward pass return the decoded sequence |
| `HMMSegment.HMMModel.FillTables` | cppjieba/HMMSegment.hpp:143-166 | The nested loops fill both flat tables with the columns of the recurrence |
| `HMMSegment.HMMModel.FillEntry` | cppjieba/HMMSegment.hpp:153-164 | The inner loop writes one entry of both tables and no other |
| `HMMSegment.HMMModel.ReadBack` | cppjieba/HMMSegment.hpp:177-181 | The backward loop writes the states that the back-pointers name |
| `HMMSegment.SequentialLetterRule` | cppjieba/HMMSegment.hpp:79-95 | A letter starts the longest run of letters and digits, anything else nothing |
| `HMMSegment.NumbersRule` | cppjieba/HMMSegment.hpp:97-113 | A digit starts the longest run of digits and dots, anything else nothing |
| `HMMSegment.AsciiToken` | cppjieba/HMMSegment.hpp:55-65 | The two rules in order, and otherwise a single rune |
| `HMMSegment.AsciiEndToken` | cppjieba/HMMSegment.hpp:54-112 | A token is a letter with all letters and digits behind it, a digit with all digits and dots behind it, or another single ASCII rune |
| `HMMSegment.InternalCut` | cppjieba/HMMSegment.hpp:114-128 | The ranges appended cover the run in order, and a range ends exactly where a best state sequence that ends in state 1 or 3 has state 1 or 3 |
| `HMMSegment.RunRangesCut` | cppjieba/HMMSegment.hpp:114-128 | The ranges of a run end exactly at the states 1 and 3 of a best state sequence |
| `HMMSegment.StatusRangesEnd` | cppjieba/HMMSegment.hpp:120-127 | A range ends at a position if and only if the state there is odd |
| `HMMSegment.StatusRangesTile` | cppjieba/HMMSegment.hpp:114-128 | With an odd last state the ranges cover the run, so no tail is dropped |
| `HMMSegment.Cut` | cppjieba/HMMSegment.hpp:46-76 | The cursor loop appends the ASCII tokens and the cuts of the runs between them |
| `HMMSegment.HmmRangesPartition` | cppjieba/HMMSegment.hpp:46-76 | The output covers any range contiguously, and each part is all non-ASCII or one maximal ASCII token |
| `HMMSegment.HmmRangesCut` | cppjieba/HMMSegment.hpp:46-75 | The output covers the range in order, each ASCII range is one token, and each longest non-ASCII run is cut as a best state sequence says |
| `PreFilter.PreFilter.constructor` | cppjieba/PreFilter.hpp:17-24 | The cursor starts at the decoded runes, of which there are none if the sentence does not decode |
| `PreFilter.NextEndExact` | cppjieba/PreFilter.hpp:33-44 | A range is a single separator, or the longest stretch without any |
| `PreFilter.FilterRangeNext` | cppjieba/PreFilter.hpp:30-43 | The range at the cursor is a separator alone or a longest stretch without any, and all others lie behind it |
| `PreFilter.PreFilter.Next` | cppjieba/PreFilter.hpp:30-45 | The next range starts at the cursor, is not empty while there is one, and moves the cursor to its end |
| `MixSegment.Config.LoneStretch` | cppjieba/MixSegment.hpp:65-69 | A run of lone runes is one contiguous stretch of the sentence |
| `MixSegment.Config.LoneIsMaximal` | cppjieba/MixSegment.hpp:65-69 | The scan stops exactly at the end of the longest run of single runes outside the user dictionary |
| `MixSegment.Config.MergeTiles` | cppjieba/MixSegment.hpp:58-85 | Replacing stretches of lone runes by their re-cuts keeps the ranges contiguous and covering |
| `MixSegment.Config.MixRangesTile` | cppjieba/MixSegment.hpp:46-86 | The range cut covers its range contiguously, with and without the model |
| `MixSegment.Config.MergeRecuts` | cppjieba/MixSegment.hpp:58-85 | The merge keeps every word that is no lone rune and replaces each longest run of lone runes by the model's cut of its runes |
| `MixSegment.Config.MixRangesCut` | cppjieba/MixSegment.hpp:46-86 | Without the model the ranges are an optimal segmentation with words of at most 512 runes; with it they are such a segmentation with its lone runes cut again |
| `MixSegment.Config.SentenceRangesTile` | cppjieba/MixSegment.hpp:37-40 | All ranges of a sentence together cover its runes |
| `MixSegment.Config.SentenceRangesCut` | cppjieba/MixSegment.hpp:37-40 | The ranges of a sentence hold, in order, the cut of every filter range |
| `MixSegment.Config.SentenceWordsCut` | cppjieba/MixSegment.hpp:32-44 | The words of a sentence are those of a cut of all its filter ranges if it decodes, and none otherwise |
| `MixSegment.Config.WordsConserveSentence` | cppjieba/MixSegment.hpp:32-44 | The words of a sentence concatenate to exactly the sentence if it decodes, and there are none otherwise |
| `MixSegment.MixSegment.CutRange` | cppjieba/MixSegment.hpp:46-86 | With hmm set the ranges appended are an optimal segmentation with its lone runes cut again by the model, and otherwise the optimal segmentation |
| `MixSegment.MixSegment.MergeLone` | cppjieba/MixSegment.hpp:58-85 | The merging loop with its index jumps gives the merged ranges |
| `MixSegment.MixSegment.CutLone` | cppjieba/MixSegment.hpp:65-74 | One stretch is found to its end and re-cut by the model |
| `MixSegment.MixSegment.Append` | cppjieba/MixSegment.hpp:76-78 | The copying loop appends the re-cut ranges in order |
| `MixSegment.MixSegment.Cut` | cppjieba/MixSegment.hpp:32-44 | The words returned are those of a cut of all pre-filtered ranges, or none if the sentence does not decode |
| `MixSegment.MixSegment.FilterAndCut` | cppjieba/MixSegment.hpp:37-40 | The loop over the filter's ranges cuts each of them in order |
| `QuerySegment.GramsExact` | cppjieba/QuerySegment.hpp:55-70 | The grams of a word are exactly its windows of that size found in the dictionary, in order and inside the word |
| `QuerySegment.QueryRangesAccompanied` | cppjieba/QuerySegment.hpp:54-72 | Before every mix word stand its dictionary windows of two runes if it is longer than two, then those of three if it is longer than three, all of them in order, and nothing else is added |
| `QuerySegment.DroppingGramsLeavesMix` | cppjieba/QuerySegment.hpp:54-72 | Dropping every range that lies inside a later one leaves the mix cut in order |
| `QuerySegment.QuerySegment.AddGrams` | cppjieba/QuerySegment.hpp:56-61 | The window loop appends the dictionary grams of one size |
| `QuerySegment.QuerySegment.AddWord` | cppjieba/QuerySegment.hpp:55-71 | One word is appended behind all its windows of two and three runes that the dictionary knows |
| `QuerySegment.QuerySegment.CutRange` | cppjieba/QuerySegment.hpp:48-73 | The ranges appended are a mix cut with every word behind all its dictionary windows, and nothing else |
| `KeywordExtractor.SingleWordExact` | cppjieba/Unicode.hpp:176-179 | A word is single if and only if it is empty or decodes to one rune |
| `KeywordExtractor.TableOffsets` | cppjieba/KeywordExtractor.hpp:64-72 | Every recorded offset is an occurrence of its word in the sentence, the offsets increase, and the weight is their number |
| `KeywordExtractor.TableExact` | cppjieba/KeywordExtractor.hpp:64-72 | Exactly those words are in the table, with one offset for each time they occur |
| `KeywordExtractor.TableRecords` | cppjieba/KeywordExtractor.hpp:64-72 | The place of every word that is neither a single rune nor a stop word is recorded |
| `KeywordExtractor.KeywordExtractor.Extract` | cppjieba/KeywordExtractor.hpp:58-90 | The words are illegal exactly when the sentence does not decode; otherwise the answer is the topN heaviest keywords of its words, and the weight of each is its count times its entry in the IDF table or the average |
| `KeywordExtractor.KeywordExtractor.TopWeights` | cppjieba/KeywordExtractor.hpp:76-86 | A keyword weighs the number of its offsets times its inverse document frequency, the average if it has none |
| `KeywordExtractor.TopExact` | cppjieba/KeywordExtractor.hpp:87-89 | The answer has min(topN, size) distinct keywords of the table in descending weight, and no omitted keyword weighs more |
| `KeywordExtractor.PartialSort` | cppjieba/KeywordExtractor.hpp:88-88 | A permutation whose first n are in descending order and weigh at least as much as the others |
| `KeywordExtractor.KeywordExtractor.Heaviest` | cppjieba/KeywordExtractor.hpp:76-89 | The table is listed, partially sorted and cut to topN |
| `KeywordExtractor.KeywordExtractor.Collect` | cppjieba/KeywordExtractor.hpp:76-86 | The second loop lists every keyword once with its final weight, whatever the iteration order |
| `KeywordExtractor.KeywordExtractor.Tabulate` | cppjieba/KeywordExtractor.hpp:63-72 | The counting loop ends with the total length and the table of all keywords |
| `Text.FindIsFirst` | httplib.h:3113-3113 | The searched position is an occurrence with none before it, and none is found only if there is none |
| `Records.ParseContent` | parser.cc:135-177 | The status loop keeps exactly the characters after a '>' with no '<' in between, line ends as blanks |
| `Records.SaveDocInfo` | parser.cc:244-275 | The saving loop writes every document as one line of three fields |
| `Records.RecordSpelled` | parser.cc:262-269 | A record is title, content and url with the byte 3 between them and a newline behind |
| `Records.TokenFrom` | util.hpp:66-76 | No field holds a separator, and every character of a field comes from the line |
| `Records.TokenNonempty` | util.hpp:66-76 | With compressed separators only the first and the last field can be empty |
| `Records.RecordParsed` | index.hpp:173-181 | The line of a clean document is read back field by field |
| `Records.ParsedClean` | index.hpp:173-181 | Whatever is read from a line has plain fields and a non-empty content |
| `Records.RecordsRoundTrip` | parser.cc:244-275 | The saved file is read back as the same documents if and only if all fields are free of separator and newline and every content is non-empty |
| `Index.JiebaUtil.CutStringNoStop` | util.hpp:99-116 | The erasing loop leaves exactly the words whose lower case is no stop word, in order |
| `Index.KeywordsExact` | util.hpp:99-116 | A keyword occurs as often as its word in any case occurs in the text, and a stop word not at all |
| `Index.LowerExact` | index.hpp:218-218 | Two words have the same lower case if and only if they differ at most in the case of the 26 letters, and no capital is left |
| `Index.WeightPositive` | index.hpp:235-243 | A keyword weighs something exactly in the documents that hold it |
| `Index.PostingsExact` | index.hpp:239-248 | A posting list has one entry for each document that holds the keyword, with its weight, in strictly increasing id |
| `Index.SavedDocs` | index.hpp:142-144 | The file that the parser saves for clean documents is read as exactly those documents, title, content and url in their fields, numbered in order |
| `Index.Index.constructor` | index.hpp:80-80 | The empty index is valid |
| `Index.Index.GetInvertedList` | index.hpp:103-114 | The list of a keyword is its postings over all documents, NULL when there are none |
| `Index.Index.GetForwardIndex` | index.hpp:117-125 | A document is found exactly when its id is in range, and carries that id |
| `Index.Index.BuildIndex` | index.hpp:130-165 | The documents of the file are appended in order, and both indexes stay in step; without a file nothing changes |
| `Index.Index.BuildForwardIndex` | index.hpp:169-189 | The next document gets the next id |
| `Index.Index.BuildInvertedIndex` | index.hpp:207-251 | Every keyword's list becomes its postings over all documents including the new one |
| `Index.Index.CountKeywords` | index.hpp:209-231 | The map counts every lower-cased keyword of title and content, and no other |
| `Index.Index.AddItems` | index.hpp:239-248 | Each counted keyword's list gains one entry, every other list is unchanged, whatever the iteration order |
| `Index.ItemIsEntry` | index.hpp:235-243 | The item of a counted keyword is its posting: 40 for each title occurrence and 1 for each content occurrence |
| `Searcher.NaiveScanCounts` | searcher.hpp:79-103 | The scan lists every document that holds a query token exactly once |
| `Searcher.MatchedHolds` | searcher.hpp:90-102 | The keywords of a hit are the query tokens that the document holds |
| `Searcher.ScoreSum` | searcher.hpp:79-103 | The score of tokens one after the other is the sum of their scores |
| `Searcher.ScoreOne` | searcher.hpp:90-102 | A token scores 40 for each time it is a keyword of the title and 1 for each time it is one of the content |
| `Searcher.MatchedFirst` | searcher.hpp:90-102 | The first keyword of a hit is the first query token that the document holds |
| `Searcher.MatchedScores` | searcher.hpp:90-102 | A document matches exactly when its score is positive |
| `Searcher.GainedOne` | searcher.hpp:90-102 | One posting changes its own document's entry by its weight and keyword, and no other entry |
| `Searcher.TokenAggregated` | searcher.hpp:79-103 | After a token's list every document has its score and keywords for the tokens so far |
| `Searcher.Searcher.Aggregate` | searcher.hpp:79-103 | The loops over tokens and postings leave the score and the keywords of every matching document |
| `Searcher.Searcher.Collect` | searcher.hpp:106-113 | The collected vector is a permutation of the naive scan, whatever the iteration order |
| `Searcher.SortByWeight` | searcher.hpp:120-123 | The sort permutes its input into descending weight |
| `Searcher.RankingExact` | searcher.hpp:65-123 | A ranked list has each document at most once, a document if and only if it holds a query token, and as its weight the sum over the tokens of 40 for each title and 1 for each content keyword |
| `Searcher.RankingRenderable` | searcher.hpp:139-156 | Every document of a ranked list can be looked up and has a first keyword |
| `Searcher.AnswersShow` | searcher.hpp:139-156 | Each entry shows url, title and an excerpt around the first token held, of the documents that hold a token, higher scores first |
| `Searcher.Searcher.InitSearcher` | searcher.hpp:40-52 | The index holds the documents of the parser's file, and both indexes stay in step |
| `Searcher.Searcher.Search` | searcher.hpp:65-169 | The answer shows each document that holds a lower-cased query token once, by descending score, with its url, title and excerpt, or the single nothing-found entry |
| `Searcher.DescShowsKeyword` | searcher.hpp:171-221 | The excerpt shows the first occurrence of the keyword in whole if and only if it has at most 100 bytes and does not end the content |
| `Searcher.DescMissing` | searcher.hpp:192-198 | The excerpt is the notice that the keyword does not exist if and only if the keyword agrees with the content nowhere |
| `QueryString.FromHexToI` | httplib.h:1316-1331 | The digit loop reads exactly the given number of digits or fails |
| `QueryString.DecodeUrl` | httplib.h:1491-1526 | The decoding loop handles both kinds of escapes, plus signs and stray percent signs |
| `QueryString.EncodeUrl` | httplib.h:1460-1489 | The encoding loop escapes the special bytes and stops at a NUL |
| `QueryString.EncodeEmits` | httplib.h:1460-1489 | Nothing encoded holds a byte from 0x80 up, NUL, blank, plus sign, line end, quote, comma or semicolon |
| `QueryString.EncodeOne` | httplib.h:1463-1485 | Exactly these bytes are escaped, each as a percent sign and its two capital hexadecimal digits |
| `QueryString.DecodeRaw` | httplib.h:1491-1526 | Decoding shortens a text exactly when it holds an escape, and otherwise only turns plus signs into spaces |
| `QueryString.DecodeEncode` | httplib.h:1460-1526 | Decoding what was encoded gives it back exactly when it holds neither a NUL nor an escape |
| `QueryString.Trim` | httplib.h:1546-1555 | The two cursor loops leave the trimmed piece, or crossed bounds when nothing is left |
| `QueryString.Split` | httplib.h:1562-1579 | The splitting loop delivers the non-empty trimmed pieces between delimiters in order |
| `QueryString.ParamsToQueryStr` | httplib.h:2999-3009 | The printing loop joins the pairs with the values encoded |
| `QueryString.ParseQueryText` | httplib.h:3011-3027 | The parser takes the first field of a piece as key and the last of the others as value |
| `QueryString.ParseItem` | httplib.h:3013-3025 | One piece gives at most one pair |
| `QueryString.ParseBound` | httplib.h:3011-3027 | No query string gives more characters than its decoded text holds besides the separators |
| `QueryString.QueryRoundTrip` | httplib.h:2999-3027 | The parsed pairs are the printed multimap if and only if every key is non-empty without plus sign, separators, escapes and outer blanks, and every value is without NUL, separators, escapes and outer tabs |
| `Chunked.FromIToHex` | httplib.h:1333-1341 | The digit loop prints the hexadecimal form of the size |
| `Chunked.HexRoundTrip` | httplib.h:2668-2671 | The printed size in front of a line end is read back as the same number, all digits consumed |
| `Chunked.Stream.Read` | httplib.h:2611-2612 | A read returns some of the bytes asked for, in order, and nothing only at the end |
| `Chunked.StreamLineReader.Append` | httplib.h:1637-1648 | A byte is appended to the line whichever buffer holds it |
| `Chunked.StreamLineReader.GetLine` | httplib.h:1610-1634 | One line is read up to and including its newline, or to the end; it fails only at the end of the stream |
| `Chunked.ReadContentWithLength` | httplib.h:2603-2623 | Short reads deliver exactly the wanted bytes, or all there are and failure |
| `Chunked.ReadOneChunk` | httplib.h:2675-2683 | One round delivers a chunk, checks its line end and reads the next size line |
| `Chunked.ReadContentChunked` | httplib.h:2655-2693 | The reading loop has the verdict, the payload and the rest that the format gives, for any short reads |
| `Chunked.DataSink.Write` | httplib.h:2894-2918 | A write emits one chunk, or nothing if it is empty, and remembers whether data goes on |
| `Chunked.DataSink.Done` | httplib.h:2920-2948 | Done emits the end marker and ends the data |
| `Chunked.WriteContentChunked` | httplib.h:2884-2965 | The provider loop emits the chunks of every call until one ends the data |
| `Chunked.ChunkRead` | httplib.h:2665-2684 | A chunk in front of more is read as its payload and the reading of the rest, and alone it fails |
| `Chunked.ShortChunk` | httplib.h:2675-2677 | A stream that ends inside a chunk is refused after its bytes have been delivered |
| `Chunked.BadChunkEnd` | httplib.h:2679-2681 | A chunk without its line end stops the reading with success |
| `Chunked.BadEnd` | httplib.h:2686-2690 | The end marker without its second line end is refused |
| `Chunked.EmittedReads` | httplib.h:2884-2965 | Whatever a run emits that ends with done is read back as all its bytes, leaving what follows untouched |
| `Chunked.ChunkedRoundTrip` | httplib.h:2655-2693 | For a run that ends once with done, reading the emitted bytes gives all written bytes and consumes everything if and only if no earlier call ends the loop |
| `Multipart.MatchNameFirst` | httplib.h:3086-3089 | The lazy name group ends at the first quote behind which the rest matches |
| `Multipart.NameMatched` | httplib.h:3086-3089 | A sent name and filename are matched as they are if and only if no quote inside the name seems to open a filename field |
| `Multipart.DispositionMatched` | httplib.h:5628-5631 | In a sent disposition line the name group starts right behind the quote that opens the name |
| `Multipart.TypeMatched` | httplib.h:5633-5635 | The type line is recognised although its case differs, and trimmed to the type |
| `Multipart.DescribedIff` | httplib.h:3128-3137 | The headers describe the item as sent if and only if no quote in its name is taken for its end |
| `Multipart.BuildBody` | httplib.h:5613-5640 | A boundary with other characters is refused; otherwise the body is the parts of the items one after the other and the closing line |
| `Multipart.BodySpelled` | httplib.h:5622-5640 | The body is, for each item, its opening line, header lines, empty line, content and line end, and then the closing line |
| `Multipart.MultipartFormDataParser.Parse` | httplib.h:3083-3224 | One call runs the state machine over the buffered bytes and the new ones |
| `Multipart.MultipartFormDataParser.ParseStart` | httplib.h:3097-3106 | The initial boundary must stand at the start |
| `Multipart.MultipartFormDataParser.ParseHeaders` | httplib.h:3112-3145 | A header line changes the description, an empty one announces the item |
| `Multipart.MultipartFormDataParser.ParseBody` | httplib.h:3146-3195 | Content goes to the receiver up to a line end before dashes, then up to the delimiter |
| `Multipart.MultipartFormDataParser.ParseBoundary` | httplib.h:3196-3215 | A line end starts the next entry, two dashes and a line end complete the body |
| `Multipart.HeadersParsed` | httplib.h:3107-3145 | The header lines of an item are consumed and announce it with the description that they spell |
| `Multipart.ContentEnd` | httplib.h:3170-3183 | The delimiter is found right after the content, unless the content holds one |
| `Multipart.BodyParsed` | httplib.h:3146-3195 | The content is delivered up to the first delimiter, also when the search for dashes stops before |
| `Multipart.RunKeepsClosed` | httplib.h:3095-3224 | No later step changes an item whose content is complete |
| `Multipart.RunKeepsPlain` | httplib.h:3107-3145 | Whatever the bytes, an announced name and filename hold no line end, and a type no line break and no outer blanks |
| `Multipart.ReceivedIff` | httplib.h:3107-3195 | An item arrives as sent if and only if no quote in its name misleads and its content holds no delimiter |
| `Multipart.AcceptedShape` | httplib.h:3095-3224 | Whatever bytes are accepted begin with the opening line and end with the closing line |
| `Multipart.PlainRoundTrip` | httplib.h:3083-3224 | With one-line descriptions the items come back if and only if there is one and each arrives as sent |
| `Multipart.MultipartRoundTrip` | httplib.h:3083-3224 | One parse call over the posted body reproduces the items and ends valid if and only if there is an item and each has one-line names, a trimmed type without line break, no misleading quote in the name and no delimiter in the content |
| `Md5.Encode` | cppjieba/limonp/Md5.hpp:207-216 | Words are written low byte first |
| `Md5.Decode` | cppjieba/limonp/Md5.hpp:220-226 | Words are read low byte first |
| `Md5.DecodeEncodeWords` | cppjieba/limonp/Md5.hpp:207-226 | Decoding the encoded words gives them back |
| `Md5.FoldContinues` | cppjieba/limonp/Md5.hpp:266-279 | Folding a longer message continues from the state and the remainder of the shorter one |
| `Md5.RemainderOfSum` | cppjieba/limonp/Md5.hpp:278-279 | The new remainder depends on the old one and the new bytes only |
| `Md5.PaddedExact` | cppjieba/limonp/Md5.hpp:285-299 | The padded message is the message, 0x80, as few zeros as make whole blocks, and in its last eight bytes, low byte first, the bit length modulo 2^64 |
| `Md5.FoldChain` | cppjieba/limonp/Md5.hpp:266-274 | The state after whole blocks is the end of a chain of states, one transform for each block in order |
| `Md5.DigestExact` | cppjieba/limonp/Md5.hpp:285-307 | The digest is, word by word with the low byte first, the last state of that chain over the padded message |
| `Md5.InitialBytes` | cppjieba/limonp/Md5.hpp:240-244 | The initial state is the bytes 01 23 .. ef fe .. 10 |
| `Md5.CountIsBitLength` | cppjieba/limonp/Md5.hpp:258-262 | The two counter words hold the bit length modulo 2^64 |
| `Md5.CountStep` | cppjieba/limonp/Md5.hpp:258-262 | Adding to the low word with the carry found by comparison keeps both words right |
| `Md5.GuardExact` | cppjieba/limonp/Md5.hpp:271-272 | The 32-bit loop guard is right on every index it can meet if and only if no index wraps |
| `Md5.LoopStopsIff` | cppjieba/limonp/Md5.hpp:271-272 | The loop on 32-bit indices stops if and only if no index wraps, and it stops at the intended index only |
| `Md5.MD5.Init` | cppjieba/limonp/Md5.hpp:237-245 | A new context has absorbed the empty message |
| `Md5.MD5.AddCount` | cppjieba/limonp/Md5.hpp:258-262 | The counter words after more bytes are those of the longer message |
| `Md5.MD5.Update` | cppjieba/limonp/Md5.hpp:250-280 | State, buffer and counter after an update are those of everything fed so far |
| `Md5.MD5.Blocks` | cppjieba/limonp/Md5.hpp:267-274 | The buffered block and the whole blocks of the input go into the state, and the rest is left over |
| `Md5.MD5.Final` | cppjieba/limonp/Md5.hpp:285-307 | The digest is that of RFC 1321: the last state of the chain over the padded message, low bytes first; and the context is cleared |
| `Md5.MD5.DigestChunks` | cppjieba/limonp/Md5.hpp:250-307 | However a message is cut into updates below 2^32 - 64 bytes, its digest is the same |
| `BoundedQueue.Ring.PushedContents` | cppjieba/limonp/BoundedQueue.hpp:40-45 | A push appends to the contents between head and tail and keeps tail at head plus size modulo capacity |
| `BoundedQueue.Ring.PoppedContents` | cppjieba/limonp/BoundedQueue.hpp:47-53 | A pop takes the first of the contents |
| `BoundedQueue.BoundedQueue.Push` | cppjieba/limonp/BoundedQueue.hpp:40-45 | The fields after a push are those of the ring with the element appended |
| `BoundedQueue.BoundedQueue.Pop` | cppjieba/limonp/BoundedQueue.hpp:47-53 | The head element is returned and the fields are those of the ring without it |
| `BoundedQueue.BoundedQueue.Clear` | cppjieba/limonp/BoundedQueue.hpp:22-26 | Nothing is left in the queue |
| `Monitor.Mon.PushTryKeepsInv` | cppjieba/limonp/BoundedBlockingQueue.hpp:18-26 | A producer's turn at the mutex keeps order, places and wake-ups |
| `Monitor.Mon.PopTryKeepsInv` | cppjieba/limonp/BoundedBlockingQueue.hpp:28-37 | A consumer's turn at the mutex keeps order, places and wake-ups |
| `Monitor.Mon.SpuriousKeepsInv` | cppjieba/limonp/BoundedBlockingQueue.hpp:20-22 | A spurious wake-up keeps order, places and wake-ups |
| `Monitor.RunKeepsInv` | cppjieba/limonp/BoundedBlockingQueue.hpp:18-37 | In every interleaving, while somebody sleeps, a signalled thread is on its way for every item or free slot |
| `Monitor.RunIsFifo` | cppjieba/limonp/BoundedBlockingQueue.hpp:18-37 | In every run the items taken are the first ones stored, and the buffer holds the rest in order |
| `Monitor.NobodyForgotten` | cppjieba/limonp/BoundedBlockingQueue.hpp:18-37 | When no signalled thread is on its way, consumers sleep only on an empty queue and producers only on a full one, whatever woke up by itself |
| `ThreadPool.Pool.StepKeepsInv` | cppjieba/limonp/ThreadPool.hpp:24-75 | Every step of workers, adders and stop keeps the invariant that accounts for each item |
| `ThreadPool.Pool.ExitedIsComplete` | cppjieba/limonp/ThreadPool.hpp:24-39 | When all workers have exited, the queue is empty, each took one NULL, and every accepted task ran exactly once |
| `ThreadPool.Pool.ProgressIsSmaller` | cppjieba/limonp/ThreadPool.hpp:61-70 | After the stop has begun every step but a spurious wake-up decreases a well-founded measure |
| `ThreadPool.Pool.NoDeadlock` | cppjieba/limonp/ThreadPool.hpp:61-70 | After the stop has begun some step is possible until all workers have exited |
| `ThreadPool.ShutdownComplete` | cppjieba/limonp/ThreadPool.hpp:24-75 | In every run in which all workers have exited the shutdown is complete |
| `ThreadPool.StopAlwaysCompletes` | cppjieba/limonp/ThreadPool.hpp:61-70 | Every run in which the stop has begun extends to one in which all workers have exited |

## Left out

- Sockets, select and poll, SSL, compression, the HTTP client and server loops, `daemonize.hpp` and `logMessage.hpp`: input and output or libraries that are not part of the repository.
- `httplib.h` helpers with one branch and no state.
- JSON output of the search result: the answer is the list of entries, not its text.
- `parseTitle`, `parseUrl` and the directory walk of `parser.cc`: one search and one substring each.
- Loading dictionaries, the HMM model, IDF and stop words from files: their contents are parameters; `log` and `atof` are not part of this model.
- Rounding of floating-point weights: they are real numbers, and MIN_DOUBLE is an ordinary constant.
- The wrap-around of 64-bit weights and counters of the index at 2^64, and of byte offsets at 2^32: sentences are shorter than 2^32 bytes.
- `Trie::DeleteNode` by key: it removes every word that shares the first rune.
- `LoadUserDict` after construction: the vector it grows may move the units that the trie points to.
- The sentence version of `QuerySegment::Cut`: its loop over the filter's ranges is that of `MixSegment`.
- `FullSegment`, `PosTagger` and `TextRankExtractor`.
- Index.JiebaUtil.CutStringNoStop: the segmenter is an arbitrary function from texts to word lists and not tied to the model of `QuerySegment`, because the index works for any of them.
- Index.Index.BuildIndex: requires lines of three or more fields, because the code reads past the vector otherwise.
- Index.Index.BuildForwardIndex: requires a line of three or more fields, for the same reason.
- Searcher.Searcher.InitSearcher: requires a file whose lines have three or more fields, for the same reason.
- KeywordExtractor.PartialSort: the order of keywords with equal weight is not promised by the library, and its algorithm is not part of this model.
- Searcher.SortByWeight: the order of documents with equal weight is not promised by the library sort, and its algorithm is not part of this model.
- QueryString.Trim: requires that no blank stands next to the bounds, as everywhere that `split` calls it; the loops would leave the piece otherwise.
- QueryString.Split: requires a delimiter that is no blank, which every call in the repository passes.
- Multipart.MultipartFormDataParser.Parse: callbacks never refuse, and `off_` is not kept because nothing reads it.
- Multipart.MultipartRoundTrip: covers the whole body in one call; over several packets the fallback flush can take part of a delimiter.
- Multipart.MatchNameFirst: the regular expression is a hand-written matcher of the same language.
- Chunked.ReadContentChunked: the receiver never refuses, and a read never reports an error before the end of the stream.
- Chunked.WriteContentChunked: the stream accepts every write, the provider never cancels, the server is not shutting down, the compressor copies its input, and nothing is written after done in the same call.
- Md5.MD5.Blocks: requires that no loop index wraps, because the loop never stops otherwise, as `Md5.LoopStopsIff` states.
- Md5.MD5.Update: requires the same; the block transform is an arbitrary function, and the message it covers is fed from one thread.
- Md5.MD5.Final: the printed hexadecimal digest is not part of this model.
- ThreadPool.ShutdownComplete: no Add runs after Stop has begun, tasks do not call Add themselves, and all workers have been started.
- ThreadPool.StopAlwaysCompletes: assumes a scheduler that lets enabled threads run; spurious wake-ups may delay it.
