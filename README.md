# PdfPageLookup — a verified model of the lookup-table pipeline

PdfPageLookup builds a word-to-page "lookup table" for a PDF (portable document format) document. The `MainWindow` constructor does the following:

- It reads a list of noise words from `noisewords.txt`.
- It takes the text of every page, tokenizes it, normalises each token and removes duplicates within the page (`GetTextBlocsFromPdf`).
- It builds a dictionary from each word to the set of pages it appears on, skipping noise words.
- It visits the words in ascending order. It keeps every word when the document has fewer than 4 pages. Otherwise it keeps only words that appear on fewer than half of the pages.
- For each kept word it writes one line: `word<TAB>pages<LF>`. The pages are listed in ascending order and compacted into intervals by `CompactNumbersIntoIntervals`. A maximal run of three or more consecutive pages becomes `first-last`. Shorter runs list their pages one by one. All pieces are joined with `", "`.

The model keeps the source's structure. There are three kinds of code in it:

- **Imperative methods.** The index-building loop, the formatting loop and the page loop of `GetTextBlocsFromPdf` are methods with `while` loops. `BuildIndex` updates a `map<string, set<int>>` the way the source updates its `Dictionary`. `FormatTable` appends to a string accumulator. Each loop is proved against a function that specifies it.
- **Functions with lemmas.** The LINQ pipelines (tokenizing, noise words, compaction) are recursive functions, with lemmas about them.
- **A reader with no counterpart in the source.** `Intervals.Expand` parses a page list and `LookupTable.ReadTable` parses a whole table. Nothing in the source reads these texts back; the readers exist to state round-trip properties. With them the model proves three things:
  - Compaction loses nothing: reading back a compacted list gives the numbers again.
  - The table has one line per qualifying word, in strictly ascending ordinal order.
  - Each line's page list is exactly the set of pages the word is recorded on.

The modules are:

- `Text`: characters, `ToLower`, `Trim`, regex end-stripping, `String.Split`, ordinal order.
- `Sequences`: `Distinct`, `String.Join`, splitting on a separator string.
- `Numerals`: `Int32.ToString` and its inverse.
- `Ordering`: `OrderBy` on sets of page numbers and of words.
- `Tokenizer`: the page and noise-word pipelines.
- `Intervals`: the compactor, the maximal-runs reference and the reader.
- `WordIndex`: the page blocks and the dictionary.
- `LookupTable`: the filter, the formatting loop, the whole constructor and the table reader.
- `CompactionExamples`: worked instances of the compactor.

Three consequences of the code are worth stating, because a reader of the program could easily expect otherwise:

- **Noise words are not lower-cased.** The noise-word list is only split, trimmed and made distinct (`MainWindow.xaml.cs:21-26`), while each candidate word is lower-cased before the look-up (`:39`). A noise entry that contains an upper-case letter therefore never suppresses anything. `WordIndex.NoiseWithUpperNeverMatches` proves this.
- **Every dictionary key is lower-case.** The tokenizer lower-cases every page word (`:92`), so "Cat" and "cat" on different pages end up under the one key `cat`. `WordIndex.IndexKeysAreNormalWords` proves this.
- **A run of two pages is a list, not a range.** Only a group of three or more becomes `first-last`; a run of two pages is written `1, 2` (`:74-77`). `CompactionExamples.CompactPair` shows this case.

## Model

| member | source | states |
|---|---|---|
| Text.ToLower | PdfPageLookup/PdfPageLookup/MainWindow.xaml.cs:92 | same length; no upper-case letter left; each upper-case letter shifted to its lower-case form, everything else unchanged; identity on strings without upper case |
| Text.Strip | PdfPageLookup/PdfPageLookup/MainWindow.xaml.cs:92 | the two anchored regex removals: the result is a slice of the input, everything outside it is in the removed class, and neither end of the result is in it |
| Text.StripUnchanged | PdfPageLookup/PdfPageLookup/MainWindow.xaml.cs:92 | stripping leaves unchanged a string whose ends are not in the class |
| Text.StripNested | PdfPageLookup/PdfPageLookup/MainWindow.xaml.cs:92 | stripping the same class again from a slice that a stripping of the original left is again a stripping of the original |
| Text.DropLeadingExactly | PdfPageLookup/PdfPageLookup/MainWindow.xaml.cs:92 | `Regex.Replace(w, "^[^a-zA-Z0-9]+", "")`: r is the result exactly when r is a suffix of the input, everything before it is in the class, and its first character is not |
| Text.DropTrailingExactly | PdfPageLookup/PdfPageLookup/MainWindow.xaml.cs:92 | `Regex.Replace(w, "[^a-zA-Z0-9]+$", "")`: r is the result exactly when r is a prefix of the input, everything after it is in the class, and its last character is not |
| Text.Trim | PdfPageLookup/PdfPageLookup/MainWindow.xaml.cs:24 | String.Trim removes white space only at the two ends and leaves ends that are not white space |
| Text.Split | PdfPageLookup/PdfPageLookup/MainWindow.xaml.cs:91 | Split with RemoveEmptyEntries gives only non-empty tokens free of LF, space and tab |
| Text.SplitKeepsText | PdfPageLookup/PdfPageLookup/MainWindow.xaml.cs:91 | the tokens put together are the text with exactly its separators removed |
| Text.SplitAfterSeparator | PdfPageLookup/PdfPageLookup/MainWindow.xaml.cs:91 | Split cuts at every one of its separators "\r\n", LF, space and tab: a non-empty, separator-free token followed by a separator splits off as the first token, and splitting resumes after the separator |
| Text.SplitSkipsSeparator | PdfPageLookup/PdfPageLookup/MainWindow.xaml.cs:91 | a separator before the text yields no token, so leading separators and runs of separators produce no empty entries |
| Text.SplitJoinedTokens | PdfPageLookup/PdfPageLookup/MainWindow.xaml.cs:91 | non-empty, separator-free tokens joined with single spaces split back into exactly those tokens |
| Text.StringLessTransitive | PdfPageLookup/PdfPageLookup/MainWindow.xaml.cs:51 | ordinal string order is transitive |
| Text.StringLessTotal | PdfPageLookup/PdfPageLookup/MainWindow.xaml.cs:51 | ordinal string order is total |
| Text.StringLessAsymmetric | PdfPageLookup/PdfPageLookup/MainWindow.xaml.cs:51 | ordinal string order is asymmetric |
| Sequences.Distinct | PdfPageLookup/PdfPageLookup/MainWindow.xaml.cs:93 | LINQ Distinct: no duplicates, the same elements as its input, no longer than its input |
| Sequences.JoinAppend | PdfPageLookup/PdfPageLookup/MainWindow.xaml.cs:57 | String.Join of two non-empty lists is the two joins with a separator between |
| Sequences.SplitOnJoin | PdfPageLookup/PdfPageLookup/MainWindow.xaml.cs:57 | a join whose parts do not contain the separator's first character splits back into those parts |
| Numerals.IntToString | PdfPageLookup/PdfPageLookup/MainWindow.xaml.cs:75 | Int32.ToString is non-empty, starts with '-' exactly for negative numbers, and is otherwise digits with no leading zero: "0" for zero, a non-zero first digit otherwise |
| Numerals.IntToStringRoundTrip | PdfPageLookup/PdfPageLookup/MainWindow.xaml.cs:75 | parsing the decimal notation of any integer gives that integer |
| Numerals.IntToStringCanonical | PdfPageLookup/PdfPageLookup/MainWindow.xaml.cs:75 | the decimal notation is the only one: every canonical numeral (digits without a leading zero, optionally after '-' and then not "-0") is the notation of the number it denotes |
| Ordering.SortedInts | PdfPageLookup/PdfPageLookup/MainWindow.xaml.cs:56 | OrderBy on a set of page numbers: strictly increasing, exactly the set's elements, one per element |
| Ordering.SortedIntsUnique | PdfPageLookup/PdfPageLookup/MainWindow.xaml.cs:56 | the strictly increasing listing of a set is unique |
| Ordering.SortedStrings | PdfPageLookup/PdfPageLookup/MainWindow.xaml.cs:51 | the dictionary's keys in OrderBy order: exactly the keys, each once |
| Ordering.SortedStringsAscending | PdfPageLookup/PdfPageLookup/MainWindow.xaml.cs:51 | that listing is strictly ascending in ordinal order |
| Tokenizer.StrippedCore | PdfPageLookup/PdfPageLookup/MainWindow.xaml.cs:92 | after Trim and both regex removals a non-empty token starts and ends with an ASCII letter or digit |
| Tokenizer.StrippedCoreIsSlice | PdfPageLookup/PdfPageLookup/MainWindow.xaml.cs:92 | that core is a slice of the token, and only non-alphanumeric characters at the two ends were removed |
| Tokenizer.NormalizeToken | PdfPageLookup/PdfPageLookup/MainWindow.xaml.cs:92 | a normalised token has alphanumeric ends and no upper-case letter |
| Tokenizer.NormalizeTokenSeparatorFree | PdfPageLookup/PdfPageLookup/MainWindow.xaml.cs:91-92 | normalising a Split token keeps it free of separators |
| Tokenizer.NormalizeTokenIdempotent | PdfPageLookup/PdfPageLookup/MainWindow.xaml.cs:92 | normalising twice is normalising once |
| Tokenizer.LongerThanOne | PdfPageLookup/PdfPageLookup/MainWindow.xaml.cs:94 | Where(w => w.Length > 1): keeps exactly the elements longer than one character, and keeps them duplicate-free |
| Tokenizer.PageWords | PdfPageLookup/PdfPageLookup/MainWindow.xaml.cs:90-95 | a page's words are distinct, lower-case, separator-free, of length at least 2, with alphanumeric ends |
| Tokenizer.PageWordsExactly | PdfPageLookup/PdfPageLookup/MainWindow.xaml.cs:90-95 | w is a word of a page if and only if it is longer than one character and some token of the page normalises to it |
| Tokenizer.NoiseWords | PdfPageLookup/PdfPageLookup/MainWindow.xaml.cs:21-26 | the noise-word list is duplicate-free and has at most one entry per token |
| Tokenizer.NoiseWordsExactly | PdfPageLookup/PdfPageLookup/MainWindow.xaml.cs:21-26 | w is a noise word if and only if it is the trimmed form of a token of the noise-word text (no lower-casing) |
| WordIndex.GetTextBlocsFromPdf | PdfPageLookup/PdfPageLookup/MainWindow.xaml.cs:82-101 | one block per page, numbered 1 to the page count in order, holding that page's words; the page count returned is the number of pages |
| WordIndex.AddWord | PdfPageLookup/PdfPageLookup/MainWindow.xaml.cs:39-45 | one pass of the inner loop body: w is a key afterwards if and only if it was before or it is the word and its lower-case form is not a noise word; each set is the old one (empty for a new key) plus the page exactly for that word |
| WordIndex.BuildIndex | PdfPageLookup/PdfPageLookup/MainWindow.xaml.cs:34-48 | the nested loop builds the dictionary IndexOf specifies |
| WordIndex.AddWordsContents | PdfPageLookup/PdfPageLookup/MainWindow.xaml.cs:37-47 | after one block, (w, p) is recorded if and only if it was before or p is the block's page, w is one of its words and not a noise word; the same for keys; no set becomes empty |
| WordIndex.IndexContents | PdfPageLookup/PdfPageLookup/MainWindow.xaml.cs:34-48 | page p is in w's set if and only if some block with page number p holds w and ToLower(w) is not a noise word; w is a key if and only if some block holds it and it is not a noise word; every set is non-empty |
| WordIndex.IndexOfNumbered | PdfPageLookup/PdfPageLookup/MainWindow.xaml.cs:34-48 | for blocks numbered in order, p is in w's set if and only if 1 <= p <= the block count, block p holds w, and w is not a noise word |
| WordIndex.IndexOfPages | PdfPageLookup/PdfPageLookup/MainWindow.xaml.cs:34-48 | for a document's blocks, p is in w's set if and only if 1 <= p <= the page count, w is a word of page p, and ToLower(w) is not a noise word |
| WordIndex.IndexKeysAreNormalWords | PdfPageLookup/PdfPageLookup/MainWindow.xaml.cs:41-45 | every key is a normalised page word and is its own lower-case form |
| WordIndex.SameNoiseDecisionsSameIndex | PdfPageLookup/PdfPageLookup/MainWindow.xaml.cs:39 | two noise lists that agree on every lower-cased page word give the same dictionary |
| WordIndex.WithoutUpper | PdfPageLookup/PdfPageLookup/MainWindow.xaml.cs:39 | the noise entries that contain no upper-case letter |
| WordIndex.NoiseWithUpperNeverMatches | PdfPageLookup/PdfPageLookup/MainWindow.xaml.cs:39 | for any blocks, removing every noise entry that holds an upper-case letter does not change the dictionary |
| Intervals.RunsDecompose | PdfPageLookup/PdfPageLookup/MainWindow.xaml.cs:70-72 | the reference Runs cuts a list into non-empty runs of consecutive integers that concatenate to it, no run continuing into the next |
| Intervals.RunDecompositionUnique | PdfPageLookup/PdfPageLookup/MainWindow.xaml.cs:70-72 | any such decomposition is the one Runs gives |
| Intervals.Tag | PdfPageLookup/PdfPageLookup/MainWindow.xaml.cs:71 | `Select((n, i) => new { number = n, group = n - i })`: one element per number, in place, and two neighbours share a tag if and only if the second is one greater than the first |
| Intervals.GroupBy | PdfPageLookup/PdfPageLookup/MainWindow.xaml.cs:72 | `GroupBy(n => n.group)`: distinct keys; a key occurs if and only if some element carries that tag; each group holds exactly the numbers with its tag, in input order |
| Intervals.GroupByIsRuns | PdfPageLookup/PdfPageLookup/MainWindow.xaml.cs:70-72 | for a strictly increasing list, grouping by number minus index gives exactly its maximal runs, with ascending keys |
| Intervals.ConsecutiveIsRange | PdfPageLookup/PdfPageLookup/MainWindow.xaml.cs:74-75 | a run is the range from its first to its last number, and last - first + 1 is its size |
| Intervals.CompactNumbersIntoIntervals | PdfPageLookup/PdfPageLookup/MainWindow.xaml.cs:68-80 | one piece per maximal run; a run of 3 or more is rendered "first-last", a shorter one as its numbers joined with ", " |
| Intervals.RenderGroupReadsBack | PdfPageLookup/PdfPageLookup/MainWindow.xaml.cs:73-78 | the text the `Select` lambda writes for a run (`first-last` for three or more, else the numbers joined with ", ") reads back as the run |
| Intervals.RenderedRunsRoundTrip | PdfPageLookup/PdfPageLookup/MainWindow.xaml.cs:73-78 | reading back the joined renderings of runs gives the runs concatenated |
| Intervals.CompactRoundTrip | PdfPageLookup/PdfPageLookup/MainWindow.xaml.cs:57 | reading back the joined compaction of a strictly increasing list gives the list |
| CompactionExamples.CompactMixed | PdfPageLookup/PdfPageLookup/MainWindow.xaml.cs:68-80 | [1,2,3,5,7,8,9,10] is written "1-3, 5, 7-10" |
| CompactionExamples.CompactPair | PdfPageLookup/PdfPageLookup/MainWindow.xaml.cs:74-77 | [1,2] is written "1, 2" |
| CompactionExamples.CompactRangeThenSingle | PdfPageLookup/PdfPageLookup/MainWindow.xaml.cs:68-80 | [4,5,6,7,9] is written "4-7, 9" |
| LookupTable.Qualifies | PdfPageLookup/PdfPageLookup/MainWindow.xaml.cs:54 | the filter `numberOfPages < 4` or `pageNumbers.Count < numberOfPages * 0.5`, computed exactly over the reals, holds if and only if the document has fewer than 4 pages or twice the count is below the page count |
| LookupTable.CoverageExamples | PdfPageLookup/PdfPageLookup/MainWindow.xaml.cs:54 | a word on all 5 of 5 pages is dropped; a word on all 3 of 3 pages is kept |
| LookupTable.FormatTable | PdfPageLookup/PdfPageLookup/MainWindow.xaml.cs:50-60 | the formatting loop appends, in ascending key order, the line of each qualifying key, as TableOf specifies |
| LookupTable.BuildLookupTable | PdfPageLookup/PdfPageLookup/MainWindow.xaml.cs:17-66 | the constructor's pipeline produces LookupTableOf(noise text, pages) |
| LookupTable.Qualifying | PdfPageLookup/PdfPageLookup/MainWindow.xaml.cs:54 | the keys kept are keys that pass the filter, and every key that passes it is kept |
| LookupTable.QualifyingAscending | PdfPageLookup/PdfPageLookup/MainWindow.xaml.cs:51-54 | filtering keeps the keys strictly ascending |
| LookupTable.TableJoinsLines | PdfPageLookup/PdfPageLookup/MainWindow.xaml.cs:50-60 | the table is the qualifying keys' lines, each ended by an LF |
| LookupTable.PageListAvoids | PdfPageLookup/PdfPageLookup/MainWindow.xaml.cs:57 | a page list holds only digits, '-', ',' and ' ' |
| LookupTable.PageList | PdfPageLookup/PdfPageLookup/MainWindow.xaml.cs:56-57 | the ordered, compacted, ", "-joined page list of a set reads back as that set in ascending order |
| LookupTable.Line | PdfPageLookup/PdfPageLookup/MainWindow.xaml.cs:58 | `word + "\t" + pageNumberString + "\n"`: ends in an LF and holds no other LF when the word holds none; without the LF it reads back as the word and its pages in ascending order, when the word holds no tab |
| LookupTable.ReadTableOf | PdfPageLookup/PdfPageLookup/MainWindow.xaml.cs:50-60 | for separator-free keys, the table reads back as one row per qualifying key, in order, with its pages ascending |
| LookupTable.TableReadsAsIndex | PdfPageLookup/PdfPageLookup/MainWindow.xaml.cs:50-60 | the rows are strictly ascending; w has a row if and only if it is a key that passes the filter; each row's pages are its key's set, ascending |
| LookupTable.IndexIsDocumentPages | PdfPageLookup/PdfPageLookup/MainWindow.xaml.cs:34-48 | w is a key if and only if it is recorded on some page, and then its set is exactly those pages |
| LookupTable.DocumentTable | PdfPageLookup/PdfPageLookup/MainWindow.xaml.cs:32-60 | for a document's blocks, the table's rows are strictly ascending, w has a row if and only if it is recorded on some page and passes the filter, and a row's pages are those pages in ascending order |
| LookupTable.LookupTableReadsBack | PdfPageLookup/PdfPageLookup/MainWindow.xaml.cs:21-60 | the same for the table built from a noise-word text and the page texts |
| LookupTable.NoiseWordNotListed | PdfPageLookup/PdfPageLookup/MainWindow.xaml.cs:39 | no entry of the noise-word list ever has a line |

## Left out

- PDF text extraction (`PdfReader`, `PdfTextExtractor.GetTextFromPage`, `reader.Close`) is not modelled. `GetTextBlocsFromPdf` takes the already extracted page texts, and the page count is their number.
- The file read of `noisewords.txt` is not modelled; its text is a parameter. The model also does not cover the error raised when the file is missing.
- The UI is not modelled: `InitializeComponent`, the file dialog and its cancel path, `Clipboard.SetText`, the message box and `Close`. `BuildLookupTable` returns the text that would go to the clipboard.
- Culture rules are left out. The model's `ToLower` folds ASCII letters only, and `OrderBy` on words is ordinal order on characters. .NET's culture-sensitive lower-casing and comparison are not modelled.
- `String.Trim` removes the ASCII white space characters (space and tab through carriage return). The other Unicode white space characters that .NET also removes are not modelled.
- The regex engine is left out. The two `Regex.Replace` calls are modelled by what their anchored patterns do: remove the longest leading, then the longest trailing, run of characters outside `[a-zA-Z0-9]`.
- Floating point is modelled by exact real arithmetic. `pageNumbers.Count < numberOfPages * 0.5` is computed over the reals; `numberOfPages * 0.5` and the count are exact in a `double` for every page count `Int32` can hold, so nothing is rounded. `Qualifies` proves the test equal to `2 * count < numberOfPages`.
- The page count and the page numbers are unbounded integers. `Int32` overflow cannot arise for a real document, so the model does not represent it.
- Intervals.CompactNumbersIntoIntervals: it requires a strictly increasing input. The source calls it only on an ordered set, and its grouping is meaningful only there.
- Intervals.GroupBy: LINQ's groups also carry the anonymous `{number, group}` objects. The model keeps the key and only the numbers, the one field the source reads. Its contract does not state the order of the groups (first appearance of their keys) for every input; for the strictly increasing input of the call site, `GroupByIsRuns` states it.
- `WordOccurence` is modelled as a datatype. The source class's fields are set only by its constructor and never updated.
- Ordering.SortedStrings: its ensures states membership and length only. That the listing is strictly ascending is the separate lemma `SortedStringsAscending`, so that callers do not carry the pairwise fact.
- Concrete end-to-end tokenizer examples (such as "Hello, world!!" giving hello and world) are not stated. The general lemmas `PageWordsExactly` and `StrippedCoreIsSlice` cover the tokenizer.
