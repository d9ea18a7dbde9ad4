# unicode-tools.php in Dafny

`unicode-tools.php` is a small PHP library of string functions that work on
Unicode codepoints rather than bytes. Every function first splits a UTF-8
string into its codepoints with `preg_split('//u', ..., PREG_SPLIT_NO_EMPTY)`.
It then slices, chunks, pads, counts, shuffles, translates or re-cases that
list and joins it back together.

This project models the library with a string as a sequence of codepoints
(`Codepoints.Text = seq<char>`). Seen this way, the split into codepoints is
the identity, and each PHP function becomes an operation on sequences. The
modules follow the library's groups of functions:

- `Codepoints` (codepoints.dfy) holds the primitives every function uses:
  - splitting into codepoints, with or without a limit;
  - `join('', ...)`;
  - the clipping rules of `array_slice` and `mb_substr`.
- `Slicing` (slicing.dfy) models `substr_unicode`, `str_split_unicode` and
  `chunk_split_unicode`. The two splitting functions are methods whose loops
  are proved against the chunking function `Chunks`.
- `Padding` (padding.dfy) models `str_pad_unicode`. There are two versions:
  - `StrPadAsWritten` follows the source line for line;
  - `StrPad` has the repeat count of line 198 corrected (see Findings).
- `Counting` (counting.dfy) models `count_chars_unicode` and
  `str_shuffle_unicode`:
  - `CountChars` is a method whose loop builds the frequency table;
  - `Shuffle` is the Fisher–Yates shuffle of PHP's `shuffle`, done in place on
    an `array`.
- `Translation` (translation.dfy) models `strtr_unicode`, in its table form and
  its two-string form.
- `Words` (words.dfy) models the two regular-expression scans:
  - the `(\w+)` replacement behind the `*words_*` functions;
  - the `preg_split` behind `str_word_count_unicode`.
- `Casing` (casing.dfy) models:
  - `ucfirst_unicode` and `lcfirst_unicode`;
  - their `_turkish` and `_turkish_v2` variants;
  - the four word-casing functions.

Some things the library takes from PHP are parameters of the model:
- the Unicode case mappings (`Codepoint -> Text`, because one codepoint can map
  to several);
- the classes `\w` and `\s` (`Codepoint -> bool`);
- the random source of `shuffle` (`nat -> nat`).

PHP's null from reading an undefined variable or key is modelled as a value:
- `Option.None` in `StrSplit`, for the list `$ret` that an empty text never creates;
- `CharCount.Undefined` in `CountChars`, for the table `$chr` that an empty text
  never creates and for a key that is not in it.

Where PHP versions differ, the model follows PHP 7 and earlier, which the
library was written for:
- `count` of an unset variable is 0 (line 169);
- `str_repeat` with a negative count warns and returns null, which
  concatenates as the empty string (lines 198-204).

PHP 8 throws an error in both places.

Where the code and its doc comments disagree, the model follows the code:
- The comment at unicode-tools.php:218 says `strtr_unicode('äbc äbc', 'äåö', 'äåö')`
  gives `abc abc`. The code maps every codepoint to itself, so the text comes
  back unchanged (`Translation.StrtrSelfExample`).
- The comment at unicode-tools.php:91 says `ucfirst_turkish('iyilik güzelLİK')`
  starts with `İ` (dotted capital I). The code at line 95 hands ASCII `I` to
  the case mapping (`Casing.UcfirstTurkishExample`).
- An empty text padded LEFT or RIGHT still gets `pad_len` codepoints of
  padding, because lines 183-185 only raise the threshold below which nothing
  is padded. The result is not one codepoint short (`Padding.StrPadEmptyQuirk`,
  `Padding.StrPadShape`).
- `array_combine` at line 228 rejects two strings whose codepoint counts
  differ; it does not truncate. `Translation.StrtrUnicode` therefore requires
  equal lengths for the two-string form.

## Model

| member | source | states |
|---|---|---|
| Codepoints.Join | unicode-tools.php:26-27 | `join('', ...)` of no pieces is the empty string |
| Codepoints.JoinAppend | unicode-tools.php:40 | joining distributes over the concatenation of piece lists |
| Codepoints.Segment | unicode-tools.php:27 | splitting with `//u` gives one piece per codepoint |
| Codepoints.JoinSegment | unicode-tools.php:38-40 | splitting into codepoints and joining gives the text back |
| Codepoints.SegmentAt | unicode-tools.php:152 | piece `i` of the split is the one-codepoint string of `t[i]` |
| Codepoints.SegmentAppend | unicode-tools.php:27 | the split of a concatenation is the concatenation of the splits |
| Codepoints.SegmentAtMost | unicode-tools.php:106 | a split with limit `k` has min(n, k) non-empty pieces, all but the last one codepoint long, and joins back to the text |
| Codepoints.SliceLo | unicode-tools.php:26-27 | the clipped start of `array_slice` lies within the sequence |
| Codepoints.SliceHi | unicode-tools.php:26-27 | the clipped end lies between the clipped start and the end of the sequence |
| Codepoints.Slice | unicode-tools.php:26-27 | `array_slice` (and `mb_substr`) evaluated case by case is the contiguous run from the clipped start to the clipped end |
| Slicing.SegmentDrop | unicode-tools.php:26-27 | dropping codepoints commutes with splitting into codepoints |
| Slicing.SegmentTake | unicode-tools.php:26-27 | taking codepoints commutes with splitting into codepoints |
| Slicing.SegmentSlice | unicode-tools.php:26-27 | a slice of the split is the split of the slice |
| Slicing.SubstrUnicode | unicode-tools.php:25-28 | `substr_unicode` is the run of whole codepoints between the clipped start and end, and never fails |
| Slicing.SubstrCases | unicode-tools.php:25-28 | a start past the end gives ''; a negative start counts from the end and stops at the front; a null length takes the rest; a non-negative length takes min(l, remaining) |
| Slicing.SubstrSplit | unicode-tools.php:25-28 | taking `k` codepoints from `s`, then everything from `s + k`, gives everything from `s` |
| Slicing.SubstrExample | unicode-tools.php:18-23 | `substr_unicode('Büyük', 0, 3)` is `Büy` |
| Slicing.Chunks | unicode-tools.php:51-52 | `array_chunk` of the codepoints into runs of `l`; ChunksJoin, ChunksShape, ChunksCount and ChunkAt state its contents, sizes, number and closed form |
| Slicing.ChunksJoin | unicode-tools.php:51-52 | `array_chunk` loses nothing: the chunks concatenate to the text |
| Slicing.ChunksShape | unicode-tools.php:51-52 | every chunk has exactly `l` codepoints except the last, which has 1 to `l` |
| Slicing.ChunksCount | unicode-tools.php:51-52 | there are no chunks exactly for the empty text, and otherwise ceil(n / l) of them |
| Slicing.SliceOfDrop | unicode-tools.php:147-148 | a run of `l` codepoints inside the tail after the first chunk is the same run in the whole text, shifted by `l` |
| Slicing.ChunksTail | unicode-tools.php:51-52 | past the first chunk, chunk `k` is chunk `k - 1` of the rest of the text |
| Slicing.ChunkAt | unicode-tools.php:147-148 | chunk `k` is the `mb_substr` of `l` codepoints at `k * l` that the loop takes in its `k`-th step |
| Slicing.ChunksStep | unicode-tools.php:147-148 | one loop step takes `mb_substr($str, $i, $l)` and leaves the chunks of the rest |
| Slicing.StrSplit | unicode-tools.php:145-153 | for `l > 0` the pieces are the chunks and join back to the text, and an empty text gives null; for `l <= 0` one piece per codepoint |
| Slicing.Separated | unicode-tools.php:54-56 | what the foreach builds: each chunk followed by `e`; ChunkSplit's loop is proved equal to it, and SeparatedLength and SeparatedBySilence state its length and the empty-separator case |
| Slicing.SeparatedLength | unicode-tools.php:54-56 | the loop's output has the codepoints of all pieces plus one separator per piece |
| Slicing.SeparatedBySilence | unicode-tools.php:54-56 | with an empty separator the loop's output is the plain join |
| Slicing.ChunkSplit | unicode-tools.php:50-58 | `e` follows every chunk including the last; the result has n + ceil(n / l) times len(e) codepoints, is empty exactly when the text is, ends in `e` otherwise, and is the text when `e` is empty |
| Padding.Repeat | unicode-tools.php:194-203 | `str_repeat(p, k)`; RepeatLength and RepeatAt state its length and that codepoint `i` is `p[i mod len(p)]` |
| Padding.EffectiveLength | unicode-tools.php:181-185 | the length used by the no-op test: an empty text counts as one codepoint for LEFT and RIGHT only; StrPadEmptyQuirk states the consequence |
| Padding.IsNoop | unicode-tools.php:186-188 | the three no-op conditions of line 186; StrPadNoop proves the text comes back unchanged exactly when they hold |
| Padding.PadBody | unicode-tools.php:190-206 | the three padding branches for a given repeat count; PadBothShape, PadRightShape and PadLeftShape state their width and layout |
| Padding.AsWrittenRepeat | unicode-tools.php:198 | line 198's count as written; WrittenCountCovers, AsWrittenTooShort and AsWrittenNegative state when it suffices and when it does not |
| Padding.RepeatLength | unicode-tools.php:198-203 | `str_repeat(p, k)` has `k * len(p)` codepoints |
| Padding.RepeatAt | unicode-tools.php:194-203 | codepoint `i` of `p` repeated is `p[i mod len(p)]` |
| Padding.CeilDivCovers | unicode-tools.php:193 | `ceil(a / b)` copies of `b` cover `a` |
| Padding.PrefixOfRepeat | unicode-tools.php:194-201 | a prefix of `p` repeated is laid from the start of `p` |
| Padding.SuffixOfRepeat | unicode-tools.php:203-204 | a suffix of `p` repeated ends on a whole copy of `p` |
| Padding.StrPadAsWritten | unicode-tools.php:180-209 | the source as written: the text comes back unchanged in the no-op cases of line 186, and for LEFT and RIGHT whenever line 198's count is not positive |
| Padding.PadUnfilled | unicode-tools.php:199-204 | LEFT and RIGHT with an empty fill cut the text back to itself |
| Padding.AsWrittenUnpadded | unicode-tools.php:186-204 | the source as written returns the text unpadded exactly in the no-op cases and when line 198's count is not positive |
| Padding.StrPad | unicode-tools.php:180-209 | `str_pad_unicode` with line 198 corrected; StrPadNoop, StrPadShape and StrPadEmptyQuirk state its no-op cases and its width and layout, and AsWrittenAgrees ties it to the source as written |
| Padding.StrPadNoop | unicode-tools.php:181-188 | the text comes back unchanged exactly when `pad_len` is 0, the pad string is empty, or `pad_len` ≤ the effective length |
| Padding.StrPadEmptyQuirk | unicode-tools.php:183-185 | an empty text padded LEFT or RIGHT to one codepoint stays empty, while BOTH pads it to one codepoint |
| Padding.PadBothPieces | unicode-tools.php:191-196 | BOTH cuts floor(d/2) and ceil(d/2) codepoints from the same fill of ceil((d/2) / len(p)) copies, which is long enough for both |
| Padding.PadBothShape | unicode-tools.php:191-196 | BOTH gives `pad_len` codepoints: floor(d/2) of padding from the start of `p`, the text, ceil(d/2) of padding from the start of `p` |
| Padding.PadRightShape | unicode-tools.php:199-201 | RIGHT with enough copies gives `pad_len` codepoints: the text, then padding from the start of `p` |
| Padding.PadLeftShape | unicode-tools.php:202-204 | LEFT with enough copies gives `pad_len` codepoints: padding that ends on a whole copy of `p`, then the text |
| Padding.StrPadShape | unicode-tools.php:186-205 | whenever padding happens the result has exactly `pad_len` codepoints; the text is a prefix (RIGHT), a suffix (LEFT) or sits after floor(d/2) codepoints (BOTH), and the padding is `p` repeated |
| Padding.AsWrittenAgrees | unicode-tools.php:198-204 | whenever line 198's count is positive (and for BOTH and the no-op cases) the source computes the corrected result |
| Padding.WrittenCountCovers | unicode-tools.php:198 | a positive count from line 198 covers the deficit |
| Padding.RepeatPrefix | unicode-tools.php:200-201 | any two fills that are long enough give the same RIGHT padding |
| Padding.RepeatSuffix | unicode-tools.php:203-204 | any two fills that are long enough give the same LEFT padding |
| Padding.AsWrittenTooShort | unicode-tools.php:198-201 | ('a', 2, 'abc', RIGHT): line 198's count is 0 and the source returns `a`; the corrected version returns `aa` |
| Padding.AsWrittenNegative | unicode-tools.php:198-204 | ('a', 2, 'abcd', LEFT): line 198's count is -1, `str_repeat` returns null and the source returns `a` unpadded; the corrected version returns `da` |
| Counting.FirstOccurrences | unicode-tools.php:165-167 | the keys of `$chr` are the text's codepoints, each once |
| Counting.IndexOf | unicode-tools.php:165-167 | the first position of a codepoint in the text |
| Counting.IndexOfPrefix | unicode-tools.php:165-167 | a first occurrence inside a prefix is the first occurrence in the whole text |
| Counting.FirstOccurrencesInOrder | unicode-tools.php:165-167 | the keys of `$chr` come in the order in which the codepoints first occur |
| Counting.SumCountsAdd | unicode-tools.php:166 | one more occurrence adds one to the total exactly when it is one of the keys |
| Counting.SumCountsAppend | unicode-tools.php:166 | a new key adds its count to the total |
| Counting.CountsSumToLength | unicode-tools.php:165-167 | the counts of the keys add up to the length of the text |
| Counting.BuildTable | unicode-tools.php:165-167 | the loop builds a table whose keys are the text's codepoints in first-occurrence order, each with its exact number of occurrences |
| Counting.CountChars | unicode-tools.php:163-171 | `$x === true` gives the table of first-occurrence-ordered keys, each with its exact count; `$x === false` gives the number of distinct codepoints; a key gives its count, and a missing key gives null; for an empty text the distinct count is 0 and the table and every lookup are null |
| Counting.Shuffle | unicode-tools.php:39 | the shuffle keeps the multiset of the array's codepoints |
| Counting.StrShuffle | unicode-tools.php:37-41 | `str_shuffle_unicode` returns a permutation of the text: the same length and the same multiset of codepoints |
| Counting.CountExample | unicode-tools.php:158-159 | the documented lookup: 'â' occurs once in 'şeker şeker yâriiiiiiiiiimmmmm' |
| Counting.OccursOnce | unicode-tools.php:166 | a codepoint found on neither side of its one occurrence is counted once |
| Counting.CountEmptyExample | unicode-tools.php:163-170 | for the empty text `count` of the unset table is 0 and the table itself is null |
| Counting.CountMissingExample | unicode-tools.php:168-170 | looking up a codepoint that does not occur gives null |
| Translation.Combine | unicode-tools.php:228-231 | `array_combine` has exactly the codepoints of `a` as keys, each mapped to one codepoint |
| Translation.CombineLast | unicode-tools.php:228-231 | when `a` repeats a codepoint, the value paired with its last occurrence wins |
| Translation.Strtr | unicode-tools.php:223 | a table that maps each key to itself leaves the text unchanged |
| Translation.StrtrAppend | unicode-tools.php:223 | `strtr` with single-codepoint keys distributes over concatenation |
| Translation.StrtrPointwise | unicode-tools.php:232 | with one-codepoint values the result keeps the length, and position `i` is the image of `t[i]` |
| Translation.StrtrUnicode | unicode-tools.php:221-233 | a table goes to `strtr` as it is; two strings are combined codepoint by codepoint, and the result then has as many codepoints as the text; StrtrPairs and StrtrSelf state what each codepoint becomes |
| Translation.StrtrPairs | unicode-tools.php:221-233 | two-string form: same length; a codepoint equal to `a[j]` becomes `b[j]` for the last such `j`; every other codepoint is copied |
| Translation.StrtrSelf | unicode-tools.php:221-233 | translating a string to itself changes nothing |
| Translation.LastIndex | unicode-tools.php:228-231 | the last position of a codepoint in `a`, and no later position holds it |
| Translation.StrtrExample | unicode-tools.php:214-219 | 'äbc äbc' with 'ä' → 'a', as two strings or as a table, gives 'abc abc' |
| Translation.StrtrSelfExample | unicode-tools.php:214-218 | 'äbc äbc' with 'äåö' → 'äåö' gives 'äbc äbc' back |
| Words.RunLength | unicode-tools.php:75 | the matched run is no longer than the text, and is non-empty when the text starts with a word codepoint |
| Words.RunLengthMaximal | unicode-tools.php:75 | `\w+` matches greedily: the run is made of word codepoints and the codepoint after it is not one |
| Words.RunLengthAll | unicode-tools.php:75 | a text made only of word codepoints is matched whole |
| Words.RunLengthAppend | unicode-tools.php:75 | a match stops at the first non-word codepoint, whatever follows |
| Words.ReplaceRuns | unicode-tools.php:75-77 | the `(\w+)` replacement scan; ReplaceWord, ReplaceAtGap, ReplaceNoWords, ReplaceIdentity and ReplaceLength state how words and other codepoints are treated |
| Words.ReplaceWord | unicode-tools.php:75-77 | a text that is one whole word is handed to the callback as it is |
| Words.ReplaceAtGap | unicode-tools.php:75-77 | a non-word codepoint is copied, and the replacement works on either side of it independently |
| Words.ReplaceNoWords | unicode-tools.php:75-77 | a text without word codepoints is left unchanged |
| Words.ReplaceIdentity | unicode-tools.php:75-77 | a callback that returns every word unchanged leaves the text unchanged |
| Words.ReplaceLength | unicode-tools.php:75-77 | a callback that keeps lengths keeps the length of the text |
| Words.Runs | unicode-tools.php:246 | the maximal runs of a class of codepoints; RunsShape, RunsWord and RunsAtGap state their shape, and SplitIsRuns ties them to `preg_split` |
| Words.RunsShape | unicode-tools.php:246 | every word found is non-empty and made of word codepoints |
| Words.RunsWord | unicode-tools.php:246 | a text that is one whole word has that word as its only word |
| Words.RunsAtGap | unicode-tools.php:246 | the words of `u + [c] + v`, with `c` a delimiter, are those of `u` followed by those of `v` |
| Words.SplitAtDelimiters | unicode-tools.php:246 | `preg_split` at delimiters always yields at least one piece |
| Words.NonEmpty | unicode-tools.php:246 | PREG_SPLIT_NO_EMPTY keeps only non-empty pieces |
| Words.SplitFirst | unicode-tools.php:246 | the first piece of the split is the leading run, and the rest starts after its delimiter |
| Words.SplitIsRuns | unicode-tools.php:246 | the non-empty pieces of the split are exactly the maximal runs of non-delimiter codepoints |
| Words.CountedWordChar | unicode-tools.php:246 | a codepoint is part of a word when it matches neither `[\s0-9_]` nor `[^\w]`; WordCountWords states that every word is made of such codepoints |
| Words.WordCount | unicode-tools.php:245-248 | `str_word_count_unicode` returns a count exactly when `$format === 0` |
| Words.WordCountIsRuns | unicode-tools.php:245-248 | the words listed are the maximal runs of codepoints that are `\w` and not `\s`, ASCII digits or '_'; the count form is the length of the list form |
| Words.WordCountWords | unicode-tools.php:245-248 | every listed word is non-empty and made of `\w` codepoints that are not `\s`, ASCII digits or '_' |
| Words.RunsExample | unicode-tools.php:238-240 | 'äb"c äb3c a_b!' has six runs of word codepoints |
| Words.WordCountExample | unicode-tools.php:238-240 | `str_word_count_unicode('äb"c äb3c a_b!')` is 6 |
| Casing.ConvertCase | unicode-tools.php:64-65 | `mb_convert_case` of '' is '', and of one codepoint is its mapping |
| Casing.ReplaceChar | unicode-tools.php:95 | `str_replace` of one codepoint by another: same length, and exactly the occurrences are replaced |
| Casing.Lcfirst | unicode-tools.php:63-67 | '' stays ''; otherwise the first codepoint is lowered and the rest is copied verbatim |
| Casing.Ucfirst | unicode-tools.php:68-72 | '' stays ''; otherwise the first codepoint is upper-cased and the rest is copied verbatim |
| Casing.UcfirstTurkish | unicode-tools.php:93-97 | '' stays ''; otherwise a leading ASCII 'i' is upper-cased as 'I', any other first codepoint as itself, and the rest is copied |
| Casing.LcfirstTurkish | unicode-tools.php:99-103 | '' stays ''; otherwise a leading ASCII 'I' is lowered as 'i', any other first codepoint as itself, and the rest is copied |
| Casing.TurkishVersusPlain | unicode-tools.php:63-103 | the Turkish variants agree with the plain ones except on a leading 'i' (upper) or 'I' (lower), which they treat as the other ASCII letter |
| Casing.ItemOr | unicode-tools.php:109 | reading `$tmp[k]`: the piece when it exists, otherwise null, which concatenates as ''; SplitInTwo states what it gives on the limit-2 split |
| Casing.SplitInTwo | unicode-tools.php:106-109 | a split with limit 2 gives exactly `mb_substr($str, 0, 1)` and `mb_substr($str, 1)`, with a missing piece read as '' |
| Casing.UcfirstTurkishV2 | unicode-tools.php:105-110 | `ucfirst_turkish_v2` on the limit-2 split; TurkishV2Agrees proves it equal to `ucfirst_turkish` on every input |
| Casing.LcfirstTurkishV2 | unicode-tools.php:112-117 | `lcfirst_turkish_v2` on the limit-2 split; TurkishV2Agrees proves it equal to `lcfirst_turkish` on every input |
| Casing.TurkishV2Agrees | unicode-tools.php:93-117 | each `_v2` variant agrees with its first version on every input |
| Casing.Lcwords | unicode-tools.php:74-78 | `lcfirst_unicode` on every maximal `\w+` run; LcwordsLaws and WordsCasingNoWords state its behaviour |
| Casing.Ucwords | unicode-tools.php:80-84 | `ucfirst_unicode` on every maximal `\w+` run; UcwordsLaws, WordsCasingNoWords and UcwordsLength state its behaviour |
| Casing.UcwordsTurkish | unicode-tools.php:126-130 | `ucfirst_turkish` on every maximal `\w+` run; UcwordsTurkishLaws, WordsCasingNoWords and UcwordsLength state its behaviour |
| Casing.LcwordsTurkish | unicode-tools.php:132-136 | `lcfirst_turkish` on every maximal `\w+` run; LcwordsTurkishLaws and WordsCasingNoWords state its behaviour |
| Casing.UcwordsLaws | unicode-tools.php:80-84 | '' stays ''; a single word gets its first codepoint upper-cased; a non-word codepoint is copied and separates the two sides |
| Casing.LcwordsLaws | unicode-tools.php:74-78 | the same for `lcwords_unicode`, with lower-casing |
| Casing.UcwordsTurkishLaws | unicode-tools.php:126-130 | the same for `ucwords_turkish`, with a leading 'i' of a word upper-cased as 'I' |
| Casing.LcwordsTurkishLaws | unicode-tools.php:132-136 | the same for `lcwords_turkish`, with a leading 'I' of a word lowered as 'i' |
| Casing.WordsCasingNoWords | unicode-tools.php:74-136 | a text without word codepoints is left unchanged by all four word functions |
| Casing.UcwordsLength | unicode-tools.php:80-84 | with a one-to-one upper-case mapping, `ucwords_unicode` and `ucwords_turkish` keep the length |
| Casing.UcfirstTurkishExample | unicode-tools.php:89-95 | 'iyilik güzelLİK' becomes the mapping of ASCII 'I' followed by 'yilik güzelLİK' |

## Left out

- UTF-8 decoding and PCRE behaviour. A string is its sequence of codepoints, so invalid UTF-8 (on which `preg_split` with `/u` returns false) cannot be represented.
- `mb_internal_encoding('utf-8')` (unicode-tools.php:13) is process-wide runtime configuration. The model assumes UTF-8 throughout.
- The Unicode case tables behind `mb_convert_case` are parameters (`upper`, `lower`). Because of this, the claim at unicode-tools.php:91 that the result starts with 'İ' is not proved; it depends on those tables, and the code substitutes ASCII 'I'.
- The Unicode classes `\w` and `\s` are parameters (`isWord`, `isSpace`). The pattern of line 246 names ASCII digits and '_' explicitly, so the model excludes them whatever `isWord` says.
- The randomness of `shuffle` is the parameter `draw`, and only the permutation property is proved, not the distribution.
- Default arguments (`$l = 76`, `$e = "\r\n"`, `$pad_str = ' '`, `$dir = STR_PAD_RIGHT`, `$x = false`, `$format = 0`, `$a = ''`, `$b = ''`) are not modelled as defaults. Callers pass every argument.
- PHP's loose typing of arguments is not modelled. Lengths and offsets are integers, `$format` is an integer, `$x` is `false`, `true` or a string, and `$dir` is one of the three constants. Outside these types:
  - a `$dir` other than the three constants makes lines 190 and 208 return null;
  - a non-integer `$format` fails the `===` test at line 247 and gives the list;
  - a numeric `$x` at line 170 is converted to a key.
- Counting.CountChars returns a distinct count of 0 for an empty text, as `count(null)` does before PHP 8. PHP 8 raises a TypeError there instead, which the model does not represent.
- Casing.ConvertCase converts codepoint by codepoint. Context-dependent rules of `mb_convert_case`, such as the final sigma of newer PHP versions, are not modelled; the source only ever converts one codepoint at a time.
- Slicing.ChunkSplit requires `l >= 1` because `array_chunk` (line 51) rejects smaller sizes with an error. The model does not return that error as a value.
- Translation.StrtrUnicode requires equal codepoint counts in the two-string form. `array_combine` at line 228 rejects mismatched arrays with an error, which the model does not represent.
- Translation.Strtr: the table form is limited to single-codepoint keys. PHP's `strtr` with a table (line 223) prefers the longest matching key. With single-codepoint keys that order cannot matter, but multi-codepoint keys are not modelled.
- Padding.StrPadAsWritten follows PHP 7 on a negative count at line 198: `str_repeat` warns and returns null. PHP 8 throws a ValueError there instead, which the model does not represent.
- Padding.StrPad is the corrected version. It replaces the repeat count of line 198 with ceil(d / len(pad_str)) (see Findings).
- Words.WordCountExample states only the count. It is proved for any `\w` and `\s` that classify the example's letters, space and punctuation as usual, not for PCRE's actual tables.
- Casing.UcfirstTurkishV2 and Casing.LcfirstTurkishV2 read a missing `$tmp[1]` (and `$tmp[0]` for an empty text) as ''. In PHP that read is an undefined-offset notice whose null concatenates as ''; the notice itself is not modelled.
- The `float` arithmetic of lines 192-198 (`/ 2`, `ceil`, `floor`) is modelled with exact integer division. With integer `pad_len` the two agree.

## Findings

| source | as written | input that shows it | evidently intended | confidence | as-written member | corrected member |
|---|---|---|---|---|---|---|
| unicode-tools.php:198 | `$repeat = ceil($str_len - $pad_str_len + $pad_len)` copies of the pad string for LEFT and RIGHT; this is zero or negative once the pad string has at least `str_len + pad_len` codepoints | `str_pad_unicode('a', 2, 'abc', STR_PAD_RIGHT)` returns `a` (count 0), which is shorter than `pad_len`; `str_pad_unicode('a', 2, 'abcd', STR_PAD_LEFT)` makes the count -1: `str_repeat` returns null (PHP 7) or throws (PHP 8) and the text comes back unpadded | enough copies to cover the deficit, ceil((pad_len - str_len) / pad_str_len), giving `aa` and `da` | not executed | Padding.StrPadAsWritten (Padding.AsWrittenTooShort, Padding.AsWrittenNegative) | Padding.StrPad (Padding.StrPadShape, Padding.AsWrittenAgrees) |
