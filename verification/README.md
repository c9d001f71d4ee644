# youtube-video-downloader core, modelled in Dafny

This project models the core logic of a small YouTube downloader and proves
properties about it. It has two scripts.

- `k.mjs` prepares YouTube's stream formats.
  - It deciphers a format's signature with a list of action tokens (`decipher`, `swapHeadAndPosition`).
  - It normalises each raw format into a record with derived fields (`between`, `addFormatMeta`).
  - It ranks formats with a lexicographic comparator over integer keys (`sortFormatsBy` and the rank getters).
  - It rewrites each format's download URL (`setDownloadURL`) and collects the formats by URL (`decipherFormats`).
  - At line 227 it normalises every format and sorts them by audio quality.
- `index.mjs` is the command-line downloader.
  - It picks the best format not above 1080 lines.
  - When that format has no audio track, it downloads audio and video into a temporary directory, merges them with ffmpeg, and removes the directory.
  - It reports elapsed times as text such as "1 hour, 2 minutes and 5 seconds and 12 ms".

JavaScript objects are `Record = map<string, Value>`, where `Value` is undefined, null, a boolean, an integer or a string. Truthiness, `String(v)`, `v || 0` and `parseInt` are written out explicitly.

The code keeps the source's shape:
- Code that changes state step by step is imperative Dafny.
  - `Decipher.Decipher` loops over the tokens.
  - `Ranking.SortFormatsBy` loops with an early exit.
  - `Duration.FormatDuration` pushes parts block by block.
  - A format object is the class `DownloadUrl.Format`. `SetDownloadUrl`, `ProcessFormat` and `DecipherFormats` update it in place.
- The pure parts are functions: `between`, `addFormatMeta`, the quality pick, the join and the command string.
- Each method is proved equal to a specification function, and the properties are proved as lemmas about those functions.

The signature is modelled as a sequence of `Option<char>`, where `None` is a hole or `undefined`. This keeps line 172 as written: `w<N>` with N past the end grows the array, and its holes join as the empty string.

`Array.prototype.sort` is modelled as a stable insertion sort (`ArraySort.Sort`). The sort reads a NaN comparator result as 0.

The modules are:
- `Wrappers`: `Option`.
- `Numbers`: decimal text and `parseInt`.
- `JsText`: `indexOf`, `includes`, `split`, `join`.
- `JsValues`: values and coercions.
- `ArraySort`: the stable sort.
- `Decipher`, `Ranking`, `FormatMeta`, `DownloadUrl`: `k.mjs`.
- `Duration`, `Command`, `Downloader`: `index.mjs`.

## Model

| member | source | states |
|---|---|---|
| Decipher.Decipher | k.mjs:136-159 | the loop over the tokens returns `Deciphered(tokens, sig)`: each token applied in order to the split signature, then joined |
| Decipher.Deciphered | k.mjs:136-159 | every character of the deciphered signature is a character of the input signature |
| Decipher.Step | k.mjs:140-156 | an ignored token leaves the array as it is, no token but `w` lengthens it, and every filled slot of the result is a slot of the input |
| Decipher.DecipherNothing | k.mjs:136-159 | no tokens give the signature back unchanged |
| Decipher.DecipherCompose | k.mjs:136-159 | deciphering with `t1 + t2` is deciphering with `t1`, then deciphering that result with `t2`, when every `w` of `t1` stays in range |
| Decipher.RunAppend | k.mjs:138-157 | running `t1 + t2` over an array is running `t2` over the result of `t1` |
| Decipher.RunKeepsNoHoles | k.mjs:144-146 | while every swap stays in range, the array never gets a hole |
| Decipher.DoubleReverseIsIdentity | k.mjs:141-143 | `["r", "r"]` leaves every signature unchanged |
| Decipher.Reverse | k.mjs:142 | `reverse` keeps the length and puts element `n-1-i` at `i` |
| Decipher.ReverseInvolution | k.mjs:142 | reversing twice restores the array |
| Decipher.IgnoredTokensDoNothing | k.mjs:140-156 | dropping every token that is empty or starts with a character other than r, w, s or p does not change the result |
| Decipher.KnownTokens | k.mjs:140-156 | every kept token is one the switch acts on and comes from the input, every token the switch acts on is kept, and a single token is kept exactly when it is not ignored |
| Decipher.KnownTokensAppend | k.mjs:140-156 | keeping the tokens of `a + b` keeps those of `a`, then those of `b`; with the single-token case this makes the kept tokens exactly the acted-on ones, in input order |
| Decipher.SliceAgreesWithSplice | k.mjs:148-155 | for N >= 0, `s<N>` (slice) and `p<N>` (in-place splice) agree, and both drop the first min(N, length) characters |
| Decipher.SliceFrom | k.mjs:148-150 | `slice(N)` keeps a suffix: for N >= 0 all but the first N elements (none when N >= length), for N < 0 the last -N elements, or all of them |
| Decipher.SpliceHead | k.mjs:152-154 | `splice(0, N)` leaves a suffix whose length is the old length minus N clamped to 0..length, so all of it when N <= 0 |
| Decipher.SwapHeadAndPosition | k.mjs:169-174 | the two assignments return `SwapHead(arr, N)` |
| Decipher.SwapHead | k.mjs:169-174 | within range, elements 0 and N are exchanged and every other element and the length are kept; past the end the array has N+1 slots, `arr[N % length]` at 0, the old head at N, and the old slots or holes in between |
| Decipher.SwapHeadInvolution | k.mjs:169-174 | within range, two swaps with the same position restore the array |
| Decipher.SwapPastTheEnd | k.mjs:170-172 | `w4` on "abc" gives "bbca": past the end the head is duplicated and not exchanged |
| Decipher.Lift | k.mjs:137 | `split('')` gives one slot per character, in order |
| Decipher.JoinLift | k.mjs:137-158 | joining the split signature gives it back |
| Decipher.LiftJoin | k.mjs:137-158 | splitting the join of a hole-free array gives the array back |
| Decipher.Put | k.mjs:171-172 | an array write sets that slot, grows the array with holes past the end, and keeps every other slot |
| Decipher.WorkedFixture | k.mjs:136-159 | "ABCDEFG" under s3, r, w2 deciphers to "EFGD" |
| Decipher.OrderMatters | k.mjs:136-159 | the same three tokens in reverse order give "DABC", a different signature |
| Ranking.SortFormatsBy | k.mjs:64-73 | the loop with early `break` returns `CompareBy`: the first non-zero `key(b) - key(a)` (NaN counts as non-zero), or 0 |
| Ranking.CompareBy | k.mjs:64-73 | any result other than 0 is `key(b) - key(a)` (NaN included) for one of the keys; `CompareZero` and `CompareAtFirstDifference` say when and which |
| Ranking.CompareZero | k.mjs:64-73 | the comparison is 0 exactly when every key of both formats is a number and the keys agree |
| Ranking.CompareAtFirstDifference | k.mjs:64-73 | at the first differing key the result is `key(b) - key(a)`, so the higher key sorts first |
| Ranking.CompareAntisymmetric | k.mjs:64-73 | swapping the formats negates the result |
| Ranking.CompareTransitive | k.mjs:64-86 | "does not sort after" is transitive over formats whose keys are numbers |
| Ranking.ComparatorConsistent | k.mjs:76-86 | over numeric keys the comparator handed to `sort` is antisymmetric and transitive |
| Ranking.AudioKeysNumeric | k.mjs:51-53 | the audio encoding rank is always a number, so numeric audio bitrates make all audio keys numeric |
| Ranking.EncodingRank | k.mjs:49-53 | -1 when `codecs` is missing or empty or holds no listed name; otherwise the smallest index whose name occurs in `codecs` |
| Ranking.FirstIncluded | k.mjs:50 | `findIndex` returns the first index from `from` whose name occurs, or -1 when none does |
| Ranking.TryMap | k.mjs:227 | a map that may throw keeps the length when it succeeds |
| Ranking.TryMapSpec | k.mjs:227 | the map fails exactly when one call throws, and otherwise holds every call's result in order |
| Ranking.RankedByAudio | k.mjs:227 | the pipeline throws exactly when normalising one of `formats` followed by `adaptiveFormats` throws, and otherwise yields one entry per format |
| Ranking.RankedByAudioOrdered | k.mjs:227 | the sorted list is a permutation of the normalised formats; with numeric audio bitrates no format is followed by one with better audio |
| ArraySort.Sort | k.mjs:227 | the sort returns a permutation of its input |
| ArraySort.Insert | index.mjs:80 | one insertion step adds its element and keeps the others |
| ArraySort.SortSorted | k.mjs:227 | with a consistent comparator the result is sorted |
| ArraySort.InsertSorted | k.mjs:227 | inserting into a sorted list keeps it sorted |
| ArraySort.LastOfInsert | index.mjs:80 | the last element after an insertion is the new one when it ties or beats every other, else the old last |
| ArraySort.LastMaxIndex | index.mjs:80 | reference definition: the last position of the largest key |
| ArraySort.LastOfSortByKey | index.mjs:80 | after a stable ascending sort by key, the last element is the last one of largest key in input order |
| FormatMeta.Between | k.mjs:87-103 | "" when `left` does not occur; otherwise a text that occurs right after the first `left` |
| FormatMeta.BetweenFound | k.mjs:87-103 | with `left` first at p and `right` next at q, `between` returns the text between them, which does not contain `right` |
| FormatMeta.BetweenNoLeft | k.mjs:94-95 | `between` is "" when `left` does not occur |
| FormatMeta.BetweenNoRight | k.mjs:98-100 | `between` is "" when `right` does not occur after the first `left` |
| FormatMeta.BetweenNeverHoldsRight | k.mjs:87-103 | whatever the input, the result never contains a non-empty `right` |
| FormatMeta.FirstAtIsIndexOf | k.mjs:94 | a first occurrence is what `indexOf` returns |
| FormatMeta.NextFound | k.mjs:98-101 | searching the rest after `left` finds the next `right`, and the text before it is free of it |
| FormatMeta.CodecsOf | k.mjs:116-117 | `codecs` is null exactly when `mimeType` is falsy, and otherwise a text free of the closing quote |
| FormatMeta.VideoCodecOf | k.mjs:118-119 | `videoCodec` is non-null exactly when the format has video and non-empty codecs, and then it is the first ", "-piece |
| FormatMeta.AudioCodecOf | k.mjs:120-121 | `audioCodec` is non-null exactly when the format has audio and non-empty codecs, and then it is the last ", "-piece |
| FormatMeta.ContainerSpec | k.mjs:114-115 | with `kind` the first ';'-piece, `container` is `undefined` exactly when `kind` has no '/', and otherwise the text right after the first '/' of `kind`, up to the next '/' or the end |
| FormatMeta.LiveFrom | k.mjs:122 | `isLive` holds exactly when the `source[/=]yt_live_broadcast` marker occurs between word boundaries |
| FormatMeta.Derived | k.mjs:112-124 | the computed fields are exactly the nine derived keys |
| FormatMeta.DerivedFields | k.mjs:112-121 | `hasVideo` iff `qualityLabel` is truthy, `hasAudio` iff `audioBitrate` is truthy; codec fields agree with the flags |
| FormatMeta.AddFormatMeta | k.mjs:108-127 | normalisation throws exactly when the merged `mimeType` is truthy but not a string; otherwise the keys are those of the table entry, the format, the cipher parameters and the nine derived keys |
| FormatMeta.AddFormatMetaPrecedence | k.mjs:110-124 | precedence is table < format < cipher parameters for every key that is not derived; the derived keys hold the computed values |
| DownloadUrl.SetDownloadUrl | k.mjs:175-209 | the method leaves in the format what `WithDownloadUrl` computes from its old properties |
| DownloadUrl.WithDownloadUrl | k.mjs:175-209 | only `url` may change and the keys stay the same; `url` is kept when it is falsy or does not decode, and otherwise becomes the rendering of the rewritten URL, with the signature under `SignatureKey` |
| DownloadUrl.AdjustedQuery | k.mjs:196-206 | `ratebypass` is "yes", a non-empty signature sits under its key, no other key is added, and every other parameter is unchanged |
| DownloadUrl.Rewritten | k.mjs:194-206 | the rewritten URL has no serialised search and the adjusted query; the rest is as parsed |
| DownloadUrl.SignatureKey | k.mjs:205 | the key is `sp` when that is truthy, otherwise "signature" |
| DownloadUrl.CipherMerged | k.mjs:214-219 | without a cipher the properties are unchanged; with one, the keys are the properties' and the parsed parameters' except `signatureCipher` and `cipher`, each parameter overrides as a string value, and every other property is kept |
| DownloadUrl.SignatureOf | k.mjs:220 | a signature is deciphered exactly when there are tokens and `s` is truthy |
| DownloadUrl.ProcessFormat | k.mjs:214-221 | one pass merges the cipher, deciphers and rewrites the URL, in place |
| DownloadUrl.Processed | k.mjs:214-221 | the keys and every property except `url` are those of the cipher-merged format; `url` is kept when it is falsy or does not decode |
| DownloadUrl.ProcessAt | k.mjs:214-223 | the `forEach` body processes the format at its index and changes no other format |
| DownloadUrl.DecipherFormats | k.mjs:210-225 | every format is processed in place, and the dictionary is what assigning each format under its final URL, in order, leaves |
| DownloadUrl.DictionaryKeys | k.mjs:222 | the dictionary's keys are exactly the URLs assigned |
| DownloadUrl.DictionaryLast | k.mjs:222 | each URL maps to the last format that has it |
| DownloadUrl.DictionarySnoc | k.mjs:222 | one more loop pass adds one assignment |
| DownloadUrl.Format.constructor | k.mjs:213 | a format object holds the given properties |
| Duration.FormatDuration | index.mjs:27-54 | the block-by-block method returns `DurationText(seconds)` |
| Duration.TakeUnit | index.mjs:31-49 | one block pushes the part's text when at least one unit fits and takes its seconds off |
| Duration.BreakdownSteps | index.mjs:31-49 | the counts the blocks compute are those of `Breakdown` |
| Duration.Breakdown | index.mjs:23-49 | the counts add up to the input, with fewer than 365 days, 24 hours, 60 minutes and 60 seconds |
| Duration.PartsSpec | index.mjs:23-49 | the listed parts run from years down to seconds, each count is at least one and in range, they add up to the input, and there is at least one part exactly when the input is positive |
| Duration.DurationText | index.mjs:28-53 | "now" exactly for zero; otherwise a text that starts with a digit |
| Duration.PartTextSpec | index.mjs:32-48 | a part's text reads back as its count, continues with the unit name, and ends in "s" exactly when the count is above one |
| Duration.JoinListItems | index.mjs:54 | one part stands alone, two are joined by " and ", and a longer list is its first part, ", ", then the join of the rest |
| Duration.JoinListStart | index.mjs:54 | the join starts with the first part's first character |
| Duration.JoinList | index.mjs:54 | an empty list joins to " and undefined", and a single part stands alone |
| Duration.TimeText | index.mjs:58-59 | the text is the duration and " and " when the seconds are non-zero (nothing otherwise), then a number that reads back as the count, then " ms" |
| Duration.FormatTime | index.mjs:58-59 | as written, after the duration prefix the text reads back as the nanoseconds divided by `ms_div`, ten million |
| Duration.FormatTimeIntended | index.mjs:58-59 | with the intended divisor, after the duration prefix the text reads back as the nanoseconds divided by one million |
| Duration.FormatTimeAsWritten | index.mjs:22 | as written, for any whole seconds the number c before " ms" has 10c ms <= the nanoseconds < 10(c+1) ms, so it is at most 99 for a sub-second remainder |
| Duration.FormatTimeCountsTens | index.mjs:58-59 | five milliseconds print as "0 ms" as written, and as "5 ms" with the intended divisor |
| Duration.FormatTimeIntendedMs | index.mjs:58-59 | with the intended divisor the printed count is the whole milliseconds of the nanoseconds |
| Duration.DurationExample | index.mjs:27-54 | 3725 seconds read "1 hour, 2 minutes and 5 seconds" |
| Command.MergeArguments | index.mjs:96 | the merge command splits into `ffmpeg.exe -y -i <video> -i <audio>`, then `-c:v copy` exactly when not re-encoding, then `-shortest <file>`, whatever spaces the paths hold |
| Command.PlainWord | index.mjs:96 | a space and a plain word end one argument and start the next |
| Command.QuotedWord | index.mjs:96 | a space and a double-quoted text make that text, spaces included, the next argument |
| Command.MergeRender | index.mjs:96 | the command text is "ffmpeg.exe" followed by the rendered argument pieces, each plain or double-quoted |
| Command.MergeCommand | index.mjs:96 | the command starts with "ffmpeg.exe" and ends with ` -shortest "<file>"` |
| Command.Words | index.mjs:96 | an empty text has no words and a non-empty plain word is one argument |
| Downloader.Quality | index.mjs:78 | a non-zero quality is what `parseInt` reads from the label, and a format without a label has quality 0 |
| Downloader.QualityOfLabel | index.mjs:78 | a label such as "720p60" gives its leading number |
| Downloader.Labelled | index.mjs:77-78 | each format is paired with its parsed quality, in order |
| Downloader.Candidates | index.mjs:79 | the filter keeps exactly the pairs of quality at most 1080 |
| Downloader.PickBest | index.mjs:77-80 | there is no pick (destructuring throws) exactly when every format is above 1080 |
| Downloader.PickBestSpec | index.mjs:77-80 | the pick has quality at most 1080, at least that of every candidate, and above that of every later one, so ties go to the last in `meta.formats` order |
| Downloader.PickBestIsBestIndex | index.mjs:77-80 | the pick is the pair the reference definition `BestIndex` finds |
| Downloader.BestIndex | index.mjs:77-80 | reference definition: the last position of the largest quality not above 1080 |
| Downloader.CandidatesBest | index.mjs:79-80 | the candidates' last element of largest quality is the one `BestIndex` finds |
| Downloader.Plan | index.mjs:85-105 | a format with audio gives one stream step to the output file; one without gives five steps from making the directory to removing it, and the removal only last |
| Downloader.Executed | index.mjs:85-105 | the steps that run are a prefix of the plan, ending at the first that throws |
| Downloader.ExecutedAll | index.mjs:85-105 | without a failure every step runs |
| Downloader.TraceAsWritten | index.mjs:85-105 | as written, the steps that run are a non-empty prefix of the plan, and the directory is removed only when the whole plan ran |
| Downloader.TraceOrder | index.mjs:85-105 | the split branch runs make-dir, audio, video, merge and removal in that order; the combined branch makes no temporary directory |
| Downloader.RemovedOnlyOnSuccess | index.mjs:86-98 | as written, the directory is removed exactly when creating it, both downloads and the merge succeed |
| Downloader.TempDirLeaks | index.mjs:90-98 | as written, a failed audio download leaves the directory behind |
| Downloader.TraceWithCleanup | index.mjs:86-98 | with the removal in a `finally`, the split branch removes the directory exactly when making it succeeded, and then as its last step |
| Downloader.CleanupAgreesWithoutFailure | index.mjs:85-105 | when nothing throws, the corrected branch takes the same steps as the script |
| Downloader.Session | index.mjs:77-105 | as written: no step runs exactly when no format qualifies, and otherwise the run is `TraceAsWritten` of the pick |
| Downloader.SessionWithCleanup | index.mjs:77-105 | the same pick followed by `TraceWithCleanup`, so a run that made its directory ends by removing it |
| Downloader.MergeStep | index.mjs:96 | the merge step hands ffmpeg the video file, then the audio file, then the output |
| JsText.IndexOf | k.mjs:94 | `indexOf` is -1 or a position where the needle fits |
| JsText.IndexOfFound | k.mjs:94 | `indexOf` is -1 exactly when the needle never occurs, and otherwise an occurrence |
| JsText.IndexOfFirst | k.mjs:94 | no occurrence comes before the one `indexOf` returns |
| JsText.Split | k.mjs:115 | `split` with a non-empty separator gives at least one piece |
| JsText.SplitJoin | k.mjs:115 | joining the pieces with the separator gives the text back |
| JsText.SplitPiecesClean | k.mjs:115 | no piece contains the separator |
| JsText.SplitCount | k.mjs:115 | there is more than one piece exactly when the separator occurs |
| JsText.FirstPiece | k.mjs:119 | `split(sep)[0]` is the text before the first separator, or all of it: no occurrence of the separator starts inside it |
| JsText.FirstPieceUnique | k.mjs:119 | at most one text is a first piece, even for a separator that overlaps itself |
| JsText.SecondPiece | k.mjs:115 | `split(sep)[1]` follows the first separator and is the first piece of the text after it |
| JsText.SplitLast | k.mjs:121 | the last piece of `split` is the text after the last cut of the left-to-right scan, or all of it |
| JsText.LastPiece | k.mjs:121 | `split(sep).slice(-1)[0]` is the text after the scan's last cut, or all of it |
| JsText.LastPieceUnique | k.mjs:121 | at most one text is a last piece, even for a separator that overlaps itself such as "XYX" in "XYXYX" |
| JsText.CutOccurs | k.mjs:115 | every cut of the scan is an occurrence of the separator |
| JsText.CutsApart | k.mjs:115 | two cuts of the scan lie at least a separator's length apart |
| Numbers.ParseInt | index.mjs:78 | `parseInt` is NaN exactly when no digit follows the optional sign |
| Numbers.ParseIntOfLabel | index.mjs:78 | reading back a number followed by a non-digit suffix gives the number |
| Numbers.NatToString | index.mjs:32 | `String(n)` writes digits with no leading zero, and they read back as n |
| JsValues.Or | k.mjs:214 | the result is `a` when `a` is truthy and `b` otherwise, so it is truthy exactly when either is |
| JsValues.NumberOrZero | k.mjs:48 | a value `or` 0 is 0 for every falsy value and the number itself for a number |
| JsValues.StrValues | k.mjs:110 | parsed parameters become string values under the same keys |

## Left out

- The network and library I/O are not modelled: `fetch` and the JSON decoding at k.mjs:24-27, `ytdl.getInfo` and `downloadFromInfo`, and `exports.getTokens`. The decipher tokens and the format lists are parameters.
- Node's URL machinery is abstract: `decodeURIComponent`, `url.parse` and `url.format` are the three functions of `UrlCodec`. `URLSearchParams` and `new URL(...).searchParams` are a parameter that maps a value to a parameter map.
- DownloadUrl.WithDownloadUrl: k.mjs imports only `util`, `node-fetch` and `formats.mjs` (k.mjs:1-3), so the names `url.parse` and `url.format` (k.mjs:190, 208) are unbound and throw a ReferenceError as written. The model gives them the behaviour of Node's `url` module.
- DownloadUrl.DecipherFormats: `exports.getTokens` (k.mjs:212) is not defined in an ES module, so as written the call rejects before any format is touched, and nothing in k.mjs calls `decipherFormats`. The tokens are a parameter, as if the lookup had succeeded.
- DownloadUrl.CipherMerged: `new URL(cipher)` (k.mjs:216) throws on a cipher that is a bare query string such as `s=...&sp=sig&url=...`. `parseCipher` is a total parameter, so that throw is not modelled.
- Strings are sequences of Unicode scalar values. JavaScript's `split('')`, `length` and `indexOf` count UTF-16 code units, so text outside the Basic Multilingual Plane is split and measured differently. This is not modelled.
- The `FORMATS` table from `formats.mjs` is a parameter map. `formats.mjs` is not part of this model.
- `between`'s regular-expression branch (k.mjs:89-92) is not modelled: every caller passes a string.
- Decipher.Position: tokens are a tag followed by decimal digits below 2^31. `~~` (ToInt32) of other text is not modelled.
- Numbers.ParseInt does not skip leading white space and has no radix detection. JsValues.ToNumber reads digit strings only; other number syntax reads as NaN.
- Numbers are integers: fractional bitrates and the float width `quality / 9 * 16` in the file name (index.mjs:81) are not modelled. The output file name is a parameter.
- Ranking.RankedByAudioOrdered: sortedness is proved only when every audio bitrate reads as a number. With a NaN key, `Array.prototype.sort` gets an inconsistent comparator, whose order the language leaves open.
- Ranking: the video comparator (k.mjs:76-80) is covered by the general comparator lemmas. The script never sorts by it.
- `process.hrtime`, console output, argument parsing and the help text (index.mjs:9-21) are left out. `formatTime` takes its `[seconds, nanoseconds]` pair as parameters.
- `mkdtempSync`, the `Math.random` file names, `execSync` and file streams are not modelled. A download is a sequence of abstract steps, and `fails` says which of them throw.
- Command.MergeArguments assumes the paths contain no double quote, which would end the quoted argument early. `Command.Words` knows only spaces and double quotes, while a shell still expands `$`, backquotes and `\` inside double quotes, and `%` under cmd.exe. The output path carries the video title unsanitised (index.mjs:81-83), so the stated arguments hold only for paths free of those characters too.
- DownloadUrl.Format: only the format objects' aliasing is modelled. `DecipherFormats` requires the formats to be distinct objects, as they are in a parsed response.
- DownloadUrl.SignatureIsText: a truthy `s` that is not a string, where `split` would throw, is excluded by precondition.
- DownloadUrl.DecipherFormats: the dictionary is stated as the sequence of assignments. `DictionaryKeys` and `DictionaryLast` state its keys and its last-wins values.
- Decipher.SwapHeadAndPosition works on a sequence value: the in-place update of the array and the fact that the same array object is returned are not modelled.
- The combined branch's stream (index.mjs:101-104) is not awaited. The model takes it as one step.
- The `console.log` at k.mjs:109 and the final print at k.mjs:228 are left out.

## Findings

| source | as written | input that shows it | evidently intended | confidence | as-written member | corrected member |
|---|---|---|---|---|---|---|
| index.mjs:22 | `ms_div = 10e6` is ten million, so `formatTime` prints the nanoseconds in whole tens of milliseconds | `formatTime([0, 5000000])` prints "0 ms" | a divisor of one million, printing "5 ms" | not executed; high | Duration.FormatTimeCountsTens | Duration.FormatTimeIntendedMs |
| index.mjs:98 | `rm -R` of the temporary directory runs only after every earlier step succeeded | the audio download at index.mjs:90 rejects: the directory stays on disk | removal in a `finally`, whatever the outcome | not executed; medium | Downloader.TempDirLeaks | Downloader.TraceWithCleanup |
