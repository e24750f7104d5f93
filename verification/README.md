# Transcript post-processing of speech-to-phrase, in Dafny

This project models the transcript post-processing layer of speech-to-phrase.
Every speech backend returns raw text, and this layer turns that text into the
line the grammar matcher sees. The model covers:

- **Vietnamese normalisation** (`vi_normalize.dfy`, module `ViNormalize`).
  - `_words_to_number` is a fold over a `Tally` (running total and the
    `value_set` flag).
  - `normalize_vietnamese_numbers` is a recursive scan over maximal runs of
    number words. A separate run-by-run reference definition (`ByRuns`) is
    proved equal to that scan.
  - The spelling rewrites: "tivi"/"ti vi"/"ti-vi"/"ti. vi" to "tv", "ga ra"
    to "gara", and "hủy"/"Hủy" to "huỷ"/"Huỷ".
- **The shared tail `finalize_transcript`** (`post_process.dfy`, module
  `PostProcess`): strip; empty text gives ""; Vietnamese normalisation only
  for the "vi" language family; then `decode_meta`.
- **VietASR helpers** (`vietasr.dfy`, module `VietAsr`):
  - `_tokens_to_text`: drops out-of-range ids and `<blk>`, turns "▁" into a
    space, and strips.
  - The per-line parsing and table growth of `_read_tokens`, over a list of
    lines.
  - The empty-table check that follows `_read_tokens`.
  - The text tail of `transcribe_vietasr`.
- **ChunkFormer helpers** (`chunkformer.dfy`, module `ChunkFormer`):
  - `_extract_repo_id`: the path of the URL as `urlparse` finds it, then the
    first two non-empty segments.
  - `_decode_to_text`, over a datatype for the shapes `endless_decode` can
    return: `None`, a string, a dict, an iterable, or anything else.
  - The text tail of `transcribe_chunkformer`.
- **Whisper helpers** (`whisper.dfy`, module `Whisper`): the model-id
  resolution (the HuggingFace URL wins over the five PhoWhisper aliases), and
  the final clean-up (strip, casing, removal of trailing periods, finalize).
- **Python string and number semantics** the code relies on (`strings.dfy`,
  `numerals.dfy`): `strip`, `split()`, `" ".join`, `split("/")`,
  `str.replace` (left to right, non-overlapping), `in`, `rstrip(c)`, `int()`
  on a field, and `str(n)`.
- **Small shared modules**: `wrappers.dfy` (`Option`) and `hugging_face.dfy`
  (the hub host name).

`decode_meta` and the casing function returned by `WordCasing.get_function`
are defined outside the modelled files. They are function-valued parameters
(`string -> string`), so every property holds for any such function. The
`Model` argument of `finalize_transcript` is reduced to its
`language_family` string. `model.url` becomes an `Option<string>`.

Two observations about the code, both proved:

- "năm" is a follower word, but it is also a unit (5). A maximal run of
  number words therefore never stops in front of "năm", so "năm" never acts
  as a follower (`ViNormalize.NamNeverFollows`).
- The "phần" + "trăm" branch and the "rưỡi" branch of `should_convert` can
  never decide anything: "phần" and "rưỡi" are already followers
  (`ViNormalize.ConvertsIsRunConverts`).

`re.sub("ga ra", "gara", …)` is modelled as a plain replacement, because the
pattern contains no regular-expression metacharacter.

## Model

| member | source | states |
|---|---|---|
| ViNormalize.StepAccepts | speech_to_phrase/vi_normalize.py:46-80 | One loop iteration continues exactly when the word is one of the number tokens (the unit words plus mười, mươi, linh, lẻ, trăm); otherwise it returns early. Every accepted word sets `value_set`. |
| ViNormalize.FoldAccepts | speech_to_phrase/vi_normalize.py:46-80 | The loop reaches its end exactly when every word is a number token. After a non-empty list `value_set` is set. |
| ViNormalize.WordsToNumber | speech_to_phrase/vi_normalize.py:37-82 | The result is None exactly when the list is empty or contains a word outside the number tokens. So a non-empty list of number words always yields a number. |
| ViNormalize.LoneKhong | speech_to_phrase/vi_normalize.py:71-82 | ["không"] yields 0, not None: `value_set` tells a zero apart from no value. |
| ViNormalize.Twelve | speech_to_phrase/vi_normalize.py:47-53 | ["mười", "hai"] yields 12. |
| ViNormalize.TwentyFive | speech_to_phrase/vi_normalize.py:55-58 | ["hai", "mươi", "lăm"] yields 25. |
| ViNormalize.OneHundredFive | speech_to_phrase/vi_normalize.py:60-80 | ["một", "trăm", "linh", "năm"] yields 105. |
| ViNormalize.ScalesAreNotUnits | speech_to_phrase/vi_normalize.py:8-23 | The five extra number tokens are not keys of the unit table, so the branch order of the loop never shadows a unit. |
| ViNormalize.StepSmall | speech_to_phrase/vi_normalize.py:60-80 | From a consistent state, linh/lẻ and the unit words add their unit value (0 for the fillers) to the total. |
| ViNormalize.FoldSmall | speech_to_phrase/vi_normalize.py:46-82 | Over a list without mười, mươi or trăm, the total is the sum of the unit values. |
| ViNormalize.FoldStaysBig | speech_to_phrase/vi_normalize.py:46-80 | Once the total reaches 10 it never drops below 10. |
| ViNormalize.FoldWithBigWord | speech_to_phrase/vi_normalize.py:47-69 | Any accepted list containing mười, mươi or trăm has a total of at least 10. |
| ViNormalize.SuffixStaysSmall | speech_to_phrase/vi_normalize.py:37-82 | If a run of number words is worth less than 10, every proper suffix of it is also worth less than 10. |
| ViNormalize.RunEnd | speech_to_phrase/vi_normalize.py:95-98 | The inner loop stops at the end of the maximal run: every token before it is a number token, and the token at it (if any) is not. |
| ViNormalize.RunEndInside | speech_to_phrase/vi_normalize.py:96-98 | Starting the inner loop anywhere inside a run gives the same end. |
| ViNormalize.NamNeverFollows | speech_to_phrase/vi_normalize.py:23-34 | The token after a maximal run is never "năm", so its place in the follower set is never used. |
| ViNormalize.ConvertsIsRunConverts | speech_to_phrase/vi_normalize.py:100-120 | A run is replaced exactly when (a) the next token is a follower, or the run ends the text with value at least 10; and (b) the run is not ["không"]; and (c) it is not ["trăm"] directly after "phần". |
| ViNormalize.SuffixNotConverted | speech_to_phrase/vi_normalize.py:94-126 | When a run is kept, the scan restarts one token later, and no later start inside the same run converts either. |
| ViNormalize.ScanCopiesRun | speech_to_phrase/vi_normalize.py:94-126 | The rest of a kept run is copied unchanged, in order. |
| ViNormalize.ScanIsByRuns | speech_to_phrase/vi_normalize.py:92-126 | The index-stepping scan equals the reference definition: each maximal run is replaced whole by one decimal token or kept whole, and every other token is copied. |
| ViNormalize.ScanEmitsWords | speech_to_phrase/vi_normalize.py:121-126 | Every emitted token is a non-empty word without whitespace, so joining and re-splitting the output loses nothing. |
| ViNormalize.NormalizeNumbers | speech_to_phrase/vi_normalize.py:88-90 | Text with no tokens is returned unchanged. |
| ViNormalize.NormalizeNumbersTokens | speech_to_phrase/vi_normalize.py:85-128 | For text with tokens, the tokens of the result are the run-by-run conversion of the input's tokens. |
| ViNormalize.ByRunsWithoutNumbers | speech_to_phrase/vi_normalize.py:125-126 | With no number token left, every token is copied. |
| ViNormalize.NumbersWithoutNumberWords | speech_to_phrase/vi_normalize.py:88-128 | Text without number words comes back as its tokens joined by single spaces. |
| ViNormalize.NormalizeCancellation | speech_to_phrase/vi_normalize.py:131-136 | The result contains no "hủy" and no "Hủy", has the input's length, and equals the input when neither spelling occurs. `CancellationRewritesEveryOldSpelling` states the other direction. |
| ViNormalize.CancellationChangesOnlyOldSpellings | speech_to_phrase/vi_normalize.py:134-135 | Every changed position lies inside an occurrence of "hủy" or "Hủy" in the input, and now holds the matching character of "huỷ" or "Huỷ" respectively. |
| ViNormalize.CancellationRewritesEveryOldSpelling | speech_to_phrase/vi_normalize.py:134-135 | Every "hủy" in the input is "huỷ" at the same place in the result, and every "Hủy" is "Huỷ". With `CancellationChangesOnlyOldSpellings`, this fixes the result character by character. |
| ViNormalize.CancellationRemovesOldSpelling | speech_to_phrase/vi_normalize.py:134-135 | After the first replacement no "hủy" is left. The second replacement brings none back and removes every "Hủy". |
| ViNormalize.RewriteSpellings | speech_to_phrase/vi_normalize.py:142-146 | None of "tivi", "ti vi", "ti-vi", "ti. vi" and "ga ra" is left in the result, and text without any of them is left unchanged. So the rewrites are idempotent. `SpellingsRewrittenInPlace` states what each spelling becomes. |
| ViNormalize.RewritesRemoveOldSpellings | speech_to_phrase/vi_normalize.py:142-146 | Each rewrite removes its own spelling, and no inserted "tv" or "gara" completes an earlier spelling or a new "ga ra". |
| ViNormalize.SpellingsRewrittenInPlace | speech_to_phrase/vi_normalize.py:142-146 | Take a text `a + " " + w + " " + b`, where `a` and `b` hold no old spelling. If `w` is "tivi", "ti vi", "ti-vi" or "ti. vi", the rewrites give `a + " tv " + b`. If `w` is "ga ra", they give `a + " gara " + b`. |
| ViNormalize.NormalizeTranscript | speech_to_phrase/vi_normalize.py:139-149 | After the fixed sequence of rewrites, the transcript contains no "hủy" and no "Hủy". |
| ViNormalize.TranscriptOfBlank | speech_to_phrase/vi_normalize.py:139-149 | Whitespace-only text passes through the whole normaliser unchanged. |
| PostProcess.FinalizeTranscript | speech_to_phrase/post_process.py:10-20 | Blank input yields "". Otherwise the result is `decode_meta` of the stripped text, normalised first exactly when the language family is "vi". |
| PostProcess.FinalizeOfStripped | speech_to_phrase/post_process.py:13 | Stripping the input first changes nothing. |
| PostProcess.FinalizeDependsOnStripped | speech_to_phrase/post_process.py:13-20 | Two inputs with the same stripped form give the same result. |
| PostProcess.FinalizeAfterCasing | speech_to_phrase/post_process.py:13-15 | A backend's own "strip, return '' if empty" before the call agrees with calling `finalize_transcript` directly. |
| VietAsr.KeptPieces | speech_to_phrase/transcribe_vietasr.py:247-253 | The kept pieces are table entries other than "<blk>". A single id contributes `tokens[id]` exactly when it is in range and not the blank. Every kept id's entry is among the pieces, and there are none exactly when every id is out of range or names a blank. With `KeptPiecesAppend` this fixes the pieces and their order. |
| VietAsr.KeptPiecesAppend | speech_to_phrase/transcribe_vietasr.py:248-253 | The loop keeps pieces id by id, so splitting the id list splits the pieces. |
| VietAsr.Detokenize | speech_to_phrase/transcribe_vietasr.py:255-257 | The result contains no "▁", has no leading or trailing whitespace, and is "" for no pieces. |
| VietAsr.TokensToText | speech_to_phrase/transcribe_vietasr.py:246-257 | The result contains no "▁" and is stripped. It is "" when no id is kept. |
| VietAsr.SpacedWordPieces | speech_to_phrase/transcribe_vietasr.py:255-256 | Word pieces that each start with "▁" concatenate and replace to a space followed by the words joined by single spaces. |
| VietAsr.WordPiecesRoundTrip | speech_to_phrase/transcribe_vietasr.py:255-257 | Detokenising the pieces "▁w1", "▁w2", … gives back the words joined by single spaces. |
| VietAsr.ParseLineAccepts | speech_to_phrase/transcribe_vietasr.py:264-279 | A line is accepted exactly when it is not blank, does not start with "#" after stripping, has at least two fields, and its last field is a non-negative integer. |
| VietAsr.ParseLineOfEntry | speech_to_phrase/transcribe_vietasr.py:264-279 | Round trip: the line "token index" parses back to that entry. |
| VietAsr.Store | speech_to_phrase/transcribe_vietasr.py:281-283 | The table is padded with "" up to index+1 and slot `index` gets the token. Every other slot keeps its value. |
| VietAsr.LastSetter | speech_to_phrase/transcribe_vietasr.py:281-283 | Finds the last accepted line that writes a given slot, or reports that none does. |
| VietAsr.StoreAllSpec | speech_to_phrase/transcribe_vietasr.py:261-285 | The length is 1 + the largest accepted index, or 0 when nothing is accepted. Each slot holds the token of the last line with that index, or "". |
| VietAsr.ReadTokensSpec | speech_to_phrase/transcribe_vietasr.py:260-285 | The facts of `StoreAllSpec` stated over the raw lines: every accepted line's index fits, the length is exactly one more than the largest accepted index (some accepted line has index length - 1), it is 0 exactly when no line is accepted, and every slot holds its last setter's token or "". |
| VietAsr.LoadTokens | speech_to_phrase/transcribe_vietasr.py:155-159 | The resources are refused exactly when no line of the file is accepted. |
| VietAsr.TranscribeTail | speech_to_phrase/transcribe_vietasr.py:73-74 | No hypothesis means "". |
| VietAsr.TranscribeTailIsFinalize | speech_to_phrase/transcribe_vietasr.py:73-88 | No hypothesis, or a first hypothesis whose text is empty, gives "". Otherwise the tail is `finalize_transcript` of the cased text, so its own strip and emptiness check change nothing. |
| ChunkFormer.FirstOf | speech_to_phrase/transcribe_chunkformer.py:165 | Finds the first position holding one of the stop characters, or the end of the string. |
| ChunkFormer.AfterScheme | speech_to_phrase/transcribe_chunkformer.py:165 | When the URL starts with a scheme (a letter, then letters, digits, "+", "-" or ".") ended by a ":", that ":" is the first one and the result is the text after it. Otherwise the URL is returned whole. |
| ChunkFormer.UrlPath | speech_to_phrase/transcribe_chunkformer.py:165-166 | The path holds no "?" and no "#", and it is a contiguous piece of the URL followed by "?", "#" or the end: the query and fragment are cut off, not deleted character by character. |
| ChunkFormer.NonEmpty | speech_to_phrase/transcribe_chunkformer.py:166 | The comprehension keeps only non-empty segments drawn from the input, and keeps every non-empty segment. A single segment is kept exactly when it is non-empty. |
| ChunkFormer.NonEmptyAppend | speech_to_phrase/transcribe_chunkformer.py:166 | Filtering distributes over concatenation. |
| ChunkFormer.ExtractRepoId | speech_to_phrase/transcribe_chunkformer.py:161-170 | A result exists only for a URL that mentions "huggingface.co", and then its "/"-segments are the path's first two non-empty segments. One exists whenever there are two such segments. |
| ChunkFormer.PathOfHttpsUrl | speech_to_phrase/transcribe_chunkformer.py:165 | For "https://host/path" followed by nothing or by a query or fragment starting with "?" or "#", the path is "/path". |
| ChunkFormer.RepoPathSegments | speech_to_phrase/transcribe_chunkformer.py:166-167 | "/owner/name…" has owner and name as its first two non-empty segments. |
| ChunkFormer.HubUrlPath | speech_to_phrase/transcribe_chunkformer.py:164-165 | A hub URL mentions "huggingface.co", and its path is "/owner/name" plus the path tail, with any query or fragment cut off. |
| ChunkFormer.RepoIdOfHubUrl | speech_to_phrase/transcribe_chunkformer.py:161-168 | "https://huggingface.co/owner/name…", with any path tail, query or fragment (for example "?download=1"), yields "owner/name". |
| ChunkFormer.FieldPieces | speech_to_phrase/transcribe_chunkformer.py:195-199 | Only stripped, non-empty pieces survive, and every non-blank string value contributes its stripped text. |
| ChunkFormer.FieldPiecesOne | speech_to_phrase/transcribe_chunkformer.py:195-199 | One value yields its stripped text exactly when it is a string that is not blank, and nothing otherwise. |
| ChunkFormer.FieldPiecesAppend | speech_to_phrase/transcribe_chunkformer.py:195-199 | The comprehension goes through the values in order, so splitting the values splits the pieces. With `FieldPiecesOne` this fixes the pieces, their text and their order, so "a  b" stays "a  b". |
| ChunkFormer.ItemPieces | speech_to_phrase/transcribe_chunkformer.py:203-213 | Only stripped, non-empty pieces survive, and every item whose piece is non-empty contributes it. |
| ChunkFormer.ItemPiecesOne | speech_to_phrase/transcribe_chunkformer.py:205-213 | One item yields its stripped piece exactly when that piece is non-empty. |
| ChunkFormer.ItemPiecesAppend | speech_to_phrase/transcribe_chunkformer.py:204-213 | The loop appends item by item, so splitting the items splits the segments. With `ItemPiecesOne` this fixes the segments and their order. |
| ChunkFormer.DecodeToText | speech_to_phrase/transcribe_chunkformer.py:187-217 | Every branch returns text without leading or trailing whitespace. `None` gives "", a string gives itself stripped, and any other value gives its `str` stripped. The dict and iterable branches are characterised by `DictTextWords` and `SequenceText`. |
| ChunkFormer.JoinedPiecesNeedNoStrip | speech_to_phrase/transcribe_chunkformer.py:200 | Joining stripped non-empty pieces with spaces gives text that the final `strip()` leaves alone. |
| ChunkFormer.FieldPiecesWords | speech_to_phrase/transcribe_chunkformer.py:195-199 | The kept values carry exactly the words of the string values, in order. |
| ChunkFormer.DictTextWords | speech_to_phrase/transcribe_chunkformer.py:194-200 | A dict yields its kept values joined by single spaces, whose words are the words of its string values in order. Non-string values add nothing. |
| ChunkFormer.SequenceText | speech_to_phrase/transcribe_chunkformer.py:202-215 | An iterable yields its kept pieces joined by single spaces, and its words are the words of those pieces. |
| ChunkFormer.BlankItemsGiveNothing | speech_to_phrase/transcribe_chunkformer.py:212-215 | When every piece is blank, the result is "". |
| ChunkFormer.TranscribeTail | speech_to_phrase/transcribe_chunkformer.py:64-66 | Empty decoded text gives "". |
| ChunkFormer.TranscribeTailIsFinalize | speech_to_phrase/transcribe_chunkformer.py:64-73 | Empty decoded text gives "". Otherwise the tail is `finalize_transcript` of the cased text, so its own strip and emptiness check change nothing. |
| Whisper.UrlParts | speech_to_phrase/transcribe_whisper.py:39 | The parts contain no "/" and, joined by "/", give back the URL without its trailing "/". There are at least two exactly when that stripped URL contains a "/". |
| Whisper.ResolveModelId | speech_to_phrase/transcribe_whisper.py:36-51 | Without a HuggingFace URL the id goes through the alias table and is otherwise kept. With one, the result's "/"-parts are the URL's last two parts after trailing "/" are removed, or the id is kept when there is only one part. |
| Whisper.LastTwoParts | speech_to_phrase/transcribe_whisper.py:39-41 | The last two parts of "…/owner/name" are owner and name. |
| Whisper.HubUrlModelId | speech_to_phrase/transcribe_whisper.py:37-41 | A HuggingFace URL ending in "/owner/name", with any number of trailing "/", resolves to "owner/name". |
| Whisper.HubUrlShadowsAlias | speech_to_phrase/transcribe_whisper.py:36-51 | A HuggingFace URL without "/" keeps `model.id`, even for a PhoWhisper alias: the alias table is not consulted. |
| Whisper.TranscribeTail | speech_to_phrase/transcribe_whisper.py:90-96 | A blank transcriber result gives "". |
| Whisper.TrailingPeriodsIgnored | speech_to_phrase/transcribe_whisper.py:98-100 | A casing that appends any number of periods gives the same transcript as one that does not. |
| Strings.Strip | speech_to_phrase/post_process.py:13 | `strip()` removes the leading and trailing whitespace and nothing else. The result is empty exactly for whitespace-only text. |
| Strings.StripUnique | speech_to_phrase/post_process.py:13 | Any whitespace-trimmed part of the text that is itself stripped is the result of `strip()`. |
| Strings.StripIdempotent | speech_to_phrase/transcribe_chunkformer.py:200 | Stripping twice is stripping once. |
| Strings.Words | speech_to_phrase/vi_normalize.py:88 | `split()` yields non-empty words without whitespace. |
| Strings.WordsOfBlank | speech_to_phrase/vi_normalize.py:88-90 | `split()` yields no tokens exactly for whitespace-only text. |
| Strings.JoinThenSplit | speech_to_phrase/vi_normalize.py:128 | Splitting words joined by single spaces gives the words back. |
| Strings.WordsOfStrip | speech_to_phrase/transcribe_vietasr.py:264-268 | Splitting the stripped line gives the same fields as splitting the raw line. |
| Strings.SplitOn | speech_to_phrase/transcribe_whisper.py:39 | `split("/")` gives at least one part, no part contains "/", and joining the parts with "/" gives the input back. |
| Strings.Replace | speech_to_phrase/vi_normalize.py:134 | Text without the pattern is unchanged. A same-length replacement keeps the length. `ReplaceAtFirst` states how an occurrence is rewritten. |
| Strings.ReplaceChangesOnlyMatches | speech_to_phrase/vi_normalize.py:134 | Every position a same-length replacement changes lies inside an occurrence of the pattern. |
| Strings.TwoReplacesChangeOnlyMatches | speech_to_phrase/vi_normalize.py:134-135 | The same for two replacements in a row: a changed position lies inside an occurrence of one of the patterns, and holds that pattern's replacement character. |
| Strings.ReplaceAtFirst | speech_to_phrase/vi_normalize.py:134 | The first occurrence of the pattern becomes the replacement, and the scan resumes right after it: `replace(a + pat + b) == a + rep + replace(b)` when `a + pat` holds no earlier occurrence. |
| Strings.ReplaceRewritesOccurrence | speech_to_phrase/vi_normalize.py:134 | For a same-length replacement whose pattern cannot overlap itself, every occurrence of the pattern holds the replacement at the same place in the result. |
| Strings.ReplaceKeepsOccurrence | speech_to_phrase/vi_normalize.py:135 | An occurrence of another string that no match of the pattern can overlap survives a same-length replacement unchanged. |
| Strings.ReplaceSplit | speech_to_phrase/vi_normalize.py:142 | When no occurrence of the pattern crosses the seam between `x` and `y`, `replace(x + y)` is `replace(x) + replace(y)`. |
| Strings.ReplaceAround | speech_to_phrase/vi_normalize.py:142-146 | A middle that guards its borders against the pattern is rewritten on its own when the text on either side holds no occurrence: `replace(a + m + b) == a + replace(m) + b`. |
| Strings.RStripChar | speech_to_phrase/transcribe_whisper.py:99 | `rstrip(".")` removes exactly the trailing run of periods. |
| Strings.RStripCharAppended | speech_to_phrase/transcribe_whisper.py:99 | Appending more periods does not change the result of `rstrip(".")`. |
| Strings.SplitOnSingle | speech_to_phrase/transcribe_whisper.py:39-40 | `split("/")` gives a single part exactly when there is no "/". |
| Numerals.ParseInt | speech_to_phrase/transcribe_vietasr.py:274 | A field parses exactly when it is one or more digits with an optional "+" or "-" in front. Digits give their value, "+" digits the same value, and "-" digits its negation. |
| Numerals.ParseDecimal | speech_to_phrase/vi_normalize.py:121 | Round trip: the decimal `str(n)` parses back to n. |
| Numerals.DecimalInjective | speech_to_phrase/vi_normalize.py:121 | Different values are written differently. |

## Left out

- Whitespace: `strip()` and `split()` treat only the six ASCII whitespace characters as space. Python also treats the separators U+001C to U+001F, U+0085 and the Unicode spaces (for example U+00A0 or U+2028) as whitespace. The Vietnamese text the normaliser sees uses none of them.
- Numerals.ParseInt: accepts an optional sign and ASCII digits only. It does not accept the surrounding whitespace, "_" separators or non-ASCII digits that Python's `int()` also takes. The field is already whitespace-free where the code calls it.
- ChunkFormer.UrlPath: a simplified `urlparse`. It covers the scheme, the "//" network location, and the cut at "?" and "#". It does not model `;params`, the removal of leading spaces and control characters (Python 3.11.4 and later strip both, so " https://huggingface.co/o/n" gives "o/n"), or the `ValueError` raised for a malformed bracketed IPv6 host.
- ChunkFormer.DecodeToText: a dict's values are either strings (`StrField`) or something else (`OtherField`). The "decode" entry of a dict item is taken to be a string. `str(item)` of any other item is an opaque `repr` string. Python's `str()` of arbitrary objects is not modelled.
- Whisper.TranscribeTail: `result.get("text", "")` is an `Option<string>`. A non-string "text" value is not modelled.
- VietAsr.ReadTokens: reads a list of lines, not a file. Opening and decoding the file with `utf-8` is I/O.
- Audio collection, the conversion of PCM bytes to floats and the division by 32768.0: async I/O and floating point.
- Model loading, `snapshot_download`, `torch.jit.load` and the process-wide caches: foreign libraries and global mutable state.
- `_greedy_search`, fbank features and `pad_sequence`: tensor numerics over an opaque model. The model takes its hypotheses as input.
- Writing the temporary WAV file and checking that files exist: filesystem I/O.
- speech_to_phrase/transcribe_vosk.py: a thin wrapper around the Vosk recogniser. speech_to_phrase/__init__.py only re-exports names.
- `decode_meta` and `WordCasing.get_function`: their source is not part of this model, so they are parameters.
- The exceptions the backends raise (`TranscribingError`) around the calls above belong to the left-out I/O. The one raised for an empty token table is modelled as `VietAsr.LoadTokens` returning `None`.
