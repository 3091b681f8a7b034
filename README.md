# SubRip cue builder of sub_gen, modelled in Dafny

sub_gen turns a video into a `.srt` subtitle file. It extracts the audio,
sends it to a speech-recognition service, cuts the returned transcript into
timed cues and writes them out. The two scripts `multi_language_support.py`
and `subtitle_generator.py` share one piece of logic that they write
themselves: the cue builder inside `generate_subtitles_from_audio`, plus the
`format_time` helper. This project models that logic and proves its
properties.

- `text.split()` cuts the transcript at runs of whitespace (module `Text`,
  function `Split`). `' '.join` glues a chunk back together (`Join`).
- The comprehension `[words[i:i + n] for i in range(0, len(words), n)]`
  cuts the words into chunks of `n` (module `Chunking`: `Range` models
  `range`, `Chunks` the comprehension). The slice stops at the end of the
  list, so the last chunk may be shorter.
- The `for` loop walks the chunks in order. For chunk `i` it builds the block
  `f"{i + 1}\n{format_time(start)} --> {format_time(end)}\n{' '.join(chunk)}\n\n"`,
  appends it, and moves the `start_time` accumulator forward by
  `segment_length` (module `Srt`: method `EmitCues`, called by `BuildCues`).
  Both methods are proved equal to the specification functions `Subtitles`
  and `CueList`. `CueListAt` gives cue `k` of the list in closed form.
- `format_time` splits seconds with two `divmod` steps and renders
  `HH:MM:SS,mmm` with zero padding (modules `Timestamp` and `Decimal`).
- Two modules instantiate the builder with each script's constants:
  `MultiLanguageSupport` uses 10 words and 10 seconds per cue,
  `SubtitleGenerator` uses 20 words and 10 seconds per cue.

Every property is stated for a general chunk size and cue length. The two
scripts' copies of the builder (lines 34-44) and of `format_time` (lines
52-59) are identical apart from the chunk size, so the table below cites
`multi_language_support.py` for the shared members. The instantiation rows
cite each script.

Each operation has a partner to check it against:
- `Join` is undone by `Split`: splitting the space-joined words of a chunk
  gives the chunk back. `Split` cuts at every whitespace character.
- `NatToString` and `FormatTime` are undone by `ParseDecimal` and `ParseTime`.
- A cue block is read back by `ParseCue` into index, clock readings and words.
- The chunks concatenate back to the word list.
- The loop is proved equal to a recursive specification, whose cue k is given
  in closed form.

## Model

| member | source | states |
|---|---|---|
| Text.WordLength | multi_language_support.py:35 | the token at the head of a string is its maximal run of non-whitespace characters: non-empty, no whitespace inside, and followed by whitespace or the end |
| Text.Split | multi_language_support.py:35 | every token str.split() yields is non-empty and contains no whitespace character |
| Text.SplitKeepsCharacters | multi_language_support.py:35 | the tokens, concatenated in order, are exactly the non-whitespace characters of the transcript: nothing lost, invented or reordered |
| Text.SplitEmpty | multi_language_support.py:35 | a transcript yields no tokens if and only if it is empty or all whitespace |
| Text.SplitAtSpace | multi_language_support.py:35 | every whitespace character is a token boundary: the tokens around it are the tokens before it followed by the tokens after it, so a run of whitespace of any kind separates like one space |
| Text.SplitJoin | multi_language_support.py:42 | splitting the space-joined text line of a chunk of tokens gives back that chunk |
| Decimal.ParseNatToString | multi_language_support.py:42 | str(n) is a non-empty string of decimal digits with no leading zero unless n is 0, and reading it back as a decimal numeral gives n |
| Decimal.NatToStringLength | multi_language_support.py:59 | a number below 10^w has at most w digits |
| Decimal.ParseLeadingZeros | multi_language_support.py:59 | zeros put in front of a numeral keep it all digits and do not change its value |
| Decimal.PadIntShape | multi_language_support.py:59 | a field padded to width w reads back as n, is at least w long, and is exactly w long when n fits in w digits |
| Timestamp.DivMod60IsDivMod | multi_language_support.py:56-57 | the repeated-subtraction divmod by 60 gives a remainder below 60 with 60 q + r equal to the input, and equals (x // 60, x % 60) |
| Timestamp.DecomposeSound | multi_language_support.py:56-58 | the two divmod steps give minutes and seconds below 60, zero milliseconds, and 3600 h + 60 m + s equal to the input |
| Timestamp.DecomposeUnique | multi_language_support.py:56-57 | any reading with minutes and seconds below 60 is the decomposition of its own seconds, so the decomposition is unique |
| Timestamp.FormatTimeWidth | multi_language_support.py:59 | a timestamp is at least 12 characters, and exactly 12 if and only if the time is below 100 hours (360000 s); hours are not capped |
| Timestamp.FormatTimeRoundTrip | multi_language_support.py:52-59 | parsing format_time(s) gives back the decomposition of s, whose seconds are s |
| Chunking.Range | multi_language_support.py:36 | every element of range(start, stop, step) lies in [start, stop) |
| Chunking.RangeLength | multi_language_support.py:36 | range(start, stop, step) has ceil((stop - start) / step) elements, none when start >= stop |
| Chunking.RangeAt | multi_language_support.py:36 | the k-th element of the range is start + k * step |
| Chunking.ChunkAt | multi_language_support.py:36 | chunk k is the slice from k * n to (k + 1) * n, clamped to the end of the list, and starts inside the list |
| Chunking.ChunksCount | multi_language_support.py:36 | there are ceil(len / n) chunks: the least count whose n-word blocks cover the list, and none if and only if the list is empty |
| Chunking.ChunkSizes | multi_language_support.py:36 | every chunk has 1 to n words, and every chunk but the last has exactly n |
| Chunking.ChunksTail | multi_language_support.py:36 | the chunks of a list are its first n words followed by the chunks of the rest |
| Chunking.ChunksConcat | multi_language_support.py:35-36 | the chunks, concatenated in order, give back the word list exactly |
| Srt.CueListAt | multi_language_support.py:40-43 | cue k is the block with index k + 1, window k * d to (k + 1) * d, and chunk k's words joined by spaces |
| Srt.EmitStep | multi_language_support.py:40-44 | one turn of the loop appends the cue of chunk i to the cues of chunks 0..i-1, and the start time advances from i * d to (i + 1) * d |
| Srt.EmitCues | multi_language_support.py:39-44 | the loop with its start-time accumulator produces exactly the closed-form cue list, one cue per chunk in chunk order |
| Srt.BuildCues | multi_language_support.py:34-44 | split, chunk and loop together return exactly Subtitles(text, n, d) |
| Srt.TimeLineTokens | multi_language_support.py:42 | the "start --> end" line splits into start stamp, arrow and end stamp and contains no line break |
| Srt.CueLines | multi_language_support.py:42 | a cue block without its closing blank line is exactly the index line, the time line and the text line |
| Srt.ParseCueBlock | multi_language_support.py:42 | a block built from a numeral, two parseable stamps and a one-line text reads back as those parts |
| Srt.CueRoundTrip | multi_language_support.py:42 | a cue block reads back as its index, the clock readings of its start and end, and its exact words |
| Srt.SubtitlesCount | multi_language_support.py:35-43 | the subtitles list has ceil(words / n) entries, and is empty if and only if the transcript is empty or all whitespace |
| Srt.SubtitlesDecode | multi_language_support.py:39-44 | cue k reads back as index k + 1, window [k * d, (k + 1) * d] whatever its chunk's size, and exactly chunk k's words |
| Srt.CueListDecode | multi_language_support.py:39-44 | in any cue list, cue k reads back as index k + 1, window [k * d, (k + 1) * d] and chunk k's words |
| Srt.SubtitlesStartAtZero | multi_language_support.py:39-42 | the first cue starts at 0 seconds |
| Srt.SubtitlesContiguous | multi_language_support.py:41-44 | cue k ends at the same clock reading at which cue k + 1 starts |
| Srt.SubtitlesKeepWords | multi_language_support.py:35-43 | the words read back from all cues, in order, are exactly the transcript's tokens |
| MultiLanguageSupport.GenerateSubtitlesFromTranscript | multi_language_support.py:34-44 | this script's builder uses 10 words and 10 seconds per cue and returns ceil(words / 10) cues |
| SubtitleGenerator.GenerateSubtitlesFromTranscript | subtitle_generator.py:34-44 | this script's builder uses 20 words and 10 seconds per cue and returns ceil(words / 20) cues |

## Left out

- Audio extraction with moviepy (`extract_audio_from_video`, lines 6-17 of both scripts) is media I/O through a foreign library.
- Speech recognition (`Recognizer().record`, `recognize_google`, lines 23-31) is a call to a remote service. The recognised transcript is an input parameter of the model.
- Writing the `.srt` file (`save_subtitles_to_file`, lines 61-70) is not modelled. The file content would be the cue strings concatenated in order.
- Removing the temporary audio file (lines 90-92) is not modelled.
- `generate_subtitles` skips writing when the list is empty (lines 84-85). This orchestration is not modelled. `Srt.SubtitlesCount` states when the list is empty.
- The console prompts and the `__main__` blocks (lines 94-103 and 94-102) are not modelled.
- The `tqdm` progress bar and the `print` calls have no effect on the result.
- The `except Exception` handlers that return `None` (lines 14-16, 47-49) only catch failures of the foreign calls above.
- Timestamp.FormatTime: takes a natural number of seconds only. The builder passes `start_time`, which starts at the integer 0 and grows by the integer `segment_length`. So the fractional-seconds branch (`seconds - int(seconds)`, line 58) always gives 0 milliseconds, and floating-point input is not modelled.
- Text.IsSpace: lists the characters for which Python's `str.isspace()` holds, which `str.split()` splits on. Python strings may hold lone surrogate code points; Dafny characters cannot.

## Notes on the code

- The millisecond field is truncated by `int(...)` (line 58). For a whole number of seconds it is always 0.
- Neither the chunk size nor the cue length is checked. The chunk size is fixed in each script: `segment_length = 10` in `multi_language_support.py` (lines 34 and 36) and the literal 20 in `subtitle_generator.py` (line 36). So the model's `wordsPerCue > 0` holds wherever the builder is used; a chunk size of 0 would make `range()` fail. A cue length of 0 is accepted, as in the code.
