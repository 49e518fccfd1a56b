# videotools in Dafny

A Dafny model of the core of `videotools.py`, a GTK front end to ffmpeg. It
converts, cuts, rotates and concatenates the videos of a directory. The model
covers the logic behind the windows:

- the two time helpers, `time_to_seconds` and `seconds_to_time`;
- the size text `to_human_size`;
- the conversion table `get_codec_info`;
- the feature scan `get_ffmpeg_features`, with its cache, and the codec lists
  built from it at start-up;
- the batch run of `VideoProgressDialog`. This covers the naming of each new
  file, the expansion of the `${ORIGEM}`, `${DESTINO}` and `${EXTENSAO}`
  placeholders, the reading of ffmpeg's output into progress reports, and the
  `failed` and `mustStop` flags;
- the rules of the main window:
  - which files are videos;
  - the selection counter and the buttons it enables;
  - the total length of the selection;
  - the order of the grid;
  - the rotation filters;
- the check of the interval in the extraction dialog.

Modules:

| module | file | what it holds |
|---|---|---|
| `Wrappers` | wrappers.dfy | `Option` |
| `PyStr` | pystr.dfy | the Python `str`, `int()` and `posixpath` operations the program uses, with Python's edge cases: `find` returns -1, slices clamp, `replace` works left to right, `strip` uses Unicode whitespace |
| `TimeCodec` | timecodec.dfy | `time_to_seconds`, `seconds_to_time` |
| `HumanSize` | humansize.dfy | `to_human_size` |
| `Naming` | naming.dfy | extension, stem and destination of each input; the fixed destination of `__init__` |
| `Template` | template.dfy | the ffmpeg argument list and its placeholders |
| `Progress` | progress.dfy | the per-line reading of ffmpeg's output |
| `Batch` | batch.dfy | `processa_videos`: a specification function per step and the class `VideoBatch` proved against it |
| `Features` | features.dfy | `get_ffmpeg_features` and its cache |
| `Codecs` | codecs.dfy | `get_codec_info`, the offered codec lists, the rotation table |
| `Selection` | selection.dfy | `is_video`, `do_atualiza_contador_selecao`, `obter_total_segundos`, `compareTreeItem`, `ExtrairDialog.do_valida_campos` |

Things the model takes as inputs:

- The file system is two sets, one of files and one of directories.
- What one run of ffmpeg prints, and its exit code, is a `Run` value.
- The stop request made from the UI thread is a flag per file.
- The sizes `os.stat` reports are a sequence of naturals.
- The output of `ffmpeg` without arguments is a sequence of lines.

Quirks of the program the model keeps:

- `time_to_seconds` reads only the first three fields (videotools.py:1185-1187).
  Under Python 3, `map` is lazy, so fields after the third are never handed
  to `int()`.
- The AAC suffix has no leading underscore ("AAC.m4a", videotools.py:1352).
- `is_video` accepts every name when the setting has an empty entry
  (videotools.py:1083-1085).
- The grid sorts sizes as text (videotools.py:1202-1216).
- The interval check searches for the clock pattern anywhere in the text
  (videotools.py:294-312).

## Model

| member | source | states |
|---|---|---|
| TimeCodec.ClockSeconds | videotools.py:1180-1189 | reading "HH:MM:SS" of two-digit fields gives 3600*H + 60*M + S |
| TimeCodec.TimeRoundTrip | videotools.py:1172-1189 | reading what `seconds_to_time` prints gives back the time of day, secs mod 86400; within a day, secs itself |
| TimeCodec.ClockRoundTrip | videotools.py:1172-1189 | formatting the reading of a valid time of day gives the same text back |
| TimeCodec.HourWraps | videotools.py:1172-1189 | an hour of 24 or more comes back modulo 24 |
| TimeCodec.TimeToSeconds | videotools.py:1180-1189 | a first field that `int()` rejects gives 0; a single field is read as hours, so "5" is 18000; text of three fields or more is read from its first three fields only, as 3600*H + 60*M + S, or 0 when one of them is rejected |
| TimeCodec.SecondsToTime | videotools.py:1172-1177 | the text is always eight characters, two digits, ':', two digits, ':', two digits |
| TimeCodec.ExtraFieldsIgnored | videotools.py:1185-1187 | what follows the third ':' never changes the reading |
| TimeCodec.ReadTwo | videotools.py:1185-1187 | text of two fields is read as hours and minutes |
| TimeCodec.RejectedFieldGivesZero | videotools.py:1186-1189 | a first field that `int()` rejects makes the reading 0, caught as ValueError |
| TimeCodec.MalformedExamples | videotools.py:1186-1189 | "" and "abc" read as 0 |
| HumanSize.RankBounds | videotools.py:1316-1320 | the rank r satisfies 1000^r <= n, and n < 1000^(r+1) below the last unit |
| HumanSize.BelowThousand | videotools.py:1318-1322 | below the last unit, the printed number is below 1000.00 |
| HumanSize.ToHumanSize | videotools.py:1311-1323 | the text ends with a space and the unit of the rank; below 1000 bytes it is the exact count followed by " B" |
| HumanSize.TrimWhole | videotools.py:1322 | two zero decimals are dropped together with the point |
| HumanSize.TrimOneDecimal | videotools.py:1322 | a trailing zero decimal is dropped, and the other decimal stays |
| HumanSize.TrimTwoDecimals | videotools.py:1322 | a last decimal other than zero keeps both decimals |
| HumanSize.ExampleZero | videotools.py:1316-1323 | 0 is "0 B" |
| HumanSize.ExampleOneKibi | videotools.py:1316-1323 | 1024 is "1 KB" |
| HumanSize.ExampleHalfKibi | videotools.py:1316-1323 | 1536 is "1.5 KB" |
| HumanSize.ExampleThousand | videotools.py:1316-1323 | 1000 is "0.98 KB": the unit comes from log10 and the division from 1024 |
| HumanSize.ExampleMebi | videotools.py:1316-1323 | 1048576 is "1 MB" |
| PyStr.AfterLast | videotools.py:125-126 | the text after the last separator holds no separator and ends the input; it gives the basename (separator '/') and the extension (separator '.') |
| Naming.Destination | videotools.py:124-138 | a fixed destination is the new file, whatever the input and the suffix |
| Naming.NameParts | videotools.py:125-135 | a name with a '.' is its stem, the last '.', and its extension |
| Naming.NameOf | videotools.py:125-135 | stem + "." + extension is split back into that stem and that extension, when the extension has no '.' |
| Naming.NoDot | videotools.py:126-135 | with no '.', the extension is the whole name and the stem loses its last character |
| Naming.DefaultSuffixDropsDot | videotools.py:129-136 | without a suffix, "d/s.e" becomes "d/se" |
| Naming.SuffixWithExtension | videotools.py:132-136 | a suffix p + "${EXTENSAO}" + q puts the extension between p and q |
| Naming.BareNameGoesToRoot | videotools.py:135 | an input without a directory gets a new file under "/" |
| Naming.DestinationHasDirectory | videotools.py:135-136 | without a fixed destination, the new file lies in a named directory |
| Naming.EffectiveFiles | videotools.py:59-61 | a fixed destination replaces the list of inputs with that one file; otherwise the list is kept |
| Template.Arguments | videotools.py:141-148 | the list is ffmpeg's path, "-hide_banner", then the parameters, each expanded |
| Template.BuildArgs | videotools.py:141-148 | the loop yields exactly the expanded list |
| Template.Expand | videotools.py:145-148 | an element with no '$', and so with no placeholder, passes unchanged |
| Template.ExpandAll | videotools.py:145-148 | an element made of '$'-free text and placeholders, in any number and order, comes out as the same text with each placeholder's value in its place (values without '$') |
| Template.ReplaceHoles | videotools.py:146-148 | one `replace` pass turns exactly the holes equal to its placeholder into the value and keeps the text between them |
| Template.ExpandRepeated | videotools.py:145-148 | "${ORIGEM}_${ORIGEM}.${EXTENSAO}" has both occurrences of the source replaced and the text after them kept |
| Template.NestedPlaceholderRemains | videotools.py:146-148 | no pass rescans its own output: "${ORIG${ORIGEM}EM}" with an empty source comes out as the placeholder "${ORIGEM}" |
| Template.ExpandSource | videotools.py:146-148 | "${ORIGEM}" becomes the input, when the input holds no '$' |
| Template.ExpandDestination | videotools.py:146-148 | "${DESTINO}" becomes the new file, when the new file holds no '$' |
| Template.ExpandExtensionAfter | videotools.py:148 | p + "${EXTENSAO}" becomes p followed by the extension |
| Template.SubstitutionOrderShows | videotools.py:146-148 | an input path holding "${EXTENSAO}" is expanded again by the later replacement |
| Template.ExpandExample | videotools.py:145-148 | ["-i", "${ORIGEM}", "out.${EXTENSAO}"] for "a.mov" gives ["-i", "a.mov", "out.mov"] |
| Progress.Strptime | videotools.py:185-186 | an accepted clock is between 0 and 23:59:61 in seconds |
| Progress.StrptimeClock | videotools.py:185-186 | a padded clock is accepted iff H < 24, M < 60 and S < 62, and then reads as 3600H + 60M + S |
| Progress.StrptimeReadsClock | videotools.py:185-186 | what `seconds_to_time` prints is accepted and reads back as the time of day |
| Progress.DurationFieldOf | videotools.py:182-184 | in "...Duration: t.q" the text handed to strptime is t |
| Progress.FrameFieldOf | videotools.py:211-212 | in "...time=t.q" the text handed to strptime is t |
| Progress.Fractions | videotools.py:195-196 | the fractions exist iff neither divisor is zero, and then are curSecs/maxSecs and (done + curSecs)/total |
| Progress.NotAvailableUsesTotal | videotools.py:179-180 | a "Duration:" line with "N/A" takes the length of the batch |
| Progress.DurationLine | videotools.py:176-196 | a "Duration:" line that is read divides by zero exactly when the batch length or the read length is 0 |
| Progress.DurationTakesPrecedence | videotools.py:176-208 | a "Duration:" line is never read as a position |
| Progress.RejectedTimeKeepsState | videotools.py:205-216 | a time that strptime rejects leaves both counters as they were |
| Progress.FrameLine | videotools.py:208-226 | a progress line sets the position to its time and reports when both counters are positive |
| Progress.ReportExample | videotools.py:208-226 | at 10 s into a 20 s file, with 10 of 30 batch seconds done, the report is 0.5 and 2/3 |
| Progress.Step | videotools.py:174-226 | once a length was set only with a non-zero batch length, only a "Duration:" line can divide by zero; only such a line changes the length; no line breaks that condition or makes the position negative |
| Progress.OnlyDurationAborts | videotools.py:174-226 | output without a "Duration:" line is read to its end with the length unchanged |
| Progress.FeedPositionNonNegative | videotools.py:208-214 | the position never becomes negative |
| Progress.FeedLines | videotools.py:161-226 | the loop over the lines yields the state, the reports and the abort of the line-by-line specification |
| Batch.FileStep | videotools.py:117-247 | one input starts at most one ffmpeg command, the one built from that input, its new file and its extension, and none when it stops the batch |
| Batch.RunBatch | videotools.py:117-249 | the list of commands started only grows, by at most one per input |
| Batch.FileStepKeepsFailed | videotools.py:121-247 | no file clears `failed` |
| Batch.FailedIsSticky | videotools.py:117-249 | once set, `failed` stays set to the end of the batch |
| Batch.DoneNeverDecreases | videotools.py:229 | `segundosConcluidos` never decreases |
| Batch.StopLaunchesNothing | videotools.py:164-166 | once `mustStop` is set, no ffmpeg starts and nothing is reported or counted |
| Batch.StopRequestHalts | videotools.py:164-166 | a stop request ends the batch without closing the dialog and without another run |
| Batch.NonZeroExitFails | videotools.py:233-235 | a non-zero exit code marks the batch as failed |
| Batch.MissingFileSkipped | videotools.py:119-122 | a missing input is skipped and marks the batch as failed |
| Batch.FixedDestinationRuns | videotools.py:59-61 | with a fixed destination the one input is that destination, which is converted whether or not it exists: its command starts, an old copy is removed, and a non-zero exit fails the batch |
| Batch.EmptyDirectoryFails | videotools.py:150-154 | a new file without a directory part is never converted: `os.path.exists("")` is false, `os.makedirs("")` raises, and the batch is marked failed |
| Batch.EveryFileLaunched | videotools.py:117-249 | with every input present and no stop request, each input's command runs in order and the dialog closes; any non-zero exit fails the batch |
| Batch.FileLaunched | videotools.py:119-235 | one present input starts its command, removes an old copy of its new file, and fails on a non-zero exit |
| Batch.OutputRemovesLaterInput | videotools.py:135-159 | in a pass without a suffix whose arguments name no "${DESTINO}", such as the stabilisation-vector pass of videotools.py:945-946 that writes to `-f null -`, an input whose new file is a later input removes that later input, which is then skipped as missing |
| Batch.VideoBatch.constructor | videotools.py:39-61 | the dialog starts with the effective file list and clear flags |
| Batch.VideoBatch.ProcessFile | videotools.py:118-247 | one pass of the loop body changes the state as the per-file specification does |
| Batch.VideoBatch.ProcessVideos | videotools.py:107-249 | the whole run changes the state exactly as RunBatch says |
| Features.RunLength | videotools.py:1373 | the run is the longest stretch of non-whitespace starting at i |
| Features.BannerText | videotools.py:1364-1367 | the kept text is empty exactly when no line holds "--" |
| Features.LineHolds | videotools.py:1365-1366 | a line holding "--" anywhere in the output is one the kept text is made of |
| Features.Tokens | videotools.py:1372-1375 | every element of the list is a flag of the form "--enable-..." or "disable-..." without whitespace |
| Features.AllTokens | videotools.py:1373-1375 | every match is a flag of the form "--enable-..." or "disable-..." without whitespace |
| Features.BannerAppend | videotools.py:1364-1367 | the kept text of two batches of lines is the kept text of each, in order |
| Features.BannerLine | videotools.py:1366-1367 | a line is kept whole exactly when it holds "--" |
| Features.EnabledListed | videotools.py:1373-1375 | a whitespace-delimited "--enable-x" is listed as itself |
| Features.DisabledListed | videotools.py:1373-1375 | "--disable-x" is listed as "disable-x" and never with its dashes |
| Features.DoubleDashNeverListed | videotools.py:1373-1375 | no feature starts with "--disable-" |
| Features.JoinBanner | videotools.py:1364-1367 | the loop keeps exactly the lines holding "--" |
| Features.Scan | videotools.py:1372-1375 | the loop over `finditer` collects exactly the matches, in order |
| Features.FeatureCache.Get | videotools.py:1358-1377 | the first call runs ffmpeg once and stores its features; later calls return them without running it |
| Codecs.GetCodecInfo | videotools.py:1336-1355 | an answer exists iff the name is one of the eight codecs; video entries have six parameters starting "-c:v", audio entries start "-vn" |
| Codecs.ConvertedName | videotools.py:844-854 | converting "d/s.e" with a codec of the table writes "d/s" followed by that codec's suffix |
| Codecs.CodecInfoHasNoPlaceholder | videotools.py:1336-1355 | no parameter or suffix of the table holds a placeholder |
| Codecs.OnlyAacLacksUnderscore | videotools.py:1340-1354 | every suffix except the AAC one starts with '_' |
| Codecs.OfferedVideoCodecs | videotools.py:1456-1466 | each video codec is offered iff ffmpeg reports its library; the list has no repeats |
| Codecs.OfferedAudioCodecs | videotools.py:1473-1479 | AAC and FLAC come first always, and MP3 and Vorbis are offered iff their libraries are reported |
| Codecs.RotationArgs | videotools.py:991 | the parameters read the input, apply the filter and write the new file |
| Codecs.RotationParams | videotools.py:984-991 | an answer that is one of the seven options gives the parameters with that option's filter; any other answer gives none |
| Codecs.RotatedName | videotools.py:996 | a rotated copy of "d/s.e" is written as "d/s_rotated.e" |
| Codecs.RotationFilterKept | videotools.py:985-996 | the filter survives the expansion of the argument list |
| Selection.IsVideo | videotools.py:1082-1086 | a name is a video iff some entry of the setting split at '|', lower-cased, ends the lower-cased name |
| Selection.MatchesAny | videotools.py:1083-1086 | true iff some entry, lower-cased, ends the name |
| Selection.ListedExtensions | videotools.py:1082-1086 | a name is a video iff one of the entries of the setting ends it, ignoring ASCII case |
| Selection.EmptyEntryMatchesEverything | videotools.py:1083-1085 | an empty entry in the setting makes every name a video |
| Selection.CaseDoesNotMatter | videotools.py:1084 | lower-casing the name does not change the answer |
| Selection.UpperCaseMp4IsVideo | videotools.py:1436 | under the default setting, "<p>.MP4" is a video |
| Selection.ObterTotalSegundos | videotools.py:1095-1101 | the loop sums the seconds of the selected rows |
| Selection.TotalSecondsAppend | videotools.py:1095-1101 | the total of two parts of the grid is the sum of their totals |
| Selection.NothingSelected | videotools.py:1097-1099 | with no row selected the total is 0 |
| Selection.DetailSeconds | videotools.py:1099 | details "Duration: HH:MM:SS..." give the seconds of that clock |
| Selection.CountSelection | videotools.py:1057-1068 | the loop counts the selected videos, their bytes and their seconds |
| Selection.TallyBounds | videotools.py:1061-1068 | the count never exceeds the number of rows, and is 0 with nothing selected |
| Selection.TallySecondsAreTotal | videotools.py:1061-1101 | when every selected row is a video, the counter's seconds equal `obter_total_segundos` |
| Selection.ButtonRule | videotools.py:1073-1080 | with a selection, exactly one of the single-file extractions and the concatenation is enabled; without one, nothing is |
| Selection.CompareTreeItem | videotools.py:1202-1216 | the answer is 0 exactly when the two values are equal |
| Selection.CompareIsOrder | videotools.py:1202-1216 | the answer is -1, 0 or 1; swapping the rows negates it; order is transitive |
| Selection.Less | videotools.py:1211 | no text is smaller than itself, and a proper prefix is smaller than the longer text |
| Selection.LessTrichotomy | videotools.py:1211-1216 | two texts are equal or exactly one is smaller |
| Selection.LessTransitive | videotools.py:1211 | the order of the texts is transitive |
| Selection.SizesSortAsText | videotools.py:1207-1212 | "10 KB" sorts before "9 KB" |
| Selection.HasClock | videotools.py:298-303 | a text the pattern is found in has at least eight characters and holds a ':' |
| Selection.ValidateInterval | videotools.py:294-312 | accepted iff both stripped fields hold a clock and start < end, start < length and end < length; an accepted answer carries the stripped texts |
| Selection.ClockInterval | videotools.py:294-312 | two clocks are accepted iff the start comes before the end and both before the length |
| Selection.ClockText | videotools.py:295-300 | a clock matches the pattern and `strip` leaves it as it is |
| Selection.LeadingTextReadsAsZero | videotools.py:300-306 | "a" + a clock passes the unanchored format check yet reads as 0 seconds |

## Left out

- The GTK windows, labels, progress bars and message boxes are not modelled.
  This includes the text of the selection label and the progress titles. They
  are display only, and the numbers behind them are modelled.
- Starting ffmpeg, reading its pipe and waiting for it are not modelled: they
  are I/O. Each run's output lines and exit code are inputs, and so is the
  output of the feature probe.
- The batch runs in its own thread, and the cancel button sets `mustStop` and
  kills ffmpeg from the UI thread. Both are left out because they are
  concurrent. The stop request is an input flag per file, read at the one
  check before each run.
- `os.stat` sizes are inputs. `os.path.isfile` and `os.path.exists` are set
  membership.
- `os.makedirs` failing for any reason other than an empty directory name is
  not modelled, because those failures depend on the host. Files ffmpeg
  creates are not added to the file set.
- Batch.OutputRemovesLaterInput: it speaks only of passes whose arguments
  name no "${DESTINO}", because the model does not add ffmpeg's new file to
  the file set. In a pass that writes its new file, the later input would be
  there again and would be converted.
- `debug` output and `ultimaLinha` are left out: they are logging only.
- The XML settings file is left out. The video-extension setting and ffmpeg's
  path are parameters.
- `get_file_info` and the other dialogs are outside this model.
- Paths use '/' as `os.sep`, because the POSIX path functions are the ones
  modelled.
- `str.lower` is modelled for ASCII letters only, and `\s` for the code
  points Python 3 documents. Unicode case folding has no model here.
- Only Python 3 semantics with ASCII digits are modelled, although the
  program also runs under Python 2 (videotools.py:3 imports from
  `__future__`, and videotools.py:1429 tests `sys.version_info < (3, 0)`).
  Under Python 2, `map` is eager, so `time_to_seconds("1:2:3:x")` is 0 there
  while TimeCodec.TimeToSeconds gives 3723; Python 2's `strip` and `\s` on
  byte strings know only ASCII white space. Under Python 3, `int()` and
  strptime's `\d` also accept non-ASCII decimal digits (Arabic-Indic digits,
  for instance), which PyStr.ParseDigits and Progress.Strptime reject.
- Seconds are whole numbers, since strptime yields whole fields. The two
  progress fractions are exact rationals, not floats.
- HumanSize.ToHumanSize: the rank is the decimal digit count, not a float
  `log10`. `'%.2f'` is rounding half to even on the exact quotient. Floating
  point differences near powers of ten and near ties are not captured.
- TimeCodec.SecondsToTime: it works modulo one day. `gmtime`'s overflow for
  huge values, and negative values before 1970, are not separated out.
- Selection.CompareTreeItem: only text columns are modelled. The boolean
  "Processar" column compares as `False < True` in the source and is left
  out.
- Template.ExpandAll: speaks only of values and text between placeholders
  that hold no '$'. Otherwise a later pass may expand a value again
  (Template.SubstitutionOrderShows), or text may close up around a removed
  placeholder into a new one (Template.NestedPlaceholderRemains). For such
  elements the model computes the replacements but states no general
  closed form.
- Codecs.RotationParams: an answer outside the options makes the source fail
  on an unbound `params`. The model returns None for it.
- `listar_arquivos_selecionados` and the other actions that only pass the
  selection on to `executa_ffmpeg` are not modelled. They add no logic beyond
  what is modelled here.
