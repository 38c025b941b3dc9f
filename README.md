# voice-agent-trial, the logic of its processors and tools, in Dafny

voice-agent-trial is a voice agent and a push-to-talk dictation tool built on
a pipeline framework. Frames flow through a chain of processors. Speech
becomes transcript fragments. These are buffered until the client says
`stop-recording`, cleaned by a language model or a rule-based formatter,
and typed into the focused window. A writer logs the WebRTC network
statistics to daily CSV files, and a viewer colours and summarises them.

This project models the parts of that code that decide something:

- **Frames** (`frames.dfy`): the frame classes the processors inspect, and one push as a frame with a direction.
- **TranscriptionBuffer** (`transcription_buffer.py`): the buffer state machine. It is a class whose `ProcessFrame` is proved equal to a pure `Step`, and properties of single steps and of whole sessions are proved about `Step`.
- **AutoFormatter**, **FillerWords**, **Whitespace**, **Sentences** (`auto_formatter.py`): the formatting pipeline.
  - Each regular-expression substitution is written as the left-to-right scan the engine makes.
  - The filler loop and the capitalisation loop are methods proved against those functions.
- **LlmCleanup** (`llm_cleanup.py`): routing and the fallback rules around the model call, with the model as an oracle from request to reply.
- **TextInserter** (`text_inserter.py`): routing around the typing, as a trace of effects.
- **Transport** (`transport.py`): `create_transport` and its two errors.
- **VoiceAgent** (`voice_agent.py`): the sprite list and the `TalkingAnimation` class.
- **VoiceDictation** (`voice_dictation.py`): the `DictationController` class over an abstract audio stream with an `active` flag.
- **NetworkStatsWriter** (`network_stats_writer.py`):
  - extraction of the 14-column row;
  - line building;
  - daily rotation over a filesystem given as a map from path to the lines written to the file;
  - the class `Writer`.
- **NetworkStatsViewer** (`network_stats_viewer.py`): the quality colours, the current, minimum and maximum of a column, and the choice and listing of CSV files.
- **Common** (`common.dfy`): Python's `str.strip()` and whitespace, and `"".join`.

Calls into code that cannot be seen are inputs of the model:

- the clock;
- the filesystem's contents;
- the directory listing;
- the language model's reply;
- whether typing raises.

## Model

| member | source | states |
|---|---|---|
| TranscriptionBuffer.TranscriptionBufferProcessor.constructor | processors/transcription_buffer.py:26-31 | the buffer starts empty, the user id is "user" and the language is unset |
| TranscriptionBuffer.TranscriptionBufferProcessor.ProcessFrame | processors/transcription_buffer.py:33-72 | the new fields and the pushed frames are those of `Step` on the old fields |
| TranscriptionBuffer.StepSpec | processors/transcription_buffer.py:42-72 | at most one frame leaves a call. The input is forwarded exactly when it is neither a transcription nor the stop message. Anything else pushed is the stripped, non-empty buffer with the last user id and language. A stop releases something exactly when the buffer is not blank, and empties the buffer only then. A transcription with text appends it and records its user id and language; one with empty text changes nothing. Other frames leave the state unchanged |
| TranscriptionBuffer.TranscriptionsAccumulate | processors/transcription_buffer.py:42-51 | a run of transcriptions pushes nothing and appends all their texts, without separator, to the buffer |
| TranscriptionBuffer.TranscriptionsMetadata | processors/transcription_buffer.py:42-48 | after a run of transcriptions the user id and language are those of the last fragment with non-empty text, or unchanged when every text is empty |
| TranscriptionBuffer.RunAppend | processors/transcription_buffer.py:33-72 | processing two batches of frames one after the other is processing their concatenation, state and output alike |
| TranscriptionBuffer.SessionFlushesOnce | processors/transcription_buffer.py:42-69 | transcriptions followed by a stop, from the initial state: one frame when the joined texts are not blank, nothing when they are. That frame carries the stripped joined texts and the user id and language of the last fragment with non-empty text; neither fragments nor the stop are forwarded |
| AutoFormatter.FormatText | processors/auto_formatter.py:82-106 | computes `Formatted`: blank input unchanged, otherwise fillers removed, whitespace cleaned, period added, sentences capitalised, stripped |
| AutoFormatter.FormattedSpec | processors/auto_formatter.py:91-106 | blank input comes back unchanged; other input gives "" exactly when nothing but whitespace is left after filler removal, and otherwise well-formed text. Well-formed means: ends in `.`, `!` or `?`; no edge or doubled whitespace; none before `.,!?;:`; a space after each of those before a letter; only plain spaces |
| AutoFormatter.AfterFillers | processors/auto_formatter.py:97-106 | the stages after filler removal give "" exactly from blank text, and well-formed text otherwise |
| AutoFormatter.AfterCleaning | processors/auto_formatter.py:100-106 | punctuating, capitalising and stripping cleaned non-empty text gives well-formed text |
| AutoFormatter.ProcessFrame | processors/auto_formatter.py:61-80 | exactly one push, in the input's direction. A non-text frame, or any frame when disabled, is forwarded as it is. A text frame becomes exactly `TextFrame(Formatted(text))`, the formatting pipeline applied to its text. That text is unchanged if blank, and otherwise "" or well-formed |
| FillerWords.FillersAreWholeWords | processors/auto_formatter.py:23-40 | every filler starts and ends with a word character and has no two non-word characters in a row |
| FillerWords.RemoveFillerWords | processors/auto_formatter.py:108-123 | the result is the text with each filler's `re.sub` applied in turn, and no filler occurs in it as a whole word, case ignored |
| FillerWords.RemoveEach | processors/auto_formatter.py:118-121 | the loop over any list of whole-word fillers computes `RemoveAll`, and leaves none of them in the text |
| FillerWords.RemoveWordKeeps | processors/auto_formatter.py:120-121 | one substitution keeps the other characters in order. No kept character starts a whole-word, case-insensitive match. Every deleted character lies inside some match. Each deleted run starts at a match and ends where a match ends |
| FillerWords.RemoveWordAbsent | processors/auto_formatter.py:120-121 | a substitution for a word that does not occur changes nothing |
| FillerWords.NoNewOccurrence | processors/auto_formatter.py:117-121 | deleting matches never creates a new whole-word occurrence of a whole-word pattern |
| FillerWords.OccurrenceFromOriginal | processors/auto_formatter.py:117-121 | an occurrence in the result sits at a kept position where the original text has the same occurrence |
| FillerWords.RemoveWordClears | processors/auto_formatter.py:120-121 | after its substitution the word no longer occurs |
| FillerWords.RemoveWordPreserves | processors/auto_formatter.py:118-121 | a later substitution does not bring back a word an earlier one removed |
| FillerWords.RemoveAllClears | processors/auto_formatter.py:118-123 | whatever the order of the fillers, none of them is left |
| Whitespace.CleanWhitespaceSpec | processors/auto_formatter.py:125-143 | the result has no edge whitespace, no doubled whitespace, none before `.,!?;:`, no `.,!?;:` directly before a letter, and only plain spaces; it has the same non-whitespace characters in order; it is empty exactly when the input is blank. Between two consecutive non-whitespace characters there is a space exactly when the input had whitespace there and the second is not `.,!?;:`, or when the first is `.,!?;:` and the second a letter (`FinalMarks`) |
| Whitespace.CleanWhitespaceUnique | processors/auto_formatter.py:125-143 | any string with the properties of `CleanWhitespaceSpec` is the result, so those properties determine `_clean_whitespace` completely |
| Whitespace.MarksCollapse | processors/auto_formatter.py:135 | `\s+` to one space leaves whitespace before the same non-whitespace characters |
| Whitespace.MarksDrop | processors/auto_formatter.py:138 | removing whitespace before `.,!?;:` removes it before exactly those characters |
| Whitespace.MarksSpaceAfterPunct | processors/auto_formatter.py:141 | inserting a space after punctuation puts whitespace before exactly the letters that directly follow `.,!?;:` |
| Whitespace.MarksStrip | processors/auto_formatter.py:143 | stripping changes whitespace only before the first non-whitespace character |
| Whitespace.CollapseSpacesSpec | processors/auto_formatter.py:135 | `\s+` to one space leaves single plain spaces and removes only whitespace |
| Whitespace.DropSpaceBeforePunctPairs | processors/auto_formatter.py:138 | no whitespace is left before punctuation, and single plain spaces stay so |
| Whitespace.DropSpaceBeforePunctNonSpace | processors/auto_formatter.py:138 | only whitespace is removed |
| Whitespace.SpaceAfterPunctPairs | processors/auto_formatter.py:141 | no punctuation is directly followed by a letter, and the earlier properties survive |
| Whitespace.SpaceAfterPunctNonSpace | processors/auto_formatter.py:141 | only whitespace is added |
| Whitespace.StripPairs | processors/auto_formatter.py:143 | stripping keeps every adjacent-pair property |
| Sentences.AddPunctuationSpec | processors/auto_formatter.py:145-161 | "" stays ""; text ending in `.!?` is unchanged; other text gains exactly one final "."; the result of non-empty text ends in a terminator |
| Sentences.AddPunctuationIdempotent | processors/auto_formatter.py:154-161 | adding punctuation twice is adding it once |
| Sentences.CapitalizeSentences | processors/auto_formatter.py:163-183 | split, capitalise and join computes `Capitalized`, with the length kept |
| Sentences.SplitSentencesJoin | processors/auto_formatter.py:173 | joining the pieces of `re.split(r"([.!?]\s*)", t)` gives back `t` |
| Sentences.SplitCapitalizes | processors/auto_formatter.py:173-183 | capitalising the split pieces and joining them is the character-level reference `Capitalized` |
| Sentences.CapitalizedSpec | processors/auto_formatter.py:173-183 | same length; only the first character and characters after `[.!?]\s*` change, and only from lower-case letters; such letters become upper case: position `i` holds `Upper(t[i])` when it is the first or follows a terminator and optional whitespace, and `t[i]` otherwise; whitespace and terminators are untouched |
| Sentences.CapitalizedIdempotent | processors/auto_formatter.py:173-183 | capitalising twice is capitalising once |
| Common.Strip | processors/auto_formatter.py:106 | `strip()` returns the slice with no whitespace at either end and only whitespace around it; it is empty exactly when the text is blank |
| Common.StripIdempotent | processors/auto_formatter.py:143 | stripping twice is stripping once |
| Common.NonSpaceStrip | processors/auto_formatter.py:143 | stripping removes whitespace only |
| LlmCleanup.CleanupRequest | processors/llm_cleanup.py:83-94 | one non-streaming request with temperature 0.3 and at most 500 tokens, carrying the system prompt and then the text as the user message |
| LlmCleanup.CleanupTextSpec | processors/llm_cleanup.py:83-104 | a raised call gives the original text; so does an empty or missing reply; a non-empty reply gives that reply stripped |
| LlmCleanup.CleanupEmpty | processors/llm_cleanup.py:96-99 | the cleaned text is empty only for empty input or a whitespace-only reply |
| LlmCleanup.ProcessFrame | processors/llm_cleanup.py:59-72 | a transcription with some non-whitespace becomes one `TextFrame` with the cleaned text; a blank one is dropped; the transcription itself is never forwarded; every other frame is forwarded unchanged |
| TextInserter.TypeTextSync | processors/text_inserter.py:87-98 | both branches type the text with the interval equal to the typing speed |
| TextInserter.InsertTextSpec | processors/text_inserter.py:66-85 | types exactly the text once; sleeps first, exactly when the delay is positive, for that long; a failure is logged exactly when typing raises; pushes nothing |
| TextInserter.ProcessFrameSpec | processors/text_inserter.py:41-64 | every frame is pushed once, unchanged, last, in its direction, even after a failure. Typing happens exactly for a text frame with some non-whitespace, and it types that text. The sleep happens exactly when such a frame arrives and the delay is positive |
| Transport.InvalidTypeMessage | services/transport.py:69-72 | the error message begins with the invalid type |
| Transport.WebsocketSelected | services/transport.py:33-48 | a websocket transport comes exactly from "websocket", on the configured host and port, with audio both ways and no WAV header |
| Transport.DailySelected | services/transport.py:50-67 | a Daily transport comes exactly from "daily" with both credentials present and non-empty. It carries them, the bot name "Voice Agent", audio both ways and transcription off |
| Transport.Failures | services/transport.py:50-72 | an error arises exactly for a type other than the two exact names, or for "daily" without both credentials; each case has its own message |
| Transport.BranchFieldsOnly | services/transport.py:33-67 | each branch depends only on its own settings fields |
| VoiceAgent.Decimal | voice_agent.py:56 | the rendering of the index is a non-empty string of digits |
| VoiceAgent.DecimalSpellsNumber | voice_agent.py:56 | the digits of the rendering denote `n`, with no leading zero; a single digit exactly when `n < 10`, as `str(n)` |
| VoiceAgent.DecimalInjective | voice_agent.py:56 | different numbers render differently |
| VoiceAgent.SpritePathInjective | voice_agent.py:54-56 | different indices give different file paths |
| VoiceAgent.SpritesDistinct | voice_agent.py:53-58 | the first 25 frames are files 1 to 25, all different |
| VoiceAgent.LoadSprites | voice_agent.py:50-63 | the loop and the extension build `SpriteList`: files 1 to 25 in order, then the same frames reversed |
| VoiceAgent.SpriteListShape | voice_agent.py:54-66 | the list has 50 frames and is a palindrome; frame `k` is file `k + 1`; the quiet frame is file 1, first and last |
| VoiceAgent.StepSpec | voice_agent.py:81-100 | the input frame is pushed once, last, in its direction; anything before it is an injected frame going downstream. The animation is injected exactly on a start while quiet, the static frame exactly on a stop. Talking is set by a start, cleared by a stop, and otherwise kept |
| VoiceAgent.TalkingFollowsLastEvent | voice_agent.py:77-100 | after any frames, the talking flag tells whether the latest start or stop was a start, or keeps its initial value if there was none |
| VoiceAgent.TalkingAnimation.constructor | voice_agent.py:77-79 | not talking |
| VoiceAgent.TalkingAnimation.ProcessFrame | voice_agent.py:81-100 | the new flag and the pushed frames are those of `Step` |
| VoiceDictation.HotkeyFor | voice_dictation.py:58-67 | a known name gives its key, an unknown one `ctrl_r` |
| VoiceDictation.HotkeyIsModifier | voice_dictation.py:58-67 | the hotkey is always a modifier key, the six names give six keys, and the default is right Ctrl |
| VoiceDictation.DictationController.constructor | voice_dictation.py:40-67 | not recording, no listener, stream not ready, the hotkey looked up by name |
| VoiceDictation.DictationController.AudioStreamOf | voice_dictation.py:84-96 | a stream is reachable exactly when a transport is set, the stream is ready and the transport has an input stream |
| VoiceDictation.DictationController.SetTransport | voice_dictation.py:69-75 | only the transport changes |
| VoiceDictation.DictationController.StartStream | voice_dictation.py:98-103 | starts exactly a reachable inactive stream; afterwards a reachable stream is active; with none nothing changes |
| VoiceDictation.DictationController.PauseStream | voice_dictation.py:105-110 | pauses exactly a reachable active stream; afterwards a reachable stream is inactive; with none nothing changes |
| VoiceDictation.DictationController.MarkStreamReady | voice_dictation.py:77-82 | the stream becomes ready and is left paused, so capture happens only while recording |
| VoiceDictation.DictationController.OnPress | voice_dictation.py:112-121 | the hotkey pressed while not recording starts recording and the stream; a repeated press or another key changes nothing; capture still only while recording |
| VoiceDictation.DictationController.OnRelease | voice_dictation.py:123-132 | the hotkey released while recording stops recording and pauses the stream; any other release changes nothing; capture still only while recording |
| VoiceDictation.DictationController.StartListening | voice_dictation.py:134-138 | a new listener is running; nothing else changes |
| VoiceDictation.DictationController.StopListening | voice_dictation.py:140-144 | a created listener is stopped; without one nothing changes |
| NetworkStatsWriter.ColumnsMatchHeaders | utils/network_stats_writer.py:66-86 | 14 columns, in `HEADERS` order and under those names |
| NetworkStatsWriter.ColumnsDistinct | utils/network_stats_writer.py:66-86 | no column is listed twice |
| NetworkStatsWriter.GetOr | utils/network_stats_writer.py:143-144 | `dict.get` gives the entry when the key is present, the default otherwise |
| NetworkStatsWriter.ExtractKeys | utils/network_stats_writer.py:147-167 | an extracted row has every column |
| NetworkStatsWriter.ExtractFails | utils/network_stats_writer.py:143-163 | extraction fails exactly when `stats` or `stats.latest` is present but not a mapping; without `stats` every nested column is `None` |
| NetworkStatsWriter.ExtractOuterSources | utils/network_stats_writer.py:137-166 | the timestamps come from the clock; quality and threshold come from the top level |
| NetworkStatsWriter.ExtractBitrateSources | utils/network_stats_writer.py:151-155 | the four bitrate columns come from `stats.latest` |
| NetworkStatsWriter.ExtractPacketLossSources | utils/network_stats_writer.py:156-160 | the four packet-loss columns come from `stats.latest` |
| NetworkStatsWriter.ExtractDetailedSources | utils/network_stats_writer.py:161-163 | the two worst-case columns come from `stats` |
| NetworkStatsWriter.SplitJoin | utils/network_stats_writer.py:196-197 | splitting a comma-joined line gives back its parts when none holds a comma |
| NetworkStatsWriter.HeaderFields | utils/network_stats_writer.py:123 | the header line splits back into the 14 column names |
| NetworkStatsWriter.DataLineFields | utils/network_stats_writer.py:196-197 | a data line splits into the row's values, `str`-converted in column order, as many as the header has, when no value holds a comma; `None` reads "None" |
| NetworkStatsWriter.FilePathInjective | utils/network_stats_writer.py:103-112 | different dates give different files |
| NetworkStatsWriter.EnsureFileExists | utils/network_stats_writer.py:114-123 | an existing file is left alone; a missing one is created holding only the header |
| NetworkStatsWriter.WriteRotation | utils/network_stats_writer.py:181-188 | after a call the writer is on the call's date and that date's file; its fields change exactly when the date differed |
| NetworkStatsWriter.WriteFiles | utils/network_stats_writer.py:171-202 | a call changes only its date's file and removes none. The header goes only into a file that did not exist, on rotation. The data line is appended when extraction succeeded |
| NetworkStatsWriter.HeaderOncePerFile | utils/network_stats_writer.py:114-123 | over any calls each file gets the header at most once, only if it did not exist before, and it keeps existing |
| NetworkStatsWriter.Writer.constructor | utils/network_stats_writer.py:88-96 | no date and no file yet |
| NetworkStatsWriter.Writer.WriteStats | utils/network_stats_writer.py:171-202 | the new fields and files are those of `Write` on the old fields |
| NetworkStatsViewer.GrayCases | tools/network_stats_viewer.py:170-202 | gray exactly for a missing value or an unknown metric |
| NetworkStatsViewer.RttBands | tools/network_stats_viewer.py:183-188 | green below 100, yellow from 100 to below 200, red from 200 |
| NetworkStatsViewer.PacketLossBands | tools/network_stats_viewer.py:189-194 | green below 0.01, yellow from 0.01 to below 0.05, red from 0.05 |
| NetworkStatsViewer.BitrateBands | tools/network_stats_viewer.py:195-200 | green above 1,000,000, yellow above 500,000 up to 1,000,000, red at 500,000 and below |
| NetworkStatsViewer.QualityMonotone | tools/network_stats_viewer.py:183-200 | a larger round-trip time or loss never gives a better colour, a larger bitrate never a worse one |
| NetworkStatsViewer.PresentValues | tools/network_stats_viewer.py:107 | `dropna()` keeps exactly the values that are present |
| NetworkStatsViewer.CalculateStatisticsSpec | tools/network_stats_viewer.py:87-125 | all `None` exactly when the column is absent or every cell is missing. Otherwise the minimum and maximum are values of the column, every value lies between them, and the current value is the last row's cell, missing or not |
| NetworkStatsViewer.Sort | tools/network_stats_viewer.py:33-55 | `sorted` keeps the same names, as a permutation |
| NetworkStatsViewer.SortSorted | tools/network_stats_viewer.py:33-55 | `sorted` puts the names in order, ascending, or descending for `reverse=True` |
| NetworkStatsViewer.SortReverse | tools/network_stats_viewer.py:33-55 | the descending sort read backwards is the ascending sort |
| NetworkStatsViewer.ListCsvFilesSpec | tools/network_stats_viewer.py:46-55 | descending; empty without a directory; holds exactly the names matching `network_stats_*.csv` |
| NetworkStatsViewer.LatestIsFirstListed | tools/network_stats_viewer.py:33-55 | the latest file is the first one listed; there is none exactly when the list is empty |
| NetworkStatsViewer.LatestIsGreatest | tools/network_stats_viewer.py:33-43 | the latest file is a matching file of the directory, and every matching name sorts at or before it |

## Left out

- Unicode: `\w`, `str.isalpha()`, `str.upper()` and `re.IGNORECASE` are modelled over ASCII only. Full Unicode case mapping can change string length. `\s` and `str.strip()` use Python's fixed list of whitespace characters.
- The iteration order of `FILLER_WORDS`, a Python set: the model fixes one list. `RemoveAllClears` is proved for every order.
- The pipeline framework: the base `process_frame`, and the asynchronous scheduling of `push_frame`. Pushes are an ordered sequence.
- The frame classes come from the pipeline framework, which is not part of this model. `TranscriptionFrame` and `InterimTranscriptionFrame` are taken to be subclasses of `TextFrame`, as they are in that framework.
- Image decoding: a sprite is identified by its file's path. `Image.open`, `tobytes`, size and format are left out.
- pyautogui settings (text_inserter.py:38-39): both are left out. `PAUSE = typing_speed` makes pyautogui sleep that long after each of its calls, the `write` included; the trace does not show that sleep. `FAILSAFE` makes typing raise when the mouse is in a screen corner; such a failure enters only through the `typingRaises` input, not from any mouse position. The typed text is the `Write` effect in the trace, and the thread pool running the typing is left out.
- The language model: the HTTP call is an oracle from request to reply. An exception, including a reply without choices, is the `Raised` reply.
- Logging, in every file.
- The pynput listener thread and the PyAudio stream internals: the listener is a state, the stream an `active` flag. The transport's input stream is a field, looked up again on every call, as the source does.
- `datetime.now()`: its date and its two timestamp renderings are parameters of each write.
- File I/O: file existence and appends are a map from path to lines. I/O errors, `mkdir` of the output directory, and `close` are left out.
- NetworkStatsWriter.Str: Python's `str()` of a float or an int is taken as given text. Its rendering is not modelled.
- The extracted row is keyed by a column type whose `Name` is the header string, rather than by the string.
- A file is kept as its lines, the header or a data row; `Text` gives each line's characters.
- In the viewer, these are left out:
  - the mean, standard deviation and median of `calculate_statistics` (floating point);
  - `load_csv_data` (pandas parsing);
  - the `format_*` helpers (float formatting);
  - the plotly graph builders;
  - the Streamlit `main` loop.

  NaN is a missing cell (`None`).
- `STATS_DIR.glob` is a directory listing passed as a parameter, or `None` for a missing directory. Only the file name is matched.
- NetworkStatsViewer.FindLatestCsvFile, NetworkStatsViewer.ListCsvFiles: they give file names within `data/network_stats`, not the `STATS_DIR / name` paths of tools/network_stats_viewer.py:42-55. The directory prefix is the same for every entry, so it changes neither the choice nor the order. The viewer reduces the listed paths to their names anyway (line 417).
- The thresholds are exact reals.
- Transport: the Silero analyzer and the transport constructors are values recording their arguments. config/settings.py does not declare the fields `create_transport` reads, so the settings are an input record.
- voice_agent.py `run_bot`, `bot` and `configure_logger`, and the other files of the repository (dictation service, server, extended Daily transport, CLI, service constructors, settings, logging, tracing): pipeline wiring and vendor constructors, not part of this model.
