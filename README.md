# Caption timeline of the upload-and-caption service

The service takes an uploaded audio or video file and returns captions with timestamps
and an SRT subtitle document. Around recognition and transcoding it makes a few
deterministic decisions in sequence, and this project models those decisions in Dafny:

- **Upload dispatch** (`upload.dfy`, module `Upload`):
  - the content-type whitelist;
  - the temporary paths of the upload, the converted waveform and the SRT file;
  - the cleanup rule in the `finally` clause;
  - the order in which each step changes the temporary directory and chooses the response.
- **Paths** (`paths.dfy`, module `Paths`): the part of pathlib the endpoint uses. This covers parsing, the `/` operator, `name` and `stem`.
- **Event collection** (`recognition.dfy`, module `Recognition`):
  - The recognised handler and the session handler of the continuous recogniser are modelled twice.
  - One version is a class `Session` whose methods update the shared caption list and the `done` flag.
  - The other is a fold `Run` over a trace of engine events. `Recognize` adds the wait and the conversion.
- **Caption conversion** (`captions.dfy`, module `Captions`): each raw caption `{text, offset, duration}`, in 100-ns ticks, becomes `{text, start_time, end_time}`. `Session.ConvertTimestamps` does this in place and is proved against `Timeline`.
- **Timestamp formatting** (`timestamp.dfy`, module `Timestamp`):
  - `format_time` over exact integer ticks;
  - Python's truncating `int()` and flooring `//` and `%` are written out;
  - a reader `ParseTimestamp` serves as the formatter's partner.
- **Number formatting** (`digits.dfy`, module `Digits`): Python's `str(n)` and `format(n, "0w")`. Here the minus sign counts toward the width.
- **SRT serialisation** (`srt.dfy`, module `Subtitles`):
  - `GenerateSrt` is the accumulating loop, proved equal to the function `Srt`;
  - a reader `ParseSrt` is proved to invert it.
- **Helpers:** `lex.dfy` holds Python's string comparison (`Lex`), `text.dfy` holds `find` and `rfind` (`Text`), and `wrappers.dfy` holds `Option`.

The recognition engine, ffmpeg and the file system are not run. They appear as an
environment `Env` with these parts:

- the set of files present;
- how saving the upload goes;
- how transcoding goes;
- what the engine delivers: it raises, or it delivers a trace of events;
- how writing the SRT file goes.

Three facts about the code shape the model:

- **String order of timestamps.** Hours are padded to *at least* two digits, so two timestamps are guaranteed to compare as strings the way the times compare only when they have the same length, which holds below 100 hours. `Timestamp.OrderBreaksAtHundredHours` shows the break.
- **The SRT file.** The endpoint writes the SRT file into the temporary directory and never deletes it, so the model leaves it in place.
- **Cleanup.** The only cleanup is the `finally` clause around recognition. A failed save (main.py:152-158) and a failed transcoding (main.py:190-197) return before that `try`, so their files stay behind. Both cases are listed under Findings.

## Model

| member | source | states |
|---|---|---|
| Timestamp.Split | main.py:112-117 | the four fields of format_time over integer ticks with truncating int() and flooring // and %; characterised by SplitBounds and SplitReconstructs |
| Timestamp.FormatTime | main.py:112-118 | the timestamp "H:MM:SS.mmm" with hours at width at least 2; characterised by FormatTimeLayout, ParseFormatTime and FormatTimeOrder |
| Timestamp.SplitBounds | main.py:114-117 | minutes and seconds are always in 0..59; milliseconds have at most three digits; for a non-negative time every field is non-negative and milliseconds are in 0..999 |
| Timestamp.SplitReconstructs | main.py:114-117 | hours*3600 + minutes*60 + seconds is the truncated whole-second part of the time, so hours are not capped at 24; adding the milliseconds gives the time in whole milliseconds, truncated and never rounded |
| Timestamp.FormatTimePieces | main.py:118 | for a non-negative time each field is written as exactly its digits: hours at their own width but at least 2, minutes and seconds at 2, milliseconds at 3 |
| Timestamp.FormatTimeLayout | main.py:118 | the string is an hour field of at least two digits, then ':' , two digits, ':', two digits, '.', three digits |
| Timestamp.FormatTimeChars | main.py:118 | a timestamp, negative times included, holds only digits, ':', '.' and '-' |
| Timestamp.FormatTimeLength | main.py:117-118 | a non-negative timestamp is exactly 12 characters long if and only if the time is below 100 hours |
| Timestamp.FormatTimeLengthMonotone | main.py:117-118 | a later time never has a shorter timestamp |
| Timestamp.ParseFormatTime | main.py:112-118 | the timestamp of a non-negative time reads back as the time in whole milliseconds (round trip with ParseTimestamp) |
| Timestamp.FormatTimeOrder | main.py:112-118 | two equally long timestamps compare as strings exactly as the times compare in whole milliseconds (both directions) |
| Timestamp.FormatTimeMonotone | main.py:112-118 | for 0 <= a <= b, both read back, the milliseconds are ordered, the later string is at least as long, equal lengths give string order, and below 100 hours both are 12 long |
| Timestamp.TwoDigitHourStamp | main.py:118 | below 100 hours the timestamp is the four fields at widths 2, 2, 2, 3 |
| Timestamp.ThreeDigitHourStamp | main.py:118 | from 100 to 999 hours the hour field has three digits |
| Timestamp.OrderBreaksAtHundredHours | main.py:117-118 | 99:59:59.000 and 100:00:00.000 are the timestamps around 100 hours, and the later one sorts first as a string |
| Timestamp.FormatTimeWholeSeconds | main.py:112-118 | time 0 is 00:00:00.000 and one second is 00:00:01.000 |
| Timestamp.FormatTimeTruncates | main.py:114 | 3661.25 s is 01:01:01.250 and 3661.2519 s is 01:01:01.251: the fourth decimal is cut, not rounded |
| Digits.Pad | main.py:118 | format(n, "0w") with the minus sign counted in the width; characterised by PadNatIsZeroPadded, PadChars and FixedValue |
| Digits.Str | main.py:123 | str(n) for the block number; StrValue shows it reads back as n |
| Digits.PadNatIsZeroPadded | main.py:118 | format(n, "0w") is str(n) with max(w, len) - len zeros in front, never cut |
| Digits.PadChars | main.py:118 | format(n, "0w") writes only digits and a minus sign |
| Digits.FixedValue | main.py:118 | a number written at a width it fits reads back as itself |
| Digits.StrValue | main.py:123 | str(n) is non-empty and reads back as n |
| Digits.FixedOrder | main.py:118 | at a width both numbers fit, the zero-padded strings compare as the numbers do, and are equal exactly when the numbers are |
| Digits.WidthMonotone | main.py:117-118 | a larger number never has fewer digits |
| Captions.ToTimed | main.py:101-107 | one pass of the loop body: text kept, start from the offset, end from offset plus duration; characterised by ToTimedTimes |
| Captions.Timeline | main.py:101-107 | the converted list has as many records as the raw list and every one is a timed record |
| Captions.ToTimedTimes | main.py:101-107 | one converted caption is a record with the same text, whose start and end timestamps read back as offset and offset+duration in whole milliseconds |
| Captions.TimelineKeepsCaptions | main.py:101-107 | the conversion keeps the number, the order and every text of the captions; each record's timestamps read back as that caption's start and end |
| Captions.TimelineAppend | main.py:101-107 | converting a list with one more caption adds exactly that caption's record at the end |
| Captions.StartNotAfterEnd | main.py:102-105 | with non-negative offset and duration the end is not before the start: in milliseconds, in length, in string order for equal lengths, and both are 12 long below 100 hours |
| Captions.TimelineOrdered | main.py:101-107 | below 100 hours every record has start_time <= end_time as strings |
| Captions.TimelineStartsOrdered | main.py:101-107 | captions in non-decreasing offset order keep that order through the conversion: by read-back value always, as strings below 100 hours |
| Captions.OneSecondCaption | main.py:102-105 | offset 0 and duration 10^7 ticks give 00:00:00.000 to 00:00:01.000 |
| Recognition.Step | main.py:67-88 | one event appends at most one caption, at the end, keeps every earlier caption, and sets done exactly on session_stopped or canceled |
| Recognition.Run | main.py:67-88 | the fold of Step over a trace; its captions and done flag are characterised by RunCollectsSpeech and RunDone |
| Recognition.RunCollectsSpeech | main.py:67-78 | delivering a trace appends exactly the RecognizedSpeech results' captions, in emission order, after what was there |
| Recognition.RunDone | main.py:80-88 | done is set exactly when it was set already or some session_stopped or canceled event occurred (both directions) |
| Recognition.NotSpeechAddsNothing | main.py:77-78 | a NoMatch result, or any event other than a RecognizedSpeech result, adds no caption |
| Recognition.SpeechAddsOne | main.py:69-76 | a RecognizedSpeech result adds one caption with its text, offset and duration, at the end |
| Recognition.SpeechFromResults | main.py:67-76 | every collected caption comes from a RecognizedSpeech result of the trace |
| Recognition.SpeechCount | main.py:67-76 | the first n events yield as many captions as there are RecognizedSpeech results among them |
| Recognition.Recognize | main.py:57-110 | the wait ends if and only if a session_stopped or canceled event occurs; the result is then the conversion of the RecognizedSpeech captions |
| Recognition.SilentSession | main.py:80-98 | a session that starts and stops with nothing said yields no captions |
| Recognition.Session.constructor | main.py:63-65 | a fresh recognition starts with no captions and not done |
| Recognition.Session.OnRecognized | main.py:67-78 | appends text, offset and duration for RecognizedSpeech results and leaves the list alone otherwise; done is untouched |
| Recognition.Session.OnSessionEvent | main.py:80-83 | sets done and leaves the captions alone |
| Recognition.Session.Deliver | main.py:85-88 | each event goes to its handler: one Step of the fold |
| Recognition.Session.Listen | main.py:85-98 | delivering the events one by one leaves the state the fold Run computes |
| Recognition.Session.ConvertTimestamps | main.py:100-107 | the in-place loop leaves the list equal to Timeline of the old list, and done unchanged |
| Recognition.SpeechToText | main.py:57-110 | the whole recognition procedure returns Recognize(trace) |
| Subtitles.Block | main.py:122-125 | one SRT block: number, newline, "start --> end", newline, text, blank line; ParseBlockOf reads it back |
| Subtitles.Srt | main.py:120-126 | the blocks of all captions numbered from 1; SrtRoundTrip reads it back as the captions |
| Subtitles.BlocksAppend | main.py:122-125 | appending a caption appends one block numbered len+1 with "start --> end", the text and a blank line |
| Subtitles.GenerateSrt | main.py:120-126 | the loop's text is Srt(captions); an empty list gives "" |
| Subtitles.ParseBlockOf | main.py:123-125 | one block reads back as its caption, followed by the rest of the text |
| Subtitles.SrtRoundTrip | main.py:120-126 | the SRT text of captions without line breaks in their fields reads back as exactly those captions, in order and numbered 1..N |
| Subtitles.TimelineWritable | main.py:100-126 | every converted record with a single-line text can be written, so the SRT of the conversion reads back as the converted records |
| Subtitles.TwoBlocks | main.py:121-126 | two captions give block 1 and then block 2, in list order |
| Paths.Name | main.py:161 | the last component of a path, which holds no separator for a normal path |
| Paths.Stem | main.py:161 | the name without its suffix; characterised by StemAndSuffix and StemPlain |
| Paths.Parse | main.py:148 | a parsed path holds only proper components (no empty, "." or separator-bearing ones) |
| Paths.Join | main.py:150 | joining to a normal path gives a normal path |
| Paths.JoinComponent | main.py:150 | a component without a separator is appended as it is |
| Paths.StemAndSuffix | main.py:161 | stem plus suffix is the name; a non-empty suffix is a dot and one or more non-dot characters behind a non-empty stem |
| Paths.AppendedNameDiffers | main.py:161 | a stem with a tail not starting with '.' appended is never the name it came from |
| Paths.StemPlain | main.py:161 | a stem has no separator when its name has none |
| Upload.Accepted | main.py:143 | a content type is accepted exactly when it is audio/mpeg, audio/wav or video/mp4; RejectedIffUnsupported ties it to status 400 |
| Upload.InputPath | main.py:150 | temp joined with the uploaded file name; InputPathPlacement states where it lands |
| Upload.ConvertedPath | main.py:161 | temp/<stem>_converted.wav; ConvertedPathShape states its shape |
| Upload.WaveformPath | main.py:161-166 | the file handed to recognition; WaveformIsInputIffWav states when it is the upload |
| Upload.SrtPath | main.py:218 | temp/<stem>.srt; SrtPathShape states its shape |
| Upload.TempDirParsed | main.py:148 | "./temp" is the relative path with the single component "temp" |
| Upload.InputPathPlacement | main.py:150 | a plain file name is saved as temp/<name>; a rooted name replaces the temporary directory altogether |
| Upload.Transcoding | main.py:163-188 | there is no transcoder job exactly for audio/wav; otherwise the job reads the upload and writes the waveform file as WAV with codec pcm_s16le, one channel, at 16000 Hz |
| Upload.ConvertedPathShape | main.py:161 | the converted file is temp/<stem>_converted.wav and never the file it was converted from |
| Upload.WaveformIsInputIffWav | main.py:161-166 | the recognised file is the upload itself if and only if the type is audio/wav; otherwise it is the converted file |
| Upload.SrtPathShape | main.py:218 | the SRT file is temp/<stem>.srt and never the converted file |
| Upload.AfterWrite | main.py:152-158 | a write changes no file but its own path, and a file is at that path afterwards unless it could not be opened, so a copy that fails midway leaves a partial file |
| Upload.UnlinkAll | main.py:207-214 | unlinking removes only listed files and never adds one; a present first file is removed, and a missing first file raises before anything is removed |
| Upload.Unlinks | main.py:208-211 | the unlink calls start with the upload and end with the waveform file, and there are two of them exactly when the two paths differ |
| Upload.UnlinkRaises | main.py:208-214 | the unlinks raise unless every listed file is present when its turn comes; a clean run means every listed path was there |
| Upload.Cleanup | main.py:206-214 | the cleanup never adds a file and removes nothing but the upload and the waveform file |
| Upload.CleanupRaisesIffMissing | main.py:206-214 | the cleanup raises exactly when the upload or the waveform file is missing, so a WAV upload is unlinked once without error |
| Upload.UnlinksOnce | main.py:208-211 | the cleanup unlinks the upload first and then the waveform file, each once, and nothing else |
| Upload.CleanupRemovesBoth | main.py:206-214 | with both files present the cleanup removes exactly the upload and the waveform file |
| Upload.CleanupDropsBoth | main.py:206-214 | with the upload present the cleanup removes exactly the upload and the waveform file, whether or not the waveform file exists |
| Upload.SecondUnlinkRaises | main.py:209-211 | unlinking a present file once does not raise, and unlinking it twice raises at the second unlink, which is why the WAV case compares the paths |
| Upload.HandleAsWritten | main.py:138-240 | the endpoint as written; RejectedIffUnsupported, FailuresAre500, SuccessPayload, SilentUpload, UploadLeftBehind and PartialUploadLeftBehind state its behaviour |
| Upload.Handle | main.py:138-240 | the endpoint with a partially written upload removed and a failed transcoding cleaned up too; SameResponse and NothingLeftBehind state its behaviour |
| Upload.Status | main.py:143-240 | only the request that never ends has no status |
| Upload.TranscodeError | main.py:189-196 | every conversion failure is answered with status 500 |
| Upload.SaveSrt | main.py:219-225 | a written SRT answers with the captions and the SRT text; a failed write answers 500 "Failed to generate SRT file."; only the SRT path changes |
| Upload.Finish | main.py:198-240 | success carries the recognised captions and their SRT text; a stalled wait gives no response and changes nothing; otherwise the files are the cleanup's, apart from the SRT path; errors are 500 |
| Upload.FinishLeavesSrtOnly | main.py:198-225 | once recognition has ended, only the SRT file can remain of the request's files |
| Upload.RejectedIffUnsupported | main.py:143-145 | status 400 is given if and only if the content type is not one of the three accepted types, and then no file changes |
| Upload.FailuresAre500 | main.py:152-240 | for an accepted type every answer other than success is 500 |
| Upload.SuccessPayload | main.py:198-240 | a successful answer carries the converted captions of the RecognizedSpeech results in order and their SRT text, which reads back as those captions when no text spans lines |
| Upload.SilentUpload | main.py:138-240 | a recording with nothing said is answered with no captions and an empty SRT text |
| Upload.SameResponse | main.py:138-240 | the corrected endpoint gives every request the same response as the one as written |
| Upload.SameUnlessStepFails | main.py:152-240 | when the save and, for a non-WAV upload, the transcoding succeed, the corrected endpoint leaves the same files as the one as written |
| Upload.UploadLeftBehind | main.py:162-196 | as written, an accepted non-WAV upload whose conversion fails stays in the temporary directory |
| Upload.PartialUploadLeftBehind | main.py:152-158 | as written, an upload that opens but fails to copy is answered 500 "Failed to save uploaded file." and its partial file stays in the temporary directory |
| Upload.NothingLeftBehind | main.py:152-214 | with partial uploads and failed conversions cleaned up too, an answered request adds no file but the SRT file; an upload that could not be opened changes no file, a partial upload is removed and nothing else, and after a saved upload neither the upload nor the converted file is left |

## Left out

- Floating point: `format_time` receives `ticks / 10_000_000` as a float. The model works on exact integer ticks, so float artefacts are not modelled. For example, at 8.29 s (82_900_000 ticks) `8.29 - 8` is 0.28999999999999915 in double precision, so `format_time` writes `00:00:08.289`, while `Timestamp.FormatTime(82_900_000)` writes `00:00:08.290`.
- Timestamp.SplitBounds states minutes and seconds in 0..59 and milliseconds below 1000 in magnitude for every time; only its non-negative fields, and the ordering lemmas, need a non-negative time. Negative ticks are modelled, with the minus sign in front of the padded digits, but no order is proved for them.
- The Azure Speech SDK, `start_continuous_recognition`, `stop_continuous_recognition` and the half-second busy-wait are left out. They are replaced by a finite trace of the events delivered before recognition stops. A trace without session_stopped or canceled stands for a wait that never ends (`Stalled`). Events after the stop and concurrent delivery are not modelled.
- ffmpeg is left out, and so are `embed_captions_into_video` and the commented-out embedding step. A transcoding is an outcome in `Env`.
  - A failed transcoding is assumed to create no converted file.
  - The captured stderr is `Some` or `None`. The model does not decide which one the library produces when called with `quiet=False`.
- File I/O is an outcome per step in `Env`. File contents, `mkdir`, and partial data inside a file are not modelled. Only which paths exist is modelled.
- FastAPI routing, CORS, the HTML page, credential and environment loading, and the OpenAI configuration are left out.
- Response shaping: the JSON body and the framework's answer to an uncaught exception are modelled only as `ErrorJson(status, message)` and `Unhandled` (status 500). Logging is left out.
- Paths.Parse does not model the special handling pathlib gives a path that starts with exactly two slashes.
- Paths.Parse keeps ".." components as they are. Because of that, a file name like "../x.mp3" resolves outside the temporary directory (`Upload.InputPathPlacement` shows the rooted case).

## Findings

| source | as written | input that shows it | evidently intended | confidence | as-written member | corrected member |
|---|---|---|---|---|---|---|
| main.py:162-196 | a failed conversion returns 500 from the `except` clauses before the `try`/`finally` that unlinks the temporary files | an upload "talk.mp3" of type audio/mpeg that is saved and whose ffmpeg run fails: temp/talk.mp3 is left in the temporary directory | temporary files are removed on every path that answers, failures included | not executed | Upload.UploadLeftBehind | Upload.NothingLeftBehind |
| main.py:152-158 | a copy that fails after `open` succeeded returns 500 before any cleanup, and the file opened for writing is kept | an accepted upload whose file opens but whose `copyfileobj` raises: the partial temp/<name> is left in the temporary directory | a partially written upload is removed like the other temporary files | not executed | Upload.PartialUploadLeftBehind | Upload.NothingLeftBehind |
