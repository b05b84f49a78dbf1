/** The upload endpoint (upload_and_caption): the content-type whitelist, the paths of the
    uploaded, converted and SRT files, the cleanup rule, and the order in which the steps
    change the temporary directory and choose the response. Writing files, running the
    transcoder and running the recognition engine are given as outcomes in an environment. */
module Upload {
  import opened Wrappers
  import opened Text
  import opened Paths
  import opened Captions
  import opened Recognition
  import opened Subtitles

  /** The content types the endpoint accepts. */
  const AcceptedTypes: seq<string> := ["audio/mpeg", "audio/wav", "video/mp4"]

  predicate Accepted(contentType: string)
  {
    contentType in AcceptedTypes
  }

  /** The temporary directory, "./temp" as pathlib reads it. */
  const TempDir: Path := Path(false, ["temp"])

  lemma TempDirParsed()
    ensures Parse("./temp") == TempDir
  {
    TempPieces();
    assert Kept([".", "temp"]) == ["temp"] by {
      assert [".", "temp"][1..] == ["temp"];
      assert ["temp"][1..] == [];
    }
  }

  lemma TempPieces()
    ensures Pieces("./temp") == [".", "temp"]
  {
    var s := "./temp";
    assert IndexOf(s, '/') == Some(1) by {
      assert s[1] == '/' && s[..1] == ".";
    }
    assert s[2..] == "temp";
    assert IndexOf("temp", '/') == None;
    assert Pieces("temp") == ["temp"];
    assert Pieces(s) == [s[..1]] + Pieces(s[2..]);
    assert s[..1] == ".";
  }

  /** Where the upload is saved: the client's file name joined to the temporary directory. */
  function InputPath(filename: string): Path
  {
    Join(TempDir, filename)
  }

  /** "<stem>_converted.wav" in the temporary directory. */
  function ConvertedPath(input: Path): Path
  {
    Join(TempDir, Stem(Name(input)) + "_converted.wav")
  }

  /** "<stem>.srt" in the temporary directory. */
  function SrtPath(input: Path): Path
  {
    Join(TempDir, Stem(Name(input)) + ".srt")
  }

  /** The file handed to recognition: the upload itself for audio/wav, the converted file
      otherwise. */
  function WaveformPath(contentType: string, input: Path): Path
  {
    if contentType == "audio/wav" then input else ConvertedPath(input)
  }

  /** The transcoder job: a video has its audio extracted and other audio is converted, both
      to 16 kHz mono 16-bit PCM WAV. */
  datatype Job = Job(source: Path, target: Path, format: string, codec: string, channels: nat, rate: string)

  function Transcoding(contentType: string, input: Path): (job: Option<Job>)
    ensures job.None? <==> contentType == "audio/wav"
    ensures job.Some? ==> job.value.source == input && job.value.target == WaveformPath(contentType, input)
    ensures job.Some? ==> job.value.format == "wav" && job.value.codec == "pcm_s16le"
    ensures job.Some? ==> job.value.channels == 1 && job.value.rate == "16000"
  {
    if contentType == "audio/wav" then None
    else Some(Job(input, ConvertedPath(input), "wav", "pcm_s16le", 1, "16000"))
  }

  // ---------------------------------------------------------------------------------------
  // Outcomes of the steps the model does not run

  /** How writing a file goes: completely, not even opened, or opened and then failed. */
  datatype WriteOutcome = Written | OpenFailed | WriteFailed

  /** How the transcoder goes; the captured standard error may be missing. */
  datatype TranscodeOutcome = Transcoded | FfmpegFailed(stderr: Option<string>) | ConvertFailed(message: string)

  /** How recognition goes: it raises, or the engine delivers a trace of events. */
  datatype EngineRun = EngineFails(message: string) | Delivers(trace: seq<Event>)

  datatype Request = Request(filename: string, contentType: string)

  /** The files present before the request, and how each outside step goes. */
  datatype Env = Env(files: set<Path>, save: WriteOutcome, transcode: TranscodeOutcome, engine: EngineRun,
                     srtWrite: WriteOutcome)

  /** The captions and SRT text on success, a JSON error with a status, an exception the
      endpoint does not catch (answered 500 by the framework), or no answer at all. */
  datatype Response =
    | Captioned(captions: seq<Caption>, srt: string)
    | ErrorJson(status: nat, error: string)
    | Unhandled
    | NoResponse

  datatype Handled = Handled(response: Response, files: set<Path>)

  function Status(r: Response): (s: Option<nat>)
    ensures s.None? <==> r.NoResponse?
  {
    match r
    case Captioned(_, _) => Some(200)
    case ErrorJson(status, _) => Some(status)
    case Unhandled => Some(500)
    case NoResponse => None
  }

  /** The file left by a write: only the written path can change, and a file is there
      afterwards unless it could not be opened (a failed copy leaves a partial file). */
  function AfterWrite(files: set<Path>, p: Path, outcome: WriteOutcome): (r: set<Path>)
    ensures r - {p} == files - {p}
    ensures p in r <==> p in files || !outcome.OpenFailed?
  {
    if outcome.OpenFailed? then files else files + {p}
  }

  // ---------------------------------------------------------------------------------------
  // Cleanup

  /** The unlink calls of the cleanup, in order: the upload, then the converted file when it
      is a different path. */
  function Unlinks(input: Path, waveform: Path): (r: seq<Path>)
    ensures 1 <= |r| <= 2 && r[0] == input && r[|r| - 1] == waveform
    ensures |r| == 2 <==> waveform != input
  {
    if waveform != input then [input, waveform] else [input]
  }

  /** Unlinking paths one after the other inside one try block: the first missing file
      raises, the error is logged, and the remaining paths are left alone. */
  function UnlinkAll(files: set<Path>, paths: seq<Path>): (r: set<Path>)
    ensures r <= files
    ensures forall p :: p in files && p !in paths ==> p in r
    ensures paths != [] && paths[0] in files ==> paths[0] !in r
    ensures paths != [] && paths[0] !in files ==> r == files
    decreases |paths|
  {
    if paths == [] then files
    else if paths[0] in files then UnlinkAll(files - {paths[0]}, paths[1..])
    else files
  }

  /** Whether unlinking the paths one after the other raises: some path is missing when its
      turn comes. */
  function UnlinkRaises(files: set<Path>, paths: seq<Path>): (r: bool)
    ensures !r ==> forall i :: 0 <= i < |paths| ==> paths[i] in files
    decreases |paths|
  {
    if paths == [] then false
    else if paths[0] in files then UnlinkRaises(files - {paths[0]}, paths[1..])
    else true
  }

  /** The cleanup of the finally clause: the upload, then the waveform file when it differs. */
  function Cleanup(files: set<Path>, input: Path, waveform: Path): (r: set<Path>)
    ensures r <= files
    ensures forall p :: p in files && p != input && p != waveform ==> p in r
  {
    UnlinkAll(files, Unlinks(input, waveform))
  }

  /** Each path is unlinked once: the list has no repeats, and it names the upload and the
      waveform file and nothing else. */
  lemma UnlinksOnce(input: Path, waveform: Path)
    ensures var ps := Unlinks(input, waveform);
      && (forall i, j :: 0 <= i < j < |ps| ==> ps[i] != ps[j])
      && (forall p :: p in ps <==> p == input || p == waveform)
      && ps[0] == input
  {
  }

  /** With both files present the cleanup removes exactly those two. */
  lemma CleanupRemovesBoth(files: set<Path>, input: Path, waveform: Path)
    requires input in files && waveform in files
    ensures Cleanup(files, input, waveform) == files - {input, waveform}
  {
    if waveform != input {
      assert Unlinks(input, waveform) == [input, waveform];
      assert [input, waveform][1..] == [waveform];
      assert [waveform][1..] == [];
      assert waveform in files - {input};
      assert UnlinkAll(files - {input}, [waveform]) == files - {input} - {waveform};
      assert files - {input} - {waveform} == files - {input, waveform};
    } else {
      assert Unlinks(input, waveform) == [input];
      assert [input][1..] == [];
      assert UnlinkAll(files - {input}, []) == files - {input};
      assert {input, waveform} == {input};
    }
  }

  /** Without the comparison the same file would be unlinked twice for a WAV upload: one
      unlink of a present file succeeds, and the second one raises. */
  lemma SecondUnlinkRaises(files: set<Path>, p: Path)
    requires p in files
    ensures !UnlinkRaises(files, [p]) && UnlinkRaises(files, [p, p])
    ensures UnlinkAll(files, [p, p]) == UnlinkAll(files, [p]) == files - {p}
  {
    assert [p, p][1..] == [p];
    assert [p][1..] == [];
  }

  /** The cleanup raises exactly when the upload or the waveform file is missing; in
      particular a WAV upload, whose waveform file is the upload, is unlinked once without
      error. */
  lemma CleanupRaisesIffMissing(files: set<Path>, input: Path, waveform: Path)
    ensures UnlinkRaises(files, Unlinks(input, waveform)) <==> input !in files || waveform !in files
  {
    if waveform != input {
      assert [input, waveform][1..] == [waveform];
      assert [waveform][1..] == [];
      assert input in files ==> UnlinkRaises(files, [input, waveform]) == UnlinkRaises(files - {input}, [waveform]);
    } else {
      assert [input][1..] == [];
    }
  }

  // ---------------------------------------------------------------------------------------
  // The endpoint

  /** The response to a failed transcoding: the decoded standard error or the exception's
      message; a missing standard error makes the except clause itself raise. */
  function TranscodeError(t: TranscodeOutcome): (r: Response)
    requires !t.Transcoded?
    ensures Status(r) == Some(500)
  {
    match t
    case FfmpegFailed(stderr) =>
      if stderr.Some? then ErrorJson(500, "FFmpeg error: " + stderr.value) else Unhandled
    case ConvertFailed(message) => ErrorJson(500, "Error converting file: " + message)
  }

  /** The SRT text written to srtPath: answered with the captions and the text when the
      write succeeds, with a 500 otherwise; a file is left unless it could not be opened. */
  function SaveSrt(outcome: WriteOutcome, captions: seq<Caption>, files: set<Path>, srtPath: Path): (h: Handled)
    requires AllTimed(captions)
    ensures h.response.Captioned? <==> outcome.Written?
    ensures h.response.Captioned? ==> h.response.captions == captions && h.response.srt == Srt(captions)
    ensures !h.response.Captioned? ==> h.response == ErrorJson(500, "Failed to generate SRT file.")
    ensures h.files - {srtPath} == files - {srtPath}
  {
    var written := AfterWrite(files, srtPath, outcome);
    if outcome.Written? then Handled(Captioned(captions, Srt(captions)), written)
    else Handled(ErrorJson(500, "Failed to generate SRT file."), written)
  }

  /** From recognition on: the cleanup in the finally clause, then the SRT file. */
  function Finish(env: Env, input: Path, waveform: Path, files: set<Path>): (h: Handled)
    ensures h.response.Captioned? ==>
              env.engine.Delivers? && Recognize(env.engine.trace) == Completed(h.response.captions)
              && AllTimed(h.response.captions) && h.response.srt == Srt(h.response.captions)
    ensures h.response.NoResponse? <==> env.engine.Delivers? && Recognize(env.engine.trace).Stalled?
    ensures h.response.NoResponse? ==> h.files == files
    ensures !h.response.NoResponse? ==>
              h.files - {SrtPath(input)} == Cleanup(files, input, waveform) - {SrtPath(input)}
    ensures h.response.ErrorJson? ==> h.response.status == 500
    ensures !h.response.Unhandled?
  {
    match env.engine
    case EngineFails(message) =>
      Handled(ErrorJson(500, "Error during speech recognition: " + message), Cleanup(files, input, waveform))
    case Delivers(trace) =>
      match Recognize(trace)
      case Stalled => Handled(NoResponse, files)
      case Completed(captions) =>
        TimelineKeepsCaptions(Speech(trace));
        SaveSrt(env.srtWrite, captions, Cleanup(files, input, waveform), SrtPath(input))
  }

  /** upload_and_caption as written: a failed transcoding returns before the try block whose
      finally clause cleans up. */
  function HandleAsWritten(req: Request, env: Env): Handled
  {
    if !Accepted(req.contentType) then Handled(ErrorJson(400, "Unsupported file type."), env.files)
    else
      var input := InputPath(req.filename);
      var saved := AfterWrite(env.files, input, env.save);
      if !env.save.Written? then Handled(ErrorJson(500, "Failed to save uploaded file."), saved)
      else
        var waveform := WaveformPath(req.contentType, input);
        if Transcoding(req.contentType, input).Some? && !env.transcode.Transcoded? then
          Handled(TranscodeError(env.transcode), saved)
        else
          Finish(env, input, waveform, if req.contentType == "audio/wav" then saved else saved + {waveform})
  }

  /** The endpoint with a partially written upload removed, and a failed conversion cleaned
      up like every later step; an upload that could not be opened touches no file. */
  function Handle(req: Request, env: Env): Handled
  {
    if !Accepted(req.contentType) then Handled(ErrorJson(400, "Unsupported file type."), env.files)
    else
      var input := InputPath(req.filename);
      var saved := AfterWrite(env.files, input, env.save);
      var waveform := WaveformPath(req.contentType, input);
      if !env.save.Written? then
        var left := if env.save.WriteFailed? then UnlinkAll(saved, [input]) else saved;
        Handled(ErrorJson(500, "Failed to save uploaded file."), left)
      else
        if Transcoding(req.contentType, input).Some? && !env.transcode.Transcoded? then
          Handled(TranscodeError(env.transcode), Cleanup(saved, input, waveform))
        else
          Finish(env, input, waveform, if req.contentType == "audio/wav" then saved else saved + {waveform})
  }

  // ---------------------------------------------------------------------------------------
  // Properties

  /** The converted file sits in the temporary directory as "<stem>_converted.wav", and it
      is never the file it was converted from. */
  lemma ConvertedPathShape(input: Path)
    requires Normal(input)
    ensures ConvertedPath(input) == Path(false, ["temp", Stem(Name(input)) + "_converted.wav"])
    ensures ConvertedPath(input) != input
  {
    var converted := Stem(Name(input)) + "_converted.wav";
    StemPlain(Name(input));
    JoinComponent(TempDir, converted);
    AppendedNameDiffers(Name(input), "_converted.wav");
    assert Name(ConvertedPath(input)) == converted;
  }

  /** For audio/wav the recognised file is the upload itself; for every other type it is
      the converted file, which is a different one. */
  lemma WaveformIsInputIffWav(contentType: string, filename: string)
    ensures var input := InputPath(filename);
      && (WaveformPath(contentType, input) == input <==> contentType == "audio/wav")
      && (contentType != "audio/wav" ==> WaveformPath(contentType, input) == ConvertedPath(input))
  {
    assert Normal(TempDir);
    ConvertedPathShape(InputPath(filename));
  }

  /** The SRT file sits in the temporary directory as "<stem>.srt", and it is never the
      converted file. */
  lemma SrtPathShape(input: Path)
    requires Normal(input)
    ensures SrtPath(input) == Path(false, ["temp", Stem(Name(input)) + ".srt"])
    ensures SrtPath(input) != ConvertedPath(input)
  {
    var stem := Stem(Name(input));
    StemPlain(Name(input));
    JoinComponent(TempDir, stem + ".srt");
    JoinComponent(TempDir, stem + "_converted.wav");
    assert SrtPath(input).parts[1] == stem + ".srt";
    assert ConvertedPath(input).parts[1] == stem + "_converted.wav";
    assert |stem + ".srt"| != |stem + "_converted.wav"|;
  }

  /** Status 400 answers exactly the content types outside the whitelist, and such a request
      changes no file. */
  lemma RejectedIffUnsupported(req: Request, env: Env)
    ensures Status(HandleAsWritten(req, env).response) == Some(400) <==> !Accepted(req.contentType)
    ensures !Accepted(req.contentType) ==>
              HandleAsWritten(req, env) == Handled(ErrorJson(400, "Unsupported file type."), env.files)
  {
    if Accepted(req.contentType) {
      var input := InputPath(req.filename);
      var saved := AfterWrite(env.files, input, env.save);
      if env.save.Written? {
        var waveform := WaveformPath(req.contentType, input);
        if req.contentType == "audio/wav" || env.transcode.Transcoded? {
          var h := Finish(env, input, waveform, if req.contentType == "audio/wav" then saved else saved + {waveform});
          assert h.response.Captioned? || h.response.NoResponse? || h.response.ErrorJson?;
        }
      }
    }
  }

  /** Every other failure of an accepted request is answered 500. */
  lemma FailuresAre500(req: Request, env: Env)
    requires Accepted(req.contentType)
    ensures var r := HandleAsWritten(req, env).response;
      r.NoResponse? || r.Captioned? || Status(r) == Some(500)
  {
  }

  /** A successful answer carries the converted captions of the kept results, in order, and
      their SRT text, which reads back as those captions when no text spans lines. */
  lemma SuccessPayload(req: Request, env: Env)
    requires HandleAsWritten(req, env).response.Captioned?
    ensures env.engine.Delivers?
    ensures var r := HandleAsWritten(req, env).response;
      && r.captions == Timeline(Speech(env.engine.trace))
      && AllTimed(r.captions) && r.srt == Srt(r.captions)
      && ((forall i :: 0 <= i < |Speech(env.engine.trace)| ==> '\n' !in Speech(env.engine.trace)[i].text) ==>
            ParseSrt(r.srt) == Some(r.captions))
  {
    var r := HandleAsWritten(req, env).response;
    if forall i :: 0 <= i < |Speech(env.engine.trace)| ==> '\n' !in Speech(env.engine.trace)[i].text {
      TimelineWritable(Speech(env.engine.trace));
    }
  }

  /** A recording in which the session starts and stops with nothing said is answered with
      no captions and an empty SRT text. */
  lemma SilentUpload(env: Env)
    requires env.save.Written? && env.transcode.Transcoded? && env.srtWrite.Written?
    requires env.engine == Delivers([SessionStarted, SessionStopped])
    ensures HandleAsWritten(Request("talk.mp3", "audio/mpeg"), env).response == Captioned([], "")
  {
    SilentSession();
  }

  /** The two versions answer every request alike; they differ only in the files left. */
  lemma SameResponse(req: Request, env: Env)
    ensures Handle(req, env).response == HandleAsWritten(req, env).response
  {
  }

  /** The two versions leave the same files unless saving or transcoding fails. */
  lemma SameUnlessStepFails(req: Request, env: Env)
    requires env.save.Written? && (env.transcode.Transcoded? || req.contentType == "audio/wav")
    ensures Handle(req, env) == HandleAsWritten(req, env)
  {
  }

  /** As written, an accepted upload other than audio/wav whose conversion fails stays in
      the temporary directory, and so does the converted file when it was there before. */
  lemma UploadLeftBehind(req: Request, env: Env)
    requires Accepted(req.contentType) && req.contentType != "audio/wav"
    requires env.save.Written? && !env.transcode.Transcoded?
    ensures InputPath(req.filename) in HandleAsWritten(req, env).files
    ensures HandleAsWritten(req, env).files == env.files + {InputPath(req.filename)}
  {
  }

  /** As written, an upload whose file opens but whose copy fails is answered 500 and its
      partial file stays in the temporary directory. */
  lemma PartialUploadLeftBehind(req: Request, env: Env)
    requires Accepted(req.contentType) && env.save.WriteFailed?
    ensures HandleAsWritten(req, env).response == ErrorJson(500, "Failed to save uploaded file.")
    ensures InputPath(req.filename) in HandleAsWritten(req, env).files
  {
  }

  /** With partial uploads and failed conversions cleaned up too, an answered request adds
      no file but its SRT file: an upload that could not be opened changes nothing, a partial
      one is removed, and once saved neither the upload nor the converted file is left. */
  lemma NothingLeftBehind(req: Request, env: Env)
    requires Accepted(req.contentType)
    requires !Handle(req, env).response.NoResponse?
    ensures var input := InputPath(req.filename);
      Handle(req, env).files <= env.files + {SrtPath(input)}
    ensures env.save.OpenFailed? ==> Handle(req, env).files == env.files
    ensures env.save.WriteFailed? ==> Handle(req, env).files == env.files - {InputPath(req.filename)}
    ensures var input := InputPath(req.filename);
      env.save.Written? ==>
        Handle(req, env).files <= (env.files - {input, WaveformPath(req.contentType, input)}) + {SrtPath(input)}
  {
    var input := InputPath(req.filename);
    var saved := AfterWrite(env.files, input, env.save);
    var h := Handle(req, env);
    if env.save.WriteFailed? {
      assert h.files == UnlinkAll(saved, [input]);
      assert [input][1..] == [];
    } else if env.save.OpenFailed? {
      assert h.files == saved;
    } else {
      SavedUploadLeftNothing(req, env);
    }
  }

  /** The part of NothingLeftBehind after a complete save. */
  lemma SavedUploadLeftNothing(req: Request, env: Env)
    requires Accepted(req.contentType) && env.save.Written?
    requires !Handle(req, env).response.NoResponse?
    ensures var input := InputPath(req.filename);
      Handle(req, env).files <= (env.files - {input, WaveformPath(req.contentType, input)}) + {SrtPath(input)}
  {
    var input := InputPath(req.filename);
    var saved := AfterWrite(env.files, input, env.save);
    var waveform := WaveformPath(req.contentType, input);
    var h := Handle(req, env);
    if Transcoding(req.contentType, input).Some? && !env.transcode.Transcoded? {
      assert h.files == Cleanup(saved, input, waveform);
      CleanupDropsBoth(saved, input, waveform);
    } else {
      var before := if req.contentType == "audio/wav" then saved else saved + {waveform};
      assert h == Finish(env, input, waveform, before);
      FinishLeavesSrtOnly(env, input, waveform, before);
      assert before - {input, waveform} <= env.files - {input, waveform};
    }
  }

  /** Once recognition has ended, only the SRT file can remain of the request's files. */
  lemma FinishLeavesSrtOnly(env: Env, input: Path, waveform: Path, files: set<Path>)
    requires input in files
    requires !Finish(env, input, waveform, files).response.NoResponse?
    ensures Finish(env, input, waveform, files).files <= (files - {input, waveform}) + {SrtPath(input)}
  {
    CleanupDropsBoth(files, input, waveform);
  }

  /** With the upload present, the cleanup leaves neither the upload nor the converted
      file, and removes nothing else. */
  lemma CleanupDropsBoth(files: set<Path>, input: Path, waveform: Path)
    requires input in files
    ensures Cleanup(files, input, waveform) == files - {input, waveform}
  {
    if waveform in files {
      CleanupRemovesBoth(files, input, waveform);
    } else {
      assert Unlinks(input, waveform) == [input, waveform];
      assert [input, waveform][1..] == [waveform];
      assert UnlinkAll(files - {input}, [waveform]) == files - {input};
    }
  }

  /** A file name without a separator is saved directly in the temporary directory; a
      rooted one replaces the temporary directory altogether. */
  lemma InputPathPlacement(filename: string)
    ensures ProperPart(filename) ==> InputPath(filename) == Path(false, ["temp", filename])
    ensures filename != "" && filename[0] == '/' ==> InputPath(filename).absolute
  {
    if ProperPart(filename) {
      JoinComponent(TempDir, filename);
    }
  }
}
