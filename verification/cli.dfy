/** The command-line driver 102303437.py: argument validation in a fixed
    order, output-name sanitising and suffixing, then download, cut and merge.
    `args` is `sys.argv`, program name included. */
module Cli {
  import opened Wrappers
  import opened Text
  import opened IntParse
  import opened Filename
  import opened Acquisition
  import opened Audio
  import opened Precedence

  /** The validation failures, each ending the process with status 1. */
  datatype CliError =
    | WrongArgCount
    | EmptySinger
    | VideosNotPositive
    | DurationNotPositive
    | TooFewVideos
    | DurationTooShort

  /** The line printed for a validation failure. */
  function Message(e: CliError): (line: string)
    ensures |line| >= 7 && line[..7] == "Error: "
  {
    var detail := Problem(e);
    assert ("Error: " + detail)[..7] == "Error: ";
    "Error: " + detail
  }

  /** The text after `Error: ` for each validation failure. */
  function Problem(e: CliError): string {
    match e
    case WrongArgCount => "Incorrect number of parameters."
    case EmptySinger => "SingerName cannot be empty."
    case VideosNotPositive => "NumberOfVideos must be a positive integer."
    case DurationNotPositive => "AudioDuration must be a positive integer (seconds)."
    case TooFewVideos => "NumberOfVideos must be > 10 as per assignment."
    case DurationTooShort => "AudioDuration must be > 20 seconds as per assignment."
  }

  /** A validated command line. */
  datatype CliJob = CliJob(singer: string, videos: int, duration: int, outName: string)

  /** The order in which `main` runs its checks. */
  const CheckOrder: seq<CliError> :=
    [WrongArgCount, EmptySinger, VideosNotPositive, DurationNotPositive, TooFewVideos, DurationTooShort]

  /** The command line as `main` reads it: the argument count, the four
      arguments stripped, and the two numbers as `int` reads them. */
  datatype Reading = Reading(argCount: nat, singer: string, videos: Option<int>, duration: Option<int>, outName: string)

  /** Lines 121 and 126-129, with `int` of lines 147-148 applied up front
      (it is pure, so reading it before the positivity checks changes
      nothing). */
  function Read(args: seq<string>): Reading {
    if |args| != 5 then Reading(|args|, [], None, None, [])
    else Reading(5, Strip(args[1]), ParseInt(Strip(args[2])), ParseInt(Strip(args[3])), Strip(args[4]))
  }

  /** Every argument with `a` before it and `b` after it. */
  function PadArgs(args: seq<string>, a: string, b: string): (r: seq<string>)
    ensures |r| == |args|
    ensures forall i :: 0 <= i < |args| ==> r[i] == a + args[i] + b
  {
    seq(|args|, i requires 0 <= i < |args| => a + args[i] + b)
  }

  /** Whitespace around the arguments, as a shell quoting `" 20 "` passes it,
      changes neither the reading nor the verdict. */
  lemma ReadIgnoresPadding(args: seq<string>, a: string, b: string)
    requires AllSpace(a) && AllSpace(b)
    ensures Read(PadArgs(args, a, b)) == Read(args)
    ensures Validate(PadArgs(args, a, b)) == Validate(args)
  {
    if |args| == 5 {
      StripPadded(a, args[1], b);
      StripPadded(a, args[2], b);
      StripPadded(a, args[3], b);
      StripPadded(a, args[4], b);
    }
  }

  /** The condition each check rejects, judged on its own. */
  predicate Fails(r: Reading, e: CliError) {
    match e
    case WrongArgCount => r.argCount != 5
    case EmptySinger => r.argCount == 5 && r.singer == []
    case VideosNotPositive => r.argCount == 5 && !Positive(r.videos)
    case DurationNotPositive => r.argCount == 5 && !Positive(r.duration)
    case TooFewVideos => r.argCount == 5 && r.videos.Some? && r.videos.value <= 10
    case DurationTooShort => r.argCount == 5 && r.duration.Some? && r.duration.value <= 20
  }

  /** Lines 121-156 of `main`: the checks in order, the first failing one
      reported. */
  function FirstFailure(r: Reading): (e: Option<CliError>)
    ensures e.None? ==> r.argCount == 5 && r.singer != []
    ensures e.None? ==> r.videos.Some? && r.videos.value > 10 && r.duration.Some? && r.duration.value > 20
  {
    if r.argCount != 5 then Some(WrongArgCount)
    else if r.singer == [] then Some(EmptySinger)
    else if !Positive(r.videos) then Some(VideosNotPositive)
    else if !Positive(r.duration) then Some(DurationNotPositive)
    else if r.videos.value <= 10 then Some(TooFewVideos)
    else if r.duration.value <= 20 then Some(DurationTooShort)
    else None
  }

  /** Lines 121-160 of `main`: on success, the stripped singer, the two
      numbers and the sanitised output name with `.mp3` forced on. */
  function Validate(args: seq<string>): (r: Result<CliJob, CliError>)
    ensures r.Success? ==> r.value.singer != [] && Trimmed(r.value.singer)
    ensures r.Success? ==> r.value.videos > 10 && r.value.duration > 20
    ensures r.Success? ==> IsCleanName(r.value.outName) && HasMp3Suffix(r.value.outName)
  {
    var reading := Read(args);
    match FirstFailure(reading)
    case Some(e) => Failure(e)
    case None =>
      var name := Sanitize(reading.outName);
      WithMp3SuffixKeepsClean(name);
      Success(CliJob(reading.singer, reading.videos.value, reading.duration.value, WithMp3Suffix(name)))
  }

  /** The check at position `k` of the order is reported exactly when it
      fails and every earlier one passes. */
  lemma ValidateFirstFailureWins(args: seq<string>, k: nat)
    requires k < |CheckOrder|
    ensures Validate(args) == Failure(CheckOrder[k]) <==>
      Fails(Read(args), CheckOrder[k]) && forall j :: 0 <= j < k ==> !Fails(Read(args), CheckOrder[j])
  {
    FirstFailureWins(Read(args), k);
  }

  lemma FirstFailureWins(r: Reading, k: nat)
    requires k < |CheckOrder|
    ensures FirstFailure(r) == Some(CheckOrder[k]) <==>
      Fails(r, CheckOrder[k]) && forall j :: 0 <= j < k ==> !Fails(r, CheckOrder[j])
  {
    var t := Outcomes(CheckOrder, c => Fails(r, c));
    FirstFailureIsChain(r);
    assert Distinct(CheckOrder);
    FirstOfSixWins(CheckOrder, t, k);
  }

  /** `FirstFailure` is the first failing check in `CheckOrder`. */
  lemma FirstFailureIsChain(r: Reading)
    ensures FirstFailure(r) == FirstOfSix(CheckOrder, Outcomes(CheckOrder, c => Fails(r, c)))
  {
  }

  /** The command line is accepted exactly when there are four arguments,
      the singer is not blank, the count is a number above 10 and the
      duration a number above 20; the job carries the stripped values. */
  lemma ValidateAccepts(args: seq<string>)
    ensures Validate(args).Success? <==>
      && |args| == 5
      && Strip(args[1]) != []
      && ParseInt(Strip(args[2])).Some? && ParseInt(Strip(args[2])).value > 10
      && ParseInt(Strip(args[3])).Some? && ParseInt(Strip(args[3])).value > 20
    ensures Validate(args).Success? ==>
      && Validate(args).value.singer == Strip(args[1])
      && Validate(args).value.videos == ParseInt(Strip(args[2])).value
      && Validate(args).value.duration == ParseInt(Strip(args[3])).value
      && Validate(args).value.outName == WithMp3Suffix(Sanitize(Strip(args[4])))
  {
  }

  /** The thresholds are strict: 10 videos are refused even with a long
      enough duration. */
  lemma ValidateRefusesTenVideos()
    ensures Validate(["102303437.py", "Test Artist", "10", "21", "result"]) == Failure(TooFewVideos)
  {
    var args := ["102303437.py", "Test Artist", "10", "21", "result"];
    TwoDigitText(10, "10");
    TwoDigitText(21, "21");
    ReadSample("10", "21", 10, 21);
    ValidateReportsFirstFailure(args);
  }

  /** 20 seconds are refused with enough videos. */
  lemma ValidateRefusesTwentySeconds()
    ensures Validate(["102303437.py", "Test Artist", "11", "20", "result"]) == Failure(DurationTooShort)
  {
    var args := ["102303437.py", "Test Artist", "11", "20", "result"];
    TwoDigitText(11, "11");
    TwoDigitText(20, "20");
    ReadSample("11", "20", 11, 20);
    ValidateReportsFirstFailure(args);
  }

  /** 11 videos and 21 seconds are accepted, and the output name `result`
      gains its `.mp3` suffix. */
  lemma ValidateAcceptsElevenAndTwentyOne()
    ensures Validate(["102303437.py", "Test Artist", "11", "21", "result"]) ==
      Success(CliJob("Test Artist", 11, 21, "result.mp3"))
  {
    var args := ["102303437.py", "Test Artist", "11", "21", "result"];
    TwoDigitText(11, "11");
    TwoDigitText(21, "21");
    ReadSample("11", "21", 11, 21);
    ValidateBuildsJob(args);
    ResultName();
  }

  /** How `main` reads the sample command line with the given numbers. */
  lemma ReadSample(nText: string, yText: string, n: int, y: int)
    requires Strip(nText) == nText && ParseInt(nText) == Some(n)
    requires Strip(yText) == yText && ParseInt(yText) == Some(y)
    ensures Read(["102303437.py", "Test Artist", nText, yText, "result"]) ==
      Reading(5, "Test Artist", Some(n), Some(y), "result")
  {
    var args := ["102303437.py", "Test Artist", nText, yText, "result"];
    assert args[2] == nText && args[3] == yText;
    ArtistTrimmed();
    ResultTrimmed();
  }

  // A literal fact for the example lemmas, split out only to keep their proofs small.
  lemma ResultName()
    ensures WithMp3Suffix(Sanitize("result")) == "result.mp3"
  {
    ResultIsClean();
    assert !HasMp3Suffix("result");
    assert "result" + ".mp3" == "result.mp3";
    SuffixedCleanName("result", "result.mp3");
  }

  /** A sanitised name without the suffix just gains `.mp3`. */
  lemma SuffixedCleanName(name: string, suffixed: string)
    requires IsCleanName(name) && !HasMp3Suffix(name) && suffixed == name + ".mp3"
    ensures WithMp3Suffix(Sanitize(name)) == suffixed
  {
    SanitizeFixesClean(name);
  }

  // A literal fact for the example lemmas, split out only to keep their proofs small.
  lemma ResultIsClean()
    ensures IsCleanName("result")
  {
    var out := "result";
    assert Trimmed(out);
    forall i | 0 <= i < |out|
      ensures !IsForbidden(out[i]) && !IsSpace(out[i])
    {
      assert i == 0 || i == 1 || i == 2 || i == 3 || i == 4 || i == 5;
    }
  }

  lemma ValidateBuildsJob(args: seq<string>)
    requires FirstFailure(Read(args)).None?
    ensures Validate(args) == Success(CliJob(Read(args).singer, Read(args).videos.value,
      Read(args).duration.value, WithMp3Suffix(Sanitize(Read(args).outName))))
  {
  }

  lemma ValidateReportsFirstFailure(args: seq<string>)
    requires FirstFailure(Read(args)).Some?
    ensures Validate(args) == Failure(FirstFailure(Read(args)).value)
  {
  }

  // A literal fact for the example lemmas, split out only to keep their proofs small.
  lemma ArtistTrimmed()
    ensures Strip("Test Artist") == "Test Artist"
  {
    assert Trimmed("Test Artist");
  }

  // A literal fact for the example lemmas, split out only to keep their proofs small.
  lemma ResultTrimmed()
    ensures Strip("result") == "result"
  {
    assert Trimmed("result");
  }

  /** The `RuntimeError`s the run can raise after validation. */
  datatype RunError =
    | FfmpegMissing
    | DownloadFailed(query: string)
    | NoMp3
    | Undecodable(file: string)
    | NoSegments

  /** The text of each `RuntimeError`. */
  function RunMessage(e: RunError): string {
    match e
    case FfmpegMissing => "FFmpeg not found in PATH. Please install FFmpeg and try again."
    case DownloadFailed(query) => "Failed while downloading from YouTube for query: " + query
    case NoMp3 => "No MP3 files were downloaded. Try a different singer name or check network."
    case Undecodable(file) => "Failed processing audio file: " + file
    case NoSegments => "No audio segments available to merge."
  }

  /** The tail of `download_audios`: the sorted `.mp3` names, or the error. */
  function DownloadedMp3s(listing: seq<string>): (r: Result<seq<string>, RunError>)
    ensures r.Failure? <==> forall i :: 0 <= i < |listing| ==> !IsMp3Name(listing[i])
    ensures r.Failure? ==> r.error == NoMp3
    ensures r.Success? ==> |r.value| > 0 && Sorted(r.value)
    ensures r.Success? ==> forall x :: multiset(r.value)[x] == if IsMp3Name(x) then multiset(listing)[x] else 0
  {
    match CollectMp3s(listing)
    case None => Failure(NoMp3)
    case Some(mp3s) => Success(mp3s)
  }

  /** `cut_and_merge` of 102303437.py without the export: every file cut to
      `cutSeconds` and the segments joined in order; the first file that
      fails to decode aborts everything, and an empty list is an error. */
  method CutAndMerge<S>(files: seq<string>, cutSeconds: nat, decode: string -> Option<seq<S>>)
    returns (r: Result<seq<S>, RunError>)
    ensures r.Success? <==> |files| > 0 && AllDecodable(files, decode)
    ensures |files| == 0 ==> r == Failure(NoSegments)
    ensures !AllDecodable(files, decode) ==>
      exists k: nat :: FirstUndecodable(files, decode, k) && r == Failure(Undecodable(files[k]))
    ensures r.Success? ==> r.value == Flatten(Segments(files, decode, cutSeconds * 1000))
    ensures r.Success? ==> |r.value| == ClippedTotal(files, decode, cutSeconds * 1000)
  {
    var cut := CutAll(files, decode, cutSeconds * 1000);
    match cut
    case Failure(k) =>
      assert FirstUndecodable(files, decode, k);
      return Failure(Undecodable(files[k]));
    case Success(segs) =>
      if |segs| == 0 {
        return Failure(NoSegments);
      }
      var merged := Merge(segs);
      SegmentsLength(files, decode, cutSeconds * 1000);
      return Success(merged);
  }

  /** How a run of `main` ends: the output file written with the merged
      audio, a refused command line, or a `RuntimeError` from the run. */
  datatype Outcome<S> = Wrote(fileName: string, audio: seq<S>) | Refused(reason: CliError) | Failed(error: RunError)

  /** The process exit status: `sys.exit(1)` on every path but success. */
  function ExitCode<S>(o: Outcome<S>): (code: int)
    ensures code == 0 <==> o.Wrote?
    ensures code == 0 || code == 1
  {
    if o.Wrote? then 0 else 1
  }

  /** The error line `main` prints for an outcome that is not a success:
      every one starts with `Error: `. */
  function ErrorLine<S>(o: Outcome<S>): (line: string)
    requires !o.Wrote?
    ensures |line| >= 7 && line[..7] == "Error: "
  {
    if o.Refused? then Message(o.reason)
    else
      var detail := RunMessage(o.error);
      assert ("Error: " + detail)[..7] == "Error: ";
      "Error: " + detail
  }

  /** How the `try` block of `main` may end for a validated job: never with a
      refusal; `FfmpegMissing` without FFmpeg; the downloader's failure for
      the singer; `NoMp3` when nothing usable was downloaded; otherwise the
      mashup of every downloaded file, or the first file that does not
      decode; never the "no segments" error. */
  ghost predicate PipelineEnds<S>(job: CliJob, env: Env<S>, o: Outcome<S>)
    requires job.duration > 0
  {
    && !o.Refused?
    && (!env.ffmpegFound ==> o == Failed(FfmpegMissing))
    && (env.ffmpegFound && env.fetch(SearchTerm(job.videos, job.singer)).None? ==>
          o == Failed(DownloadFailed(job.singer)))
    && (env.ffmpegFound && env.fetch(SearchTerm(job.videos, job.singer)).Some? ==>
          var listing := env.fetch(SearchTerm(job.videos, job.singer)).value;
          match DownloadedMp3s(listing)
          case Failure(_) => o == Failed(NoMp3)
          case Success(mp3s) =>
            && (o.Wrote? <==> AllDecodable(mp3s, env.decode))
            && (o.Wrote? ==> o.fileName == job.outName &&
                             o.audio == Flatten(Segments(mp3s, env.decode, job.duration * 1000)))
            && (!o.Wrote? ==> exists k: nat :: FirstUndecodable(mp3s, env.decode, k) && o == Failed(Undecodable(mp3s[k]))))
    && o != Failed(NoSegments)
  }

  /** The `try` block of `main` for a validated job: FFmpeg probe, download,
      then cut and merge. */
  method Pipeline<S>(job: CliJob, env: Env<S>) returns (o: Outcome<S>)
    requires job.duration > 0
    ensures PipelineEnds(job, env, o)
  {
    if !env.ffmpegFound {
      return Failed(FfmpegMissing);
    }
    var fetched := env.fetch(SearchTerm(job.videos, job.singer));
    if fetched.None? {
      return Failed(DownloadFailed(job.singer));
    }
    var listing := DownloadedMp3s(fetched.value);
    if listing.Failure? {
      return Failed(listing.error);
    }
    var merged := CutAndMerge(listing.value, job.duration as nat, env.decode);
    if merged.Failure? {
      return Failed(merged.error);
    }
    return Wrote(job.outName, merged.value);
  }

  /** `main` from the argument list to its outcome, with the FFmpeg probe,
      the downloader and the decoder supplied by `env`: a refused command
      line reports its check, anything else runs the pipeline. */
  method Run<S>(args: seq<string>, env: Env<S>) returns (o: Outcome<S>)
    ensures o.Refused? <==> Validate(args).Failure?
    ensures o.Refused? ==> o.reason == Validate(args).error
    ensures o.Wrote? ==> Validate(args).Success? && o.fileName == Validate(args).value.outName
    ensures o.Wrote? ==> env.ffmpegFound
    ensures Validate(args).Success? && !env.ffmpegFound ==> o == Failed(FfmpegMissing)
    ensures o != Failed(NoSegments)
    ensures Validate(args).Success? ==> PipelineEnds(Validate(args).value, env, o)
  {
    var v := Validate(args);
    if v.Failure? {
      return Refused(v.error);
    }
    o := Pipeline(v.value, env);
  }
}
