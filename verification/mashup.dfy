/** The job behind the web form, webapp/mashup.py: FFmpeg probe, download,
    cut and merge, then the archive named after the roll number. Unlike the
    command line, this copy wraps no download or decode exception in a
    message of its own and reads `segments[0]` without checking for an
    empty list. */
module Mashup {
  import opened Wrappers
  import opened Text
  import opened Filename
  import opened Acquisition
  import opened Audio

  /** The roll number `generate_mashup_zip` uses when none is given. */
  const DefaultRollNo: string := "102303437"

  /** The name of the merged audio inside the archive (line 70): it already
      ends in `.mp3`, and it is free of forbidden characters whenever the
      roll number is. */
  function MashupName(rollNo: string, singer: string): (name: string)
    ensures HasMp3Suffix(name) && WithMp3Suffix(name) == name
    ensures NoForbidden(rollNo) ==> NoForbidden(name)
  {
    var name := rollNo + "-" + Sanitize(singer) + "-mashup.mp3";
    Mp3Tail(rollNo + "-" + Sanitize(singer));
    JoinNoForbidden(rollNo, Sanitize(singer), "-mashup.mp3");
    name
  }

  /** The name of the archive (line 73): it ends in `.zip`, and it is free
      of forbidden characters whenever the roll number is. */
  function ZipName(rollNo: string): (zip: string)
    ensures EndsWith(zip, ".zip")
    ensures NoForbidden(rollNo) ==> NoForbidden(zip)
  {
    var zip := rollNo + "-mashup.zip";
    assert zip[|zip| - 4..] == ".zip";
    assert NoForbidden("-mashup.zip");
    NoForbiddenConcat(rollNo, "-mashup.zip");
    zip
  }

  lemma Mp3Tail(head: string)
    ensures HasMp3Suffix(head + "-mashup.mp3")
  {
    var name := head + "-mashup.mp3";
    var k := |name|;
    assert name[k - 4] == '.' && name[k - 3] == 'm' && name[k - 2] == 'p' && name[k - 1] == '3';
  }

  lemma JoinNoForbidden(rollNo: string, mid: string, tail: string)
    requires NoForbidden(mid) && NoForbidden(tail)
    ensures NoForbidden(rollNo) ==> NoForbidden(rollNo + "-" + mid + tail)
  {
    if NoForbidden(rollNo) {
      assert NoForbidden("-");
      NoForbiddenConcat(rollNo, "-");
      NoForbiddenConcat(rollNo + "-", mid);
      NoForbiddenConcat(rollNo + "-" + mid, tail);
    }
  }

  /** A roll number usable in a file name: not empty, and free of both
      whitespace and the characters the sanitiser replaces. */
  predicate PlainRollNo(rollNo: string) {
    rollNo != [] && NoForbidden(rollNo) && NoneInClass(rollNo, Whitespace)
  }

  lemma DefaultRollNoIsPlain()
    ensures PlainRollNo(DefaultRollNo)
  {
    forall i | 0 <= i < |DefaultRollNo|
      ensures !IsForbidden(DefaultRollNo[i]) && !IsSpace(DefaultRollNo[i])
    {
      assert '0' <= DefaultRollNo[i] <= '9';
    }
  }

  lemma NoForbiddenConcat(a: string, b: string)
    ensures NoForbidden(a + b) <==> NoForbidden(a) && NoForbidden(b)
  {
    var t := a + b;
    if NoForbidden(a) && NoForbidden(b) {
      forall i | 0 <= i < |t|
        ensures !IsForbidden(t[i])
      {
        if i < |a| {
          assert t[i] == a[i];
        } else {
          assert t[i] == b[i - |a|];
        }
      }
    }
    if NoForbidden(t) {
      assert forall i :: 0 <= i < |a| ==> t[i] == a[i];
      assert forall i :: 0 <= i < |b| ==> t[|a| + i] == b[i];
    }
  }

  /** With a plain roll number the audio name is already what
      `sanitize_filename` would make of it. */
  lemma MashupNameIsSanitized(rollNo: string, singer: string)
    requires PlainRollNo(rollNo)
    ensures IsCleanName(MashupName(rollNo, singer))
    ensures Sanitize(MashupName(rollNo, singer)) == MashupName(rollNo, singer)
  {
    var name := MashupName(rollNo, singer);
    var head := rollNo + "-";
    var tail := "-mashup.mp3";
    LiteralsPlain();
    PlainJoin(rollNo, "-");
    PlainPiecesClean(head, Sanitize(singer), tail);
    assert name == head + Sanitize(singer) + tail;
    assert name[0] == rollNo[0];
    assert !IsSpace(rollNo[0]);
    assert name[|name| - 1] == tail[|tail| - 1];
    SanitizeFixesClean(name);
  }

  /** The fixed pieces of the names have neither forbidden characters nor whitespace. */
  lemma LiteralsPlain()
    ensures NoForbidden("-") && NoneInClass("-", Whitespace)
    ensures NoForbidden("-mashup.mp3") && NoneInClass("-mashup.mp3", Whitespace)
  {
  }

  /** Joining two plain strings gives a plain string. */
  lemma PlainJoin(a: string, b: string)
    requires NoForbidden(a) && NoneInClass(a, Whitespace)
    requires NoForbidden(b) && NoneInClass(b, Whitespace)
    ensures NoForbidden(a + b) && NoneInClass(a + b, Whitespace)
  {
    var t := a + b;
    forall i | 0 <= i < |t|
      ensures !IsForbidden(t[i]) && !InClass(Whitespace, t[i])
    {
      if i < |a| {
        assert t[i] == a[i];
      } else {
        assert t[i] == b[i - |a|];
      }
    }
  }

  /** Text with no whitespace on both sides of a squeezed, forbidden-free
      middle is itself squeezed and forbidden-free. */
  lemma PlainPiecesClean(a: string, s: string, c: string)
    requires NoForbidden(a) && NoneInClass(a, Whitespace)
    requires NoForbidden(c) && NoneInClass(c, Whitespace) && c != []
    requires NoForbidden(s) && Squeezed(s, Whitespace)
    ensures NoForbidden(a + s + c) && Squeezed(a + s + c, Whitespace)
  {
    var t := a + s + c;
    forall i | 0 <= i < |t|
      ensures !IsForbidden(t[i])
      ensures IsSpace(t[i]) ==> t[i] == ' ' && (i + 1 < |t| ==> !IsSpace(t[i + 1]))
    {
      if i < |a| {
        assert t[i] == a[i] && !InClass(Whitespace, a[i]);
      } else if i < |a| + |s| {
        assert t[i] == s[i - |a|];
        if i + 1 < |a| + |s| {
          assert t[i + 1] == s[i + 1 - |a|];
        } else {
          assert t[i + 1] == c[0] && !InClass(Whitespace, c[0]);
        }
      } else {
        assert t[i] == c[i - |a| - |s|] && !InClass(Whitespace, c[i - |a| - |s|]);
      }
    }
  }

  /** What `generate_mashup_zip` and its helpers raise. */
  datatype WebError =
    | FfmpegMissing
    | DownloadRaised
    | NoMp3
    | DecodeRaised(file: string)
    | EmptyIndex
    | ZipfileUndefined

  /** `cut_and_merge` of webapp/mashup.py without the export: a file that
      does not decode aborts with the decoder's own exception, and an empty
      list fails at `segments[0]`. */
  method CutAndMerge<S>(files: seq<string>, cutSeconds: nat, decode: string -> Option<seq<S>>)
    returns (r: Result<seq<S>, WebError>)
    ensures r.Success? <==> |files| > 0 && AllDecodable(files, decode)
    ensures r.Failure? ==> r.error.DecodeRaised? || r.error == EmptyIndex
    ensures AllDecodable(files, decode) && |files| == 0 ==> r == Failure(EmptyIndex)
    ensures r == Failure(EmptyIndex) ==> |files| == 0
    ensures r.Failure? && r.error.DecodeRaised? ==>
      exists k: nat :: k < |files| && decode(files[k]).None? && r.error.file == files[k] &&
        forall j :: 0 <= j < k ==> decode(files[j]).Some?
    ensures !AllDecodable(files, decode) ==>
      exists k: nat :: FirstUndecodable(files, decode, k) && r == Failure(DecodeRaised(files[k]))
    ensures r.Success? ==> r.value == Flatten(Segments(files, decode, cutSeconds * 1000))
    ensures r.Success? ==> |r.value| == ClippedTotal(files, decode, cutSeconds * 1000)
  {
    var cut := CutAll(files, decode, cutSeconds * 1000);
    match cut
    case Failure(k) =>
      assert FirstUndecodable(files, decode, k);
      return Failure(DecodeRaised(files[k]));
    case Success(segs) =>
      if |segs| == 0 {
        return Failure(EmptyIndex);
      }
      var merged := Merge(segs);
      SegmentsLength(files, decode, cutSeconds * 1000);
      return Success(merged);
  }

  /** The finished archive: its name, the name of its one entry and that
      entry's audio. */
  datatype Artifact<S> = Artifact(zipName: string, entryName: string, audio: seq<S>)

  /** Lines 64-71: probe, download, keep the sorted `.mp3` files, then cut
      and merge them into the audio named after roll number and singer. */
  method Prepare<S>(singer: string, n: int, dur: nat, rollNo: string, env: Env<S>)
    returns (r: Result<(string, seq<S>), WebError>)
    ensures !env.ffmpegFound ==> r == Failure(FfmpegMissing)
    ensures env.ffmpegFound && env.fetch(SearchTerm(n, singer)).None? ==> r == Failure(DownloadRaised)
    ensures r.Success? <==>
      && env.ffmpegFound
      && env.fetch(SearchTerm(n, singer)).Some?
      && CollectMp3s(env.fetch(SearchTerm(n, singer)).value).Some?
      && AllDecodable(CollectMp3s(env.fetch(SearchTerm(n, singer)).value).value, env.decode)
    ensures (env.ffmpegFound && env.fetch(SearchTerm(n, singer)).Some? &&
             CollectMp3s(env.fetch(SearchTerm(n, singer)).value).None?) ==> r == Failure(NoMp3)
    ensures r.Success? ==>
      var mp3s := CollectMp3s(env.fetch(SearchTerm(n, singer)).value).value;
      r.value == (MashupName(rollNo, singer), Flatten(Segments(mp3s, env.decode, dur * 1000)))
    ensures (env.ffmpegFound && env.fetch(SearchTerm(n, singer)).Some? &&
             CollectMp3s(env.fetch(SearchTerm(n, singer)).value).Some?) ==>
      var mp3s := CollectMp3s(env.fetch(SearchTerm(n, singer)).value).value;
      !AllDecodable(mp3s, env.decode) ==>
        exists k: nat :: FirstUndecodable(mp3s, env.decode, k) && r == Failure(DecodeRaised(mp3s[k]))
    ensures r != Failure(EmptyIndex) && r != Failure(ZipfileUndefined)
  {
    if !env.ffmpegFound {
      return Failure(FfmpegMissing);
    }
    var fetched := env.fetch(SearchTerm(n, singer));
    if fetched.None? {
      return Failure(DownloadRaised);
    }
    var mp3s := CollectMp3s(fetched.value);
    if mp3s.None? {
      return Failure(NoMp3);
    }
    var merged := CutAndMerge(mp3s.value, dur, env.decode);
    if merged.Failure? {
      return Failure(merged.error);
    }
    return Success((MashupName(rollNo, singer), merged.value));
  }

  /** `generate_mashup_zip` as written: webapp/mashup.py never imports
      `zipfile`, so the archive step raises `NameError` on every run that
      gets that far, and no run returns an archive. */
  method GenerateMashupZipAsWritten<S>(singer: string, n: int, dur: nat, rollNo: string, env: Env<S>)
    returns (r: Result<Artifact<S>, WebError>)
    ensures r.Failure?
    ensures r == Failure(ZipfileUndefined) <==>
      && env.ffmpegFound
      && env.fetch(SearchTerm(n, singer)).Some?
      && CollectMp3s(env.fetch(SearchTerm(n, singer)).value).Some?
      && AllDecodable(CollectMp3s(env.fetch(SearchTerm(n, singer)).value).value, env.decode)
  {
    var prepared := Prepare(singer, n, dur, rollNo, env);
    if prepared.Failure? {
      return Failure(prepared.error);
    }
    return Failure(ZipfileUndefined);
  }

  /** `generate_mashup_zip` with `zipfile` imported: the archive named after
      the roll number holding the merged audio under its mashup name. The
      empty-list failure of `cut_and_merge` is never reached, because the
      download step already refused an empty list. */
  method GenerateMashupZip<S>(singer: string, n: int, dur: nat, rollNo: string, env: Env<S>)
    returns (r: Result<Artifact<S>, WebError>)
    ensures r.Success? <==>
      && env.ffmpegFound
      && env.fetch(SearchTerm(n, singer)).Some?
      && CollectMp3s(env.fetch(SearchTerm(n, singer)).value).Some?
      && AllDecodable(CollectMp3s(env.fetch(SearchTerm(n, singer)).value).value, env.decode)
    ensures r.Success? ==>
      var mp3s := CollectMp3s(env.fetch(SearchTerm(n, singer)).value).value;
      && r.value.zipName == ZipName(rollNo)
      && r.value.entryName == MashupName(rollNo, singer)
      && r.value.audio == Flatten(Segments(mp3s, env.decode, dur * 1000))
    ensures (env.ffmpegFound && env.fetch(SearchTerm(n, singer)).Some? &&
             CollectMp3s(env.fetch(SearchTerm(n, singer)).value).Some?) ==>
      var mp3s := CollectMp3s(env.fetch(SearchTerm(n, singer)).value).value;
      !AllDecodable(mp3s, env.decode) ==>
        exists k: nat :: FirstUndecodable(mp3s, env.decode, k) && r == Failure(DecodeRaised(mp3s[k]))
    ensures r != Failure(EmptyIndex) && r != Failure(ZipfileUndefined)
  {
    var prepared := Prepare(singer, n, dur, rollNo, env);
    if prepared.Failure? {
      return Failure(prepared.error);
    }
    var (entry, audio) := prepared.value;
    return Success(Artifact(ZipName(rollNo), entry, audio));
  }
}
