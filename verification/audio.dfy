/** The transform and assembly stages both drivers share, over abstract
    audio: a clip is a sequence of samples, one per millisecond, so that
    pydub's `len(audio)` is its length and `audio[:ms]` is a prefix. Decoding
    is the caller's partial function. */
module Audio {
  import opened Wrappers

  function Min(a: int, b: int): int {
    if a <= b then a else b
  }

  /** One clip cut to at most `cutMs` milliseconds: the whole clip when it
      is shorter, never padded. */
  function Segment<S>(audio: seq<S>, cutMs: nat): (seg: seq<S>)
    ensures |seg| == Min(|audio|, cutMs)
    ensures seg == audio[..|seg|]
  {
    if |audio| < cutMs then audio else audio[..cutMs]
  }

  /** The concatenation of the segments, in order. */
  function Flatten<S>(segs: seq<seq<S>>): seq<S> {
    if |segs| == 0 then [] else Flatten(segs[..|segs| - 1]) + segs[|segs| - 1]
  }

  /** The sum of the segment lengths. */
  function TotalLength<S>(segs: seq<seq<S>>): nat {
    if |segs| == 0 then 0 else TotalLength(segs[..|segs| - 1]) + |segs[|segs| - 1]|
  }

  /** The merged length is the sum of the segment lengths. */
  lemma {:induction false} FlattenLength<S>(segs: seq<seq<S>>)
    ensures |Flatten(segs)| == TotalLength(segs)
  {
    if |segs| > 0 {
      FlattenLength(segs[..|segs| - 1]);
    }
  }

  /** Segment `i` sits in the merged audio right after the segments before
      it, unchanged: the merge keeps the input order and neither overlaps
      nor trims. */
  lemma {:induction false} FlattenOrder<S>(segs: seq<seq<S>>, i: nat)
    requires i < |segs|
    ensures TotalLength(segs[..i]) + |segs[i]| <= |Flatten(segs)|
    ensures Flatten(segs)[TotalLength(segs[..i])..TotalLength(segs[..i]) + |segs[i]|] == segs[i]
    decreases |segs|
  {
    var init := segs[..|segs| - 1];
    FlattenLength(init);
    FlattenLength(segs);
    if i == |segs| - 1 {
      assert segs[..i] == init;
    } else {
      FlattenOrder(init, i);
      assert init[..i] == segs[..i];
      assert init[i] == segs[i];
      var off := TotalLength(segs[..i]);
      assert Flatten(segs)[..|Flatten(init)|] == Flatten(init);
      assert Flatten(segs)[off..off + |segs[i]|] == Flatten(init)[off..off + |segs[i]|];
    }
  }

  /** Every file decodes. */
  predicate AllDecodable<S>(files: seq<string>, decode: string -> Option<seq<S>>) {
    forall i :: 0 <= i < |files| ==> decode(files[i]).Some?
  }

  /** `k` is the first file that does not decode. */
  predicate FirstUndecodable<S>(files: seq<string>, decode: string -> Option<seq<S>>, k: nat) {
    && k < |files|
    && decode(files[k]).None?
    && forall j :: 0 <= j < k ==> decode(files[j]).Some?
  }

  /** The segments of all files, each cut to `cutMs`, in file order. */
  function Segments<S>(files: seq<string>, decode: string -> Option<seq<S>>, cutMs: nat): (segs: seq<seq<S>>)
    requires AllDecodable(files, decode)
    ensures |segs| == |files|
    ensures forall i :: 0 <= i < |files| ==> segs[i] == Segment(decode(files[i]).value, cutMs)
  {
    if |files| == 0 then []
    else
      var init := files[..|files| - 1];
      assert forall i :: 0 <= i < |init| ==> init[i] == files[i];
      Segments(init, decode, cutMs) + [Segment(decode(files[|files| - 1]).value, cutMs)]
  }

  /** The sum, over the files, of each clip's length capped at `cutMs`. */
  function ClippedTotal<S>(files: seq<string>, decode: string -> Option<seq<S>>, cutMs: nat): nat
    requires AllDecodable(files, decode)
  {
    if |files| == 0 then 0
    else
      var init := files[..|files| - 1];
      assert forall i :: 0 <= i < |init| ==> init[i] == files[i];
      ClippedTotal(init, decode, cutMs) + Min(|decode(files[|files| - 1]).value|, cutMs)
  }

  /** The segments together last the sum of `min(len(source), cut)`. */
  lemma {:induction false} SegmentsLength<S>(files: seq<string>, decode: string -> Option<seq<S>>, cutMs: nat)
    requires AllDecodable(files, decode)
    ensures TotalLength(Segments(files, decode, cutMs)) == ClippedTotal(files, decode, cutMs)
    decreases |files|
  {
    if |files| > 0 {
      var init := files[..|files| - 1];
      SegmentsOfInit(files, decode, cutMs);
      SegmentsLength(init, decode, cutMs);
    }
  }

  /** Dropping the last file drops the last segment. */
  lemma SegmentsOfInit<S>(files: seq<string>, decode: string -> Option<seq<S>>, cutMs: nat)
    requires |files| > 0 && AllDecodable(files, decode)
    ensures AllDecodable(files[..|files| - 1], decode)
    ensures Segments(files, decode, cutMs)[..|files| - 1] == Segments(files[..|files| - 1], decode, cutMs)
  {
    var init := files[..|files| - 1];
    assert forall i :: 0 <= i < |init| ==> init[i] == files[i];
  }

  /** The decode-and-cut loop of `cut_and_merge`: stops at the first file
      that fails to decode and reports its position. */
  method CutAll<S>(files: seq<string>, decode: string -> Option<seq<S>>, cutMs: nat)
    returns (r: Result<seq<seq<S>>, nat>)
    ensures r.Success? <==> AllDecodable(files, decode)
    ensures r.Success? ==> r.value == Segments(files, decode, cutMs)
    ensures r.Failure? ==> r.error < |files| && decode(files[r.error]).None?
    ensures r.Failure? ==> forall j :: 0 <= j < r.error ==> decode(files[j]).Some?
  {
    var segs: seq<seq<S>> := [];
    var i := 0;
    while i < |files|
      invariant 0 <= i <= |files|
      invariant |segs| == i
      invariant forall j :: 0 <= j < i ==> decode(files[j]).Some?
      invariant forall j :: 0 <= j < i ==> segs[j] == Segment(decode(files[j]).value, cutMs)
    {
      match decode(files[i])
      case None =>
        return Failure(i);
      case Some(audio) =>
        segs := segs + [Segment(audio, cutMs)];
      i := i + 1;
    }
    return Success(segs);
  }

  /** The merge loop: `merged = segments[0]`, then `merged += seg` for the
      rest. Needs at least one segment, as `segments[0]` does. */
  method Merge<S>(segs: seq<seq<S>>) returns (merged: seq<S>)
    requires |segs| > 0
    ensures merged == Flatten(segs)
    ensures |merged| == TotalLength(segs)
  {
    merged := segs[0];
    assert segs[..1] == [segs[0]];
    assert Flatten(segs[..1]) == Flatten(segs[..1][..0]) + segs[0];
    var i := 1;
    while i < |segs|
      invariant 1 <= i <= |segs|
      invariant merged == Flatten(segs[..i])
    {
      assert segs[..i + 1][..i] == segs[..i];
      merged := merged + segs[i];
      i := i + 1;
    }
    assert segs[..|segs|] == segs;
    FlattenLength(segs);
  }
}
