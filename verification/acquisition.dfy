/** The acquisition step both drivers share: the search-and-download
    collaborator is a parameter, and what is modelled is the tail of
    `download_audios`, which keeps the `.mp3` files of the scratch directory,
    sorts them, and refuses an empty result. */
module Acquisition {
  import opened Wrappers
  import opened Text
  import IntParse

  /** The outside capabilities the pipeline calls. `fetch` runs the search
      and download for a search term and returns the names left in the
      scratch directory, or None when the download raised; `decode` reads one
      file as audio, or None when decoding raised. */
  datatype Env<S> = Env(
    ffmpegFound: bool,
    fetch: string -> Option<seq<string>>,
    decode: string -> Option<seq<S>>)

  /** The search term handed to the downloader: `ytsearch{n}:{query}`. */
  function SearchTerm(n: int, query: string): string {
    "ytsearch" + IntParse.Show(n) + ":" + query
  }

  /** What `out_dir.glob("*.mp3")` keeps: names ending in `.mp3`, with the
      case-sensitive matching of a POSIX file system. */
  predicate IsMp3Name(name: string) {
    EndsWith(name, ".mp3")
  }

  /** The `.mp3` names of a listing, in listing order. */
  function FilterMp3(names: seq<string>): (r: seq<string>)
    ensures forall x :: multiset(r)[x] == if IsMp3Name(x) then multiset(names)[x] else 0
    ensures forall i :: 0 <= i < |r| ==> IsMp3Name(r[i])
  {
    if |names| == 0 then []
    else
      var rest := FilterMp3(names[..|names| - 1]);
      var last := names[|names| - 1];
      assert names == names[..|names| - 1] + [last];
      if IsMp3Name(last) then rest + [last] else rest
  }

  /** Python's ordering of `str` (and of paths in one directory): code-point
      lexicographic order. */
  predicate LexLe(a: string, b: string) {
    |a| == 0 || (|b| > 0 && (a[0] < b[0] || (a[0] == b[0] && LexLe(a[1..], b[1..]))))
  }

  lemma {:induction false} LexLeTotal(a: string, b: string)
    ensures LexLe(a, b) || LexLe(b, a)
    decreases |a|
  {
    if |a| > 0 && |b| > 0 && a[0] == b[0] {
      LexLeTotal(a[1..], b[1..]);
    }
  }

  lemma {:induction false} LexLeTransitive(a: string, b: string, c: string)
    requires LexLe(a, b) && LexLe(b, c)
    ensures LexLe(a, c)
    decreases |a|
  {
    if |a| > 0 && a[0] == b[0] && b[0] == c[0] {
      LexLeTransitive(a[1..], b[1..], c[1..]);
    }
  }

  lemma {:induction false} LexLeAntisymmetric(a: string, b: string)
    requires LexLe(a, b) && LexLe(b, a)
    ensures a == b
    decreases |a|
  {
    if |a| > 0 {
      LexLeAntisymmetric(a[1..], b[1..]);
      assert a == [a[0]] + a[1..];
      assert b == [b[0]] + b[1..];
    }
  }

  /** Each name is no greater than the next. */
  predicate SortedAdjacent(s: seq<string>) {
    forall i :: 0 < i < |s| ==> LexLe(s[i - 1], s[i])
  }

  /** Each name is no greater than every later one. */
  predicate Sorted(s: seq<string>) {
    forall i, j :: 0 <= i < j < |s| ==> LexLe(s[i], s[j])
  }

  lemma {:induction false} AdjacentIsSorted(s: seq<string>)
    requires SortedAdjacent(s)
    ensures Sorted(s)
    decreases |s|
  {
    if |s| > 1 {
      var init := s[..|s| - 1];
      assert SortedAdjacent(init) by {
        forall i | 0 < i < |init|
          ensures LexLe(init[i - 1], init[i])
        {
          assert init[i - 1] == s[i - 1] && init[i] == s[i];
        }
      }
      AdjacentIsSorted(init);
      forall i, j | 0 <= i < j < |s|
        ensures LexLe(s[i], s[j])
      {
        if j < |s| - 1 {
          assert s[i] == init[i] && s[j] == init[j];
        } else if i < |s| - 2 {
          assert s[i] == init[i] && s[|s| - 2] == init[|s| - 2];
          assert LexLe(s[i], s[|s| - 2]);
          LexLeTransitive(s[i], s[|s| - 2], s[j]);
        }
      }
    }
  }

  /** Inserts `x` into a sorted sequence, keeping it sorted. */
  function Insert(x: string, s: seq<string>): (r: seq<string>)
    requires SortedAdjacent(s)
    ensures SortedAdjacent(r)
    ensures multiset(r) == multiset(s) + multiset{x}
    ensures |r| == |s| + 1
    ensures |s| > 0 ==> r[0] == x || r[0] == s[0]
  {
    if |s| == 0 then [x]
    else if LexLe(x, s[0]) then [x] + s
    else
      LexLeTotal(x, s[0]);
      var tail := s[1..];
      assert SortedAdjacent(tail) by {
        forall i | 0 < i < |tail|
          ensures LexLe(tail[i - 1], tail[i])
        {
          assert tail[i - 1] == s[i] && tail[i] == s[i + 1];
        }
      }
      var r := [s[0]] + Insert(x, tail);
      assert s == [s[0]] + tail;
      r
  }

  /** Sorts names into ascending order. */
  function Sort(s: seq<string>): (r: seq<string>)
    ensures SortedAdjacent(r)
    ensures multiset(r) == multiset(s)
  {
    if |s| == 0 then []
    else
      assert s == [s[0]] + s[1..];
      Insert(s[0], Sort(s[1..]))
  }

  /** The tail of `download_audios`: the `.mp3` names of the scratch
      directory in ascending order, or None when there are none (where the
      source raises "No MP3 files were downloaded"). */
  function CollectMp3s(listing: seq<string>): (r: Option<seq<string>>)
    ensures r.None? <==> forall i :: 0 <= i < |listing| ==> !IsMp3Name(listing[i])
    ensures r.Some? ==> |r.value| > 0
    ensures r.Some? ==> Sorted(r.value)
    ensures r.Some? ==> forall x :: multiset(r.value)[x] == if IsMp3Name(x) then multiset(listing)[x] else 0
    ensures r.Some? ==> forall i :: 0 <= i < |r.value| ==> IsMp3Name(r.value[i])
  {
    var mp3s := Sort(FilterMp3(listing));
    AdjacentIsSorted(mp3s);
    KeptAreMp3(listing);
    NoneKeptIff(listing);
    if |mp3s| == 0 then None else Some(mp3s)
  }

  /** Every name the sorted filter keeps is an `.mp3` name. */
  lemma KeptAreMp3(listing: seq<string>)
    ensures forall i :: 0 <= i < |Sort(FilterMp3(listing))| ==> IsMp3Name(Sort(FilterMp3(listing))[i])
  {
    var m := Sort(FilterMp3(listing));
    forall i | 0 <= i < |m|
      ensures IsMp3Name(m[i])
    {
      assert m[i] in multiset(m);
    }
  }

  /** The sorted filter is empty exactly when the listing holds no `.mp3` name. */
  lemma NoneKeptIff(listing: seq<string>)
    ensures |Sort(FilterMp3(listing))| == 0 <==> forall i :: 0 <= i < |listing| ==> !IsMp3Name(listing[i])
  {
    var m := Sort(FilterMp3(listing));
    if |m| == 0 {
      forall i | 0 <= i < |listing|
        ensures !IsMp3Name(listing[i])
      {
        assert listing[i] in multiset(listing);
        assert multiset(m)[listing[i]] == 0;
      }
    } else {
      assert m[0] in multiset(m);
      assert m[0] in multiset(listing);
    }
  }
}
