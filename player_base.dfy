/**
  The supported-format selector of the player base class. From the flat
  list of formats youtube-dl reports it rebuilds two lists: the video
  formats the engine's video player can play, kept ordered by height with
  one entry per height, and the audio-only formats it can play, in input
  order.

  The specification of the rebuild is `SupportedVideo` / `SupportedAudio`
  below; the method `YTDLPlayerBase.ExtractSupportedMediaFormats` runs the
  scan-and-splice loops and is proved to compute exactly them; the lemmas
  state what the lists are.
 */
module PlayerBase {
  import opened Wrappers
  import opened Strings
  import opened Seqs
  import opened MediaFormats

  // ---------------------------------------------------------------------
  // Which formats go where
  // ---------------------------------------------------------------------

  /** A video candidate: has a video stream (or an unknown one), mp4, over http(s). */
  predicate IsVideoCandidate(f: MediaFormat) {
    f.vcodec != Some("none") && f.ext == "mp4" && IsHttp(f.protocol)
  }

  /** The video codec is present and is an H.264 variant ("avc..."). */
  predicate IsAvc(f: MediaFormat) {
    f.vcodec.Some? && StartsWith(f.vcodec.value, "avc")
  }

  /**
    Whether a video candidate takes the place of the entry already at its
    height: a muxed (audio+video) one always does, a video-only one only
    when it is H.264.
   */
  predicate ReplacesSameHeight(f: MediaFormat) {
    HasAudio(f) || IsAvc(f)
  }

  /**
    The audio branch: reached only by formats that are not video candidates;
    it asks for an audio stream, mp3 or wav, over http(s). It does not look
    at `vcodec`.
   */
  predicate IsAudioEntry(f: MediaFormat) {
    !IsVideoCandidate(f) && HasAudio(f) && (f.ext == "mp3" || f.ext == "wav") && IsHttp(f.protocol)
  }

  // ---------------------------------------------------------------------
  // The video list
  // ---------------------------------------------------------------------

  /** Heights strictly increase along the list (so no height occurs twice). */
  predicate StrictlyAscending(list: seq<MediaFormat>) {
    forall i, j :: 0 <= i < j < |list| ==> list[i].height < list[j].height
  }

  function Heights(list: seq<MediaFormat>): set<int> {
    set x | x in list :: x.height
  }

  /**
    Where the scan over the list stops for a candidate of height `h`: the
    first entry whose height is equal to or larger than `h`, or the end.
   */
  function FirstAtLeast(list: seq<MediaFormat>, h: int): (p: nat)
    ensures p <= |list|
    ensures forall j :: 0 <= j < p ==> list[j].height < h
    ensures p < |list| ==> list[p].height >= h
    decreases |list|
  {
    if list == [] then 0
    else if list[0].height >= h then 0
    else 1 + FirstAtLeast(list[1..], h)
  }

  /** Those two facts pin the stopping point down. */
  lemma FirstAtLeastUnique(list: seq<MediaFormat>, h: int, i: nat)
    requires i <= |list|
    requires forall j :: 0 <= j < i ==> list[j].height < h
    requires i < |list| ==> list[i].height >= h
    ensures FirstAtLeast(list, h) == i
  {
  }

  /**
    One video candidate processed against the current list: stop at the
    first entry of equal or larger height; an equal one is replaced (or
    kept) by the replacement rule, a larger one gets the candidate inserted
    before it; with no such entry the candidate is appended.
   */
  function InsertVideo(list: seq<MediaFormat>, f: MediaFormat): seq<MediaFormat> {
    var p := FirstAtLeast(list, f.height);
    if p < |list| && list[p].height == f.height then
      if ReplacesSameHeight(f) then list[p := f] else list
    else
      list[..p] + [f] + list[p..]
  }

  /** The video list after processing `formats` in order, starting from empty. */
  function SupportedVideo(formats: seq<MediaFormat>): seq<MediaFormat>
    decreases |formats|
  {
    if formats == [] then []
    else
      var prev := SupportedVideo(formats[..|formats| - 1]);
      var f := formats[|formats| - 1];
      if IsVideoCandidate(f) then InsertVideo(prev, f) else prev
  }

  /** The audio list after processing `formats`: an order-preserving filter. */
  function SupportedAudio(formats: seq<MediaFormat>): seq<MediaFormat> {
    Filter(formats, IsAudioEntry)
  }

  /** The heights of all video candidates in the input. */
  function CandidateHeights(formats: seq<MediaFormat>): set<int> {
    set f | f in formats && IsVideoCandidate(f) :: f.height
  }

  /** One more format: how both lists grow. */
  lemma SupportedStep(formats: seq<MediaFormat>, k: nat)
    requires k < |formats|
    ensures SupportedVideo(formats[..k + 1])
         == if IsVideoCandidate(formats[k]) then InsertVideo(SupportedVideo(formats[..k]), formats[k])
            else SupportedVideo(formats[..k])
    ensures SupportedAudio(formats[..k + 1])
         == if IsAudioEntry(formats[k]) then SupportedAudio(formats[..k]) + [formats[k]]
            else SupportedAudio(formats[..k])
  {
    assert formats[..k + 1][..k] == formats[..k];
    FilterSnoc(formats[..k], formats[k], IsAudioEntry);
    assert formats[..k] + [formats[k]] == formats[..k + 1];
  }

  // ---------------------------------------------------------------------
  // The mutable object
  // ---------------------------------------------------------------------

  class YTDLPlayerBase {
    /** Formats the engine's video player can play, ascending by height. */
    var supportedVideoFormats: seq<MediaFormat>
    /** Audio-only formats the engine's audio source can play, in input order. */
    var supportedAudioFormats: seq<MediaFormat>

    constructor ()
      ensures supportedVideoFormats == [] && supportedAudioFormats == []
    {
      supportedVideoFormats := [];
      supportedAudioFormats := [];
    }

    /**
      Rebuilds both lists from `mediaInfo.formats`. Both are cleared first,
      so the result depends on the formats alone: running it twice on the
      same media gives the same lists.
     */
    method ExtractSupportedMediaFormats(mediaInfo: MediaInfo)
      modifies this
      ensures supportedVideoFormats == SupportedVideo(mediaInfo.formats)
      ensures supportedAudioFormats == SupportedAudio(mediaInfo.formats)
      ensures StrictlyAscending(supportedVideoFormats)
      ensures Heights(supportedVideoFormats) == CandidateHeights(mediaInfo.formats)
    {
      supportedVideoFormats := [];
      supportedAudioFormats := [];
      var formats := mediaInfo.formats;
      for k := 0 to |formats|
        invariant supportedVideoFormats == SupportedVideo(formats[..k])
        invariant supportedAudioFormats == SupportedAudio(formats[..k])
      {
        var format := formats[k];
        SupportedStep(formats, k);
        if format.vcodec != Some("none") &&
           format.ext == "mp4" &&
           (format.protocol == "https" || format.protocol == "http")
        {
          AddVideoFormat(format);
        } else if format.acodec != "none" &&
                  (format.ext == "mp3" || format.ext == "wav") &&
                  (format.protocol == "https" || format.protocol == "http")
        {
          // audio only
          supportedAudioFormats := supportedAudioFormats + [format];
        }
      }
      assert formats[..|formats|] == formats;
      SupportedVideoAscending(formats);
      SupportedVideoHeights(formats);
    }

    /**
      Places one video candidate in `supportedVideoFormats` by the scan
      over the current list.
     */
    method AddVideoFormat(format: MediaFormat)
      modifies this`supportedVideoFormats
      ensures supportedVideoFormats == InsertVideo(old(supportedVideoFormats), format)
    {
      ghost var prev := supportedVideoFormats;
      var inserted := false;
      if format.acodec != "none" {
        // video and audio together
        var i := 0;
        while i < |supportedVideoFormats|
          invariant 0 <= i <= |prev|
          invariant supportedVideoFormats == prev && !inserted
          invariant forall j :: 0 <= j < i ==> prev[j].height < format.height
        {
          if format.height == supportedVideoFormats[i].height {
            // replace
            FirstAtLeastUnique(prev, format.height, i);
            supportedVideoFormats := supportedVideoFormats[i := format];
            inserted := true;
            break;
          } else if format.height < supportedVideoFormats[i].height {
            // insert before the first larger height
            FirstAtLeastUnique(prev, format.height, i);
            supportedVideoFormats := supportedVideoFormats[..i] + [format] + supportedVideoFormats[i..];
            inserted := true;
            break;
          }
          i := i + 1;
        }
      } else {
        // video only
        var i := 0;
        while i < |supportedVideoFormats|
          invariant 0 <= i <= |prev|
          invariant supportedVideoFormats == prev && !inserted
          invariant forall j :: 0 <= j < i ==> prev[j].height < format.height
        {
          if format.height == supportedVideoFormats[i].height {
            // same height: only an H.264 video-only format replaces it
            FirstAtLeastUnique(prev, format.height, i);
            if format.vcodec != None && StartsWith(format.vcodec.value, "avc") {
              supportedVideoFormats := supportedVideoFormats[i := format];
            }
            inserted := true;
            break;
          } else if format.height < supportedVideoFormats[i].height {
            // insert before the first larger height
            FirstAtLeastUnique(prev, format.height, i);
            supportedVideoFormats := supportedVideoFormats[..i] + [format] + supportedVideoFormats[i..];
            inserted := true;
            break;
          }
          i := i + 1;
        }
      }
      if !inserted {
        // add to the end
        FirstAtLeastUnique(prev, format.height, |prev|);
        assert prev[..|prev|] == prev && prev[|prev|..] == [];
        supportedVideoFormats := supportedVideoFormats + [format];
      }
    }
  }

  // ---------------------------------------------------------------------
  // One insertion step
  // ---------------------------------------------------------------------

  /** On an ascending list, the scan stops at the entry of equal height when there is one. */
  lemma StopsAtEqualHeight(list: seq<MediaFormat>, h: int)
    requires StrictlyAscending(list)
    ensures var p := FirstAtLeast(list, h);
      (h in Heights(list)) <==> (p < |list| && list[p].height == h)
  {
    var p := FirstAtLeast(list, h);
    if h in Heights(list) {
      var x :| x in list && x.height == h;
      var j :| 0 <= j < |list| && list[j] == x;
      assert j >= p;
      assert p == j;
    }
  }

  /**
    A candidate whose height is already present replaces that entry in
    place when `ReplacesSameHeight` holds and is dropped otherwise; either
    way the length and every other entry stay as they were.
   */
  lemma InsertExistingHeight(list: seq<MediaFormat>, f: MediaFormat, j: nat)
    requires StrictlyAscending(list)
    requires j < |list| && list[j].height == f.height
    ensures InsertVideo(list, f) == if ReplacesSameHeight(f) then list[j := f] else list
    ensures |InsertVideo(list, f)| == |list|
    ensures forall k :: 0 <= k < |list| && k != j ==> InsertVideo(list, f)[k] == list[k]
  {
    StopsAtEqualHeight(list, f.height);
    assert list[j] in list;
  }

  /**
    A candidate whose height is new is inserted just before the first entry
    of larger height (at the end when there is none): the entries before
    that point are lower, those after it higher, and all keep their order.
   */
  lemma InsertNewHeight(list: seq<MediaFormat>, f: MediaFormat)
    requires StrictlyAscending(list)
    requires f.height !in Heights(list)
    ensures var p := FirstAtLeast(list, f.height);
      && InsertVideo(list, f) == list[..p] + [f] + list[p..]
      && (forall k :: 0 <= k < p ==> list[k].height < f.height)
      && (forall k :: p <= k < |list| ==> list[k].height > f.height)
  {
    StopsAtEqualHeight(list, f.height);
    var p := FirstAtLeast(list, f.height);
    forall k | p <= k < |list| ensures list[k].height > f.height {
      assert list[k] in list;
      if k > p {
        assert list[p].height < list[k].height;
      }
    }
  }

  /** Every entry after a step was there before or is the candidate. */
  lemma InsertMembers(list: seq<MediaFormat>, f: MediaFormat)
    ensures forall x :: x in InsertVideo(list, f) ==> x in list || x == f
  {
    var p := FirstAtLeast(list, f.height);
    if !(p < |list| && list[p].height == f.height) {
      assert list == list[..p] + list[p..];
      forall x | x in list[..p] + [f] + list[p..] ensures x in list || x == f {
        assert x in list[..p] || x == f || x in list[p..];
      }
    }
  }

  /** Inserting at the point between lower and higher entries keeps the order. */
  lemma AscendingInsertAt(list: seq<MediaFormat>, p: nat, f: MediaFormat)
    requires StrictlyAscending(list)
    requires p <= |list|
    requires forall k :: 0 <= k < p ==> list[k].height < f.height
    requires forall k :: p <= k < |list| ==> list[k].height > f.height
    ensures StrictlyAscending(list[..p] + [f] + list[p..])
  {
    var r := list[..p] + [f] + list[p..];
    assert forall k :: 0 <= k < p ==> r[k] == list[k];
    assert r[p] == f;
    assert forall k :: p < k < |r| ==> r[k] == list[k - 1];
  }

  /** A step keeps the list strictly ascending. */
  lemma InsertAscending(list: seq<MediaFormat>, f: MediaFormat)
    requires StrictlyAscending(list)
    ensures StrictlyAscending(InsertVideo(list, f))
  {
    if f.height in Heights(list) {
      var x :| x in list && x.height == f.height;
      var j :| 0 <= j < |list| && list[j] == x;
      InsertExistingHeight(list, f, j);
    } else {
      InsertNewHeight(list, f);
      AscendingInsertAt(list, FirstAtLeast(list, f.height), f);
    }
  }

  /** Replacing an entry by one of the same height keeps the heights present. */
  lemma HeightsReplaceAt(list: seq<MediaFormat>, j: nat, f: MediaFormat)
    requires j < |list| && list[j].height == f.height
    ensures Heights(list[j := f]) == Heights(list)
  {
    var r := list[j := f];
    forall h | h in Heights(r) ensures h in Heights(list) {
      var y :| y in r && y.height == h;
      var k :| 0 <= k < |r| && r[k] == y;
      assert list[k] in list;
    }
    forall h | h in Heights(list) ensures h in Heights(r) {
      var y :| y in list && y.height == h;
      var k :| 0 <= k < |list| && list[k] == y;
      assert r[k] in r;
    }
  }

  /** Inserting an entry adds its height to the heights present. */
  lemma HeightsInsertAt(list: seq<MediaFormat>, p: nat, f: MediaFormat)
    requires p <= |list|
    ensures Heights(list[..p] + [f] + list[p..]) == Heights(list) + {f.height}
  {
    var r := list[..p] + [f] + list[p..];
    assert list == list[..p] + list[p..];
    assert forall y :: y in r <==> y in list[..p] || y == f || y in list[p..];
    assert forall y :: y in list <==> y in list[..p] || y in list[p..];
  }

  /** A step adds the candidate's height to the heights present and no other. */
  lemma InsertHeights(list: seq<MediaFormat>, f: MediaFormat)
    requires StrictlyAscending(list)
    ensures Heights(InsertVideo(list, f)) == Heights(list) + {f.height}
    ensures |InsertVideo(list, f)| == |list| + (if f.height in Heights(list) then 0 else 1)
  {
    if f.height in Heights(list) {
      InsertHeightsPresent(list, f);
    } else {
      InsertHeightsAbsent(list, f);
    }
  }

  lemma InsertHeightsPresent(list: seq<MediaFormat>, f: MediaFormat)
    requires StrictlyAscending(list) && f.height in Heights(list)
    ensures Heights(InsertVideo(list, f)) == Heights(list)
    ensures |InsertVideo(list, f)| == |list|
  {
    var x :| x in list && x.height == f.height;
    var j :| 0 <= j < |list| && list[j] == x;
    InsertExistingHeight(list, f, j);
    HeightsReplaceAt(list, j, f);
  }

  lemma InsertHeightsAbsent(list: seq<MediaFormat>, f: MediaFormat)
    requires StrictlyAscending(list) && f.height !in Heights(list)
    ensures Heights(InsertVideo(list, f)) == Heights(list) + {f.height}
    ensures |InsertVideo(list, f)| == |list| + 1
  {
    var p := FirstAtLeast(list, f.height);
    InsertNewHeight(list, f);
    HeightsInsertAt(list, p, f);
  }

  // ---------------------------------------------------------------------
  // The whole video list
  // ---------------------------------------------------------------------

  /** After every processed format the video list is strictly ascending by height. */
  lemma {:induction false} SupportedVideoAscending(formats: seq<MediaFormat>)
    ensures StrictlyAscending(SupportedVideo(formats))
    decreases |formats|
  {
    if formats != [] {
      var prev := formats[..|formats| - 1];
      SupportedVideoAscending(prev);
      InsertAscending(SupportedVideo(prev), formats[|formats| - 1]);
    }
  }

  /** Every video entry is a video candidate taken from the input. */
  lemma {:induction false} SupportedVideoMembers(formats: seq<MediaFormat>)
    ensures forall x :: x in SupportedVideo(formats) ==> x in formats && IsVideoCandidate(x)
    decreases |formats|
  {
    if formats != [] {
      var prev := formats[..|formats| - 1];
      var f := formats[|formats| - 1];
      SupportedVideoMembers(prev);
      InsertMembers(SupportedVideo(prev), f);
      assert forall x :: x in prev ==> x in formats;
    }
  }

  /**
    The heights in the video list are exactly the heights of the video
    candidates, and there is one entry per height.
   */
  lemma {:induction false} SupportedVideoHeights(formats: seq<MediaFormat>)
    ensures Heights(SupportedVideo(formats)) == CandidateHeights(formats)
    ensures |SupportedVideo(formats)| == |CandidateHeights(formats)|
    decreases |formats|
  {
    if formats != [] {
      var prev := formats[..|formats| - 1];
      var f := formats[|formats| - 1];
      CandidateHeightsSnoc(prev, f);
      assert formats == prev + [f];
      SupportedVideoHeights(prev);
      SupportedVideoAscending(prev);
      if IsVideoCandidate(f) {
        InsertHeights(SupportedVideo(prev), f);
      }
    }
  }

  lemma CandidateHeightsSnoc(prev: seq<MediaFormat>, f: MediaFormat)
    ensures CandidateHeights(prev + [f])
         == CandidateHeights(prev) + (if IsVideoCandidate(f) then {f.height} else {})
  {
    assert forall g :: g in prev + [f] <==> g in prev || g == f;
  }

  /** The video list is never longer than the number of video candidates. */
  lemma {:induction false} SupportedVideoLength(formats: seq<MediaFormat>)
    ensures |SupportedVideo(formats)| <= |Filter(formats, IsVideoCandidate)|
    decreases |formats|
  {
    if formats != [] {
      var prev := formats[..|formats| - 1];
      var f := formats[|formats| - 1];
      SupportedVideoLength(prev);
      SupportedVideoAscending(prev);
      if IsVideoCandidate(f) {
        InsertHeights(SupportedVideo(prev), f);
      }
    }
  }

  /**
    The video list is a fixed point: selecting again from it gives it back.
    Each entry is a candidate higher than all before it, so it is appended.
   */
  lemma {:induction false} SupportedVideoFixpoint(list: seq<MediaFormat>)
    requires StrictlyAscending(list)
    requires forall k :: 0 <= k < |list| ==> IsVideoCandidate(list[k])
    ensures SupportedVideo(list) == list
    decreases |list|
  {
    if list != [] {
      var prev := list[..|list| - 1];
      var f := list[|list| - 1];
      assert forall k :: 0 <= k < |prev| ==> prev[k] == list[k];
      assert IsVideoCandidate(f);
      SupportedVideoFixpoint(prev);
      AppendHigher(prev, f);
      assert prev + [f] == list;
    }
  }

  /** A candidate higher than every entry is appended. */
  lemma AppendHigher(list: seq<MediaFormat>, f: MediaFormat)
    requires forall j :: 0 <= j < |list| ==> list[j].height < f.height
    ensures InsertVideo(list, f) == list + [f]
  {
    FirstAtLeastUnique(list, f.height, |list|);
    assert list[..|list|] == list && list[|list|..] == [];
  }

  /** Selecting from the selected video list changes nothing. */
  lemma SupportedVideoIdempotent(formats: seq<MediaFormat>)
    ensures SupportedVideo(SupportedVideo(formats)) == SupportedVideo(formats)
  {
    var v := SupportedVideo(formats);
    SupportedVideoAscending(formats);
    SupportedVideoMembers(formats);
    assert forall k :: 0 <= k < |v| ==> v[k] in v;
    SupportedVideoFixpoint(v);
  }

  // ---------------------------------------------------------------------
  // The audio list and the two lists together
  // ---------------------------------------------------------------------

  /**
    The audio list is the in-order sublist of the input's audio entries:
    each occurs in it as often as in the input, nothing else occurs, and
    the list of a concatenation is the concatenation of the lists.
   */
  lemma SupportedAudioExact(formats: seq<MediaFormat>, more: seq<MediaFormat>, x: MediaFormat)
    ensures x in SupportedAudio(formats) <==> x in formats && IsAudioEntry(x)
    ensures multiset(SupportedAudio(formats))[x]
         == if IsAudioEntry(x) then multiset(formats)[x] else 0
    ensures SupportedAudio(formats + more) == SupportedAudio(formats) + SupportedAudio(more)
  {
    FilterMembership(formats, IsAudioEntry, x);
    FilterMultiplicity(formats, IsAudioEntry, x);
    FilterAppend(formats, more, IsAudioEntry);
  }

  /**
    No format is in both lists: every video entry is a video candidate and
    no audio entry is one.
   */
  lemma ListsDisjoint(formats: seq<MediaFormat>, x: MediaFormat)
    ensures !(x in SupportedVideo(formats) && x in SupportedAudio(formats))
  {
    SupportedVideoMembers(formats);
    FilterMembership(formats, IsAudioEntry, x);
  }

  /** When no format is served over http or https, both lists are empty. */
  lemma {:induction false} NoHttpNothingSupported(formats: seq<MediaFormat>)
    requires forall k :: 0 <= k < |formats| ==> !IsHttp(formats[k].protocol)
    ensures SupportedVideo(formats) == [] && SupportedAudio(formats) == []
    decreases |formats|
  {
    FilterNonePass(formats, IsAudioEntry);
    if formats != [] {
      NoHttpNothingSupported(formats[..|formats| - 1]);
    }
  }

  /** Selecting audio from the selected audio list changes nothing. */
  lemma SupportedAudioIdempotent(formats: seq<MediaFormat>)
    ensures SupportedAudio(SupportedAudio(formats)) == SupportedAudio(formats)
  {
    FilterIdempotent(formats, IsAudioEntry);
  }

  // ---------------------------------------------------------------------
  // What the code does, on small inputs
  // ---------------------------------------------------------------------

  /**
    Two video candidates of one height: the later one takes the place of
    the first exactly when it is muxed or H.264, whatever the first one is;
    so a muxed format does not always win over a video-only one.
   */
  lemma SameHeightReplacement(first: MediaFormat, later: MediaFormat)
    requires IsVideoCandidate(first) && IsVideoCandidate(later)
    requires first.height == later.height
    ensures SupportedVideo([first, later]) == if ReplacesSameHeight(later) then [later] else [first]
  {
    assert [first, later][..1] == [first];
    assert [first][..0] == [];
    assert SupportedVideo([first]) == InsertVideo([], first) == [first];
    InsertExistingHeight([first], later, 0);
    assert [first][0 := later] == [later];
  }

  /** A format with a video codec that is not mp4 can land in the audio list. */
  lemma AudioIgnoresVideoCodec()
    ensures var f := MediaFormat("x", "", "u", "mp3", Some("vp9"), "mp3", "http", 720);
      SupportedAudio([f]) == [f]
  {
    var f := MediaFormat("x", "", "u", "mp3", Some("vp9"), "mp3", "http", 720);
    FilterSnoc([], f, IsAudioEntry);
    assert [] + [f] == [f];
  }
}
