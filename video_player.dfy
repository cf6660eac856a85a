/**
  The video player: the list of muxed mp4 formats it can offer, the
  youtube-dl options it asks for at the chosen quality, and the two URL
  clean-ups it applies before parsing and before playback.
 */
module VideoPlayer {
  import opened Wrappers
  import opened Strings
  import opened Seqs
  import opened MediaFormats
  import opened Constants

  /** The highest quality the player asks youtube-dl for. */
  datatype EZVideoQuality = Best | Best720 | Best480 | Best360

  /** A format the engine can play with sound: mp4 with an audio stream over http(s). */
  predicate IsAvailable(f: MediaFormat) {
    f.ext == "mp4" && HasAudio(f) && IsHttp(f.protocol)
  }

  class YTDLVideoPlayer {
    /** The last parse result. */
    var mediaInfo: MediaInfo
    /** The formats the player can offer, in youtube-dl's order. */
    var availableMediaFormat: seq<MediaFormat>
    var videoQuality: EZVideoQuality

    /** A fresh player: empty format list and the default quality, at most 480 lines. */
    constructor (mediaInfo: MediaInfo)
      ensures this.mediaInfo == mediaInfo
      ensures availableMediaFormat == [] && videoQuality == Best480
    {
      this.mediaInfo := mediaInfo;
      availableMediaFormat := [];
      videoQuality := Best480;
    }

    /**
      Clears the list, then keeps, in order, the formats of `mediaInfo`
      that are available.
     */
    method ExtractAvailableVideoFormat()
      modifies this`availableMediaFormat
      ensures availableMediaFormat == Filter(mediaInfo.formats, IsAvailable)
    {
      availableMediaFormat := [];
      var formats := mediaInfo.formats;
      for k := 0 to |formats|
        invariant availableMediaFormat == Filter(formats[..k], IsAvailable)
      {
        var format := formats[k];
        FilterSnoc(formats[..k], format, IsAvailable);
        assert formats[..k] + [format] == formats[..k + 1];
        if format.ext == "mp4" &&
           format.acodec != "none" &&
           (format.protocol == "https" || format.protocol == "http")
        {
          availableMediaFormat := availableMediaFormat + [format];
        }
      }
      assert formats[..|formats|] == formats;
    }
  }

  /** Every kept format is available and comes from the media; every available one is kept. */
  lemma AvailableExact(formats: seq<MediaFormat>, more: seq<MediaFormat>, x: MediaFormat)
    ensures x in Filter(formats, IsAvailable) <==> x in formats && IsAvailable(x)
    ensures multiset(Filter(formats, IsAvailable))[x]
         == if IsAvailable(x) then multiset(formats)[x] else 0
    ensures Filter(formats + more, IsAvailable) == Filter(formats, IsAvailable) + Filter(more, IsAvailable)
  {
    FilterMembership(formats, IsAvailable, x);
    FilterMultiplicity(formats, IsAvailable, x);
    FilterAppend(formats, more, IsAvailable);
  }

  // ---------------------------------------------------------------------
  // youtube-dl options
  // ---------------------------------------------------------------------

  /**
    The youtube-dl options for a quality. `url` is not used. The two
    qualities the constants were written for give exactly those constants.
   */
  function GetVideoUrlParseOptions(videoQuality: EZVideoQuality, url: string): (options: string)
    ensures videoQuality == Best ==> options == DEFAULT_YTDL_VIDEO_PARSE_OPTIONS
    ensures videoQuality == Best480 ==> options == WORST_YTDL_VIDEO_PARSE_OPTIONS
  {
    var bestFormat :=
      if videoQuality == Best720 then "best[height<=720]"
      else if videoQuality == Best480 then "best[height<=480]"
      else if videoQuality == Best360 then "best[height<=360]"
      else "";
    "--format " + bestFormat + VIDEO_FORMAT_TAIL
  }

  /** The height cap a quality stands for, if any. */
  function MaxHeight(q: EZVideoQuality): Option<nat> {
    match q
    case Best => None
    case Best720 => Some(720)
    case Best480 => Some(480)
    case Best360 => Some(360)
  }

  /**
    The options are "--format ", then `best[height<=H]` for the quality's
    cap H (nothing when there is none), then the fixed selector tail; the
    URL never matters.
   */
  lemma ParseOptionsShape(q: EZVideoQuality, url: string, otherUrl: string)
    ensures GetVideoUrlParseOptions(q, url)
         == "--format "
          + (match MaxHeight(q) case None => "" case Some(h) => "best[height<=" + Decimal(h) + "]")
          + VIDEO_FORMAT_TAIL
    ensures GetVideoUrlParseOptions(q, url) == GetVideoUrlParseOptions(q, otherUrl)
  {
    match q
    case Best =>
    case Best720 =>
      DecimalOfThreeDigits(720);
      assert "best[height<=" + Decimal(720) + "]" == "best[height<=720]";
    case Best480 =>
      DecimalOfThreeDigits(480);
      assert "best[height<=" + Decimal(480) + "]" == "best[height<=480]";
    case Best360 =>
      DecimalOfThreeDigits(360);
      assert "best[height<=" + Decimal(360) + "]" == "best[height<=360]";
  }

  lemma DecimalOfThreeDigits(n: nat)
    requires 100 <= n < 1000
    ensures Decimal(n) == [DigitChar(n / 100), DigitChar(n / 10 % 10), DigitChar(n % 10)]
  {
    assert n / 10 / 10 == n / 100 && n / 100 < 10 && n / 10 >= 10;
    assert Decimal(n / 10) == Decimal(n / 100) + [DigitChar(n / 10 % 10)];
    assert Decimal(n) == Decimal(n / 10) + [DigitChar(n % 10)];
  }

  /** Different qualities ask youtube-dl for different things. */
  lemma ParseOptionsInjective(q1: EZVideoQuality, q2: EZVideoQuality, url: string)
    requires q1 != q2
    ensures GetVideoUrlParseOptions(q1, url) != GetVideoUrlParseOptions(q2, url)
  {
    var o1, o2 := GetVideoUrlParseOptions(q1, url), GetVideoUrlParseOptions(q2, url);
    if q1 != Best && q2 != Best {
      assert |o1| == |o2|;
      assert o1[22] != o2[22];
    }
  }

  // ---------------------------------------------------------------------
  // URL clean-up
  // ---------------------------------------------------------------------

  /**
    The URL handed to youtube-dl: a YouTube page URL loses everything from
    its first '&' on (the playlist and time parameters); any other URL is
    kept as it is.
   */
  function ValidVideoUrl(url: string): (r: string)
    ensures StartsWith(url, r)
    ensures !Contains(url, "www.youtube.com") ==> r == url
    ensures Contains(url, "www.youtube.com") ==> r == url[..IndexOf(url, '&')] && '&' !in r
  {
    if Contains(url, "www.youtube.com") then
      SplitFirst(url, '&');
      Split(url, '&')[0]
    else url
  }

  /** Cleaning a cleaned URL changes nothing. */
  lemma ValidVideoUrlIdempotent(url: string)
    ensures ValidVideoUrl(ValidVideoUrl(url)) == ValidVideoUrl(url)
  {
    var r := ValidVideoUrl(url);
    if Contains(url, "www.youtube.com") && Contains(r, "www.youtube.com") {
      assert IndexOf(r, '&') == |r|;
      assert r[..|r|] == r;
    }
  }

  /**
    The URL handed to the engine's player: a null or empty URL is returned
    as it is; for a Vimeo media every "source=1" found by one left-to-right
    pass is deleted; any other URL is kept. The result is never longer, and
    differs from the input exactly when the media is from Vimeo and the URL
    contains "source=1".
   */
  function ValidParsedVideoUrl(mediaInfo: MediaInfo, url: Option<string>): (r: Option<string>)
    ensures r.None? <==> url.None?
    ensures mediaInfo.extractor != "vimeo" ==> r == url
    ensures url.Some? ==> |r.value| <= |url.value|
    ensures url.Some? ==>
      (r == url <==> mediaInfo.extractor != "vimeo" || !Contains(url.value, "source=1"))
  {
    if url.None? || url.value == "" then url
    else if mediaInfo.extractor == "vimeo" then
      ReplaceLength(url.value, "source=1", "");
      ReplacementsIff(url.value, "source=1");
      ReplaceAbsent(url.value, "source=1", "");
      Some(Replace(url.value, "source=1", ""))
    else url
  }

  /** For Vimeo, each deleted "source=1" shortens the URL by eight characters. */
  lemma VimeoUrlLength(mediaInfo: MediaInfo, url: string)
    requires mediaInfo.extractor == "vimeo"
    ensures ValidParsedVideoUrl(mediaInfo, Some(url)).Some?
    ensures |ValidParsedVideoUrl(mediaInfo, Some(url)).value| == |url| - 8 * Replacements(url, "source=1")
  {
    ReplaceLength(url, "source=1", "");
    if url == "" {
      assert !StartsWith(url, "source=1");
    }
  }

  /**
    One pass is all there is: deleting "source=1" can join two pieces into
    a new "source=1", which stays.
   */
  lemma VimeoOnePass()
    ensures ValidParsedVideoUrl(MediaInfo("vimeo", []), Some("sosource=1urce=1")) == Some("source=1")
  {
    var u := ['s'] + (['o'] + ("source=1" + "urce=1"));
    SosourcePass();
    assert u == "sosource=1urce=1";
    VimeoDeletes(MediaInfo("vimeo", []), u);
  }

  /** The pass over "sosource=1urce=1", split where the occurrence is. */
  lemma SosourcePass()
    ensures Replace(['s'] + (['o'] + ("source=1" + "urce=1")), "source=1", "") == "source=1"
  {
    var p, tail := "source=1", "urce=1";
    var u := ['s'] + (['o'] + (p + tail));
    assert u[..8] != p && (['o'] + (p + tail))[..8] != p by {
      assert u[2] != p[2] && u[1] != p[0];
    }
    ReplaceSkipsTwo(p, 's', 'o', tail);
    assert ['s'] + (['o'] + tail) == p;
  }

  /** For a Vimeo media a non-empty URL goes through one `Replace` pass. */
  lemma VimeoDeletes(mediaInfo: MediaInfo, url: string)
    requires mediaInfo.extractor == "vimeo" && url != ""
    ensures ValidParsedVideoUrl(mediaInfo, Some(url)) == Some(Replace(url, "source=1", ""))
  {
  }
}
