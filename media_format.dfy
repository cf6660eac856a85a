/**
  The records youtube-dl reports for one media: a descriptor per available
  format, and the media as a whole.
 */
module MediaFormats {
  import opened Wrappers

  /**
    One format youtube-dl can serve. `vcodec` and `acodec` hold the
    sentinel "none" when there is no such stream; `vcodec` may also be
    absent (a null reference), which the selector checks for.
   */
  datatype MediaFormat = MediaFormat(
    format_id: string,
    format_note: string,
    url: string,
    ext: string,
    vcodec: Option<string>,
    acodec: string,
    protocol: string,
    height: int)

  /** The parse result: the site's extractor name and the formats, in youtube-dl's order. */
  datatype MediaInfo = MediaInfo(extractor: string, formats: seq<MediaFormat>)

  /** The transports the engine can play directly. */
  predicate IsHttp(protocol: string) {
    protocol == "https" || protocol == "http"
  }

  /** `format.acodec != "none"`: the format carries an audio stream. */
  predicate HasAudio(f: MediaFormat) {
    f.acodec != "none"
  }
}
