/** Fixed strings and limits of the player. */
module Constants {

  // The option strings are written as concatenations of short pieces; each
  // spells exactly the text of the corresponding constant of the player.

  /** The format selector that ends every video option string. */
  const VIDEO_FORMAT_TAIL: string :=
    "[protocol=https][ext=mp4]" + "/[protocol=http][ext=mp4]" + " --no-cache-dir"

  /** Default youtube-dl options for formats the engine's video player can play. */
  const DEFAULT_YTDL_VIDEO_PARSE_OPTIONS: string :=
    "--format " + "[protocol=https][ext=mp4]" + "/[protocol=http][ext=mp4]" + " --no-cache-dir"

  /** Default options for a low (at most 480 lines) video format. */
  const WORST_YTDL_VIDEO_PARSE_OPTIONS: string :=
    "--format " + "best[height<=480]" + "[protocol=https][ext=mp4]" + "/[protocol=http][ext=mp4]"
    + " --no-cache-dir"

  /** How many characters of a video title the UI shows. */
  const VIDEO_TITLE_LENGTH_LIMIT: nat := 30
}
