# youtube-dl player core, modelled in Dafny

This project models the core of the Unity youtube-dl video player and proves properties of the model. The modelled parts are:

- **The supported-format selector** of the player base class, `YTDLPlayerBase.ExtractSupportedMediaFormats`. From the flat list of formats that youtube-dl reports for a media, it rebuilds two lists in place:
  - the video formats the engine's video player can play (mp4 over http(s) with a video stream), ordered by height with one entry per height;
  - the audio-only formats (mp3 or wav over http(s) with an audio stream), in input order.
- **The available-format filter** of the video player, `ExtractAvailableVideoFormat`.
- **The youtube-dl option string** for a maximum quality, `GetVideoUrlParseOptions`, with the `EZVideoQuality` enumeration.
- **The two URL clean-ups.** `ValidVideoUrl` cuts a YouTube URL at its first `&`. `ValidParsedVideoUrl` deletes `source=1` from a Vimeo URL.
- **The clock text** `MM:SS` / `HH:MM:SS` of a number of seconds, `Utils.GetFormatTimeStringFromSeconds`.
- **The title shown in the scene**: `VideoTitle.SetText` truncates the title to 30 UTF-16 code units plus `...` and writes it to the text component, or logs a warning when there is none.

## Layout

| file | module | what it holds |
|---|---|---|
| `wrappers.dfy` | `Wrappers` | `Option` (`None` stands for a C# `null` or a thrown exception) |
| `strings.dfy` | `Strings` | the .NET string operations the code calls, with lemmas: ordinal `StartsWith`, `Contains`, `Split(char)`, `Replace(string, string)` as one left-to-right pass, and decimal rendering |
| `seqs.dfy` | `Seqs` | the order-preserving filter that a `Clear()` followed by a `foreach` … `Add` computes |
| `constants.dfy` | `Constants` | the option strings and the title length limit |
| `media_format.dfy` | `MediaFormats` | the `MediaFormat` and `MediaInfo` records |
| `player_base.dfy` | `PlayerBase` | class `YTDLPlayerBase` with its two list fields, the specification functions `SupportedVideo` and `SupportedAudio`, and the lemmas about them |
| `video_player.dfy` | `VideoPlayer` | class `YTDLVideoPlayer` with `ExtractAvailableVideoFormat`, and the pure option and URL functions |
| `utils.dfy` | `Utils` | the `TimeSpan` components and the clock text |
| `video_title.dfy` | `UI` | the UTF-16 encoding of a text, `TruncateTitle` on code units, and class `VideoTitle` with `SetText` |

## How the code is followed

**Video list.**
- `SupportedVideo(formats)` processes the formats one at a time. Each video candidate goes through `InsertVideo`.
- `InsertVideo` stops at the first entry whose height is equal to or larger than the candidate's (`FirstAtLeast`):
  - an equal entry is replaced when the candidate is muxed or H.264, and is kept otherwise (`ReplacesSameHeight`);
  - before a larger entry, the candidate is inserted;
  - when no entry stops the scan, the candidate is appended.
- The methods run the source's loops: the `for` loop, the `inserted` flag, `break`, element assignment and insertion. They are proved to compute exactly these functions.

**Audio list.** `SupportedAudio` is the order-preserving filter by `IsAudioEntry`. That predicate is the `else if` branch: a format that is not a video candidate, has an audio stream, is mp3 or wav, and is served over http(s).

**Types.**
- `vcodec` is `Option<string>`, because the code tests it against `null` before calling `StartsWith("avc")`. The other string fields are plain strings: the code only compares them for equality, and a `null` there behaves like any other string that does not match.
- `MediaFormat.cs` and `MediaInfo.cs` are not part of this model. The records have the fields the code reads.

## Model

| member | source | states |
|---|---|---|
| PlayerBase.YTDLPlayerBase.constructor | Runtime/AssetStorePackages/Evereal/YoutubeDLPlayer/Scripts/Internal/Base/YTDLPlayerBase.cs:24-33 | both format lists start empty |
| PlayerBase.YTDLPlayerBase.ExtractSupportedMediaFormats | Runtime/AssetStorePackages/Evereal/YoutubeDLPlayer/Scripts/Internal/Base/YTDLPlayerBase.cs:46-125 | after clearing both lists and scanning the formats, the video list is `SupportedVideo(formats)` and the audio list is `SupportedAudio(formats)`: a function of the formats alone, so a second run on the same media gives the same lists; the video list is strictly ascending by height and its heights are exactly the candidates' heights |
| PlayerBase.YTDLPlayerBase.AddVideoFormat | Runtime/AssetStorePackages/Evereal/YoutubeDLPlayer/Scripts/Internal/Base/YTDLPlayerBase.cs:59-115 | the muxed loop or the video-only loop, the `inserted` flag and the final append place one candidate exactly as `InsertVideo` does |
| PlayerBase.SupportedStep | Runtime/AssetStorePackages/Evereal/YoutubeDLPlayer/Scripts/Internal/Base/YTDLPlayerBase.cs:50-123 | one more format changes the video list only if the format is a video candidate (by one insertion step), and extends the audio list by it only if it is an audio entry |
| PlayerBase.IsVideoCandidate | Runtime/AssetStorePackages/Evereal/YoutubeDLPlayer/Scripts/Internal/Base/YTDLPlayerBase.cs:55-57 | a video candidate has `vcodec` other than "none", `ext` "mp4" and protocol "https" or "http"; a null `vcodec` counts as other than "none" |
| PlayerBase.IsAvc | Runtime/AssetStorePackages/Evereal/YoutubeDLPlayer/Scripts/Internal/Base/YTDLPlayerBase.cs:94-94 | `vcodec` is non-null and starts with "avc", compared ordinally |
| PlayerBase.ReplacesSameHeight | Runtime/AssetStorePackages/Evereal/YoutubeDLPlayer/Scripts/Internal/Base/YTDLPlayerBase.cs:60-97 | an entry of equal height is replaced when the candidate is muxed (`acodec` other than "none") or, video-only, when it is H.264 |
| PlayerBase.IsAudioEntry | Runtime/AssetStorePackages/Evereal/YoutubeDLPlayer/Scripts/Internal/Base/YTDLPlayerBase.cs:117-119 | an audio entry is a format that is not a video candidate, has `acodec` other than "none", `ext` "mp3" or "wav", and protocol "https" or "http" |
| PlayerBase.InsertVideo | Runtime/AssetStorePackages/Evereal/YoutubeDLPlayer/Scripts/Internal/Base/YTDLPlayerBase.cs:59-115 | one candidate step: scan to the first entry not lower than the candidate; replace an equal entry when `ReplacesSameHeight` holds, else keep it; insert before a higher entry; append when the scan runs off the end |
| PlayerBase.SupportedVideo | Runtime/AssetStorePackages/Evereal/YoutubeDLPlayer/Scripts/Internal/Base/YTDLPlayerBase.cs:50-116 | the video list after processing the formats in order: each video candidate goes through `InsertVideo`, every other format leaves the list alone |
| PlayerBase.SupportedAudio | Runtime/AssetStorePackages/Evereal/YoutubeDLPlayer/Scripts/Internal/Base/YTDLPlayerBase.cs:117-123 | the audio list after processing the formats in order: each audio entry is appended, every other format is skipped |
| PlayerBase.FirstAtLeast | Runtime/AssetStorePackages/Evereal/YoutubeDLPlayer/Scripts/Internal/Base/YTDLPlayerBase.cs:63-80 | the scan stops at an index no larger than the list; every entry before it is lower than the candidate, and the entry at it, if any, is not lower |
| PlayerBase.StopsAtEqualHeight | Runtime/AssetStorePackages/Evereal/YoutubeDLPlayer/Scripts/Internal/Base/YTDLPlayerBase.cs:63-73 | on an ascending list, the scan stops at an entry of equal height exactly when that height is present |
| PlayerBase.InsertExistingHeight | Runtime/AssetStorePackages/Evereal/YoutubeDLPlayer/Scripts/Internal/Base/YTDLPlayerBase.cs:66-100 | a candidate of a height already present replaces that entry in place when it is muxed or when its `vcodec` is non-null and starts with "avc", and is dropped otherwise; the length and all other entries are unchanged |
| PlayerBase.InsertNewHeight | Runtime/AssetStorePackages/Evereal/YoutubeDLPlayer/Scripts/Internal/Base/YTDLPlayerBase.cs:73-115 | a candidate of a new height is spliced in at the first larger entry, or at the end; the entries before it are lower, those after it higher, and their order is kept |
| PlayerBase.InsertMembers | Runtime/AssetStorePackages/Evereal/YoutubeDLPlayer/Scripts/Internal/Base/YTDLPlayerBase.cs:59-115 | after a step, every entry was in the list before or is the candidate |
| PlayerBase.AscendingInsertAt | Runtime/AssetStorePackages/Evereal/YoutubeDLPlayer/Scripts/Internal/Base/YTDLPlayerBase.cs:73-79 | splicing a candidate between lower and higher entries keeps the list strictly ascending |
| PlayerBase.InsertAscending | Runtime/AssetStorePackages/Evereal/YoutubeDLPlayer/Scripts/Internal/Base/YTDLPlayerBase.cs:59-115 | a step keeps the video list strictly ascending by height |
| PlayerBase.HeightsReplaceAt | Runtime/AssetStorePackages/Evereal/YoutubeDLPlayer/Scripts/Internal/Base/YTDLPlayerBase.cs:69-69 | replacing an entry by one of the same height keeps the set of heights |
| PlayerBase.HeightsInsertAt | Runtime/AssetStorePackages/Evereal/YoutubeDLPlayer/Scripts/Internal/Base/YTDLPlayerBase.cs:76-76 | inserting an entry adds exactly its height to the set of heights |
| PlayerBase.InsertHeights | Runtime/AssetStorePackages/Evereal/YoutubeDLPlayer/Scripts/Internal/Base/YTDLPlayerBase.cs:59-115 | a step adds the candidate's height and no other to the heights present; the length grows by one exactly when the height was new |
| PlayerBase.InsertHeightsPresent | Runtime/AssetStorePackages/Evereal/YoutubeDLPlayer/Scripts/Internal/Base/YTDLPlayerBase.cs:66-100 | a candidate of a present height changes neither the heights nor the length |
| PlayerBase.InsertHeightsAbsent | Runtime/AssetStorePackages/Evereal/YoutubeDLPlayer/Scripts/Internal/Base/YTDLPlayerBase.cs:73-115 | a candidate of a new height adds its height and one entry |
| PlayerBase.AppendHigher | Runtime/AssetStorePackages/Evereal/YoutubeDLPlayer/Scripts/Internal/Base/YTDLPlayerBase.cs:111-115 | a candidate higher than every entry is appended at the end |
| PlayerBase.SupportedVideoAscending | Runtime/AssetStorePackages/Evereal/YoutubeDLPlayer/Scripts/Internal/Base/YTDLPlayerBase.cs:50-116 | after any number of processed formats the video list is strictly ascending by height, so no height occurs twice |
| PlayerBase.SupportedVideoMembers | Runtime/AssetStorePackages/Evereal/YoutubeDLPlayer/Scripts/Internal/Base/YTDLPlayerBase.cs:55-57 | every video entry is an input format with `vcodec` not "none", `ext` "mp4" and protocol http or https |
| PlayerBase.CandidateHeightsSnoc | Runtime/AssetStorePackages/Evereal/YoutubeDLPlayer/Scripts/Internal/Base/YTDLPlayerBase.cs:50-57 | one more format adds its height to the candidate heights exactly when it is a video candidate |
| PlayerBase.SupportedVideoHeights | Runtime/AssetStorePackages/Evereal/YoutubeDLPlayer/Scripts/Internal/Base/YTDLPlayerBase.cs:63-115 | the heights in the video list are exactly the heights of all video candidates, one entry per height |
| PlayerBase.SupportedVideoLength | Runtime/AssetStorePackages/Evereal/YoutubeDLPlayer/Scripts/Internal/Base/YTDLPlayerBase.cs:55-115 | the video list is never longer than the number of video candidates |
| PlayerBase.SupportedVideoFixpoint | Runtime/AssetStorePackages/Evereal/YoutubeDLPlayer/Scripts/Internal/Base/YTDLPlayerBase.cs:50-116 | a strictly ascending list of candidates is selected into itself |
| PlayerBase.SupportedVideoIdempotent | Runtime/AssetStorePackages/Evereal/YoutubeDLPlayer/Scripts/Internal/Base/YTDLPlayerBase.cs:48-116 | selecting from the selected video list gives it back |
| PlayerBase.SupportedAudioExact | Runtime/AssetStorePackages/Evereal/YoutubeDLPlayer/Scripts/Internal/Base/YTDLPlayerBase.cs:117-123 | the audio list holds exactly the audio entries of the input, each as often as in the input, in input order (the list of a concatenation is the concatenation of the lists); it is neither deduplicated nor sorted |
| PlayerBase.ListsDisjoint | Runtime/AssetStorePackages/Evereal/YoutubeDLPlayer/Scripts/Internal/Base/YTDLPlayerBase.cs:55-119 | no format is in both lists |
| PlayerBase.NoHttpNothingSupported | Runtime/AssetStorePackages/Evereal/YoutubeDLPlayer/Scripts/Internal/Base/YTDLPlayerBase.cs:55-119 | when no format is served over http or https (m3u8, rtmp, …), both lists are empty |
| PlayerBase.SupportedAudioIdempotent | Runtime/AssetStorePackages/Evereal/YoutubeDLPlayer/Scripts/Internal/Base/YTDLPlayerBase.cs:117-123 | selecting audio from the audio list gives it back |
| PlayerBase.SameHeightReplacement | Runtime/AssetStorePackages/Evereal/YoutubeDLPlayer/Scripts/Internal/Base/YTDLPlayerBase.cs:92-97 | of two video candidates of one height, the later one takes the earlier one's place exactly when it is muxed or H.264, whatever the earlier one is; so a muxed format does not always win |
| PlayerBase.AudioIgnoresVideoCodec | Runtime/AssetStorePackages/Evereal/YoutubeDLPlayer/Scripts/Internal/Base/YTDLPlayerBase.cs:117-119 | an mp3 format whose `vcodec` is "vp9" lands in the audio list, because the audio branch does not look at `vcodec` |
| VideoPlayer.YTDLVideoPlayer.constructor | Runtime/AssetStorePackages/Evereal/YoutubeDLPlayer/Scripts/YTDLVideoPlayer.cs:54-54 | a new player has an empty format list and the default quality `Best480` |
| VideoPlayer.YTDLVideoPlayer.ExtractAvailableVideoFormat | Runtime/AssetStorePackages/Evereal/YoutubeDLPlayer/Scripts/YTDLVideoPlayer.cs:349-365 | after clearing the list and scanning, the list is the order-preserving filter of the media's formats by mp4 with an audio stream over http(s) |
| VideoPlayer.IsAvailable | Runtime/AssetStorePackages/Evereal/YoutubeDLPlayer/Scripts/YTDLVideoPlayer.cs:357-359 | an available format has `ext` "mp4", `acodec` other than "none" and protocol "https" or "http"; `vcodec` and height are not looked at |
| VideoPlayer.AvailableExact | Runtime/AssetStorePackages/Evereal/YoutubeDLPlayer/Scripts/YTDLVideoPlayer.cs:351-364 | a format is in that filter exactly when it is in the input and available, as often as in the input; the filter of a concatenation is the concatenation of the filters |
| VideoPlayer.GetVideoUrlParseOptions | Runtime/AssetStorePackages/Evereal/YoutubeDLPlayer/Scripts/YTDLVideoPlayer.cs:372-380 | `Best` gives exactly `DEFAULT_YTDL_VIDEO_PARSE_OPTIONS` (Constants.cs line 26) and `Best480` gives exactly `WORST_YTDL_VIDEO_PARSE_OPTIONS` (Constants.cs line 30) |
| VideoPlayer.ParseOptionsShape | Runtime/AssetStorePackages/Evereal/YoutubeDLPlayer/Scripts/YTDLVideoPlayer.cs:372-380 | the options are "--format ", then `best[height<=H]` for the quality's cap H (nothing for `Best`), then the fixed mp4 selector tail; the URL argument never changes the result |
| VideoPlayer.DecimalOfThreeDigits | Runtime/AssetStorePackages/Evereal/YoutubeDLPlayer/Scripts/YTDLVideoPlayer.cs:375-377 | a three-digit height is written as its three digits, as in the option strings |
| VideoPlayer.ParseOptionsInjective | Runtime/AssetStorePackages/Evereal/YoutubeDLPlayer/Scripts/YTDLVideoPlayer.cs:374-378 | different qualities give different option strings |
| VideoPlayer.ValidVideoUrl | Runtime/AssetStorePackages/Evereal/YoutubeDLPlayer/Scripts/YTDLVideoPlayer.cs:382-390 | a URL without "www.youtube.com" is returned unchanged; one with it is cut before its first '&' (whole when there is none), so the result holds no '&'; the result is always a prefix of the input |
| VideoPlayer.ValidVideoUrlIdempotent | Runtime/AssetStorePackages/Evereal/YoutubeDLPlayer/Scripts/YTDLVideoPlayer.cs:382-390 | cleaning a cleaned URL changes nothing |
| VideoPlayer.ValidParsedVideoUrl | Runtime/AssetStorePackages/Evereal/YoutubeDLPlayer/Scripts/YTDLVideoPlayer.cs:392-401 | a null URL stays null; a non-Vimeo media keeps its URL; the result is never longer; it differs from the input exactly when the media is from Vimeo and the URL contains "source=1" |
| VideoPlayer.VimeoUrlLength | Runtime/AssetStorePackages/Evereal/YoutubeDLPlayer/Scripts/YTDLVideoPlayer.cs:396-399 | for Vimeo, each deleted "source=1" shortens the URL by eight characters |
| VideoPlayer.VimeoDeletes | Runtime/AssetStorePackages/Evereal/YoutubeDLPlayer/Scripts/YTDLVideoPlayer.cs:394-399 | for Vimeo, a non-empty URL goes through one `Replace("source=1", "")` pass |
| VideoPlayer.VimeoOnePass | Runtime/AssetStorePackages/Evereal/YoutubeDLPlayer/Scripts/YTDLVideoPlayer.cs:398-398 | the deletion is one pass: "sosource=1urce=1" becomes "source=1", which still contains the pattern |
| VideoPlayer.SosourcePass | Runtime/AssetStorePackages/Evereal/YoutubeDLPlayer/Scripts/YTDLVideoPlayer.cs:398-398 | the `Replace` pass over "sosource=1urce=1" gives "source=1" |
| Strings.SplitFirst | Runtime/AssetStorePackages/Evereal/YoutubeDLPlayer/Scripts/YTDLVideoPlayer.cs:386-387 | the first piece of `Split('&')` is the text before the first '&' |
| Strings.JoinSplit | Runtime/AssetStorePackages/Evereal/YoutubeDLPlayer/Scripts/YTDLVideoPlayer.cs:386-386 | joining the pieces of `Split` with the separator gives back the string |
| Strings.SplitJoin | Runtime/AssetStorePackages/Evereal/YoutubeDLPlayer/Scripts/YTDLVideoPlayer.cs:386-386 | splitting a join of separator-free pieces gives back the pieces |
| Strings.Split | Runtime/AssetStorePackages/Evereal/YoutubeDLPlayer/Scripts/YTDLVideoPlayer.cs:386-386 | there is always at least one piece, and no piece contains the separator |
| Strings.IndexOf | Runtime/AssetStorePackages/Evereal/YoutubeDLPlayer/Scripts/YTDLVideoPlayer.cs:386-387 | the first index of the character, or the length when it does not occur; it does not occur before that index |
| Strings.StartsWith | Runtime/AssetStorePackages/Evereal/YoutubeDLPlayer/Scripts/Internal/Base/YTDLPlayerBase.cs:94-94 | ordinal `StartsWith`: the prefix is no longer than the string and equals its first characters |
| Strings.Contains | Runtime/AssetStorePackages/Evereal/YoutubeDLPlayer/Scripts/YTDLVideoPlayer.cs:384-384 | ordinal `Contains`: the pattern occurs at some index, found by a scan from the front |
| Strings.ContainsHasIndex | Runtime/AssetStorePackages/Evereal/YoutubeDLPlayer/Scripts/YTDLVideoPlayer.cs:384-384 | when `Contains` holds, the text occurs at some index |
| Strings.IndexHasContains | Runtime/AssetStorePackages/Evereal/YoutubeDLPlayer/Scripts/YTDLVideoPlayer.cs:384-384 | an occurrence at any index makes `Contains` hold |
| Strings.ShortNotContains | Runtime/AssetStorePackages/Evereal/YoutubeDLPlayer/Scripts/YTDLVideoPlayer.cs:384-384 | a string shorter than the pattern does not contain it |
| Strings.Replace | Runtime/AssetStorePackages/Evereal/YoutubeDLPlayer/Scripts/YTDLVideoPlayer.cs:398-398 | one left-to-right pass of `Replace`: at each index where the pattern occurs the replacement is emitted and the scan resumes after the occurrence; other characters are copied |
| Strings.ReplaceAbsent | Runtime/AssetStorePackages/Evereal/YoutubeDLPlayer/Scripts/YTDLVideoPlayer.cs:398-398 | with no occurrence, `Replace` returns the string unchanged |
| Strings.ReplaceLength | Runtime/AssetStorePackages/Evereal/YoutubeDLPlayer/Scripts/YTDLVideoPlayer.cs:398-398 | each replacement changes the length by the difference of the two lengths |
| Strings.ReplacementsIff | Runtime/AssetStorePackages/Evereal/YoutubeDLPlayer/Scripts/YTDLVideoPlayer.cs:398-398 | something is replaced exactly when the pattern occurs |
| Strings.ReplaceSkipsTwo | Runtime/AssetStorePackages/Evereal/YoutubeDLPlayer/Scripts/YTDLVideoPlayer.cs:398-398 | two leading characters that start no occurrence are kept, the occurrence after them is deleted, and a shorter tail is kept |
| Strings.ReplaceKeepsFirst | Runtime/AssetStorePackages/Evereal/YoutubeDLPlayer/Scripts/YTDLVideoPlayer.cs:398-398 | a first character that starts no occurrence is kept and the pass goes on after it |
| Strings.ReplaceAtMatch | Runtime/AssetStorePackages/Evereal/YoutubeDLPlayer/Scripts/YTDLVideoPlayer.cs:398-398 | an occurrence at the front is deleted and the pass goes on after it, without rescanning the replacement |
| Strings.Decimal | Runtime/AssetStorePackages/Evereal/YoutubeDLPlayer/Scripts/Internal/Utils.cs:15-24 | the decimal text of a number is non-empty, all digits, without a leading zero, and one digit long exactly below 10 |
| Strings.ParseDecimalOfDecimal | Runtime/AssetStorePackages/Evereal/YoutubeDLPlayer/Scripts/Internal/Utils.cs:15-24 | reading back the decimal text gives the number |
| Strings.DecimalInjective | Runtime/AssetStorePackages/Evereal/YoutubeDLPlayer/Scripts/Internal/Utils.cs:15-24 | distinct numbers have distinct decimal texts |
| Utils.TimeSpan.Hours | Runtime/AssetStorePackages/Evereal/YoutubeDLPlayer/Scripts/Internal/Utils.cs:13-16 | the `Hours` component: whole hours modulo a day, so whole days are dropped |
| Utils.TimeSpan.Minutes | Runtime/AssetStorePackages/Evereal/YoutubeDLPlayer/Scripts/Internal/Utils.cs:17-23 | the `Minutes` component: whole minutes modulo an hour |
| Utils.TimeSpan.Seconds | Runtime/AssetStorePackages/Evereal/YoutubeDLPlayer/Scripts/Internal/Utils.cs:18-24 | the `Seconds` component: whole seconds modulo a minute |
| Utils.FromSeconds | Runtime/AssetStorePackages/Evereal/YoutubeDLPlayer/Scripts/Internal/Utils.cs:11-11 | `TimeSpan.FromSeconds` succeeds exactly up to the largest whole number of seconds a `TimeSpan` holds, and keeps the seconds |
| Utils.D2 | Runtime/AssetStorePackages/Evereal/YoutubeDLPlayer/Scripts/Internal/Utils.cs:15-24 | `{0:D2}` of a number below 100 is two digits that read back as the number; from 10 up it is the plain decimal text |
| Utils.GetFormatTimeStringFromSeconds | Runtime/AssetStorePackages/Evereal/YoutubeDLPlayer/Scripts/Internal/Utils.cs:9-27 | there is a text exactly when `TimeSpan.FromSeconds` does not overflow; it is 5 characters long ("MM:SS") exactly when the hours component is zero, and 8 ("HH:MM:SS") otherwise |
| Utils.FormatTimeRoundTrip | Runtime/AssetStorePackages/Evereal/YoutubeDLPlayer/Scripts/Internal/Utils.cs:13-26 | the text reads back as exactly the time span's hours, minutes and seconds, with no hours field when the hours are zero |
| Utils.ComponentsOfTime | Runtime/AssetStorePackages/Evereal/YoutubeDLPlayer/Scripts/Internal/Utils.cs:11-24 | the hours lie in 0..23, the minutes and seconds in 0..59, and 3600·H + 60·M + S is the seconds modulo a day |
| Utils.FormatTimeWithinDay | Runtime/AssetStorePackages/Evereal/YoutubeDLPlayer/Scripts/Internal/Utils.cs:11-26 | below a day the text reads back as exactly the seconds (60·MM + SS below an hour, 3600·HH + 60·MM + SS from an hour on), and it is "MM:SS" exactly below an hour |
| Utils.WholeDayShowsZero | Runtime/AssetStorePackages/Evereal/YoutubeDLPlayer/Scripts/Internal/Utils.cs:11-13 | whole days are not shown: 86400 seconds give "00:00" |
| UI.Utf16Char | Runtime/AssetStorePackages/Evereal/YoutubeDLPlayer/Scripts/UI/VideoTitle.cs:19-21 | a character inside the Basic Multilingual Plane is one code unit equal to it; one outside is two, a high surrogate followed by a low surrogate |
| UI.Utf16Append | Runtime/AssetStorePackages/Evereal/YoutubeDLPlayer/Scripts/UI/VideoTitle.cs:19-21 | the code units of a concatenation are the concatenation of the code units |
| UI.Utf16Length | Runtime/AssetStorePackages/Evereal/YoutubeDLPlayer/Scripts/UI/VideoTitle.cs:19-19 | `Length` counts one unit per character and one more per character outside the plane |
| UI.TruncateTitle | Runtime/AssetStorePackages/Evereal/YoutubeDLPlayer/Scripts/UI/VideoTitle.cs:19-22 | a title of at most 30 code units is unchanged; a longer one becomes its first 30 code units followed by the three units of "...", 33 in all; the result is never longer than 33, and its first min(length, 30) code units are the title's |
| UI.TruncateTitleIdempotent | Runtime/AssetStorePackages/Evereal/YoutubeDLPlayer/Scripts/UI/VideoTitle.cs:19-22 | truncating a shown title again changes nothing |
| UI.TruncateTitleSharedPrefix | Runtime/AssetStorePackages/Evereal/YoutubeDLPlayer/Scripts/UI/VideoTitle.cs:19-22 | two long titles are shown the same exactly when their first 30 code units agree |
| UI.TruncateTitleBmp | Runtime/AssetStorePackages/Evereal/YoutubeDLPlayer/Scripts/UI/VideoTitle.cs:19-22 | for a title whose characters all lie inside the plane, cutting code units is cutting characters: more than 30 characters are cut to 30 followed by "..." |
| UI.TruncateTitleAstral | Runtime/AssetStorePackages/Evereal/YoutubeDLPlayer/Scripts/UI/VideoTitle.cs:19-22 | a title of more than 15 characters outside the plane (emoji, say) keeps only its first 15, followed by "..." |
| UI.AstralCut | Runtime/AssetStorePackages/Evereal/YoutubeDLPlayer/Scripts/UI/VideoTitle.cs:21-21 | in such a title, the first k characters are exactly the first 2·k code units |
| UI.TruncateTitleSplitsPair | Runtime/AssetStorePackages/Evereal/YoutubeDLPlayer/Scripts/UI/VideoTitle.cs:21-21 | one character inside the plane followed by at least 15 outside it is cut between the two halves of a surrogate pair: the 30th unit shown is an unpaired high surrogate |
| UI.TextMesh.constructor | Runtime/AssetStorePackages/Evereal/YoutubeDLPlayer/Scripts/UI/VideoTitle.cs:9-9 | a text component starts with empty text |
| UI.VideoTitle.constructor | Runtime/AssetStorePackages/Evereal/YoutubeDLPlayer/Scripts/UI/VideoTitle.cs:12-15 | the title holds the text component it was given, possibly none, and no warnings |
| UI.VideoTitle.SetText | Runtime/AssetStorePackages/Evereal/YoutubeDLPlayer/Scripts/UI/VideoTitle.cs:17-31 | with a text component, its text becomes the truncated title, counted and cut in code units, and nothing is logged; without one, nothing is shown and exactly the warning "[VideoTitle] TextMesh not attached!" is logged |

## Left out

- Parsing itself is not modelled. `YTDLParser.cs`, `Command.cs` and `YTDLUtils.cs` run youtube-dl as a process on worker threads and make web requests. The model takes the parse result, a `MediaInfo`, as a value.
- `YTDLAudioPlayer.cs`, `VideoPlayerCtrl.cs`, the demo, editor and controller scripts, and the event classes are not modelled. They download media, play it, or wire components together through the engine.
- A nearest-height initial index, an audio fallback and a bounds-checked format switch are not modelled, because no such operations exist in the modelled files. `formatIndex` and `SwitchVideoFormat` are referenced in `VideoPlayerCtrl.cs` (lines 262-264) but defined nowhere in the source.
- The rest of `YTDLVideoPlayer.cs` is not modelled: playback, the engine `VideoPlayer` and its events, `OnParseCompleted` and the lifecycle methods. For the same reason, only the player's format list and quality are modelled.
- Inheritance is flattened. `YTDLVideoPlayer` derives from `YTDLPlayerBase` in the source; here they are two classes, and the video player holds its own `mediaInfo`.
- GetVideoUrlParseOptions: reads the `videoQuality` field in the source; here it is a function of the quality, passed as a parameter.
- YTDLPlayerBase.AddVideoFormat: in the source the two insertion loops are written inline in `ExtractSupportedMediaFormats`. Here they are a separate method that the loop calls, with the same branches.
- Utils.GetFormatTimeStringFromSeconds: takes a `double` in the source. The model takes whole, non-negative seconds, so fractions, negative values and NaN are not modelled. For whole seconds, the overflow exception of `TimeSpan.FromSeconds` becomes `None`.
- UI.VideoTitle.SetText: a null `text` would throw in the source; the model's text is never null. The engine log is modelled as the `warnings` field, with the message already formatted from "[VideoTitle] {0}".
- VideoPlayer.ValidVideoUrl: a null URL would throw in the source; the model's URL is never null.
- `StartsWith("avc")` is culture-sensitive in .NET; the model compares ordinally.
- Only the title is modelled as UTF-16 code units. The URLs, codecs, option strings and clock text are sequences of characters; every pattern the code looks for in them ("www.youtube.com", '&', "source=1", "avc", digits and ':') is ASCII, and for those one character is one code unit.
- Null `mediaInfo` or `formats` are not modelled; both are values in the model.
- `height` is an unbounded integer. The code only compares heights and never does arithmetic on them, so the 32-bit width does not matter.
- The option constants are written as concatenations of short pieces. They have the same text as `Constants.cs` (lines 26 and 30).
- `DEFAULT_YTDL_AUDIO_PARSE_OPTIONS` and the other constants are not modelled, because no modelled operation uses them.
- Two behaviours of the code that a tidy reading would miss:
  - The audio list can contain a format whose `vcodec` is not "none", because the audio branch does not check it (`AudioIgnoresVideoCodec`).
  - A muxed format does not always keep its height: a later H.264 video-only format of the same height replaces it (`SameHeightReplacement`).
