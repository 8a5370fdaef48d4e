# spo-cli: a verified model of its algorithms

spo-cli is a terminal client for Spotify. This project models the parts of it that compute something:
the colour quantiser that draws a palette from a cover image, the playback clock and the scrolling
lyrics it drives, the encoders and the token lifecycle of the PKCE login, the two in-place painters
(rounded image corners and the progress gauge), and the version comparison. `dafny verify dfyconfig.toml`
checks everything.

## How it is modelled

Code that updates state in the program is a class or a method with loops here, and each such method is
proved equal to, or described by, a specification that does not mention its loops. The results about
whole runs are lemmas over those specifications.

| files | what they hold |
|---|---|
| `Colors`, `Sampling`, `Seeding`, `Lloyd`, `Palette` | the quantiser: samples, k-means++ seeds, Lloyd's loop, the palette object |
| `SeedingTheory`, `LloydTheory`, `LloydTermination` | what the seeding and the loop achieve, and why the loop needs no pass limit |
| `Playback`, `Lyrics`, `Durations` | the clock as a state machine, the lyric scroller over it |
| `Text`, `PercentEncoding`, `FormBody`, `Base64Url` | byte strings and the encoders of the login |
| `TokenLifecycle` | load, login, refresh, timer |
| `RoundedCorners`, `Gauge` | the in-place painters |
| `Version` | reading and comparing versions |

Conventions. A `float` is an exact `real`; a number that the source's random generator returns is an
input, as an index below the sample count or as a fraction in [0, 1] of the running total. The square
root is any function with non-negative results whose squares give back the argument. Rounding to a
channel is to the nearest integer, halves up. Times are nanoseconds. A thrown exception is a `None` or a
flag. `hide` statements keep definitions out of proofs that do not need them.

## What holds, and what does not

- Lloyd's loop never raises the sum of squared distances, and stops on its own: a pass that moves a
  sample improves the pair (cost, sum of indices), so while passes move samples no assignment comes back
  (`LloydTermination.NoAssignmentRecurs`), and there are only k^n of them.
- With positive draws the seeds are distinct exactly when the samples have at least k colours. A zero
  draw takes sample 0 whatever its weight, so it can repeat a centre (`SeedingTheory.DrawnIsNewIff`); it
  does for the samples black and any other colour (`SeedingTheory.ZeroDrawRepeats`).
- `max_samples` is not a maximum: the count stays within it only when there are few enough pixels or it
  divides their number (`Sampling.CountBounds`); a 300 x 300 cover gives 2094 samples, not 2048
  (`Sampling.CoverExceedsMaximum`).
- The alpha of a corner pixel, meant to fade, is always 0. What stays of the image is exactly the rounded
  rectangle.
- The form bodies read back for all byte strings. The login query puts the client id in unencoded, and
  reads back exactly for ids without `&`, `+` and percent triplets (`FormBody.AuthQueryReadsIff`); it
  never does for the id `a&b` (`FormBody.AmpersandMisreads`).
- After a login through the browser the member `cache` stays empty, because line 244 of
  `spotifyAuthPKCE.cpp` declares a local of that name; the timer's first read then throws
  (`TokenLifecycle.TimerSafeIff`, and `FirstLoginLeavesNoCache` for a first start). Runs from a loaded
  cache are safe.
- Saving truncates the acquire time toward zero, which for a time before the epoch moves the reloaded
  expiry forward (`TokenLifecycle.ReloadNeverLateIff`); a token acquired one nanosecond before it is
  accepted at its real expiry (`TokenLifecycle.ReloadCanBeLate`).
- A gauge whose fill ends left of column 0 and inside a cell is filled by exactly one cell too many
  (`Gauge.FilledCount`). A vertical gauge reads no glyph outside its charset exactly for the boxes of
  `Gauge.RowsDrawableIff`; all boxes at non-negative rows are among them. Positions -2 and -1 at progress
  0.25 fail both (`Gauge.NegativeBoxFails`); rows -1 to 2 at progress 0.5 are drawn correctly
  (`Gauge.NegativeBoxMayBeDrawn`).
- `isLatest` answers whether the remote version is at least the local one, the opposite of its name
  (`Version.NameHoldsIff`): remote 2 against local 1 is called latest (`Version.NameFails`). `.0` can be
  appended exactly to a non-empty version that does not end in a dot (`Version.AppendDotZeroIff`): `1.`
  can be read and `1..0` cannot (`Version.OneDotFails`).

## Model

| member | source | states |
|---|---|---|
| Colors.Dist2 | src/ui/colorPicker.cppm:7-12 | the distance is zero for equal colours and positive for others |
| Colors.DistOfChannels | src/ui/colorPicker.cppm:7-12 | it is the sum of the squares of what the three channels differ by |
| Colors.NearestIsLeast | src/ui/colorPicker.cppm:94-102 | the centre found is nearest, and strictly nearer than every centre of lower index |
| Colors.NearestDistIsLeast | src/ui/colorPicker.cppm:73-78 | the tracked distance is the least to any centre, is attained, and is zero exactly for a point that is a centre |
| Sampling.CountBounds | src/ui/colorPicker.cppm:21-25 | all pixels up to the maximum; beyond it at least the maximum and at most 2 * maximum - 1; within it exactly when the maximum divides the total |
| Sampling.ReservedBounds | src/ui/colorPicker.cppm:23 | the reserved size is the ceiling of total / step |
| Sampling.SampleInBounds | src/ui/colorPicker.cppm:25-31 | every pixel read lies inside the buffer |
| Sampling.CoverExceedsMaximum | src/ui/theme.cppm:22 | a 300 x 300 cover with maximum 2048 gives 2094 samples |
| Sampling.CollectSamples | src/ui/colorPicker.cppm:14-34 | the samples are the pixels 0, step, 2 * step, ... up to the end, each with its three bytes in order, the step being total / maximum; none for a null or empty buffer |
| Sampling.SamplesAreRead | src/ui/colorPicker.cppm:25-31 | sample j holds the three bytes from j * step * channels on, and the samples reach to the end of the buffer |
| Seeding.SelectionIsUnique | src/ui/colorPicker.cppm:63-69 | the intervals of the draw are disjoint: at most one index is selected by a draw |
| Seeding.PickIndex | src/ui/colorPicker.cppm:60-69 | for every draw in range an index is found; for a positive one it is the index whose prefix-sum interval holds it, for zero it is 0 |
| Seeding.Refresh | src/ui/colorPicker.cppm:73-78 | after a new centre every distance is again the least to all centres so far |
| Seeding.NextCenter | src/ui/colorPicker.cppm:52-71 | the next centre is the sample the weighted draw selects, or sample 0 when all weights are zero |
| Seeding.InitKMeansPP | src/ui/colorPicker.cppm:36-81 | k centres, the first as drawn, each later one drawn by squared distance to the earlier ones; none for no samples or k = 0; a throw for negative k |
| SeedingTheory.SeedsAreSamples | src/ui/colorPicker.cppm:45-71 | every centre is one of the samples |
| SeedingTheory.DrawnMeans | src/ui/colorPicker.cppm:51-71 | a drawn centre is the sample at which the running sum of nearest squared distances first reaches the draw, or sample 0 when nothing is left to draw |
| SeedingTheory.TotalZeroIff | src/ui/colorPicker.cppm:52-57 | the total weight is zero exactly when every sample is already a centre |
| SeedingTheory.DrawnIsNewIff | src/ui/colorPicker.cppm:51-71 | the drawn centre differs from all earlier ones exactly when weight is left and the draw is positive or sample 0 is no centre yet |
| SeedingTheory.TotalFallsIff | src/ui/colorPicker.cppm:73-78 | the total never rises with a new centre, and falls exactly when its colour is new |
| SeedingTheory.SeedingStepFalls | src/ui/colorPicker.cppm:51-79 | in any seeding, a step with weight left and a positive draw brings a new colour and a strictly smaller total |
| SeedingTheory.SeedsDistinctIff | src/ui/colorPicker.cppm:36-81 | with positive draws the k centres are pairwise distinct exactly when the samples have at least k colours |
| Lloyd.FindNearest | src/ui/colorPicker.cppm:94-102 | the scan finds the lowest-index nearest centre |
| Lloyd.AssignNearest | src/ui/colorPicker.cppm:91-107 | every sample goes to its lowest-index nearest centre; the flag is set exactly when some sample moved |
| Lloyd.Accumulate | src/ui/colorPicker.cppm:111-119 | per-cluster channel sums and sizes |
| Lloyd.CountIsMembers | src/ui/colorPicker.cppm:112-118 | the count kept for a cluster is the number of samples assigned to it |
| Lloyd.MoveToMeans | src/ui/colorPicker.cppm:111-126 | non-empty clusters' centres move to their means; a cluster without samples keeps its centre; the counts are the numbers of samples assigned |
| Lloyd.Pass | src/ui/colorPicker.cppm:91-126 | one pass, which stops exactly when it is not the first and moves no sample, then leaving centres and counts alone; otherwise clusters without samples keep their centres and the counts are the numbers of samples |
| Lloyd.Cluster | src/ui/colorPicker.cppm:83-129 | the loop performs exactly the specified passes and returns how many samples each cluster of the final assignment has, zeros when no pass runs |
| LloydTheory.MeanIsBest | src/ui/colorPicker.cppm:120-126 | any centre costs a cluster exactly size times its squared distance to the mean more than the mean does |
| LloydTheory.RecenterDescends | src/ui/colorPicker.cppm:120-126 | re-centring never raises the sum of squared distances |
| LloydTheory.ReassignDescends | src/ui/colorPicker.cppm:93-107 | reassignment never raises it either, and where it keeps it no index goes up |
| LloydTheory.PassDescends | src/ui/colorPicker.cppm:90-127 | a full pass never raises the sum of squared distances |
| LloydTheory.RunDescends | src/ui/colorPicker.cppm:90-127 | no number of passes ever raises it |
| LloydTheory.NeverWorseThanSeeds | src/ui/colorPicker.cppm:90-127 | for a limit of at least one pass the final cost is at most the total of nearest distances the seeding ended with |
| LloydTheory.ResultIsCentered | src/ui/colorPicker.cppm:108-128 | after any run non-empty clusters' centres are exactly their means; when it left by the break, every sample also sits with its lowest-index nearest centre |
| LloydTermination.MovingPassImproves | src/ui/colorPicker.cppm:90-127 | from the second pass on, a pass that moves a sample strictly lowers the re-centred cost, or keeps it and strictly lowers the sum of indices |
| LloydTermination.CenteredCost | src/ui/colorPicker.cppm:120-126 | the cost after re-centring depends on the assignment alone, wherever empty clusters' centres are |
| LloydTermination.AtMostPow | src/ui/colorPicker.cppm:85-88 | there are at most k^n assignments |
| LloydTermination.StopsUnaided | src/ui/colorPicker.cppm:90-109 | allowed more than k^n passes the loop always leaves by its break |
| LloydTermination.NoAssignmentRecurs | src/ui/colorPicker.cppm:90-127 | while every pass from i on moves a sample, each later assignment is better than assignment i and differs from it |
| LloydTermination.RunGoesThroughPasses | src/ui/colorPicker.cppm:90-127 | the loop goes through exactly these passes, until the first that moves nothing or the limit |
| LloydTermination.PassMeans | src/ui/colorPicker.cppm:90-127 | in every pass each sample goes to its nearest centre, the centre of a cluster with samples moves to their mean, and a cluster without samples keeps its centre |
| LloydTermination.LimitIsImmaterial | src/ui/colorPicker.cppm:90-109 | all limits above k^n give one and the same outcome |
| Palette.ClusteringInBox | src/ui/colorPicker.cppm:111-126 | in a palette's clustering no centre leaves any box that holds the samples |
| Palette.RunStaysInBox | src/ui/colorPicker.cppm:90-127 | the same for any number of passes from any seeds in the box |
| Palette.SizesAddUp | src/ui/colorPicker.cppm:112-119 | cluster sizes add up to the number of samples |
| Palette.Round | src/ui/colorPicker.cppm:182-184 | rounding is to a nearest integer, halves up |
| Palette.TruncatedIsExact | src/ui/colorPicker.cppm:155-162 | casting a sample back gives the bytes that were read |
| Palette.SortBySize | src/ui/colorPicker.cppm:171-175 | a permutation of the clusters in non-increasing size |
| Palette.RangeOfRanking | src/ui/colorPicker.cppm:171-175 | the order leaves no cluster out |
| Palette.ShownLargestFirst | src/ui/colorPicker.cppm:171-187 | the clusters shown are exactly those with samples, each once, and none before one with more samples |
| Palette.WriteEntries | src/ui/colorPicker.cppm:177-187 | exactly the non-empty clusters in order, each colour's red, green and blue within half a unit of its own centre's and alpha 255; entries past the count untouched |
| Palette.CopySamples | src/ui/colorPicker.cppm:154-164 | few samples are copied in order and counted |
| Palette.CastIsExact | src/ui/colorPicker.cppm:155-162 | cutting off the fraction of a channel that was read as a byte gives that byte |
| Palette.ClusterInto | src/ui/colorPicker.cppm:167-187 | the palette shows the clustering of the drawn seeds after at most 20 passes: each colour a centre rounded channel by channel and opaque, clusters with more samples first; its count is the number of non-empty clusters, at least 1 and at most k |
| Palette.ColorPalette.constructor | src/ui/colorPicker.cppm:131-140 | sixteen opaque black entries and count 0 |
| Palette.GenerateKMeansPalette | src/ui/colorPicker.cppm:142-188 | end to end: no write outside the sixteen colours, count 0 for unusable input, the very bytes of the sampled pixels when there are at most k, else the rounded opaque centres, larger clusters first |
| Durations.TruncDivMonotone | src/client/spotifyData.cpp:14-17 | a duration cast keeps the order of durations |
| Playback.SpotifyData.PlaybackProgress | src/client/spotifyData.cpp:6-36 | a playing track's progress plus the whole milliseconds since the update, capped at the duration; a paused track's own progress; the counter goes to zero below the end and up with each query enqueued beyond it, two at most |
| Playback.CallMeans | src/client/spotifyData.cpp:14-35 | d whole milliseconds and a rest after the update, the report is progress + d capped at the duration, and which of the cases a call falls into |
| Playback.EarlyCallMeans | src/client/spotifyData.cpp:14-35 | the same for a clock that stands before the update: progress - d, cut toward zero |
| Playback.SpotifyData.UpdatePlaybackLastUpdatedTime | src/client/spotifyData.cpp:38-40 | only the update time changes |
| Playback.SpotifyData.WriteCurrentTrack | src/client/spotifyWebAPI.cpp:348 | only the snapshot changes |
| Playback.CounterMeaning | src/client/spotifyData.cpp:26-34 | over any run the counter is the number of calls beyond the end since the last call below it, capped at two |
| Playback.EnqueuesIff | src/client/spotifyData.cpp:26-34 | a call enqueues a query exactly when it is one of the first two beyond the end since a call below it |
| Playback.QueriesBounded | src/client/spotifyData.cpp:6-36 | over any run of snapshots and calls at most 2 * (1 + calls below the end) queries are enqueued, and the counter stays in 0..2 |
| Playback.ReportsAscend | src/client/spotifyData.cpp:14-35 | with one playing snapshot and an ascending clock the reports never fall and never pass the duration |
| Lyrics.SortByTime | lib/librespot-cpp/src/librespot.rs:140 | a rearrangement of the lines, ascending by time, lines of equal time in their original order |
| Lyrics.FromRaw | lib/librespot-cpp/src/librespot.rs:129-142 | every raw line once with its own time and words, ascending by time, equal times in the order they came |
| Lyrics.StableSortUnique | lib/librespot-cpp/src/librespot.rs:140 | stability leaves one possible result, so the algorithm behind the sort does not matter |
| Lyrics.FindCurrent | src/ui/ui.cpp:418-427 | the early-exit scan finds the last line not later than progress + 300, or line 0 |
| Lyrics.CurrentAscends | src/ui/ui.cpp:418-427 | the current line never moves back when progress does not |
| Lyrics.Window | src/ui/ui.cpp:429-431 | exactly min(3, n) lines, in bounds, holding the current line, which is in the middle unless it is first or last or n < 3 |
| Lyrics.RenderCurlyrics | src/ui/ui.cpp:408-449 | the rows are the window's lines with the current one highlighted; no lyrics, no rows and no clock call |
| Lyrics.ScrollNeverMovesBack | src/ui/ui.cpp:418-431 | over a run of renders of one playing snapshot neither the highlighted line nor the window's start moves back |
| PercentEncoding.UriEncode | src/client/spotifyAuthPKCE.cpp:73-86 | the loop encodes byte by byte |
| PercentEncoding.DecodeEncode | src/client/spotifyAuthPKCE.cpp:73-86 | percent-decoding (RFC 3986 section 2.1) undoes the encoder on every byte string |
| PercentEncoding.EncodedIff | src/client/spotifyAuthPKCE.cpp:79-83 | the encoder's outputs are exactly the strings of unreserved characters and upper-case triplets of other bytes |
| PercentEncoding.EncodeFixesIff | src/client/spotifyAuthPKCE.cpp:79-80 | a string is left alone exactly when all its characters are unreserved (RFC 3986 section 2.3) |
| PercentEncoding.UnreservedAre | src/client/spotifyAuthPKCE.cpp:79 | the characters left alone are the letters, the digits and `-._~` |
| PercentEncoding.HexDigitsAre | src/client/spotifyAuthPKCE.cpp:76-82 | triplets use the digits 0-9 and A-F |
| FormBody.TokenBodyReads | src/client/spotifyAuthPKCE.cpp:230-234 | the token request's body parses back to client_id, grant_type, code, redirect_uri and code_verifier with their values, in this order, for all byte strings |
| FormBody.RefreshBodyReads | src/client/spotifyAuthPKCE.cpp:372-375 | the refresh request's body parses back to grant_type, refresh_token and client_id with their values, in this order, for all byte strings |
| FormBody.AuthQueryReadsIff | src/client/spotifyAuthPKCE.cpp:212-219 | the login query parses back to its six named fields in order exactly when the unencoded client id has no `&`, no `+` and no percent triplet |
| FormBody.LoginReadsIff | src/client/spotifyAuthPKCE.cpp:177-219 | the same for the query a login builds from its scopes and the challenge of any 32-byte digest |
| FormBody.ScopesToString | src/client/spotifyAuthPKCE.cpp:88-97 | the scopes joined with single spaces |
| FormBody.ScopesReadIff | src/client/spotifyAuthPKCE.cpp:88-97 | the scope list can be read off the string exactly when no scope holds a space |
| Base64Url.SwapEncodeBlock | src/client/spotifyAuthPKCE.cpp:48-56 | swapping the two characters turns RFC 4648 section 4 output into section 5 output followed by its padding |
| Base64Url.Base64Encode | src/client/spotifyAuthPKCE.cpp:45-60 | encode, swap and strip give exactly the unpadded section 5 encoding |
| Base64Url.DecodesIff | src/client/spotifyAuthPKCE.cpp:45-60 | the strict decoder gives bytes back exactly from their encoding |
| Base64Url.AlphabetsAre | src/client/spotifyAuthPKCE.cpp:48-56 | the alphabets of RFC 4648 sections 4 and 5, alike but for the last two characters |
| Base64Url.EncodedAt | src/client/spotifyAuthPKCE.cpp:45-60 | each group of four characters stands for the 24 bits of its three bytes, six bits each from the top, missing bytes counting as zero |
| Base64Url.ChallengeIsPlain | src/client/spotifyAuthPKCE.cpp:178-179 | a 32-byte digest gives 43 unreserved characters, which the URI encoder leaves alone |
| TokenLifecycle.SaveLoad | src/client/spotifyAuthPKCE.cpp:299-343 | loading and saving again changes nothing |
| TokenLifecycle.LoadSave | src/client/spotifyAuthPKCE.cpp:299-343 | a reload keeps the tokens and moves a post-epoch acquire time back by less than a second, none for whole seconds |
| TokenLifecycle.ReloadNeverLateIff | src/client/spotifyAuthPKCE.cpp:185-188 | a reloaded token is never accepted past its real expiry exactly when it was acquired after the epoch or on a whole second |
| TokenLifecycle.SpotifyAuthPKCE.RefreshAccessToken | src/client/spotifyAuthPKCE.cpp:280-297 | a failed attempt changes nothing; a successful one sets the three fields, the cache and a writable file to the answer and its time, keeping the old refresh token if none came |
| TokenLifecycle.SpotifyAuthPKCE.Login | src/client/spotifyAuthPKCE.cpp:176-259 | an accepted file sets the three fields; an expired one is refreshed, and if that fails only its refresh token is taken over; without a file the fields and a writable file get the browser's answer, the cache stays empty |
| TokenLifecycle.SpotifyAuthPKCE.StartRefreshTimer | src/client/spotifyAuthPKCE.cpp:261-278 | it throws exactly when it starts without a cache; otherwise every setting, the one whose wait is cancelled included, is acquire time plus lifetime of the newest cache |
| TokenLifecycle.SuccessAgrees | src/client/spotifyAuthPKCE.cpp:282-294 | after a success the fields agree with the cache, and the file too if it can be written |
| TokenLifecycle.RefreshesKeepNewest | src/client/spotifyAuthPKCE.cpp:280-297 | any attempts, failed or not, keep the newest success in the cache and the newest refresh token |
| TokenLifecycle.LoadedRun | src/client/spotifyAuthPKCE.cpp:184-297 | over every run from a loaded cache: never an empty cache, the newest refresh token, fields and file in agreement |
| TokenLifecycle.TimerSafeIff | src/client/spotifyAuthPKCE.cpp:244-265 | after a successful login the timer's first read finds a cache exactly when the login loaded one |
| TokenLifecycle.RestartAfterFreshLogin | src/client/spotifyAuthPKCE.cpp:184-259 | a browser login leaves no cache but a file from which a restart is safe and never late |
| RoundedCorners.CornerAlphaIsZero | src/ui/kittyImage.cppm:369-391 | the alpha computed for a corner pixel is always 0, for any size and radius |
| RoundedCorners.CornerDistanceIff | src/ui/kittyImage.cppm:352-367 | for any size and radius, a corner pixel is one less than r from a vertical and from a horizontal edge and farther than r from the point at distance r from both |
| RoundedCorners.AddRoundedCorners | src/ui/kittyImage.cppm:338-350 | alpha 0 on exactly the corner pixels, every other byte unchanged, all accesses in bounds |
| RoundedCorners.RoundedPixel | src/ui/kittyImage.cppm:338-350 | of the pixel at column x and row y the fourth byte becomes 0 if it is a corner pixel; its other bytes stay |
| RoundedCorners.RoundedIdempotent | src/ui/kittyImage.cppm:338-350 | a second pass changes nothing |
| RoundedCorners.RowConvex | src/ui/kittyImage.cppm:352-367 | between two pixels of a row that stay every pixel stays, for any size and radius |
| RoundedCorners.RowInterval | src/ui/kittyImage.cppm:352-367 | in every row the untouched pixels are one interval, spanning [r, w - r] when the radius fits twice |
| RoundedCorners.RoundedRectangleIff | src/ui/kittyImage.cppm:352-367 | the pixels that stay are exactly those within r of the inner rectangle |
| Gauge.ProgressGauge.constructor | src/ui/progressGuage.cppm:41-55 | any progress is clamped to [0, 1] |
| Gauge.FillEndInBox | src/ui/progressGuage.cppm:111-114 | the filled part never leaves the box |
| Gauge.FillEndMonotone | src/ui/progressGuage.cppm:111-114 | more progress never fills less |
| Gauge.FilledCount | src/ui/progressGuage.cppm:112-114 | floor(progress * width) cells are filled, and one more exactly when the end lies left of position 0 inside a cell |
| Gauge.FilledTo | src/ui/progressGuage.cppm:112-114 | from a start at or past position 0 the fill ends after floor(progress * width) cells |
| Gauge.PartialIndexInCharset | src/ui/progressGuage.cppm:155-166 | the partial glyph's index lies inside the charset, below the full glyph's when there is more than one glyph |
| Gauge.PartialIndexIs | src/ui/progressGuage.cppm:155-166 | from row 0 on the partial glyph is number floor(full * what the fill leaves over past its last whole cell) |
| Gauge.PartialIndexIff | src/ui/progressGuage.cppm:155-166 | for any rows and progress, the index lies in the charset exactly when the end is not above row 0, or on a cell boundary, or leaves less than a glyph's worth of its cell unfilled |
| Gauge.RowsDrawableIff | src/ui/progressGuage.cppm:155-170 | drawing reads no glyph outside the charset exactly for those rows, empty ones, and fills that end past the last row |
| Gauge.ProgressGauge.PaintRow | src/ui/progressGuage.cppm:116-132 | a row is full glyphs in the fill colour and bold up to the end, then empty glyphs in the empty colour and not bold; each cell painted once and none outside |
| Gauge.ProgressGauge.PaintColumn | src/ui/progressGuage.cppm:160-171 | a column is full glyphs, one partial glyph and empty ones, each cell painted once and none outside |
| Gauge.ProgressGauge.Invert | src/ui/progressGuage.cppm:177-183 | the inverted flag of exactly the box's cells is toggled |
| Gauge.ProgressGauge.InvertTwice | src/ui/progressGuage.cppm:177-183 | inverting twice is the identity |
| Gauge.ProgressGauge.RenderHorizontal | src/ui/progressGuage.cppm:95-137 | every cell of the box left of the end shows the last glyph, the fill colour and bold, every other the first glyph, the empty colour and not bold; inverted is toggled or kept; nothing outside changes; the end is floor(progress * width) columns into a box at non-negative columns |
| Gauge.ProgressGauge.RenderVertical | src/ui/progressGuage.cppm:139-175 | the same by rows with a partial glyph at the end, colours and bold unchanged, for every box whose drawing reads no glyph outside the charset |
| Gauge.ProgressGauge.Render | src/ui/progressGuage.cppm:78-93 | for each direction, what every cell of the screen shows and where the fill ends; inverted exactly for leftward and downward gauges |
| Version.LexLessIff | src/utils/version.cppm:76 | the vector order means: smaller at the first difference |
| Version.AtLeastMeans | src/utils/version.cppm:72-76 | the padded comparison means: not older, component by component, missing components being zero |
| Version.AtLeastTotal | src/utils/version.cppm:72-76 | the comparison is total, and goes both ways exactly for versions alike up to trailing zeros |
| Version.AtLeastTransitive | src/utils/version.cppm:72-76 | it is transitive, whatever the three lengths |
| Version.TrailingZero | src/utils/version.cppm:72-76 | a trailing zero component changes no comparison |
| Version.SplitVersion | src/utils/version.cppm:59-67 | the segments between dots, converted in order; fails where a segment does not convert |
| Version.StoIReads | src/utils/version.cppm:64 | a segment is leading space, a sign, digits and an ignored rest; it converts exactly when it has digits and fits 32 bits, to their signed value |
| Version.DigitsValueIs | src/utils/version.cppm:64 | digits are read in base ten |
| Version.IsLatest | src/utils/version.cppm:52-77 | false without both versions, a failure when one cannot be read, else whether the remote one is at least the local one |
| Version.NameHoldsIff | src/utils/version.cppm:52-76 | the answer is what the name promises exactly for alike versions |
| Version.ParseJoined | src/utils/version.cppm:59-67 | numbers joined with dots read back as they are |
| Version.AppendDotZeroIff | src/utils/version.cppm:59-76 | appending `.0` adds a zero component exactly to a non-empty version that does not end in a dot |

## Left out

- IEEE rounding of the colour and gauge arithmetic: exact reals are used, so results about ties and strict descent are about the mathematical algorithm.
- Machine integer overflow, apart from the channel bytes of the palette and the range check of the version numbers.
- A null palette: the source writes through the pointer before it tests it, so the model has no null palette.
- `std::sort` itself: its contract is a sorted permutation, met here by an insertion sort; ties may come in another order.
- Seeding.InitKMeansPP: a generator that returns the total itself is allowed too, one more value than the source's half-open range.
- A NaN progress, which the gauge's constructor turns into 0.
- Gauge.ProgressGauge.RenderVertical: says nothing of the boxes for which the source reads a glyph outside the charset, which has no defined result; Gauge.RowsDrawableIff says which they are.
- The terminal library's screen: a grid whose writes outside are lost; it is not part of this repository.
- Parsing of a lyric line's start time, and of server answers and the cache file: they arrive as numbers and records, and malformed ones throw in the source.
- TokenLifecycle.SpotifyAuthPKCE.StartRefreshTimer: models runs that end in a cancelled wait, after any number of refreshes; how long a wait lasts is an input.
- SHA-256 and the random code verifier: any 32 bytes, any string.
- The fragment part of a URL: a `#` in the client id would end the login query before this model's reader sees it.
- HTTP, TLS, the browser and the callback socket; JSON, SQLite and TOML; MPRIS; queues, locks and coroutine scheduling; audio, image decoding and terminal escapes; layout and key handling.
- `format_duration`, `parse_port_from_url`, `extract_code`, process statistics and the config watcher: short and without a property that spans them.
