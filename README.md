# Playlist colour wheel: a Dafny model

The system shows a Spotify playlist as a colour wheel. The Go server logs the user in
and keeps the session in a bbolt table. It collects every page of a playlist's tracks
and keeps one track per album. It works out each album cover's average colour and most
common colour. The React front end places each album cover on an HSV wheel: the hue
gives the angle and the saturation gives the distance from the centre. It then pushes
overlapping covers apart and animates the covers towards their new places. Once the
animation is over, a click on a cover selects its track.

This project models that core in Dafny and proves what each piece promises:

- `first_wins.dfy` (`FirstWins`): the "keep the first entry of each key" rule. Both the
  album map of the wheel and the album filter of the server use it.
- `hsv.dfy` (`HsvConversion`): `rgbToHsv` with JavaScript's `Math.round` and `%`.
- `color_wheel_layout.dfy` (`ColorWheelLayout`): the wheel's album de-duplication and the
  initial polar placement.
- `relaxation.dfy` (`Relaxation`): `checkOverlap` and the in-place relaxation loop on the
  `positionInfo` array, proved against a pass-by-pass specification.
- `animation.dfy` (`Animation`): the eased interpolation and the frame loop.
- `selection.dfy` (`Selection`): the recorded positions, the `isAnimating` flag, the click
  listener and the hit test, as a class.
- `hex_color.dfy` (`ColorHex`): `Color.ToHex` and `HexToColor`, the `#rrggbb` notation.
- `image_colors.dfy` (`ImageColors`): `ComputeAverageColor` (its average, its colour
  histogram and its choice of the most common colour, `MostCommonColor`), `absDiff`, `isGrayscale` and
  `FindSmallestImage`.
- `spotify.dfy` (`PlaylistAssembly`): the pagination loop of `GetPlaylistTracks` and its
  unique-album filter.
- `storage.dfy` (`SessionStorage`): the session table as a class over a map, with
  store, lookup (including expiry and refresh), update, delete and cleanup.
- `handlers.dfy` (`RequestRouting`): the checks the HTTP handlers make before any work:
  preflight, method, `session_id`, the playlist id taken from the path, `checkEnv`, and the
  single-page-app fallback.
- `wrappers.dfy` (`Wrappers`): `Option` and `Result`.

JavaScript numbers are exact reals, plus NaN where a division by zero can produce one.
`Math.sqrt`, `Math.cos` and `Math.sin` are parameters. Lemmas that need the square root
state what they assume of it (`IsRoot`). Time is a parameter: integer seconds on the
server, frame timestamps in milliseconds on the client.

`Relaxation.FlaggedWithoutMoving` shows one consequence of the thresholds.
`checkOverlap` flags a pair closer than 2·√2·size. The push only moves a pair closer
than √2·size. A pair whose distance lies between the two is flagged but not moved. While
such a pair remains, every pass reports an overlap, so the loop can only stop at the cap of
50 passes.

## Model

| member | source | states |
|---|---|---|
| FirstWins.Seen | frontend/src/components/TracksColorWheel.js:57-70 | a key is in the map exactly when some entry carries it |
| FirstWins.Firsts | frontend/src/components/TracksColorWheel.js:57-73 | the kept positions are valid indices in strictly increasing (insertion) order |
| FirstWins.FirstsAreExactlyFirstOccurrences | frontend/src/components/TracksColorWheel.js:67-69 | an index is kept if and only if it carries a key that no earlier entry carried |
| FirstWins.KeptKeysDistinct | server/spotify.go:203-206 | no two kept entries share a key |
| FirstWins.KeptKeysCoverInput | server/spotify.go:198-207 | every key of the input is carried by a kept entry, and no other key is |
| FirstWins.KeptCountIsKeyCount | server/spotify.go:208 | the number of kept entries equals the number of distinct keys |
| HsvConversion.JsRound | frontend/src/components/TracksColorWheel.js:31 | `Math.round` gives the integer within half a unit, halves rounding up |
| HsvConversion.Trunc | frontend/src/components/TracksColorWheel.js:23 | the quotient behind JavaScript `%` truncates towards zero on either sign |
| HsvConversion.JsRoundMonotone | frontend/src/components/TracksColorWheel.js:31-35 | rounding preserves order |
| HsvConversion.JsRoundOfInteger | frontend/src/components/TracksColorWheel.js:31 | rounding leaves an integer unchanged |
| HsvConversion.JsRemSmall | frontend/src/components/TracksColorWheel.js:23 | `% 6` leaves a sector quotient in [-1, 1] unchanged |
| HsvConversion.RgbToHsv | frontend/src/components/TracksColorWheel.js:11-38 | no contract of its own; HueInRange, SaturationValueInRange, Achromatic, Black and Fixtures state its results |
| HsvConversion.HueInRange | frontend/src/components/TracksColorWheel.js:20-32 | the hue is an integer number of degrees in [0, 360) for any channels |
| HsvConversion.SaturationValueInRange | frontend/src/components/TracksColorWheel.js:34-35 | for 8-bit channels, saturation and value are integer percentages in [0, 100] |
| HsvConversion.Achromatic | frontend/src/components/TracksColorWheel.js:20-34 | equal channels give hue 0 and saturation 0 |
| HsvConversion.Black | frontend/src/components/TracksColorWheel.js:34-35 | black is (0, 0, 0), the `max === 0` branch |
| HsvConversion.Fixtures | frontend/src/components/TracksColorWheel.js:11-38 | the primaries, cyan, white and mid-grey map to their textbook HSV values |
| ColorWheelLayout.AlbumKey | frontend/src/components/TracksColorWheel.js:60-64 | an item has an album key exactly when it has a track, a colour and an album image |
| ColorWheelLayout.AlbumKeys | frontend/src/components/TracksColorWheel.js:59-64 | one key per item, in item order |
| ColorWheelLayout.UniqueTracks | frontend/src/components/TracksColorWheel.js:57-73 | the map loop keeps exactly the first-occurrence items, each one drawable |
| ColorWheelLayout.KeptItemsDrawable | frontend/src/components/TracksColorWheel.js:59-73 | every kept index is an index of `tracks` whose item is drawable |
| ColorWheelLayout.AlbumDedupFirstOfAlbum | frontend/src/components/TracksColorWheel.js:59-70 | only drawable items are kept, each the first drawable item of its album in `tracks` order |
| ColorWheelLayout.AlbumDedupDistinctInOrder | frontend/src/components/TracksColorWheel.js:67-73 | kept items are listed in first-seen order and no two share an album |
| ColorWheelLayout.AlbumDedupCoversAlbums | frontend/src/components/TracksColorWheel.js:59-73 | every drawable item's album is represented by a kept item |
| ColorWheelLayout.CoveredAlbum | frontend/src/components/TracksColorWheel.js:64-69 | the album of any one drawable item is carried by some kept item |
| ColorWheelLayout.MaxRadius | frontend/src/components/TracksColorWheel.js:50 | the wheel radius is non-negative |
| ColorWheelLayout.InitialPlacements | frontend/src/components/TracksColorWheel.js:76-106 | one placement per kept item in the same order, at its original position, with size 30 |
| ColorWheelLayout.PolarPlacement | frontend/src/components/TracksColorWheel.js:83-105 | no contract of its own; PolarWithinWheel bounds its angle and distance, and RedAndBluePlacements gives concrete placements |
| ColorWheelLayout.InitialPlacement | frontend/src/components/TracksColorWheel.js:76-106 | no contract of its own; PlacementWithinWheel places it within the wheel, and InitialPlacements lists one per kept item |
| ColorWheelLayout.PolarWithinWheel | frontend/src/components/TracksColorWheel.js:83-84 | a hue in [0, 360) and a saturation in [0, 100] give an angle in [0, 2π) and a distance within [0, maxRadius] |
| ColorWheelLayout.PlacementWithinWheel | frontend/src/components/TracksColorWheel.js:83-84 | for an 8-bit colour the distance is within [0, maxRadius] and the angle within [0, 2π) |
| ColorWheelLayout.TwoAlbumScenario | frontend/src/components/TracksColorWheel.js:59-106 | with a red and a green track of one album and a blue track of another, the red and the blue track are kept, and the wheel gets exactly two covers: album A at hue 0 (angle 0) and album B at hue 240, both on the rim |
| ColorWheelLayout.RedAndBluePlacements | frontend/src/components/TracksColorWheel.js:76-106 | a kept red item and a kept blue item are placed at hues 0 and 240, at the full radius |
| Relaxation.Overlaps | frontend/src/components/TracksColorWheel.js:109-113 | no contract of its own (`checkOverlap`); FlaggedWithoutMoving and ClearPassIsIdentity state its role in a pass, and RelaxPass reports it as `hasOverlap` |
| Relaxation.TooClose | frontend/src/components/TracksColorWheel.js:249-254 | no contract of its own (`distance < minDistance`); TooCloseBySquares states it as a test on squared distances |
| Relaxation.TooCloseBySquares | frontend/src/components/TracksColorWheel.js:249-254 | with the true square root, `distance < minDistance` holds exactly when the squared distance is below 2·size² |
| Relaxation.Push | frontend/src/components/TracksColorWheel.js:244-271 | a push changes only the x and y of the two covers |
| Relaxation.Separate | frontend/src/components/TracksColorWheel.js:256-271 | the moves change only the x and y of the two covers |
| Relaxation.PushSharesDeficit | frontend/src/components/TracksColorWheel.js:244-271 | the two covers move apart along the line between their centres, and the offset between them grows by exactly `moveDistance` |
| Relaxation.SeparateStretches | frontend/src/components/TracksColorWheel.js:256-271 | the offset between the covers is stretched by (distance + moveDistance) / distance |
| Relaxation.MovesApart | frontend/src/components/TracksColorWheel.js:264-271 | in each coordinate, the two size-weighted moves add up to `moveDistance` along the direction |
| Relaxation.PushHalvesDeficit | frontend/src/components/TracksColorWheel.js:244-271 | with the true square root, a pushed pair ends at the midpoint of its old distance and `minDistance`; a too-close pair ends strictly farther apart and still closer than `minDistance` |
| Relaxation.StretchedLength | frontend/src/components/TracksColorWheel.js:249-271 | stretching an offset of length d by (d + m) / d gives length d + m |
| Relaxation.Step | frontend/src/components/TracksColorWheel.js:238-273 | visiting pair (i, j) changes only covers i and j, and only their positions |
| Relaxation.FlaggedWithoutMoving | frontend/src/components/TracksColorWheel.js:109-113 | a pair at squared distance in [2·size², 8·size²) is flagged but left where it is |
| Relaxation.RowUpTo | frontend/src/components/TracksColorWheel.js:237-274 | a partial row keeps the length and everything but positions |
| Relaxation.Row | frontend/src/components/TracksColorWheel.js:237-274 | a row keeps the length and everything but positions |
| Relaxation.PassUpTo | frontend/src/components/TracksColorWheel.js:236-275 | a partial pass keeps the length and everything but positions |
| Relaxation.Pass | frontend/src/components/TracksColorWheel.js:236-275 | a pass keeps the length and everything but positions |
| Relaxation.Iterate | frontend/src/components/TracksColorWheel.js:233-278 | any number of passes keeps the number, order and sizes of the covers |
| Relaxation.RowUpToClear | frontend/src/components/TracksColorWheel.js:241 | with no flagged pair, a partial row moves nothing |
| Relaxation.PassUpToClear | frontend/src/components/TracksColorWheel.js:236-241 | with no flagged pair, a partial pass moves nothing |
| Relaxation.ClearPassIsIdentity | frontend/src/components/TracksColorWheel.js:233-241 | a pass over covers with no flagged pair moves nothing |
| Relaxation.RelaxRow | frontend/src/components/TracksColorWheel.js:237-274 | the inner loop leaves the array as the row specification says; it reports a flagged pair exactly when there is one, and a row with none leaves the array unchanged |
| Relaxation.RelaxPass | frontend/src/components/TracksColorWheel.js:234-275 | the two loops leave the array as one pass says, and `hasOverlap` is true iff some pair was flagged at the start |
| Relaxation.ResolveOverlaps | frontend/src/components/TracksColorWheel.js:203-278 | 1 to 50 passes run and the array is the result of that many passes; every pass but the last flagged a pair; stopping before 50 means the last pass flagged nothing and moved nothing |
| Animation.Progress | frontend/src/components/TracksColorWheel.js:137-138 | progress never exceeds 1, reaches 1 exactly once the duration has elapsed, and is non-negative for non-negative elapsed time |
| Animation.Ease | frontend/src/components/TracksColorWheel.js:141 | no contract of its own (the cubic ease-out); EaseEndpoints and EaseMonotone state its values |
| Animation.EaseEndpoints | frontend/src/components/TracksColorWheel.js:141 | the ease maps 0 to 0 and 1 to 1 |
| Animation.EaseMonotone | frontend/src/components/TracksColorWheel.js:141 | on [0, 1] the ease is nondecreasing and stays within [0, 1] |
| Animation.Interpolate | frontend/src/components/TracksColorWheel.js:150-151 | the coordinate is NaN exactly when an end is NaN |
| Animation.InterpolateEndpoints | frontend/src/components/TracksColorWheel.js:150-151 | at ease 0 the start is drawn, at ease 1 the end |
| Animation.InterpolateBetween | frontend/src/components/TracksColorWheel.js:150-151 | for an ease in [0, 1] the coordinate lies between start and end |
| Animation.FrameAt | frontend/src/components/TracksColorWheel.js:147-162 | one interpolated point per cover, in order |
| Animation.FrameEndpoints | frontend/src/components/TracksColorWheel.js:147-151 | the frame at ease 0 is the start positions, at ease 1 the end positions |
| Animation.FirstFrame | frontend/src/components/TracksColorWheel.js:136-151 | the frame drawn at the start time is the start positions |
| Animation.FinalFrame | frontend/src/components/TracksColorWheel.js:137-151 | once the duration has elapsed, the frame drawn is the end positions |
| Animation.Animate | frontend/src/components/TracksColorWheel.js:133-175 | one frame per timestamp at that timestamp's eased progress; a new frame is requested only while progress is below 1; when the loop stops, the duration has elapsed and the last frame shows the end positions |
| Selection.AssignedKeys | frontend/src/components/TracksColorWheel.js:290-292 | exactly the items that some placement draws get a position |
| Selection.AssignedPositionsOfDistinctTracks | frontend/src/components/TracksColorWheel.js:290-292 | with one placement per item, each item gets its own placement's position |
| Selection.AssignedFromIndices | frontend/src/components/TracksColorWheel.js:290-292 | placements drawing distinct listed items give positions to exactly those items, each its own placement's |
| Selection.Points | frontend/src/components/TracksColorWheel.js:209-212 | the `{x, y}` points handed to the animation, one per placement in order |
| Selection.RelaxationAnimated | frontend/src/components/TracksColorWheel.js:209-287 | `startPositions` are the placements before the passes and `endPositions` the same covers after them: both numeric at the start, the first frame is the start positions and, once the duration has elapsed and no pass left a NaN, the frame is the relaxed positions |
| Selection.ColorWheelAnimated | frontend/src/components/TracksColorWheel.js:57-287 | from de-duplication on: the animation runs over one point per kept item, from the initial placements to the same covers after the relaxation passes |
| Selection.OnlyRepresentativesPositioned | frontend/src/components/TracksColorWheel.js:57-292 | after de-duplication, placement and any number of relaxation passes, exactly the kept representatives of the albums get a position, each the final position of its own cover |
| Selection.Hits | frontend/src/components/TracksColorWheel.js:314-316 | no contract of its own (the click hit test); HitBySquares states it on squares, and FindClickedTrack uses it |
| Selection.HitBySquares | frontend/src/components/TracksColorWheel.js:314-316 | with the true square root, a hit is a squared distance of at most (size/2)² |
| Selection.FindClickedTrack | frontend/src/components/TracksColorWheel.js:310-321 | the result is the first item with a position hit by the click, or none when no item is hit |
| Selection.ColorWheelView.constructor | frontend/src/components/TracksColorWheel.js:199 | the view starts animating, with no listener registered |
| Selection.ColorWheelView.StorePositions | frontend/src/components/TracksColorWheel.js:289-292 | every placed item's position is recorded, and nothing else changes |
| Selection.ColorWheelView.AnimationElapsed | frontend/src/components/TracksColorWheel.js:295-298 | after the timer the view is no longer animating and the listener is registered |
| Selection.ColorWheelView.Cleanup | frontend/src/components/TracksColorWheel.js:328-331 | the listener is removed and the flag is set back |
| Selection.ColorWheelView.Click | frontend/src/components/TracksColorWheel.js:302-322 | a click with no listener, or during the animation, selects nothing; otherwise the first item hit is selected and its details are shown, and with no hit the selection is unchanged |
| ColorHex.HexDigit | server/images.go:22 | a digit of `%x` is a lower-case hexadecimal digit |
| ColorHex.HexDigits | server/images.go:22 | `%x` prints at least one lower-case digit, and a single digit exactly below 16 |
| ColorHex.Fmt02x | server/images.go:22 | `%02x` is at least two characters wide |
| ColorHex.ToHex | server/images.go:21-23 | no contract of its own (`Color.ToHex`); ToHexShape states its shape and HexRoundTrip that HexToColor inverts it |
| ColorHex.HexValue | server/images.go:31-33 | a digit of either case has a value in [0, 16) |
| ColorHex.ScanHexByte | server/images.go:32 | a `%02x` conversion reads one or two characters |
| ColorHex.ScanRgb | server/images.go:32-39 | the scanned channels are always 8-bit |
| ColorHex.HexToColor | server/images.go:26-40 | the colour has 8-bit channels, and any input but seven bytes gives black (for ASCII input, where characters are bytes) |
| ColorHex.HexValueOfDigit | server/images.go:21-33 | reading a printed digit gives its value back |
| ColorHex.Fmt02xOfByte | server/images.go:22 | an 8-bit value prints as exactly two digits, high digit first |
| ColorHex.ToHexShape | server/images.go:21-23 | an 8-bit colour prints as `#` followed by six lower-case hex digits |
| ColorHex.ScanPrintedByte | server/images.go:32 | two printed digits scan back to their byte |
| ColorHex.HexRoundTrip | server/images.go:21-40 | `HexToColor(ToHex(c)) == c` for every 8-bit colour |
| ColorHex.HexToColorExamples | server/images.go:26-40 | upper case decodes; a non-digit stops the scan and leaves the rest zero; a short string gives black |
| ImageColors.MinValue | server/images.go:85-95 | the least channel value over the pixels, attained by one of them |
| ImageColors.MaxValue | server/images.go:85-95 | the greatest channel value over the pixels, attained by one of them |
| ImageColors.SumBounds | server/images.go:88-91 | a channel total lies between count·lo and count·hi |
| ImageColors.AverageBetween | server/images.go:97-101 | the truncated average of a channel lies between its least and greatest value |
| ImageColors.Quantize | server/images.go:93 | the quantised channel is the multiple of 8 at or just below the value |
| ImageColors.TotalRemove | server/images.go:94 | the total of a histogram is one count plus the total of the rest |
| ImageColors.TotalUpdate | server/images.go:94 | overwriting a count changes the total by the difference |
| ImageColors.HistogramCounts | server/images.go:93-94 | the counts add up to the number of pixels, no count is zero, and every pixel's bucket is a key |
| ImageColors.AbsDiff | server/images.go:127-132 | no contract of its own (`absDiff`); AbsDiffIsDistance states that it is a distance |
| ImageColors.IsGrayscale | server/images.go:134-143 | no contract of its own (`isGrayscale`); GrayscaleBySpread states it as max − min < 40 |
| ImageColors.Histogram | server/images.go:83-94 | no contract of its own (`colorCounts`); HistogramCounts, TotalRemove and TotalUpdate state its counts |
| ImageColors.AbsDiffIsDistance | server/images.go:127-132 | `absDiff` is symmetric, non-negative, and zero exactly on equal arguments |
| ImageColors.GrayscaleBySpread | server/images.go:134-143 | a colour is grey exactly when its channels spread over less than 40 |
| ImageColors.MostCommonColor | server/images.go:103-124 | in any iteration order, the result is the most common non-grey bucket when that count exceeds 20, else the most common grey bucket, else black |
| ImageColors.ComputeAverageColor | server/images.go:77-125 | the average is each channel's truncated mean, lying between the channel's minimum and maximum; the common colour follows the common-colour rule on the histogram of all pixels |
| ImageColors.Area | server/images.go:161-168 | no contract of its own (`Width * Height`); FindSmallestImage states the search over it |
| ImageColors.FindSmallestImage | server/images.go:146-177 | none for no images; the only image for one; otherwise the earliest image of least positive area, or the first image when its area is negative or no area is positive |
| PlaylistAssembly.TracksUrl | server/spotify.go:131 | the first URL is under the API base |
| PlaylistAssembly.ErrorOf | server/spotify.go:136-169 | a non-200 status gives a status error and nothing else does; a page failure is never an item error |
| PlaylistAssembly.FirstStop | server/spotify.go:134-190 | the index of the first answer after which the loop stops; every answer before it delivers a page with a next link |
| PlaylistAssembly.Pages | server/spotify.go:166-169 | the pages are the decoded bodies of the delivered answers, in order |
| PlaylistAssembly.ElementsOf | server/spotify.go:177-181 | an `items` value that is not an array counts as one element |
| PlaylistAssembly.AllItems | server/spotify.go:176-184 | no contract of its own (`allTracks.Items`); AllItemsAppend and CollectPages state its contents |
| PlaylistAssembly.CombinedTotal | server/spotify.go:172-174 | no contract of its own (`allTracks.Total`); CombinedTotalIsFirstNonZero states its value |
| PlaylistAssembly.AllItemsAppend | server/spotify.go:184 | items are concatenated in page order |
| PlaylistAssembly.CombinedTotalIsFirstNonZero | server/spotify.go:172-174 | the combined total is that of the first page with a non-zero total, or zero when there is none |
| PlaylistAssembly.CollectPages | server/spotify.go:130-190 | it requests the tracks URL and then each next link; it fails with the first undelivered answer's error, and otherwise returns all elements in page order with the first non-zero total |
| PlaylistAssembly.Tracks | server/spotify.go:198-202 | the decoded tracks, one per element, in order |
| PlaylistAssembly.AlbumIds | server/spotify.go:203 | each track's key is its album id |
| PlaylistAssembly.Pick | server/spotify.go:204 | the tracks at the given indices, in index order |
| PlaylistAssembly.AlbumsSeenIsSeen | server/spotify.go:197-206 | `albumSet` holds exactly the album ids of the input |
| PlaylistAssembly.UniqueByAlbum | server/spotify.go:197-207 | no contract of its own (the `albumSet` filter); UniqueByAlbumIsFirstWins, UniqueAlbumsDistinct, UniqueAlbumsFirstInOrder and UniqueAlbumsCoverInput state what it keeps |
| PlaylistAssembly.UniqueByAlbumIsFirstWins | server/spotify.go:203-206 | the filter keeps exactly the first track of each album |
| PlaylistAssembly.UniqueAlbums | server/spotify.go:196-208 | it fails exactly when some element does not decode; otherwise it returns the filtered tracks, and `len(albumSet)` is their number |
| PlaylistAssembly.UniqueAlbumsDistinct | server/spotify.go:203-206 | no two kept tracks share an album |
| PlaylistAssembly.UniqueAlbumsFirstInOrder | server/spotify.go:198-206 | each kept track is the first of its album, and input order is kept |
| PlaylistAssembly.UniqueAlbumsCoverInput | server/spotify.go:198-206 | every album of the input has a kept track |
| PlaylistAssembly.AlbumCountIsKeptCount | server/spotify.go:208 | the size of `albumSet` equals the number of kept tracks |
| PlaylistAssembly.PlaylistTracks | server/spotify.go:119-208 | a page failure is the call's failure; otherwise the call fails iff an element is undecodable, and returns the first track of each album |
| SessionStorage.NewSession | server/storage.go:62-74 | the session carries its id and token, and has already expired iff `ExpiresIn` is negative |
| SessionStorage.WithNewToken | server/storage.go:152-159 | the new token replaces the old one except for an empty refresh token, which keeps the old refresh token; expiry is `ExpiresIn` from now; the id is kept |
| SessionStorage.IsExpired | server/storage.go:111 | no contract of its own (`time.Now().After(session.ExpiresAt)`); StoreThenLookup and LookupFailures state its effect on a lookup |
| SessionStorage.ExpiredIds | server/storage.go:186-204 | no contract of its own (`expiredSessionIDs`); CleanupRemovesExactlyExpired states which entries it names |
| SessionStorage.LookupOutcome | server/storage.go:94-133 | no contract of its own (what `GetSession` returns); StoreThenLookup and LookupFailures state its outcomes, and SessionStore.GetSession returns it |
| SessionStorage.StoreThenLookup | server/storage.go:62-133 | a stored session is found unchanged by any lookup up to its expiry |
| SessionStorage.LookupFailures | server/storage.go:94-133 | a lookup fails exactly for a missing or undecodable entry, or an expired one with no refresh token or a failed refresh; a found session is the stored, unexpired one |
| SessionStorage.RefreshTokenKept | server/storage.go:153-155 | after an update the refresh token is empty only when the old and the new ones were both empty |
| SessionStorage.CleanupRemovesExactlyExpired | server/storage.go:183-216 | with each session under its own id, cleanup removes exactly the expired decodable sessions and leaves every other entry unchanged |
| SessionStorage.SessionStore.constructor | server/storage.go:17-49 | the `sessions` bucket is the one found in `sessions.db`: the sessions an earlier run stored, empty on the first run |
| SessionStorage.SessionStore.StoreSession | server/storage.go:62-91 | the new session is written under its id; nothing else changes |
| SessionStorage.SessionStore.UpdateSession | server/storage.go:137-172 | a missing or undecodable entry is an error and changes nothing; otherwise the session is rewritten with the new token and expiry |
| SessionStorage.SessionStore.DeleteSession | server/storage.go:175-180 | exactly that key is removed |
| SessionStorage.SessionStore.GetSession | server/storage.go:94-134 | the outcome is the lookup's outcome; a found session or an error changes nothing, an expiry deletes the session, and a successful refresh rewrites it before the repeated lookup |
| SessionStorage.SessionStore.CleanupExpiredSessions | server/storage.go:183-216 | the bucket loses exactly the ids of the expired decodable sessions |
| RequestRouting.SplitFrom | server/main.go:290 | splitting always gives at least one piece |
| RequestRouting.Split | server/main.go:290 | `strings.Split` always gives at least one piece |
| RequestRouting.SplitProperties | server/main.go:290 | one more piece than separators; no piece contains the separator; joining the pieces gives the path back |
| RequestRouting.SplitWord | server/main.go:290 | a string without the separator is one piece |
| RequestRouting.SessionGate | server/main.go:144-156 | no contract of its own (the checks of `data`, and of `user` at lines 199-211); PreflightAlwaysOk and ProceedCarriesRequestIds state its answers |
| RequestRouting.LogoutGate | server/main.go:241-257 | no contract of its own (the checks of `logout`); PreflightAlwaysOk, LogoutRejectsOtherMethods and ProceedCarriesRequestIds state its answers |
| RequestRouting.PlaylistGate | server/main.go:281-315 | no contract of its own (the checks of `playlistTracks`); PreflightAlwaysOk, PlaylistPathNeedsTwoSlashes, ProceedCarriesRequestIds and PlaylistGateExamples state its answers |
| RequestRouting.PreflightAlwaysOk | server/main.go:145-148 | OPTIONS gets 200 from `data`, `user`, `logout` and `playlistTracks` whatever it carries |
| RequestRouting.LogoutRejectsOtherMethods | server/main.go:241-257 | `logout` answers 405 exactly to methods other than POST and OPTIONS, and goes on exactly for a POST with a session id |
| RequestRouting.ProceedCarriesRequestIds | server/main.go:150-156 | a handler goes on only with the request's own non-empty session id, and `playlistTracks` only with a non-empty third path piece containing no slash |
| RequestRouting.PlaylistPathNeedsTwoSlashes | server/main.go:290-298 | a path with fewer than two slashes is refused with 400 |
| RequestRouting.PlaylistGateExamples | server/main.go:282-315 | `/playlist/abc/x` names `abc`; `/playlist/` is refused first for a missing session id, then for an empty playlist id; `/playlist` is refused for its path |
| RequestRouting.Missing | server/main.go:386-393 | no contract of its own (`missingVars`); MissingAppend, MissingMembers and MissingAllUnset state its contents |
| RequestRouting.MissingAppend | server/main.go:389-393 | the missing list of a concatenation is the concatenation of the missing lists |
| RequestRouting.MissingMembers | server/main.go:389-393 | a variable is listed exactly when it is required and unset or empty |
| RequestRouting.CheckEnv | server/main.go:386-397 | the loop lists the missing variables in their order, and there is an error exactly when one is missing |
| RequestRouting.MissingAllUnset | server/main.go:389-393 | when every variable is unset, all are listed in order |
| RequestRouting.CheckEnvExtremes | server/main.go:386-397 | with all five set nothing is missing; with none set all five are missing, in order |
| RequestRouting.Fallback | server/main.go:438-463 | no contract of its own (the `/` handler); FallbackRule and FallbackExamples state its answers |
| RequestRouting.FallbackRule | server/main.go:438-463 | an existing file is always served; the app is served exactly for a path that names no existing file and no build file; a missing `/static/` file is a 404 |
| RequestRouting.FallbackExamples | server/main.go:453-463 | a missing file under `/static/`, or a missing `.ico` or `.json`, is a 404; a missing `/main.js` and an unknown route get the app; an existing icon is served |

## Left out

- Drawing on the canvas, image preloading, the "Displaying N unique albums" text and the
  track-details dialog: these are rendering with no state the model needs.
- `requestAnimationFrame`, `setTimeout` and `performance.now`: the frame timestamps are a
  parameter of `Animation.Animate`, and the timer's expiry is the `AnimationElapsed` event.
- `Math.sqrt`, `Math.cos`, `Math.sin` and floating-point rounding: numbers are exact reals,
  and the three functions are parameters. `checkOverlap`'s bound (2·√2·size)² is taken as
  exactly 8·size².
- Relaxation.Push: the new distance is proved only where the square root is assumed to be
  exact (`PushHalvesDeficit`); with `Math.sqrt` uninterpreted, `PushSharesDeficit` states
  the move along the line between the centres. The distance `Push` takes the root of is
  the squared distance of `checkOverlap`; `dx * dx + dy * dy` with the offset taken the
  other way round is the same number.
- Selection: items are identified by their index in `tracks`, not by object identity.
  `item.position` is a map from index to position held by the view.
- The waiting-for-click promise in `resolveOverlaps`: its `await` is commented out in the
  source.
- ColorHex.HexToColor: strings are sequences of characters, while Go's `hex[1:]` and
  `len(hex) == 6` count bytes. The two agree on ASCII input only: `"#abcdé"` is six
  characters but seven bytes, so Go scans `ab` and `cd` and gives (171, 205, 0) where the
  model gives black, and `"é123456"` is black in Go but (0x12, 0x34, 0x56) in the model.
  It also requires at least one character, because `hex[1:]` panics on an
  empty string. Whitespace handling in `Sscanf` is not modelled: the six characters are
  scanned as digits only.
- ColorHex.Fmt02x: `%02x` of a negative `int` is modelled as `-` followed by the digits;
  only 8-bit channels matter to the round trip.
- ImageColors.ComputeAverageColor: requires at least one pixel, because the Go integer
  division by a zero count panics. Decoding the image, and RGBA premultiplication before
  `>> 8`, are left out: pixels are given as 8-bit channels.
- ImageColors.MostCommonColor: ties between equally common buckets are left undecided,
  because Go's map iteration order is unspecified.
- `ProcessImage`, `HandoffItemsForImageProcessing` and server/cache.go: the HTTP download
  of covers, the worker pool and the cache are not part of this model.
- PlaylistAssembly.CollectPages: requires an answer after which the loop stops. With
  endless `next` links the Go loop never ends. The HTTP exchange, the bearer header, body
  reading and JSON decoding are replaced by the sequence of answers, each decoded or marked
  undecodable. The JSON encoding of the final response is left out.
- SessionStorage.SessionStore.GetSession: the recursive lookup after a successful refresh
  is returned as the outcome `LookUpAgain` for the caller to repeat.
  `RefreshAccessToken` (OAuth over HTTP) is a parameter: the refreshed token, or none when
  the refresh fails.
- SessionStorage: bbolt transactions, disk I/O and marshalling errors are left out; an
  entry either decodes or does not. `GenerateSessionID`'s randomness is replaced by the id
  being a parameter. Time is integer seconds instead of nanoseconds.
- The hourly cleanup goroutine and `http.ListenAndServe`: scheduling and serving are not
  modelled; `CleanupExpiredSessions` is modelled as one call.
- Handler bodies after the session lookup (the calls to Spotify, the OAuth login and
  callback, CORS headers): they are network I/O. Only the checks before them are modelled.
- RequestRouting.CheckEnv: loading the `.env` file is left out; the environment is given
  as a map.
- RequestRouting.Fallback: `os.Stat` and `http.FileServer` are replaced by whether the file
  exists.
- Go `int` overflow in area, count and total computations: integers are unbounded.
