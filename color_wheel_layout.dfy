/**
 * The colour wheel's input records, its per-album de-duplication and its initial polar
 * placement (frontend/src/components/TracksColorWheel.js, the effect body before
 * `resolveOverlaps`). Positions are JavaScript numbers: exact reals, or NaN once a
 * division by zero has produced one. cos and sin are parameters, left uninterpreted.
 */
module ColorWheelLayout {
  import opened Wrappers
  import opened FirstWins
  import opened HsvConversion

  /** The `commonColor` the server attaches to a track: `{R, G, B}`. */
  datatype Rgb = Rgb(r: int, g: int, b: int)

  datatype Track = Track(id: string, albumId: string, albumImageUrls: seq<string>)

  /** One element of `tracks`; either field may be missing. */
  datatype Item = Item(track: Option<Track>, commonColor: Option<Rgb>)

  /** A JavaScript number as this component can produce it. */
  datatype JsNumber = Finite(val: real) | NaN

  /** One entry of `positionInfo`; `track` is the index in `tracks` of the item it draws. */
  datatype Placement = Placement(
    track: nat,
    originalX: real, originalY: real,
    x: JsNumber, y: JsNumber,
    size: Side,
    angle: real, distance: real,
    hsv: Hsv)

  datatype Canvas = Canvas(width: nat, height: nat)

  /** A cover side: a positive length. */
  type Side = s: real | s > 0.0 witness 30.0

  /** `Math.PI`. */
  const Pi: real := 3.141592653589793
  /** The fixed side of a drawn album cover. */
  const CoverSize: Side := 30.0

  /** Items that `forEach` skips: no track, no colour, or an album without images. */
  predicate Drawable(item: Item)
  {
    item.track.Some? && item.commonColor.Some? && |item.track.value.albumImageUrls| > 0
  }

  /** The album key of an item, `None` for the items the de-duplication skips. */
  function AlbumKey(item: Item): (k: Option<string>)
    ensures k.Some? <==> Drawable(item)
  {
    if Drawable(item) then Some(item.track.value.albumId) else None
  }

  function AlbumKeys(tracks: seq<Item>): (keys: seq<Option<string>>)
    ensures |keys| == |tracks|
    ensures forall i :: 0 <= i < |tracks| ==> keys[i] == AlbumKey(tracks[i])
  {
    seq(|tracks|, i requires 0 <= i < |tracks| => AlbumKey(tracks[i]))
  }

  /**
   * The `albumMap` pass: `tracks.forEach` sets `albumMap[albumId]` only for an album not yet
   * in the map, and `Array.from(albumMap.values())` lists the kept items in insertion order.
   * The JavaScript Map is represented by its key set and its values in insertion order; the
   * values are indices into `tracks`, i.e. the identities of the kept objects.
   */
  method UniqueTracks(tracks: seq<Item>) returns (unique: seq<nat>)
    ensures unique == Firsts(AlbumKeys(tracks))
    ensures forall m :: 0 <= m < |unique| ==> unique[m] < |tracks| && Drawable(tracks[unique[m]])
  {
    ghost var keys := AlbumKeys(tracks);
    var albumIds: set<string> := {};
    unique := [];
    for i := 0 to |tracks|
      invariant unique == Firsts(keys[..i])
      invariant albumIds == Seen(keys[..i])
    {
      FirstsSnoc(keys, i);
      var item := tracks[i];
      if Drawable(item) {
        var albumId := item.track.value.albumId;
        if albumId !in albumIds {
          unique := unique + [i];
          albumIds := albumIds + {albumId};
        }
      }
    }
    assert keys[..|tracks|] == keys;
    FirstsAreExactlyFirstOccurrences(keys);
    forall m | 0 <= m < |unique| ensures unique[m] < |tracks| && Drawable(tracks[unique[m]]) {
      assert unique[m] in unique;
    }
  }

  /**
   * The album map keeps drawable items only, each the first drawable item of its album in
   * `tracks` order.
   */
  lemma {:induction false} AlbumDedupFirstOfAlbum(tracks: seq<Item>)
    ensures var unique := Firsts(AlbumKeys(tracks));
      forall m :: 0 <= m < |unique| ==>
        unique[m] < |tracks| && Drawable(tracks[unique[m]]) &&
        forall j :: 0 <= j < unique[m] && Drawable(tracks[j]) ==>
          tracks[j].track.value.albumId != tracks[unique[m]].track.value.albumId
  {
    var keys := AlbumKeys(tracks);
    var unique := Firsts(keys);
    FirstsAreExactlyFirstOccurrences(keys);
    forall m | 0 <= m < |unique|
      ensures unique[m] < |tracks| && Drawable(tracks[unique[m]])
      ensures forall j :: 0 <= j < unique[m] && Drawable(tracks[j]) ==>
        tracks[j].track.value.albumId != tracks[unique[m]].track.value.albumId
    {
      assert unique[m] in unique;
      assert IsFirst(keys, unique[m]);
    }
  }

  /** Every kept index is an index of `tracks` whose item is drawn. */
  lemma {:induction false} KeptItemsDrawable(tracks: seq<Item>)
    ensures var unique := Firsts(AlbumKeys(tracks));
      forall m :: 0 <= m < |unique| ==> unique[m] < |tracks| && Drawable(tracks[unique[m]])
  {
    var keys := AlbumKeys(tracks);
    var unique := Firsts(keys);
    FirstsAreExactlyFirstOccurrences(keys);
    forall m | 0 <= m < |unique|
      ensures unique[m] < |tracks| && Drawable(tracks[unique[m]])
    {
      assert unique[m] in unique;
    }
  }

  /** The kept items are in first-seen order and no two of them share an album. */
  lemma {:induction false} AlbumDedupDistinctInOrder(tracks: seq<Item>)
    ensures var unique := Firsts(AlbumKeys(tracks));
      forall m, m' :: 0 <= m < m' < |unique| ==>
        unique[m] < unique[m'] &&
        AlbumKey(tracks[unique[m]]) != AlbumKey(tracks[unique[m']])
  {
    KeptKeysDistinct(AlbumKeys(tracks));
  }

  /** Every album of a drawable item is represented by a kept item. */
  lemma {:induction false} AlbumDedupCoversAlbums(tracks: seq<Item>)
    ensures forall i :: 0 <= i < |tracks| && Drawable(tracks[i]) ==>
      exists m :: m in Firsts(AlbumKeys(tracks)) && m < |tracks| && AlbumKey(tracks[m]) == AlbumKey(tracks[i])
  {
    forall i | 0 <= i < |tracks| && Drawable(tracks[i])
      ensures exists m :: m in Firsts(AlbumKeys(tracks)) && m < |tracks| && AlbumKey(tracks[m]) == AlbumKey(tracks[i])
    {
      CoveredAlbum(tracks, i);
    }
  }

  /** The album of one drawable item is carried by a kept item. */
  lemma CoveredAlbum(tracks: seq<Item>, i: nat)
    requires i < |tracks| && Drawable(tracks[i])
    ensures exists m :: m in Firsts(AlbumKeys(tracks)) && m < |tracks| && AlbumKey(tracks[m]) == AlbumKey(tracks[i])
  {
    var keys := AlbumKeys(tracks);
    var unique := Firsts(keys);
    var v := tracks[i].track.value.albumId;
    assert keys[i] == Some(v);
    assert v in Seen(keys);
    KeptKeysCoverInput(keys);
    var k :| 0 <= k < |unique| && keys[unique[k]] == Some(v);
    assert unique[k] in unique;
    assert AlbumKey(tracks[unique[k]]) == keys[unique[k]];
  }

  /** `Math.min(width, height) / 2.5`. */
  function MaxRadius(canvas: Canvas): (r: real)
    ensures 0.0 <= r
  {
    (if canvas.width <= canvas.height then canvas.width else canvas.height) as real / 2.5
  }

  /**
   * The polar placement of a colour on the wheel: the hue in degrees is the angle, the
   * saturation in percent is the share of the maximum radius.
   */
  function PolarPlacement(i: nat, hsv: Hsv, canvas: Canvas, cos: real -> real, sin: real -> real): Placement
  {
    var angle := hsv.h as real * Pi / 180.0;
    var distance := (hsv.s as real / 100.0) * MaxRadius(canvas);
    var x := canvas.width as real / 2.0 + distance * cos(angle);
    var y := canvas.height as real / 2.0 + distance * sin(angle);
    Placement(i, x, y, Finite(x), Finite(y), CoverSize, angle, distance, hsv)
  }

  /** The `positionInfo` record built for the item at index `i` (the body of `uniqueTracks.map`). */
  function InitialPlacement(tracks: seq<Item>, i: nat, canvas: Canvas,
                            cos: real -> real, sin: real -> real): Placement
    requires i < |tracks| && Drawable(tracks[i])
  {
    var c := tracks[i].commonColor.value;
    PolarPlacement(i, RgbToHsv(c.r, c.g, c.b), canvas, cos, sin)
  }

  /**
   * `positionInfo`: one placement per kept item, in the same order, each starting at its
   * original position with the fixed cover size.
   */
  function InitialPlacements(tracks: seq<Item>, unique: seq<nat>, canvas: Canvas,
                             cos: real -> real, sin: real -> real): (ps: seq<Placement>)
    requires forall m :: 0 <= m < |unique| ==> unique[m] < |tracks| && Drawable(tracks[unique[m]])
    ensures |ps| == |unique|
    ensures forall m :: 0 <= m < |ps| ==>
      && ps[m].track == unique[m]
      && ps[m].size == CoverSize
      && ps[m].x == Finite(ps[m].originalX)
      && ps[m].y == Finite(ps[m].originalY)
  {
    seq(|unique|, m requires 0 <= m < |unique| => InitialPlacement(tracks, unique[m], canvas, cos, sin))
  }

  /** A hue in degrees and a saturation in percent place a cover within the wheel. */
  lemma PolarWithinWheel(i: nat, hsv: Hsv, canvas: Canvas, cos: real -> real, sin: real -> real)
    requires 0 <= hsv.h < 360 && 0 <= hsv.s <= 100
    ensures var p := PolarPlacement(i, hsv, canvas, cos, sin);
      0.0 <= p.distance <= MaxRadius(canvas) && 0.0 <= p.angle < 2.0 * Pi
  {
    var f := hsv.s as real / 100.0;
    var rmax := MaxRadius(canvas);
    assert 0.0 <= f <= 1.0;
    assert 0.0 <= f * rmax by {
      if 0.0 < f { ScaleMonotone(f, 0.0, rmax); }
    }
    assert rmax - f * rmax == (1.0 - f) * rmax;
    assert 0.0 <= (1.0 - f) * rmax by {
      if 0.0 < 1.0 - f { ScaleMonotone(1.0 - f, 0.0, rmax); }
    }
  }

  /**
   * For an 8-bit colour the radial distance is the saturation's share of the maximum radius,
   * so the cover lies within the wheel, and the angle is the hue in radians.
   */
  lemma {:induction false} PlacementWithinWheel(tracks: seq<Item>, i: nat, canvas: Canvas,
                                                cos: real -> real, sin: real -> real)
    requires i < |tracks| && Drawable(tracks[i])
    requires var c := tracks[i].commonColor.value; 0 <= c.r <= 255 && 0 <= c.g <= 255 && 0 <= c.b <= 255
    ensures var p := InitialPlacement(tracks, i, canvas, cos, sin);
      0.0 <= p.distance <= MaxRadius(canvas) && 0.0 <= p.angle < 2.0 * Pi
  {
    var c := tracks[i].commonColor.value;
    SaturationValueInRange(c.r, c.g, c.b);
    HueInRange(c.r, c.g, c.b);
    PolarWithinWheel(i, RgbToHsv(c.r, c.g, c.b), canvas, cos, sin);
  }

  /**
   * The three-track scenario: two tracks of album A (red first, then green) and one of
   * album B (blue) keep the red track for album A and the blue one for album B, and the
   * wheel gets exactly two covers: A's at hue 0 (angle 0) and B's at hue 240, both fully
   * saturated and so on the rim.
   */
  lemma {:induction false} TwoAlbumScenario(a: Track, a': Track, b: Track, canvas: Canvas,
                                            cos: real -> real, sin: real -> real)
    requires a.albumId == a'.albumId != b.albumId
    requires |a.albumImageUrls| > 0 && |a'.albumImageUrls| > 0 && |b.albumImageUrls| > 0
    ensures var tracks := [Item(Some(a), Some(Rgb(255, 0, 0))), Item(Some(a'), Some(Rgb(0, 255, 0))),
                           Item(Some(b), Some(Rgb(0, 0, 255)))];
      var unique := Firsts(AlbumKeys(tracks));
      unique == [0, 2] &&
      var ps := InitialPlacements(tracks, unique, canvas, cos, sin);
      && |ps| == 2
      && ps[0].track == 0 && ps[0].hsv.h == 0 && ps[0].angle == 0.0
      && ps[1].track == 2 && ps[1].hsv.h == 240 && ps[1].angle == 240.0 * Pi / 180.0
      && ps[0].distance == MaxRadius(canvas) && ps[1].distance == MaxRadius(canvas)
  {
    var tracks := [Item(Some(a), Some(Rgb(255, 0, 0))), Item(Some(a'), Some(Rgb(0, 255, 0))),
                   Item(Some(b), Some(Rgb(0, 0, 255)))];
    assert AlbumKeys(tracks) == [Some(a.albumId), Some(a.albumId), Some(b.albumId)];
    FirstsOfRepeatThenNew(a.albumId, b.albumId);
    RedAndBluePlacements(tracks, canvas, cos, sin);
  }

  /** A red cover kept first and a blue one kept second are placed at hues 0 and 240 on the rim. */
  lemma RedAndBluePlacements(tracks: seq<Item>, canvas: Canvas, cos: real -> real, sin: real -> real)
    requires |tracks| == 3 && Drawable(tracks[0]) && Drawable(tracks[2])
    requires tracks[0].commonColor == Some(Rgb(255, 0, 0)) && tracks[2].commonColor == Some(Rgb(0, 0, 255))
    ensures var ps := InitialPlacements(tracks, [0, 2], canvas, cos, sin);
      && |ps| == 2
      && ps[0].track == 0 && ps[0].hsv.h == 0 && ps[0].angle == 0.0
      && ps[1].track == 2 && ps[1].hsv.h == 240 && ps[1].angle == 240.0 * Pi / 180.0
      && ps[0].distance == MaxRadius(canvas) && ps[1].distance == MaxRadius(canvas)
  {
    Fixtures();
    var ps := InitialPlacements(tracks, [0, 2], canvas, cos, sin);
    assert ps[0] == PolarPlacement(0, Hsv(0, 100, 100), canvas, cos, sin);
    assert ps[1] == PolarPlacement(2, Hsv(240, 100, 100), canvas, cos, sin);
  }
}
