/**
 * Track selection on the colour wheel (frontend/src/components/TracksColorWheel.js): the
 * `position` recorded on each kept item after relaxation, the `isAnimating` flag, the click
 * listener registered when the animation ends and removed by the effect's cleanup, and the
 * hit test of `handleTrackClick`. Items are identified by their index in `tracks`.
 */
module Selection {
  import opened Wrappers
  import opened FirstWins
  import opened ColorWheelLayout
  import opened Relaxation
  import Animation

  /** The `{x, y, size}` object stored as `item.position`. */
  datatype Position = Position(x: JsNumber, y: JsNumber, size: Side)

  function PositionOf(p: Placement): Position
  {
    Position(p.x, p.y, p.size)
  }

  /** The positions `positionInfo.forEach` records, by the index of the item each placement draws. */
  function Assigned(ps: seq<Placement>): map<nat, Position>
  {
    if ps == [] then map[]
    else
      var n := |ps| - 1;
      Assigned(ps[..n])[ps[n].track := PositionOf(ps[n])]
  }

  /** Only the items some placement draws get a position. */
  lemma {:induction false} AssignedKeys(ps: seq<Placement>)
    ensures forall t :: t in Assigned(ps) <==> exists m :: 0 <= m < |ps| && ps[m].track == t
  {
    if ps != [] {
      var n := |ps| - 1;
      AssignedKeys(ps[..n]);
      forall t | t in Assigned(ps)
        ensures exists m :: 0 <= m < |ps| && ps[m].track == t
      {
        if t != ps[n].track {
          assert t in Assigned(ps[..n]);
          var m :| 0 <= m < |ps[..n]| && ps[..n][m].track == t;
          assert ps[m].track == t;
        }
      }
      forall t | exists m :: 0 <= m < |ps| && ps[m].track == t
        ensures t in Assigned(ps)
      {
        var m :| 0 <= m < |ps| && ps[m].track == t;
        if m < n {
          assert ps[..n][m].track == t;
        }
      }
    }
  }

  /** With one placement per item, each item's position is that of its own placement. */
  lemma {:induction false} AssignedPositionsOfDistinctTracks(ps: seq<Placement>)
    requires forall m, m' :: 0 <= m < m' < |ps| ==> ps[m].track != ps[m'].track
    ensures forall m :: 0 <= m < |ps| ==> ps[m].track in Assigned(ps) && Assigned(ps)[ps[m].track] == PositionOf(ps[m])
  {
    if ps != [] {
      var n := |ps| - 1;
      AssignedPositionsOfDistinctTracks(ps[..n]);
      forall m | 0 <= m < n
        ensures ps[m].track in Assigned(ps) && Assigned(ps)[ps[m].track] == PositionOf(ps[m])
      {
        assert ps[..n][m] == ps[m];
      }
    }
  }

  /**
   * From de-duplication to stored positions: whatever number of relaxation passes ran, the
   * items that receive a position are exactly the kept representatives of their albums, each
   * at the final position of its own cover.
   */
  lemma {:induction false} OnlyRepresentativesPositioned(tracks: seq<Item>, canvas: Canvas,
                                                         cos: real -> real, sin: real -> real,
                                                         n: nat, sqrt: Sqrt)
    ensures var unique := Firsts(AlbumKeys(tracks));
      && (forall m :: 0 <= m < |unique| ==> unique[m] < |tracks| && Drawable(tracks[unique[m]]))
      && var final := Iterate(InitialPlacements(tracks, unique, canvas, cos, sin), n, sqrt);
      && |final| == |unique|
      && (forall t :: t in Assigned(final) <==> t in unique)
      && (forall m :: 0 <= m < |final| ==>
            unique[m] in Assigned(final) && Assigned(final)[unique[m]] == PositionOf(final[m]))
  {
    KeptItemsDrawable(tracks);
    assert forall m :: 0 <= m < |Firsts(AlbumKeys(tracks))| ==> Drawable(tracks[Firsts(AlbumKeys(tracks))[m]]);
    var unique := Firsts(AlbumKeys(tracks));
    var ps := InitialPlacements(tracks, unique, canvas, cos, sin);
    var final := Iterate(ps, n, sqrt);
    forall m | 0 <= m < |final|
      ensures final[m].track == unique[m]
    {
      assert Frame(final[m]).track == Frame(ps[m]).track;
    }
    AssignedFromIndices(final, unique);
  }

  /** `positionInfo.map(info => ({x: info.x, y: info.y}))`: the points handed to the animation. */
  function Points(ps: seq<Placement>): (points: seq<Animation.Point>)
    ensures |points| == |ps|
    ensures forall m :: 0 <= m < |ps| ==> points[m] == Animation.Point(ps[m].x, ps[m].y)
  {
    seq(|ps|, m requires 0 <= m < |ps| => Animation.Point(ps[m].x, ps[m].y))
  }

  /**
   * The animation runs from the covers' places before relaxation to their places after `n`
   * passes: it starts on the original positions, and once the duration has elapsed it shows
   * the relaxed ones, provided no pass left a coordinate NaN (two covers on the same spot).
   */
  lemma RelaxationAnimated(ps: seq<Placement>, n: nat, sqrt: Sqrt, elapsed: real)
    requires forall m :: 0 <= m < |ps| ==> ps[m].x.Finite? && ps[m].y.Finite?
    ensures var starts := Points(ps);
      var ends := Points(Iterate(ps, n, sqrt));
      && |starts| == |ends| == |ps|
      && Animation.AllFinite(starts)
      && (Animation.AllFinite(ends) ==>
            Animation.FrameAt(starts, ends, Animation.Ease(Animation.Progress(0.0))) == starts)
      && (Animation.AllFinite(ends) && elapsed >= Animation.Duration ==>
            Animation.FrameAt(starts, ends, Animation.Ease(Animation.Progress(elapsed))) == ends)
  {
    var starts := Points(ps);
    var ends := Points(Iterate(ps, n, sqrt));
    if Animation.AllFinite(ends) {
      Animation.FirstFrame(starts, ends);
      if elapsed >= Animation.Duration {
        Animation.FinalFrame(starts, ends, elapsed);
      }
    }
  }


  /**
   * From de-duplication to the animation: `startPositions` are the kept items' initial
   * placements, `endPositions` the same covers after `n` passes, and the animation starts on
   * the former and, with no NaN coordinate, ends on the latter.
   */
  lemma {:induction false} ColorWheelAnimated(tracks: seq<Item>, canvas: Canvas,
                                              cos: real -> real, sin: real -> real,
                                              n: nat, sqrt: Sqrt, elapsed: real)
    ensures var unique := Firsts(AlbumKeys(tracks));
      && (forall m :: 0 <= m < |unique| ==> unique[m] < |tracks| && Drawable(tracks[unique[m]]))
      && var initial := InitialPlacements(tracks, unique, canvas, cos, sin);
      && var starts := Points(initial);
      && var ends := Points(Iterate(initial, n, sqrt));
      && |starts| == |ends| == |unique|
      && Animation.AllFinite(starts)
      && (Animation.AllFinite(ends) && elapsed >= Animation.Duration ==>
            Animation.FrameAt(starts, ends, Animation.Ease(Animation.Progress(elapsed))) == ends)
  {
    KeptItemsDrawable(tracks);
    assert forall m :: 0 <= m < |Firsts(AlbumKeys(tracks))| ==> Drawable(tracks[Firsts(AlbumKeys(tracks))[m]]);
    var initial := InitialPlacements(tracks, Firsts(AlbumKeys(tracks)), canvas, cos, sin);
    RelaxationAnimated(initial, n, sqrt, elapsed);
  }

  /** Placements drawing distinct, listed items assign exactly those items, each its own position. */
  lemma AssignedFromIndices(ps: seq<Placement>, unique: seq<nat>)
    requires |ps| == |unique|
    requires forall m, m' :: 0 <= m < m' < |unique| ==> unique[m] < unique[m']
    requires forall m :: 0 <= m < |ps| ==> ps[m].track == unique[m]
    ensures forall t :: t in Assigned(ps) <==> t in unique
    ensures forall m :: 0 <= m < |ps| ==> unique[m] in Assigned(ps) && Assigned(ps)[unique[m]] == PositionOf(ps[m])
  {
    AssignedKeys(ps);
    forall t
      ensures t in Assigned(ps) <==> t in unique
    {
      if t in unique {
        var m :| 0 <= m < |unique| && unique[m] == t;
        assert ps[m].track == t;
      }
    }
    AssignedPositionsOfDistinctTracks(ps);
  }

  function Square(v: real): real
  {
    v * v
  }

  /**
   * `distance <= size / 2` for the click point and a stored position, with `distance` the
   * `Math.sqrt` of the squared distance; a NaN coordinate never hits.
   */
  predicate Hits(pos: Position, mouseX: real, mouseY: real, sqrt: Sqrt)
  {
    pos.x.Finite? && pos.y.Finite? &&
    sqrt(Square(mouseX - pos.x.val) + Square(mouseY - pos.y.val)) <= pos.size / 2.0
  }

  /** With the true square root, a hit is a squared distance of at most (size / 2)^2. */
  lemma HitBySquares(pos: Position, mouseX: real, mouseY: real, sqrt: Sqrt)
    requires pos.x.Finite? && pos.y.Finite?
    requires var d2 := Square(mouseX - pos.x.val) + Square(mouseY - pos.y.val); IsRoot(sqrt(d2), d2)
    ensures Hits(pos, mouseX, mouseY, sqrt) <==>
      Square(mouseX - pos.x.val) + Square(mouseY - pos.y.val) <= Square(pos.size / 2.0)
  {
    var d2 := Square(mouseX - pos.x.val) + Square(mouseY - pos.y.val);
    SquareMonotone(pos.size / 2.0, sqrt(d2));
    SquareMonotone(sqrt(d2), pos.size / 2.0);
  }

  /**
   * The loop of `handleTrackClick`: the first item of `tracks` (there are `count` of them)
   * that carries a position hit by the click, or none.
   */
  method FindClickedTrack(count: nat, positions: map<nat, Position>, mouseX: real, mouseY: real, sqrt: Sqrt)
    returns (hit: Option<nat>)
    ensures hit.Some? ==>
      && hit.value < count && hit.value in positions
      && Hits(positions[hit.value], mouseX, mouseY, sqrt)
    ensures forall k :: 0 <= k < count && (hit.None? || k < hit.value) && k in positions ==>
      !Hits(positions[k], mouseX, mouseY, sqrt)
  {
    hit := None;
    for k := 0 to count
      invariant forall j :: 0 <= j < k && j in positions ==> !Hits(positions[j], mouseX, mouseY, sqrt)
    {
      if k !in positions {
        continue;
      }
      var position := positions[k];
      if Hits(position, mouseX, mouseY, sqrt) {
        hit := Some(k);
        break;
      }
    }
  }

  /** The state one run of the colour-wheel effect keeps between events. */
  class ColorWheelView {
    /** The effect's `isAnimating` flag. */
    var isAnimating: bool
    /** Whether `handleTrackClick` is registered as the canvas click listener. */
    var listening: bool
    /** `tracks[k].position`, for the items that carry one. */
    var positions: map<nat, Position>
    /** `selectedTrack`, as the index of the selected item. */
    var selectedTrack: Option<nat>
    var trackDetailsVisible: bool

    /** The effect starts animating, with no listener, over the items as they are. */
    constructor(positions0: map<nat, Position>, selected0: Option<nat>, visible0: bool)
      ensures isAnimating && !listening
      ensures positions == positions0 && selectedTrack == selected0 && trackDetailsVisible == visible0
    {
      isAnimating := true;
      listening := false;
      positions := positions0;
      selectedTrack := selected0;
      trackDetailsVisible := visible0;
    }

    /** `positionInfo.forEach(circle => circle.track.position = ...)`. */
    method StorePositions(ps: seq<Placement>)
      modifies this
      ensures positions == old(positions) + Assigned(ps)
      ensures isAnimating == old(isAnimating) && listening == old(listening)
      ensures selectedTrack == old(selectedTrack) && trackDetailsVisible == old(trackDetailsVisible)
    {
      for k := 0 to |ps|
        invariant positions == old(positions) + Assigned(ps[..k])
        invariant isAnimating == old(isAnimating) && listening == old(listening)
        invariant selectedTrack == old(selectedTrack) && trackDetailsVisible == old(trackDetailsVisible)
      {
        var circle := ps[k];
        assert ps[..k + 1][..k] == ps[..k];
        positions := positions[circle.track := PositionOf(circle)];
      }
      assert ps[..|ps|] == ps;
    }

    /** The timer set for the animation's duration: animation over, clicks now handled. */
    method AnimationElapsed()
      modifies this
      ensures !isAnimating && listening
      ensures positions == old(positions)
      ensures selectedTrack == old(selectedTrack) && trackDetailsVisible == old(trackDetailsVisible)
    {
      isAnimating := false;
      listening := true;
    }

    /** The effect's cleanup: the listener is removed and the flag set back. */
    method Cleanup()
      modifies this
      ensures isAnimating && !listening
      ensures positions == old(positions)
      ensures selectedTrack == old(selectedTrack) && trackDetailsVisible == old(trackDetailsVisible)
    {
      listening := false;
      isAnimating := true;
    }

    /**
     * A click on the canvas among `count` items. It reaches `handleTrackClick` only while the
     * listener is registered; the handler ignores it while animating, and otherwise selects the
     * first item hit, if any, and shows its details. Returns the item selected.
     */
    method Click(count: nat, clientX: real, clientY: real, rectLeft: real, rectTop: real, sqrt: Sqrt)
      returns (hit: Option<nat>)
      modifies this
      ensures isAnimating == old(isAnimating) && listening == old(listening) && positions == old(positions)
      ensures !listening || isAnimating ==> hit.None?
      ensures hit.None? ==> selectedTrack == old(selectedTrack) && trackDetailsVisible == old(trackDetailsVisible)
      ensures hit.Some? ==> selectedTrack == hit && trackDetailsVisible
      ensures listening && !isAnimating ==>
        var mouseX, mouseY := clientX - rectLeft, clientY - rectTop;
        && (hit.Some? ==>
              hit.value < count && hit.value in positions && Hits(positions[hit.value], mouseX, mouseY, sqrt))
        && (forall k :: 0 <= k < count && (hit.None? || k < hit.value) && k in positions ==>
              !Hits(positions[k], mouseX, mouseY, sqrt))
    {
      hit := None;
      if !listening || isAnimating {
        return;
      }
      var mouseX := clientX - rectLeft;
      var mouseY := clientY - rectTop;
      hit := FindClickedTrack(count, positions, mouseX, mouseY, sqrt);
      if hit.Some? {
        selectedTrack := hit;
        trackDetailsVisible := true;
      }
    }
  }
}
