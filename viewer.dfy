/** The viewer's tile list and zoom level.

    The viewer keeps the tiles it has asked for in one list, most recently
    drawn first, bounded by `MaxTiles`. Every frame visits each visible tile
    of the active pyramid level: a tile that is not in the list is put at the
    front in state `Loading`, after the last tile has been evicted when the
    list is full; a decoded tile is turned into a texture, drawn and moved to
    the front; a tile still loading is only outlined. A decoding thread that
    finishes marks the first tile with its position as decoded. Drawing,
    textures, images and threads are not modelled; what is evicted or
    uploaded is returned instead. */
module TileViewer {
  import opened Options

  /** The upper bound on the length of the tile list. */
  const MaxTiles: nat := 150

  datatype TileState = Loading | WaitingForTextureLoad | Ready

  /** A tile of the list: column `x` and row `y` of pyramid level `layer`. */
  datatype Tile = Tile(x: int, y: int, layer: int, state: TileState)

  /** What eviction releases for a tile in `state`: the texture of a drawn
      tile, the decoded image of a tile decoded but not drawn yet, and
      nothing for a tile still loading. */
  datatype Release = NoRelease | UnloadTexture | UnloadImage

  function ReleaseOf(state: TileState): (r: Release)
    ensures r == UnloadTexture <==> state == Ready
    ensures r == UnloadImage <==> state == WaitingForTextureLoad
  {
    match state
    case Ready => UnloadTexture
    case WaitingForTextureLoad => UnloadImage
    case Loading => NoRelease
  }

  /** What a visit of a visible tile did: it drew the tile, uploading its
      texture first if it had only been decoded; it found the tile still
      loading; or it inserted the tile, releasing what the eviction of the
      last tile needed, and started its decoding. */
  datatype Visit = Drawn(uploaded: bool) | StillLoading | Inserted(evicted: Option<Tile>, released: Release)

  predicate IsAt(t: Tile, x: int, y: int, layer: int) {
    t.x == x && t.y == y && t.layer == layer
  }

  /** At most one tile per position. */
  ghost predicate UniqueTiles(s: seq<Tile>) {
    forall i, j :: 0 <= i < j < |s| ==> !IsAt(s[i], s[j].x, s[j].y, s[j].layer)
  }

  /** The index of the first tile at `x`, `y`, `layer`. */
  function Find(s: seq<Tile>, x: int, y: int, layer: int): (r: Option<nat>)
    ensures r.Some? ==> r.value < |s| && IsAt(s[r.value], x, y, layer)
    ensures r.Some? ==> forall j :: 0 <= j < r.value ==> !IsAt(s[j], x, y, layer)
    ensures r.None? ==> forall j :: 0 <= j < |s| ==> !IsAt(s[j], x, y, layer)
  {
    if |s| == 0 then None
    else if IsAt(s[0], x, y, layer) then Some(0)
    else match Find(s[1..], x, y, layer)
      case None => None
      case Some(k) => Some(k + 1)
  }

  /** The list with its tile at `k` rotated to the front: the tiles before
      `k` move one place back and the ones after it stay where they are. */
  function MovedToFront(s: seq<Tile>, k: nat): (r: seq<Tile>)
    requires k < |s|
    ensures |r| == |s| && r[0] == s[k]
    ensures forall j :: 0 < j <= k ==> r[j] == s[j - 1]
    ensures forall j :: k < j < |s| ==> r[j] == s[j]
  {
    [s[k]] + s[..k] + s[k + 1..]
  }

  /** The list after a visit of the tile at `x`, `y`, `layer`. */
  function Visited(s: seq<Tile>, x: int, y: int, layer: int): (r: seq<Tile>)
    ensures Find(s, x, y, layer).None? ==>
      && |r| > 0 && r[0] == Tile(x, y, layer, Loading)
      && r[1..] == if |s| == MaxTiles then s[..|s| - 1] else s
    ensures Find(s, x, y, layer).Some? && s[Find(s, x, y, layer).value].state == Loading ==> r == s
    ensures Find(s, x, y, layer).Some? && s[Find(s, x, y, layer).value].state != Loading ==>
      var k := Find(s, x, y, layer).value;
      |r| == |s| && r[0] == s[k].(state := Ready) && r[1..] == s[..k] + s[k + 1..]
  {
    match Find(s, x, y, layer)
    case None =>
      var kept := if |s| == MaxTiles then s[..|s| - 1] else s;
      [Tile(x, y, layer, Loading)] + kept
    case Some(k) =>
      if s[k].state == Loading then s
      else
        var r := MovedToFront(s[k := s[k].(state := Ready)], k);
        assert r[1..] == s[..k] + s[k + 1..];
        r
  }

  /** The list after the decoding of the tile at `x`, `y`, `layer`
      finished: the first tile there, if any, now waits for its texture. */
  function Loaded(s: seq<Tile>, x: int, y: int, layer: int): (r: seq<Tile>)
    ensures |r| == |s|
    ensures Find(s, x, y, layer).None? ==> r == s
    ensures Find(s, x, y, layer).Some? ==>
      var k := Find(s, x, y, layer).value;
      && r[k] == s[k].(state := WaitingForTextureLoad)
      && forall j :: 0 <= j < |s| && j != k ==> r[j] == s[j]
  {
    match Find(s, x, y, layer)
    case None => s
    case Some(k) => s[k := s[k].(state := WaitingForTextureLoad)]
  }

  class Viewer {
    /** The tile list, most recently drawn first. */
    var tiles: seq<Tile>
    /** The number of pyramid levels. */
    const layers: nat
    /** The pyramid level on screen. */
    var activeLayer: int

    ghost predicate Valid()
      reads this
    {
      && |tiles| <= MaxTiles && UniqueTiles(tiles)
      && 0 <= activeLayer < layers
    }

    constructor (layers: nat, activeLayer: int)
      requires 0 <= activeLayer < layers
      ensures Valid() && tiles == [] && this.layers == layers && this.activeLayer == activeLayer
    {
      this.layers := layers;
      this.activeLayer := activeLayer;
      tiles := [];
    }

    /** Rotates the tile at `idx` to the front of the list. */
    method MoveToFront(idx: nat)
      requires idx < |tiles|
      modifies this`tiles
      ensures tiles == MovedToFront(old(tiles), idx)
    {
      var t := tiles[idx];
      var i := idx;
      while i > 0
        invariant i <= idx && |tiles| == |old(tiles)|
        invariant forall j :: 0 <= j <= i ==> tiles[j] == old(tiles)[j]
        invariant forall j :: i < j <= idx ==> tiles[j] == old(tiles)[j - 1]
        invariant forall j :: idx < j < |tiles| ==> tiles[j] == old(tiles)[j]
      {
        tiles := tiles[i := tiles[i - 1]];
        i := i - 1;
      }
      tiles := tiles[0 := t];
    }

    /** One visit of the visible tile at column `x`, row `y` of the active
        level, as the frame loop does it: a scan of the whole list that
        draws and moves to the front every tile found there that is decoded,
        followed by an insertion at the front when none was found. */
    method VisitTile(x: int, y: int) returns (v: Visit)
      requires Valid()
      modifies this`tiles
      ensures Valid() && tiles == Visited(old(tiles), x, y, activeLayer)
      ensures var k := Find(old(tiles), x, y, activeLayer);
        && (k.Some? && old(tiles)[k.value].state == Loading ==> v == StillLoading)
        && (k.Some? && old(tiles)[k.value].state != Loading ==>
              v == Drawn(old(tiles)[k.value].state == WaitingForTextureLoad))
        && (k.None? && |old(tiles)| == MaxTiles ==>
              v == Inserted(Some(old(tiles)[MaxTiles - 1]), ReleaseOf(old(tiles)[MaxTiles - 1].state)))
        && (k.None? && |old(tiles)| < MaxTiles ==> v == Inserted(None, NoRelease))
    {
      ghost var s := tiles;
      ghost var k := Find(s, x, y, activeLayer);
      var found := false;
      var i := 0;
      v := StillLoading;
      while i < |tiles|
        invariant |tiles| == |s| && i <= |tiles|
        invariant !found ==> tiles == s && v == StillLoading && forall j :: 0 <= j < i ==> !IsAt(s[j], x, y, activeLayer)
        invariant found ==> k.Some? && k.value < i && tiles == Visited(s, x, y, activeLayer)
        invariant found && s[k.value].state == Loading ==> v == StillLoading
        invariant found && s[k.value].state != Loading ==> v == Drawn(s[k.value].state == WaitingForTextureLoad)
      {
        if IsAt(tiles[i], x, y, activeLayer) {
          if found {
            VisitedLater(s, x, y, activeLayer, i);
            assert false;
          }
          FindAt(s, x, y, activeLayer, i);
          found := true;
          if tiles[i].state == Ready {
            MoveToFront(i);
            v := Drawn(false);
          } else if tiles[i].state == WaitingForTextureLoad {
            tiles := tiles[i := tiles[i].(state := Ready)];
            MoveToFront(i);
            v := Drawn(true);
          }
        }
        i := i + 1;
      }
      if !found {
        FindMissing(s, x, y, activeLayer);
        var evicted := None;
        var released := NoRelease;
        if |tiles| == MaxTiles {
          evicted, released := Some(tiles[|tiles| - 1]), ReleaseOf(tiles[|tiles| - 1].state);
          tiles := tiles[..|tiles| - 1];
        }
        tiles := tiles + [Tile(x, y, activeLayer, Loading)];
        MoveToFront(|tiles| - 1);
        v := Inserted(evicted, released);
      }
      VisitedValid(s, x, y, activeLayer);
    }

    /** The completion of the decoding of the tile at `x`, `y`, `layer`:
        the first tile there, if it is still in the list, waits for its
        texture. */
    method LoadTileDone(x: int, y: int, layer: int)
      modifies this`tiles
      ensures tiles == Loaded(old(tiles), x, y, layer)
      ensures old(Valid()) ==> Valid()
    {
      var i := 0;
      while i < |tiles|
        invariant i <= |tiles| && tiles == old(tiles)
        invariant forall j :: 0 <= j < i ==> !IsAt(tiles[j], x, y, layer)
      {
        if IsAt(tiles[i], x, y, layer) {
          FindAt(tiles, x, y, layer, i);
          tiles := tiles[i := tiles[i].(state := WaitingForTextureLoad)];
          break;
        }
        i := i + 1;
      }
      if i == |old(tiles)| {
        FindMissing(tiles, x, y, layer);
      }
      LoadedValid(old(tiles), x, y, layer);
    }

    /** A turn of the mouse wheel: one level up for a step of 1 unless the
        top level is on screen, one level down for a step of -1 unless the
        bottom level is. */
    method Zoom(wheel: int)
      requires Valid()
      modifies this`activeLayer
      ensures Valid()
      ensures wheel == 1 && old(activeLayer) < layers - 1 ==> activeLayer == old(activeLayer) + 1
      ensures wheel == -1 && old(activeLayer) > 0 ==> activeLayer == old(activeLayer) - 1
      ensures !(wheel == 1 && old(activeLayer) < layers - 1) && !(wheel == -1 && old(activeLayer) > 0) ==>
        activeLayer == old(activeLayer)
    {
      if wheel == 1 && activeLayer < layers - 1 {
        activeLayer := activeLayer + 1;
      } else if wheel == -1 && activeLayer > 0 {
        activeLayer := activeLayer - 1;
      }
    }
  }

  lemma FindAt(s: seq<Tile>, x: int, y: int, layer: int, i: nat)
    requires i < |s| && IsAt(s[i], x, y, layer)
    requires forall j :: 0 <= j < i ==> !IsAt(s[j], x, y, layer)
    ensures Find(s, x, y, layer) == Some(i)
  {
  }

  lemma FindMissing(s: seq<Tile>, x: int, y: int, layer: int)
    requires forall j :: 0 <= j < |s| ==> !IsAt(s[j], x, y, layer)
    ensures Find(s, x, y, layer) == None
  {
  }

  /** With one tile per position, the scan of a visit meets no second tile
      at the visited position after the first one has been handled. */
  lemma VisitedLater(s: seq<Tile>, x: int, y: int, layer: int, i: nat)
    requires UniqueTiles(s) && Find(s, x, y, layer).Some? && Find(s, x, y, layer).value < i < |s|
    requires Visited(s, x, y, layer)[i] == s[i]
    ensures !IsAt(Visited(s, x, y, layer)[i], x, y, layer)
  {
    var k := Find(s, x, y, layer).value;
    assert !IsAt(s[k], s[i].x, s[i].y, s[i].layer);
  }

  /** Rotating a tile to the front permutes the list. */
  lemma MovedToFrontPermutes(s: seq<Tile>, k: nat)
    requires k < |s|
    ensures multiset(MovedToFront(s, k)) == multiset(s)
  {
    assert s == s[..k] + [s[k]] + s[k + 1..];
  }

  /** A visit keeps the list within `MaxTiles` and at one tile per
      position, and leaves the visited tile in the list, at the front unless
      it is still loading. */
  lemma VisitedValid(s: seq<Tile>, x: int, y: int, layer: int)
    requires |s| <= MaxTiles && UniqueTiles(s)
    ensures var r := Visited(s, x, y, layer);
      && |r| <= MaxTiles && UniqueTiles(r)
      && Find(r, x, y, layer).Some?
      && (Find(s, x, y, layer).None? || s[Find(s, x, y, layer).value].state != Loading ==>
            Find(r, x, y, layer) == Some(0))
  {
    var r := Visited(s, x, y, layer);
    match Find(s, x, y, layer)
    case None =>
      var kept := if |s| == MaxTiles then s[..|s| - 1] else s;
      assert r == [r[0]] + kept;
      forall i, j | 0 <= i < j < |r| ensures !IsAt(r[i], r[j].x, r[j].y, r[j].layer) {
        if i > 0 {
          assert r[i] == kept[i - 1] && r[j] == kept[j - 1];
        } else {
          assert r[j] == kept[j - 1] == s[j - 1];
        }
      }
      FindAt(r, x, y, layer, 0);
    case Some(k) =>
      if s[k].state != Loading {
        assert |r| == |s|;
        forall i, j | 0 <= i < j < |r| ensures !IsAt(r[i], r[j].x, r[j].y, r[j].layer) {
          var i' := if i == 0 then k else if i <= k then i - 1 else i;
          var j' := if j == 0 then k else if j <= k then j - 1 else j;
          assert r[i] == s[i'].(state := r[i].state) && r[j] == s[j'] && i' != j';
        }
        FindAt(r, x, y, layer, 0);
      }
  }

  /** Visiting the same tile twice in a row changes no more than visiting
      it once. */
  lemma VisitIdempotent(s: seq<Tile>, x: int, y: int, layer: int)
    ensures Visited(Visited(s, x, y, layer), x, y, layer) == Visited(s, x, y, layer)
  {
    var r := Visited(s, x, y, layer);
    match Find(s, x, y, layer)
    case None =>
      FindAt(r, x, y, layer, 0);
    case Some(k) =>
      if s[k].state != Loading {
        FindAt(r, x, y, layer, 0);
        assert r == [r[0]] + r[1..];
      }
  }

  /** The completion of a decoding keeps the positions of all tiles, so the
      list stays within `MaxTiles` and at one tile per position. */
  lemma LoadedValid(s: seq<Tile>, x: int, y: int, layer: int)
    ensures var r := Loaded(s, x, y, layer);
      && (forall i :: 0 <= i < |s| ==> IsAt(r[i], s[i].x, s[i].y, s[i].layer))
      && (UniqueTiles(s) ==> UniqueTiles(r))
  {
  }
}
