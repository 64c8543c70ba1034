/** The tile loader's request queue.

    Decoding workers take tile requests from a double-ended queue. The render
    loop marks every queued request unwanted before each display pass and then
    queues each visible tile again, which marks it wanted; a new tile goes to
    the front. A worker picks the first wanted request, or, when none is
    wanted, the front one, removes it and decodes it. The mutex, the condition
    variable and the threads are not modelled: each operation below is one
    critical section. */
module TileLoading {
  import opened Options

  /** A queued request: the tile at column `x`, row `y` of pyramid level
      `layer`, and whether it is currently visible. */
  datatype TileRequest = TileRequest(x: int, y: int, layer: nat, wanted: bool)

  /** Is `r` a request for the tile `x`, `y`, `layer`? */
  predicate IsFor(r: TileRequest, x: int, y: int, layer: nat) {
    r.x == x && r.y == y && r.layer == layer
  }

  /** Do `a` and `b` request the same tile? */
  predicate SameTile(a: TileRequest, b: TileRequest) {
    IsFor(a, b.x, b.y, b.layer)
  }

  /** At most one request per tile. */
  ghost predicate UniqueTiles(q: seq<TileRequest>) {
    forall i, j :: 0 <= i < j < |q| ==> !SameTile(q[i], q[j])
  }

  /** The position of the first request for the tile `x`, `y`, `layer`. */
  function Find(q: seq<TileRequest>, x: int, y: int, layer: nat): (r: Option<nat>)
    ensures r.Some? ==> r.value < |q| && IsFor(q[r.value], x, y, layer)
    ensures r.Some? ==> forall j :: 0 <= j < r.value ==> !IsFor(q[j], x, y, layer)
    ensures r.None? ==> forall j :: 0 <= j < |q| ==> !IsFor(q[j], x, y, layer)
  {
    if |q| == 0 then None
    else if IsFor(q[0], x, y, layer) then Some(0)
    else match Find(q[1..], x, y, layer)
      case None => None
      case Some(k) => Some(k + 1)
  }

  /** The queue after the tile `x`, `y`, `layer` is queued: its request is
      marked wanted if there is one, otherwise a wanted request for it goes
      to the front. */
  function Queued(q: seq<TileRequest>, x: int, y: int, layer: nat): (r: seq<TileRequest>)
    ensures Find(q, x, y, layer).Some? ==>
      var k := Find(q, x, y, layer).value;
      |r| == |q| && r[k] == q[k].(wanted := true)
      && forall j :: 0 <= j < |q| && j != k ==> r[j] == q[j]
    ensures Find(q, x, y, layer).None? ==> r == [TileRequest(x, y, layer, true)] + q
  {
    match Find(q, x, y, layer)
    case Some(k) => q[k := q[k].(wanted := true)]
    case None => [TileRequest(x, y, layer, true)] + q
  }

  /** The queue with every request marked unwanted. */
  function Unwanted(q: seq<TileRequest>): (r: seq<TileRequest>)
    ensures |r| == |q|
    ensures forall i :: 0 <= i < |q| ==> r[i] == q[i].(wanted := false)
  {
    if |q| == 0 then [] else [q[0].(wanted := false)] + Unwanted(q[1..])
  }

  /** The position of the first wanted request. */
  function FirstWanted(q: seq<TileRequest>): (r: Option<nat>)
    ensures r.Some? ==> r.value < |q| && q[r.value].wanted
    ensures r.Some? ==> forall j :: 0 <= j < r.value ==> !q[j].wanted
    ensures r.None? ==> forall j :: 0 <= j < |q| ==> !q[j].wanted
  {
    if |q| == 0 then None
    else if q[0].wanted then Some(0)
    else match FirstWanted(q[1..])
      case None => None
      case Some(k) => Some(k + 1)
  }

  /** The request a worker takes: the first wanted one, or the front one
      when none is wanted, and none from an empty queue. */
  function Best(q: seq<TileRequest>): (r: Option<nat>)
    ensures r.None? <==> |q| == 0
    ensures r.Some? ==> r.value < |q|
    ensures r.Some? && q[r.value].wanted ==> forall j :: 0 <= j < r.value ==> !q[j].wanted
    ensures r.Some? && !q[r.value].wanted ==> r.value == 0 && forall j :: 0 <= j < |q| ==> !q[j].wanted
  {
    match FirstWanted(q)
    case Some(k) => Some(k)
    case None => if |q| == 0 then None else Some(0)
  }

  /** `q` without its request at `k`. */
  function Without(q: seq<TileRequest>, k: nat): (r: seq<TileRequest>)
    requires k < |q|
    ensures |r| == |q| - 1
    ensures forall j :: 0 <= j < k ==> r[j] == q[j]
    ensures forall j :: k <= j < |r| ==> r[j] == q[j + 1]
  {
    q[..k] + q[k + 1..]
  }

  /** What one pass of a worker's loop does: stop after a shutdown, wait on
      an empty queue, or take a request out of the queue and load it. */
  datatype WorkerStep = Stop | Wait | Load(request: TileRequest)

  class TileLoader {
    /** The request queue, front first. */
    var queue: seq<TileRequest>
    /** Set once by `Shutdown`. */
    var shutdown: bool

    ghost predicate Valid()
      reads this
    {
      UniqueTiles(queue)
    }

    constructor ()
      ensures Valid() && queue == [] && !shutdown
    {
      queue := [];
      shutdown := false;
    }

    /** The scan for a request for the tile `x`, `y`, `layer`. */
    method IndexOf(x: int, y: int, layer: nat) returns (r: Option<nat>)
      ensures r == Find(queue, x, y, layer)
    {
      var i := 0;
      while i < |queue|
        invariant i <= |queue|
        invariant forall j :: 0 <= j < i ==> !IsFor(queue[j], x, y, layer)
      {
        if IsFor(queue[i], x, y, layer) {
          FindFirst(queue, x, y, layer, i);
          return Some(i);
        }
        i := i + 1;
      }
      FindNone(queue, x, y, layer);
      return None;
    }

    /** Queues the tile `x`, `y`, `layer`: an already queued request for it
        is only marked wanted, anything else gets a new wanted request at the
        front. */
    method QueueTile(x: int, y: int, layer: nat)
      modifies this`queue
      ensures queue == Queued(old(queue), x, y, layer)
      ensures old(Valid()) ==> Valid()
    {
      var found := IndexOf(x, y, layer);
      match found {
        case Some(k) =>
          queue := queue[k := queue[k].(wanted := true)];
        case None =>
          queue := [TileRequest(x, y, layer, true)] + queue;
      }
      if old(Valid()) {
        QueuedUnique(old(queue), x, y, layer);
      }
    }

    /** Marks every queued request unwanted. */
    method MarkAllUnwanted()
      modifies this`queue
      ensures queue == Unwanted(old(queue))
      ensures old(Valid()) ==> Valid()
    {
      var i := 0;
      while i < |queue|
        invariant |queue| == |old(queue)| && i <= |queue|
        invariant forall j :: 0 <= j < i ==> queue[j] == old(queue)[j].(wanted := false)
        invariant forall j :: i <= j < |queue| ==> queue[j] == old(queue)[j]
      {
        queue := queue[i := queue[i].(wanted := false)];
        i := i + 1;
      }
      if old(Valid()) {
        UnwantedUnique(old(queue));
      }
    }

    /** The choice of a worker: the position of the first wanted request,
        else the front, and nothing on an empty queue. */
    method PickBestTile() returns (best: Option<nat>)
      ensures best == Best(queue)
    {
      var i := 0;
      while i < |queue|
        invariant i <= |queue|
        invariant forall j :: 0 <= j < i ==> !queue[j].wanted
      {
        if queue[i].wanted {
          BestFirstWanted(queue, i);
          return Some(i);
        }
        i := i + 1;
      }
      BestNoneWanted(queue);
      if |queue| > 0 {
        return Some(0);
      }
      return None;
    }

    /** One pass of a worker's loop. After a shutdown the worker stops and
        leaves the queue as it is; on an empty queue it waits; otherwise it
        takes the request `PickBestTile` chooses and removes the first
        request for the same tile, which, with one request per tile, is that
        one. */
    method Step() returns (step: WorkerStep)
      modifies this`queue
      ensures old(shutdown) ==> step == Stop && queue == old(queue)
      ensures !old(shutdown) && old(queue) == [] ==> step == Wait && queue == old(queue)
      ensures !old(shutdown) && old(queue) != [] ==>
        var req := old(queue)[Best(old(queue)).value];
        var k := Find(old(queue), req.x, req.y, req.layer);
        && step == Load(req)
        && k.Some? && queue == Without(old(queue), k.value)
      ensures old(Valid()) && !old(shutdown) && old(queue) != [] ==>
        Valid() && queue == Without(old(queue), Best(old(queue)).value)
    {
      if shutdown {
        return Stop;
      }
      var best := PickBestTile();
      if best.None? {
        return Wait;
      }
      var req := queue[best.value];
      var k := IndexOf(req.x, req.y, req.layer);
      queue := queue[..k.value] + queue[k.value + 1..];
      if old(Valid()) {
        DequeueUnique(old(queue));
      }
      return Load(req);
    }

    /** Asks the workers to stop. The queue keeps its requests. */
    method Shutdown()
      modifies this`shutdown
      ensures shutdown
    {
      shutdown := true;
    }
  }

  /** `Find` at the first match of a scan. */
  lemma FindFirst(q: seq<TileRequest>, x: int, y: int, layer: nat, i: nat)
    requires i < |q| && IsFor(q[i], x, y, layer)
    requires forall j :: 0 <= j < i ==> !IsFor(q[j], x, y, layer)
    ensures Find(q, x, y, layer) == Some(i)
  {
  }

  /** `Find` after a scan that matched nothing. */
  lemma FindNone(q: seq<TileRequest>, x: int, y: int, layer: nat)
    requires forall j :: 0 <= j < |q| ==> !IsFor(q[j], x, y, layer)
    ensures Find(q, x, y, layer) == None
  {
  }

  lemma BestFirstWanted(q: seq<TileRequest>, i: nat)
    requires i < |q| && q[i].wanted && forall j :: 0 <= j < i ==> !q[j].wanted
    ensures Best(q) == Some(i)
  {
  }

  lemma BestNoneWanted(q: seq<TileRequest>)
    requires forall j :: 0 <= j < |q| ==> !q[j].wanted
    ensures Best(q) == if |q| == 0 then None else Some(0)
  {
  }

  /** Queueing keeps one request per tile, and the tile is queued
      afterwards. */
  lemma QueuedUnique(q: seq<TileRequest>, x: int, y: int, layer: nat)
    requires UniqueTiles(q)
    ensures UniqueTiles(Queued(q, x, y, layer))
    ensures Find(Queued(q, x, y, layer), x, y, layer).Some?
  {
    var r := Queued(q, x, y, layer);
    if Find(q, x, y, layer).None? {
      forall i, j | 0 <= i < j < |r| ensures !SameTile(r[i], r[j]) {
        if i > 0 {
          assert r[i] == q[i - 1] && r[j] == q[j - 1];
        }
      }
      assert IsFor(r[0], x, y, layer);
    } else {
      var k := Find(q, x, y, layer).value;
      assert IsFor(r[k], x, y, layer);
      forall i, j | 0 <= i < j < |r| ensures !SameTile(r[i], r[j]) {
        assert SameTile(r[i], r[j]) == SameTile(q[i], q[j]);
      }
    }
  }

  /** Marking every request unwanted keeps the tiles and their order. */
  lemma UnwantedUnique(q: seq<TileRequest>)
    requires UniqueTiles(q)
    ensures UniqueTiles(Unwanted(q))
    ensures forall i :: 0 <= i < |q| ==> SameTile(Unwanted(q)[i], q[i])
  {
    var r := Unwanted(q);
    forall i, j | 0 <= i < j < |r| ensures !SameTile(r[i], r[j]) {
      assert SameTile(r[i], r[j]) == SameTile(q[i], q[j]);
    }
  }

  /** With one request per tile, the first request for the picked tile is
      the picked request, so a worker's pass removes exactly the request it
      picked, and the queue keeps one request per tile. */
  lemma DequeueUnique(q: seq<TileRequest>)
    requires UniqueTiles(q) && |q| > 0
    ensures var b := Best(q).value;
      && Find(q, q[b].x, q[b].y, q[b].layer) == Some(b)
      && UniqueTiles(Without(q, b))
  {
    var b := Best(q).value;
    UniqueFind(q, b);
    WithoutUnique(q, b);
  }

  /** With one request per tile, the request at `b` is the first one for its
      tile. */
  lemma UniqueFind(q: seq<TileRequest>, b: nat)
    requires UniqueTiles(q) && b < |q|
    ensures Find(q, q[b].x, q[b].y, q[b].layer) == Some(b)
  {
    var k := Find(q, q[b].x, q[b].y, q[b].layer).value;
    if k < b {
      assert SameTile(q[k], q[b]);
      assert false;
    }
  }

  /** Removing a request keeps one request per tile. */
  lemma WithoutUnique(q: seq<TileRequest>, b: nat)
    requires UniqueTiles(q) && b < |q|
    ensures UniqueTiles(Without(q, b))
  {
    var r := Without(q, b);
    forall i, j | 0 <= i < j < |r| ensures !SameTile(r[i], r[j]) {
      var i', j' := if i < b then i else i + 1, if j < b then j else j + 1;
      assert r[i] == q[i'] && r[j] == q[j'] && i' < j';
    }
  }

  /** Wanted first, then last in first out: in a display pass, after every
      request has been marked unwanted, the first tile queued again is the
      one a worker takes next, whether it was already queued or is new. */
  lemma PickAfterQueue(q: seq<TileRequest>, x: int, y: int, layer: nat)
    requires forall i :: 0 <= i < |q| ==> !q[i].wanted
    ensures var r := Queued(q, x, y, layer);
      Best(r).Some? && Best(r) == Find(r, x, y, layer) && IsFor(r[Best(r).value], x, y, layer)
  {
    var r := Queued(q, x, y, layer);
    match Find(q, x, y, layer)
    case Some(k) =>
      BestFirstWanted(r, k);
      FindFirst(r, x, y, layer, k);
    case None =>
      BestFirstWanted(r, 0);
      FindFirst(r, x, y, layer, 0);
  }
}
