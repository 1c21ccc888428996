/** Isolation of address spaces over whole runs of space creations and page mappings. */
module Isolation {
  import opened Common
  import opened PageTables
  import opened Paging
  import opened UserSpace

  /** The machine between two calls, with the frames that back user pages. */
  datatype World = World(snap: Snapshot, pages: Backing)

  datatype Move =
    | Create(current: nat, root: nat)
    | Map(root: nat, base: nat, data: seq<byte>, count: nat)

  /** What holds between calls: `UserSpaces.Valid` as a fact about values. */
  ghost predicate Sound(w: World, kr: nat) {
    Good(w.snap, kr) && Isolated(w.snap, kr, w.pages)
  }

  /** The effect of a call: `create_address_space`, or `map_user_pages` as far as memory allowed. */
  ghost predicate Moved(a: World, b: World, kr: nat, move: Move) {
    match move
    case Create(current, root) =>
      UserRoot(b.snap, kr, root) && NewSpace(a.snap, b.snap, kr, current, root) && b.pages == a.pages
    case Map(root, base, data, count) =>
      UserRoot(a.snap, kr, root) && MappedImage(a.snap, a.pages, b.snap, b.pages, kr, root, base, data, count)
  }

  /** `worlds[i]` and `worlds[i + 1]` are before and after `moves[i]`. */
  ghost predicate Trace(worlds: seq<World>, moves: seq<Move>, kr: nat) {
    && |worlds| == |moves| + 1
    && (forall i :: 0 <= i < |worlds| ==> Sound(worlds[i], kr))
    && (forall i :: 0 <= i < |moves| ==> Moved(worlds[i], worlds[i + 1], kr, moves[i]))
  }

  /** What the run mapped into address space `s`, oldest first; a creation starts afresh. */
  function LayersOf(moves: seq<Move>, s: nat, layers: seq<Layout>): seq<Layout> {
    if |moves| == 0 then layers
    else
      var n := |moves| - 1;
      match moves[n]
      case Create(_, root) => if root == s then [] else LayersOf(moves[..n], s, layers)
      case Map(root, base, data, count) =>
        if root == s then LayersOf(moves[..n], s, layers) + [Layout(base, 0, count, data)]
        else LayersOf(moves[..n], s, layers)
  }

  /** The lower half of `s` shows exactly these layers. */
  ghost predicate Shows(w: World, s: nat, layers: seq<Layout>) {
    forall vq :: 0 <= vq < USER_PAGES ==> PageAt(w.snap.mem, s, vq) == ContentAt(layers, vq)
  }

  lemma MapLaysOver(a: World, b: World, kr: nat, move: Move, s: nat, layers: seq<Layout>)
    requires move.Map? && Moved(a, b, kr, move) && UserRoot(a.snap, kr, s) && Shows(a, s, layers)
    ensures UserRoot(b.snap, kr, s)
    ensures Shows(b, s, if move.root == s then layers + [Layout(move.base, 0, move.count, move.data)] else layers)
  {
    hide PageAt, ContentAt;
    var x := Layout(move.base, 0, move.count, move.data);
    forall vq | 0 <= vq < USER_PAGES
      ensures PageAt(b.snap.mem, s, vq) == ContentAt(if move.root == s then layers + [x] else layers, vq)
    {
      TopLayer(layers, x, vq);
    }
  }

  lemma CreateStartsEmpty(a: World, b: World, kr: nat, move: Move)
    requires move.Create? && Moved(a, b, kr, move)
    ensures Shows(b, move.root, [])
  {
  }

  lemma CreateLeavesOthers(a: World, b: World, kr: nat, move: Move, s: nat, layers: seq<Layout>)
    requires move.Create? && Moved(a, b, kr, move) && UserRoot(a.snap, kr, s) && Shows(a, s, layers)
    requires Sound(a, kr)
    ensures UserRoot(b.snap, kr, s) && move.root != s && Shows(b, s, layers)
  {
    hide PageAt, ContentAt;
    assert s in a.snap.owner && s in a.snap.used;
  }

  /**
   Over every run an address space shows exactly what was mapped into it, in order: from the layers
   it started with, or from nothing if it was created on the way.  Calls for other address
   spaces leave no trace in it.
   */
  lemma {:induction false} SpaceShowsItsOwnMappings(
      worlds: seq<World>, moves: seq<Move>, kr: nat, s: nat, layers: seq<Layout>)
    requires Trace(worlds, moves, kr)
    requires UserRoot(worlds[0].snap, kr, s) ==> Shows(worlds[0], s, layers)
    ensures UserRoot(worlds[|moves|].snap, kr, s) ==> Shows(worlds[|moves|], s, LayersOf(moves, s, layers))
    decreases |moves|
  {
    if |moves| != 0 && UserRoot(worlds[|moves|].snap, kr, s) {
      var n := |moves| - 1;
      var a, b, move := worlds[n], worlds[n + 1], moves[n];
      SpaceShowsItsOwnMappings(worlds[..n + 1], moves[..n], kr, s, layers);
      assert Moved(a, b, kr, move);
      assert Sound(a, kr);
      var before := LayersOf(moves[..n], s, layers);
      if move.Create? && move.root == s {
        CreateStartsEmpty(a, b, kr, move);
      } else {
        assert UserRoot(a.snap, kr, s);
        if move.Create? {
          CreateLeavesOthers(a, b, kr, move, s, before);
        } else {
          MapLaysOver(a, b, kr, move, s, before);
        }
      }
    }
  }

  lemma MoveKeepsTranslations(a: World, b: World, kr: nat, move: Move, s: nat)
    requires Moved(a, b, kr, move) && IsRoot(a.snap.owner, s) && (move.Map? ==> move.root != s)
    ensures IsRoot(b.snap.owner, s)
    ensures forall vq :: 0 <= vq < PAGES ==> Translate(b.snap.mem, s, vq) == Translate(a.snap.mem, s, vq)
  {
    hide Translate;
  }

  /** A run that maps nothing into `s` changes none of its translations, lower or upper half. */
  lemma {:induction false} OthersTranslateAsBefore(worlds: seq<World>, moves: seq<Move>, kr: nat, s: nat)
    requires Trace(worlds, moves, kr) && IsRoot(worlds[0].snap.owner, s)
    requires forall i :: 0 <= i < |moves| ==> moves[i].Map? ==> moves[i].root != s
    ensures IsRoot(worlds[|moves|].snap.owner, s)
    ensures forall vq :: 0 <= vq < PAGES ==>
      Translate(worlds[|moves|].snap.mem, s, vq) == Translate(worlds[0].snap.mem, s, vq)
    decreases |moves|
  {
    hide Translate;
    if |moves| != 0 {
      var n := |moves| - 1;
      OthersTranslateAsBefore(worlds[..n + 1], moves[..n], kr, s);
      assert Moved(worlds[n], worlds[n + 1], kr, moves[n]);
      MoveKeepsTranslations(worlds[n], worlds[n + 1], kr, moves[n], s);
    }
  }

  // ---- Runs of the code are such runs ----

  /** What a caller may ask for: a new space, or data in a space it was given. */
  datatype Request = MakeSpace | MapData(space: nat, virtBase: u64, data: seq<byte>, size: nat)

  predicate InLowerHalf(request: Request) {
    match request
    case MakeSpace => true
    case MapData(_, virtBase, _, size) =>
      PageCount(size) <= MAX_IMAGE_PAGES ==> virtBase / 4096 + PageCount(size) <= USER_PAGES
  }

  lemma OneWorldMore(worlds: seq<World>, moves: seq<Move>, kr: nat, w: World, move: Move)
    requires Trace(worlds, moves, kr) && Sound(w, kr) && Moved(worlds[|moves|], w, kr, move)
    ensures Trace(worlds + [w], moves + [move], kr)
  {
    hide Sound, Moved;
    var worlds2, moves2, n := worlds + [w], moves + [move], |moves|;
    forall i | 0 <= i < |moves2| ensures Moved(worlds2[i], worlds2[i + 1], kr, moves2[i]) {
      if i < n {
        assert worlds2[i] == worlds[i] && worlds2[i + 1] == worlds[i + 1] && moves2[i] == moves[i];
      }
    }
  }

  /**
   Performs requests with the calls of `UserSpaces`.  The states between the calls are a trace, so
   what holds of every trace holds of every run of the code, up to the point where it stops.
   */
  method Perform(u: UserSpaces, requests: seq<Request>)
    returns (spaces: seq<nat>, stopped: bool, ghost worlds: seq<World>, ghost moves: seq<Move>)
    requires u.Valid() && forall i :: 0 <= i < |requests| ==> InLowerHalf(requests[i])
    modifies u`pages, u.k`m, u.k`owner, u.k.mem, u.k.phys`freeFrames, u.k.phys`used, u.k.phys.bitmap
    ensures Trace(worlds, moves, u.k.kernelRoot) && worlds[0] == old(World(u.k.Snap(), u.pages))
    ensures !stopped ==>
      && u.Valid() && worlds[|moves|] == World(u.k.Snap(), u.pages)
      && forall j :: 0 <= j < |spaces| ==> u.IsSpace(spaces[j])
  {
    spaces, worlds, moves := [], [World(u.k.Snap(), u.pages)], [];
    for i := 0 to |requests|
      invariant u.Valid() && Trace(worlds, moves, u.k.kernelRoot)
      invariant worlds[0] == old(World(u.k.Snap(), u.pages)) && worlds[|moves|] == World(u.k.Snap(), u.pages)
      invariant forall j :: 0 <= j < |spaces| ==> u.IsSpace(spaces[j])
    {
      match requests[i] {
        case MakeSpace =>
          spaces, worlds, moves := PerformCreate(u, spaces, worlds, moves);
        case MapData(space, virtBase, data, size) =>
          if space < |spaces| {
            assert InLowerHalf(requests[i]);
            stopped, worlds, moves := PerformMap(u, spaces, spaces[space], virtBase, data, size, worlds, moves);
            if stopped {
              return;
            }
          }
      }
    }
    stopped := false;
  }

  method PerformCreate(u: UserSpaces, spaces: seq<nat>, ghost worlds: seq<World>, ghost moves: seq<Move>)
    returns (spaces2: seq<nat>, ghost worlds2: seq<World>, ghost moves2: seq<Move>)
    requires u.Valid() && Trace(worlds, moves, u.k.kernelRoot) && worlds[|moves|] == World(u.k.Snap(), u.pages)
    requires forall j :: 0 <= j < |spaces| ==> u.IsSpace(spaces[j])
    modifies u.k`m, u.k`owner, u.k.mem, u.k.phys`freeFrames, u.k.phys`used, u.k.phys.bitmap
    ensures u.Valid() && Trace(worlds2, moves2, u.k.kernelRoot) && worlds2[|moves2|] == World(u.k.Snap(), u.pages)
    ensures worlds2[0] == worlds[0]
    ensures forall j :: 0 <= j < |spaces2| ==> u.IsSpace(spaces2[j])
  {
    spaces2, worlds2, moves2 := spaces, worlds, moves;
    var root := u.CreateAddressSpace(u.k.kernelRoot);
    if root.Some? {
      ghost var move, w := Create(u.k.kernelRoot, root.value), World(u.k.Snap(), u.pages);
      OneWorldMore(worlds, moves, u.k.kernelRoot, w, move);
      spaces2, worlds2, moves2 := spaces + [root.value], worlds + [w], moves + [move];
    }
  }

  method PerformMap(u: UserSpaces, spaces: seq<nat>, root: nat, virtBase: u64, data: seq<byte>, size: nat,
                    ghost worlds: seq<World>, ghost moves: seq<Move>)
    returns (stopped: bool, ghost worlds2: seq<World>, ghost moves2: seq<Move>)
    requires u.Valid() && Trace(worlds, moves, u.k.kernelRoot) && worlds[|moves|] == World(u.k.Snap(), u.pages)
    requires forall j :: 0 <= j < |spaces| ==> u.IsSpace(spaces[j])
    requires u.IsSpace(root) && InLowerHalf(MapData(0, virtBase, data, size))
    modifies u`pages, u.k`m, u.k`owner, u.k.mem, u.k.phys`freeFrames, u.k.phys`used, u.k.phys.bitmap
    ensures Trace(worlds2, moves2, u.k.kernelRoot) && worlds2[0] == worlds[0]
    ensures !stopped ==>
      && u.Valid() && worlds2[|moves2|] == World(u.k.Snap(), u.pages)
      && forall j :: 0 <= j < |spaces| ==> u.IsSpace(spaces[j])
  {
    hide PageAt, Translate, Overlaid, OnlyPages, Taken, NewTables;
    worlds2, moves2 := worlds, moves;
    var out;
    ghost var done;
    out, done := u.MapUserPages(root, virtBase, data, size);
    stopped := out == Panic;
    if !stopped {
      ghost var move, w := Map(root, virtBase / 4096, data, done), World(u.k.Snap(), u.pages);
      OneWorldMore(worlds, moves, u.k.kernelRoot, w, move);
      worlds2, moves2 := worlds + [w], moves + [move];
    }
  }
}
