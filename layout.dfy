/** The tree layout of the viewer: displayTree runs autoPositionNodes when some
    node still sits at (0, 0); autoPositionNodes places each root (a node with
    an empty parent id) and positionNodeAndChildren writes the coordinates of a
    node and, recursively, of its children in place. drawConnections then picks
    one parent/child pair per node whose parent id resolves. */
module Layout {
  import opened Records

  const RootX := 100
  const FirstRootY := 100
  const RootGap := 200
  const ChildDX := 250
  const ChildDY := 150
  /** Half of the node box (90 wide, 60 high): connectors join box centres. */
  const HalfWidth := 45
  const HalfHeight := 30

  predicate UniqueIds(d: seq<Node>) {
    forall i, j :: 0 <= i < j < |d| ==> d[i].id != d[j].id
  }

  predicate NonEmptyIds(d: seq<Node>) {
    forall i :: 0 <= i < |d| ==> d[i].id != ""
  }

  /** Same ids and parent ids at every index: layout only ever changes x and y. */
  predicate SameShape(a: seq<Node>, b: seq<Node>) {
    |a| == |b| && forall m :: 0 <= m < |a| ==> a[m].id == b[m].id && a[m].parentId == b[m].parentId
  }

  /** Lookup in `new Map(data.map(n => [n.id, n]))` restricted to the first `n`
      nodes: a later node with the same id replaces an earlier one. */
  function LastWithId(d: seq<Node>, id: string, n: nat): (r: Option<nat>)
    requires n <= |d|
    ensures r.Some? ==> r.value < n && d[r.value].id == id
    ensures r.Some? ==> forall q :: r.value < q < n ==> d[q].id != id
    ensures r.None? ==> forall q :: 0 <= q < n ==> d[q].id != id
  {
    if n == 0 then None
    else if d[n - 1].id == id then Some(n - 1)
    else LastWithId(d, id, n - 1)
  }

  /** The node a node hangs under: none when its parent id is empty or names no node. */
  function ParentOf(d: seq<Node>, m: nat): Option<nat>
    requires m < |d|
  {
    if d[m].parentId == "" then None else LastWithId(d, d[m].parentId, |d|)
  }

  /** How many of the first `n` nodes have parent id `pid`. */
  function Count(d: seq<Node>, n: nat, pid: string): (c: nat)
    requires n <= |d|
    ensures c <= n
  {
    if n == 0 then 0 else Count(d, n - 1, pid) + (if d[n - 1].parentId == pid then 1 else 0)
  }

  /** Where the layout puts node `m`, following its parent chain for at most
      `fuel` steps: the k-th root (in sheet order) at (100, 100 + 200k), the
      i-th node under a placed parent (in sheet order) 250 to its right and
      150 * i below it. None: the chain never reaches a root. */
  function Pos(d: seq<Node>, m: nat, fuel: nat): Option<(int, int)>
    requires m < |d|
    decreases fuel
  {
    if d[m].parentId == "" then Some((RootX, FirstRootY + RootGap * Count(d, m, "")))
    else if fuel == 0 then None
    else
      match ParentOf(d, m)
      case None => None
      case Some(p) =>
        match Pos(d, p, fuel - 1)
        case None => None
        case Some(xy) => Some((xy.0 + ChildDX, xy.1 + ChildDY * Count(d, m, d[m].parentId)))
  }

  function Place(node: Node, pos: Option<(int, int)>): Node {
    match pos
    case None => node
    case Some(xy) => node.(x := xy.0, y := xy.1)
  }

  /** The sheet after layout: every node whose parent chain reaches a root
      moved to its position, every other node untouched. */
  function Laid(d: seq<Node>): seq<Node> {
    seq(|d|, m requires 0 <= m < |d| => Place(d[m], Pos(d, m, |d|)))
  }

  /** `m` is `k` or lies below it, reached within `fuel` parent steps. */
  predicate Descends(d: seq<Node>, m: nat, k: nat, fuel: nat)
    requires m < |d|
    decreases fuel
  {
    m == k || (fuel > 0 && ParentOf(d, m).Some? && Descends(d, ParentOf(d, m).value, k, fuel - 1))
  }

  /** A chain of calls of positionNodeAndChildren: a root, then each node a
      child of the one before, no node twice. */
  predicate IsDescent(d: seq<Node>, path: seq<nat>) {
    |path| >= 1
    && (forall i :: 0 <= i < |path| ==> path[i] < |d|)
    && d[path[0]].parentId == ""
    && (forall i :: 1 <= i < |path| ==> d[path[i]].parentId == d[path[i - 1]].id)
    && (forall i, j :: 0 <= i < j < |path| ==> path[i] != path[j])
  }

  // ---------------------------------------------------------------------
  // Counting argument: a chain without repeats is no longer than the sheet.

  function Elems(s: seq<nat>): set<nat> {
    if s == [] then {} else {s[0]} + Elems(s[1..])
  }

  function Below(n: nat): set<nat> {
    if n == 0 then {} else Below(n - 1) + {n - 1}
  }

  lemma {:induction false} ElemsCard(s: seq<nat>)
    requires forall i, j :: 0 <= i < j < |s| ==> s[i] != s[j]
    ensures |Elems(s)| == |s|
    ensures forall x :: x in Elems(s) <==> x in s
  {
    if s != [] {
      ElemsCard(s[1..]);
      assert s[0] !in s[1..];
    }
  }

  lemma {:induction false} BelowCard(n: nat)
    ensures |Below(n)| == n
    ensures forall x: nat :: x in Below(n) <==> x < n
  {
    if n > 0 {
      BelowCard(n - 1);
      assert Below(n) == Below(n - 1) + {n - 1};
      assert n - 1 !in Below(n - 1);
    }
  }

  lemma {:induction false} SubsetCard(a: set<nat>, b: set<nat>)
    requires a <= b
    ensures |a| <= |b|
    decreases |a|
  {
    if a != {} {
      var x :| x in a;
      SubsetCard(a - {x}, b - {x});
    }
  }

  /** A descent path visits at most every node once. */
  lemma PathBound(d: seq<Node>, path: seq<nat>)
    requires IsDescent(d, path)
    ensures |path| <= |d|
  {
    ElemsCard(path);
    BelowCard(|d|);
    SubsetCard(Elems(path), Below(|d|));
  }

  // ---------------------------------------------------------------------
  // Parent links under unique, non-empty ids.

  lemma UniqueLast(d: seq<Node>, j: nat)
    requires UniqueIds(d) && j < |d|
    ensures LastWithId(d, d[j].id, |d|) == Some(j)
  {
    var r := LastWithId(d, d[j].id, |d|);
    assert r.Some?;
    assert d[r.value].id == d[j].id;
  }

  /** With unique, non-empty ids, `c` hangs under `k` exactly when its parent
      id is `k`'s id: the filter `c.parentId === node.id`. */
  lemma ParentIsIdMatch(d: seq<Node>, c: nat, k: nat)
    requires UniqueIds(d) && NonEmptyIds(d) && c < |d| && k < |d|
    ensures ParentOf(d, c) == Some(k) <==> d[c].parentId == d[k].id
  {
    if d[c].parentId == d[k].id {
      UniqueLast(d, k);
    }
  }

  /** A child of the last node of a descent path is not on the path, so the
      path extends. This is why the recursion ends under unique, non-empty ids. */
  lemma {:induction false} ChildNotOnPath(d: seq<Node>, path: seq<nat>, c: nat)
    requires UniqueIds(d) && NonEmptyIds(d) && IsDescent(d, path)
    requires c < |d| && d[c].parentId == d[path[|path| - 1]].id
    ensures c !in path
    ensures IsDescent(d, path + [c])
  {
    var last := |path| - 1;
    forall i | 0 <= i < |path|
      ensures path[i] != c
    {
      if i > 0 {
        assert path[i - 1] != path[last];
        assert d[path[i - 1]].id != d[path[last]].id;
      }
    }
    var q := path + [c];
    assert forall i :: 1 <= i < |q| ==> d[q[i]].parentId == d[q[i - 1]].id;
  }

  // ---------------------------------------------------------------------
  // Positions.

  /** More fuel never changes a position already found. */
  lemma {:induction false} PosStable(d: seq<Node>, m: nat, f: nat, g: nat)
    requires m < |d| && f <= g && Pos(d, m, f).Some?
    ensures Pos(d, m, g) == Pos(d, m, f)
    decreases f
  {
    if d[m].parentId != "" {
      PosStable(d, ParentOf(d, m).value, f - 1, g - 1);
    }
  }

  /** Every placed node is at least 100 from both edges, so after layout no
      node reachable from a root is left at (0, 0). */
  lemma {:induction false} PosBounds(d: seq<Node>, m: nat, f: nat)
    requires m < |d| && Pos(d, m, f).Some?
    ensures Pos(d, m, f).value.0 >= RootX && Pos(d, m, f).value.1 >= FirstRootY
    decreases f
  {
    if d[m].parentId != "" {
      PosBounds(d, ParentOf(d, m).value, f - 1);
    }
  }

  /** A node is placed exactly when its parent chain reaches some root. */
  lemma {:induction false} PlacedHasRoot(d: seq<Node>, m: nat, f: nat) returns (rho: nat)
    requires m < |d| && Pos(d, m, f).Some?
    ensures rho < |d| && d[rho].parentId == "" && Descends(d, m, rho, f)
    decreases f
  {
    if d[m].parentId == "" {
      rho := m;
    } else {
      rho := PlacedHasRoot(d, ParentOf(d, m).value, f - 1);
    }
  }

  lemma {:induction false} RootedIsPlaced(d: seq<Node>, m: nat, rho: nat, f: nat)
    requires m < |d| && rho < |d| && d[rho].parentId == "" && Descends(d, m, rho, f)
    ensures Pos(d, m, f).Some?
    decreases f
  {
    if m != rho && d[m].parentId != "" {
      RootedIsPlaced(d, ParentOf(d, m).value, rho, f - 1);
    }
  }

  /** The chain of calls that places a placed node, as a descent path. */
  lemma {:induction false} PosPath(d: seq<Node>, m: nat, f: nat) returns (path: seq<nat>)
    requires UniqueIds(d) && NonEmptyIds(d)
    requires m < |d| && Pos(d, m, f).Some?
    ensures IsDescent(d, path) && path[|path| - 1] == m && |path| - 1 <= f
    ensures Pos(d, m, |path| - 1) == Pos(d, m, f)
    decreases f
  {
    if d[m].parentId == "" {
      path := [m];
    } else {
      var p := ParentOf(d, m).value;
      var pp := PosPath(d, p, f - 1);
      ChildNotOnPath(d, pp, m);
      path := pp + [m];
      assert Pos(d, p, |path| - 2) == Pos(d, p, f - 1);
    }
  }

  /** The k-th root of the sheet goes to (100, 100 + 200k); only its
      coordinates change. */
  lemma RootPlacement(d: seq<Node>, r: nat)
    requires r < |d| && d[r].parentId == ""
    ensures Laid(d)[r] == d[r].(x := RootX, y := FirstRootY + RootGap * Count(d, r, ""))
  {
  }

  /** The i-th child (in sheet order) of a node placed at (x, y) goes to
      (x + 250, y + 150 i), whatever other subtrees occupy that spot. */
  lemma ChildPlacement(d: seq<Node>, c: nat, p: nat)
    requires UniqueIds(d) && NonEmptyIds(d)
    requires c < |d| && p < |d| && d[c].parentId == d[p].id
    requires Pos(d, p, |d|).Some?
    ensures Laid(d)[c].x == Laid(d)[p].x + ChildDX
    ensures Laid(d)[c].y == Laid(d)[p].y + ChildDY * Count(d, c, d[p].id)
  {
    ParentIsIdMatch(d, c, p);
    var path := PosPath(d, p, |d|);
    PathBound(d, path);
    PosStable(d, p, |path| - 1, |d| - 1);
    var xy := Pos(d, p, |d|).value;
    var i := Count(d, c, d[p].id);
    assert Pos(d, p, |d| - 1) == Some(xy);
    assert Pos(d, c, |d|) == Some((xy.0 + ChildDX, xy.1 + ChildDY * i));
    assert Laid(d)[p] == d[p].(x := xy.0, y := xy.1);
    assert Laid(d)[c] == d[c].(x := xy.0 + ChildDX, y := xy.1 + ChildDY * i);
  }

  /** A node whose parent chain reaches no root keeps its coordinates. */
  lemma UnrootedKeeps(d: seq<Node>, m: nat)
    requires m < |d|
    requires forall rho :: 0 <= rho < |d| && d[rho].parentId == "" ==> !Descends(d, m, rho, |d|)
    ensures Laid(d)[m] == d[m]
  {
    if Pos(d, m, |d|).Some? {
      var rho := PlacedHasRoot(d, m, |d|);
    }
  }

  // ---------------------------------------------------------------------
  // Positions depend on ids and parent ids only.

  lemma {:induction false} LastWithIdShape(a: seq<Node>, b: seq<Node>, id: string, n: nat)
    requires SameShape(a, b) && n <= |a|
    ensures LastWithId(a, id, n) == LastWithId(b, id, n)
  {
    if n > 0 {
      LastWithIdShape(a, b, id, n - 1);
    }
  }

  lemma {:induction false} CountShape(a: seq<Node>, b: seq<Node>, n: nat, pid: string)
    requires SameShape(a, b) && n <= |a|
    ensures Count(a, n, pid) == Count(b, n, pid)
  {
    if n > 0 {
      CountShape(a, b, n - 1, pid);
    }
  }

  lemma {:induction false} PosShape(a: seq<Node>, b: seq<Node>, m: nat, f: nat)
    requires SameShape(a, b) && m < |a|
    ensures Pos(a, m, f) == Pos(b, m, f)
    decreases f
  {
    CountShape(a, b, m, "");
    CountShape(a, b, m, a[m].parentId);
    LastWithIdShape(a, b, a[m].parentId, |a|);
    if f > 0 && ParentOf(a, m).Some? {
      PosShape(a, b, ParentOf(a, m).value, f - 1);
    }
  }

  /** Layout never reads coordinates: two sheets with the same ids and parent
      ids are laid out alike. */
  lemma LayoutIgnoresCoordinates(a: seq<Node>, b: seq<Node>)
    requires SameShape(a, b)
    ensures forall m :: 0 <= m < |a| ==> Pos(a, m, |a|) == Pos(b, m, |b|)
    ensures SameShape(Laid(a), a)
  {
    forall m | 0 <= m < |a|
      ensures Pos(a, m, |a|) == Pos(b, m, |b|)
    {
      PosShape(a, b, m, |a|);
    }
  }

  /** Running the layout a second time changes nothing. */
  lemma LayoutIdempotent(d: seq<Node>)
    ensures Laid(Laid(d)) == Laid(d)
  {
    LayoutIgnoresCoordinates(Laid(d), d);
  }

  // ---------------------------------------------------------------------
  // The subtree of a node as the union of its children's subtrees.

  /** `m` lies in the subtree of one of the first `j` children of `k`. */
  predicate InBranches(d: seq<Node>, m: nat, k: nat, f: nat, j: nat)
    requires m < |d| && f >= 1
  {
    exists c :: 0 <= c < j && c < |d| && ParentOf(d, c) == Some(k) && Descends(d, m, c, f - 1)
  }

  lemma {:induction false} DescendsThroughChild(d: seq<Node>, m: nat, c: nat, k: nat, f: nat)
    requires m < |d| && c < |d| && f >= 1
    requires ParentOf(d, c) == Some(k) && Descends(d, m, c, f - 1)
    ensures Descends(d, m, k, f)
    decreases f
  {
    if m != c {
      DescendsThroughChild(d, ParentOf(d, m).value, c, k, f - 1);
    }
  }

  lemma {:induction false} BranchOf(d: seq<Node>, m: nat, k: nat, f: nat) returns (c: nat)
    requires m < |d| && m != k && Descends(d, m, k, f)
    ensures f >= 1 && c < |d| && ParentOf(d, c) == Some(k) && Descends(d, m, c, f - 1)
    decreases f
  {
    var p := ParentOf(d, m).value;
    if p == k {
      c := m;
    } else {
      c := BranchOf(d, p, k, f - 1);
    }
  }

  /** The subtree of `k` is `k` together with the subtrees of all its children. */
  lemma BranchesCover(d: seq<Node>, m: nat, k: nat, f: nat)
    requires m < |d| && f >= 1
    ensures (m == k || InBranches(d, m, k, f, |d|)) <==> Descends(d, m, k, f)
  {
    if m != k && Descends(d, m, k, f) {
      var c := BranchOf(d, m, k, f);
    }
    if InBranches(d, m, k, f, |d|) {
      var c :| 0 <= c < |d| && ParentOf(d, c) == Some(k) && Descends(d, m, c, f - 1);
      DescendsThroughChild(d, m, c, k, f);
    }
  }

  lemma InBranchesStep(d: seq<Node>, m: nat, k: nat, f: nat, j: nat)
    requires m < |d| && j < |d| && f >= 1
    ensures InBranches(d, m, k, f, j + 1) <==>
      InBranches(d, m, k, f, j) || (ParentOf(d, j) == Some(k) && Descends(d, m, j, f - 1))
  {
    if InBranches(d, m, k, f, j + 1) && !InBranches(d, m, k, f, j) {
      var c :| 0 <= c < j + 1 && c < |d| && ParentOf(d, c) == Some(k) && Descends(d, m, c, f - 1);
      assert c == j;
    }
  }

  lemma PlaceTwice(node: Node, pos: Option<(int, int)>)
    ensures Place(Place(node, pos), pos) == Place(node, pos)
  {
  }

  /** `before` with exactly the subtree of `k` (within `f` parent steps)
      moved to its layout position. */
  function PlaceSubtree(before: seq<Node>, orig: seq<Node>, k: nat, f: nat): seq<Node>
    requires |before| == |orig|
  {
    seq(|before|, m requires 0 <= m < |before| =>
      if Descends(orig, m, k, f) then Place(before[m], Pos(orig, m, |orig|)) else before[m])
  }

  /** Part way through the children loop of `k`: `k` and the subtrees of its
      children among the first `j` nodes are placed. */
  function Stage(start: seq<Node>, orig: seq<Node>, k: nat, f: nat, j: nat): seq<Node>
    requires |start| == |orig| && f >= 1
  {
    seq(|start|, m requires 0 <= m < |start| =>
      if m == k || InBranches(orig, m, k, f, j) then Place(start[m], Pos(orig, m, |orig|)) else start[m])
  }

  lemma StageInit(orig: seq<Node>, start: seq<Node>, k: nat, f: nat, x: int, y: int)
    requires |start| == |orig| && k < |orig| && f >= 1 && Pos(orig, k, |orig|) == Some((x, y))
    ensures start[k := start[k].(x := x, y := y)] == Stage(start, orig, k, f, 0)
  {
  }

  lemma StageChild(orig: seq<Node>, start: seq<Node>, k: nat, f: nat, j: nat)
    requires |start| == |orig| && f >= 1 && j < |orig| && ParentOf(orig, j) == Some(k)
    ensures PlaceSubtree(Stage(start, orig, k, f, j), orig, j, f - 1) == Stage(start, orig, k, f, j + 1)
  {
    var mid := Stage(start, orig, k, f, j);
    var now := PlaceSubtree(mid, orig, j, f - 1);
    forall m | 0 <= m < |now|
      ensures now[m] == Stage(start, orig, k, f, j + 1)[m]
    {
      InBranchesStep(orig, m, k, f, j);
      PlaceTwice(start[m], Pos(orig, m, |orig|));
    }
  }

  lemma StageSkip(orig: seq<Node>, start: seq<Node>, k: nat, f: nat, j: nat)
    requires |start| == |orig| && f >= 1 && j < |orig| && ParentOf(orig, j) != Some(k)
    ensures Stage(start, orig, k, f, j + 1) == Stage(start, orig, k, f, j)
  {
    forall m | 0 <= m < |start|
      ensures InBranches(orig, m, k, f, j + 1) == InBranches(orig, m, k, f, j)
    {
      InBranchesStep(orig, m, k, f, j);
    }
  }

  lemma StageDone(orig: seq<Node>, start: seq<Node>, cur: seq<Node>, k: nat, f: nat, j: nat)
    requires |start| == |orig| && f >= 1 && j == |orig| && cur == Stage(start, orig, k, f, j)
    ensures cur == PlaceSubtree(start, orig, k, f)
  {
    forall m | 0 <= m < |start|
      ensures (m == k || InBranches(orig, m, k, f, |orig|)) == Descends(orig, m, k, f)
    {
      BranchesCover(orig, m, k, f);
    }
  }

  /** Layout moves nodes, it never changes their ids or parent ids. */
  lemma StageShape(start: seq<Node>, orig: seq<Node>, k: nat, f: nat, j: nat)
    requires SameShape(start, orig) && f >= 1
    ensures SameShape(Stage(start, orig, k, f, j), orig)
  {
  }

  /** The call for a child `c` of `k` extends the descent path, and the
      position handed to the i-th child is the child's layout position. */
  lemma ChildCall(orig: seq<Node>, path: seq<nat>, k: nat, c: nat, x: int, y: int)
    requires UniqueIds(orig) && NonEmptyIds(orig)
    requires IsDescent(orig, path) && path[|path| - 1] == k
    requires Pos(orig, k, |path| - 1) == Some((x, y))
    requires c < |orig| && orig[c].parentId == orig[k].id
    ensures IsDescent(orig, path + [c]) && (path + [c])[|path|] == c && |path + [c]| <= |orig|
    ensures Pos(orig, c, |path + [c]| - 1) == Some((x + ChildDX, y + Count(orig, c, orig[k].id) * ChildDY))
    ensures ParentOf(orig, c) == Some(k)
  {
    ChildNotOnPath(orig, path, c);
    PathBound(orig, path + [c]);
    ParentIsIdMatch(orig, c, k);
  }

  /** One turn of the children loop of `k` at a child `j`: the recursive call
      is allowed, gets `j`'s layout position, and completes the next stage. */
  lemma ChildStep(orig: seq<Node>, start: seq<Node>, path: seq<nat>, k: nat, f: nat, j: nat, i: nat, x: int, y: int)
    requires UniqueIds(orig) && NonEmptyIds(orig) && SameShape(start, orig)
    requires IsDescent(orig, path) && path[|path| - 1] == k && |path| <= |orig| && f == |orig| - |path| + 1
    requires Pos(orig, k, |path| - 1) == Some((x, y)) && j < |orig| && i == Count(orig, j, orig[k].id)
    requires Stage(start, orig, k, f, j)[j].parentId == Stage(start, orig, k, f, j)[k].id
    ensures SameShape(Stage(start, orig, k, f, j), orig)
    ensures IsDescent(orig, path + [j]) && (path + [j])[|path + [j]| - 1] == j && |path + [j]| <= |orig|
    ensures |orig| - |path + [j]| + 1 == f - 1
    ensures Pos(orig, j, |path + [j]| - 1) == Some((x + ChildDX, y + i * ChildDY))
    ensures ParentOf(orig, j) == Some(k) && Count(orig, j + 1, orig[k].id) == i + 1
  {
    StageShape(start, orig, k, f, j);
    ChildCall(orig, path, k, j, x, y);
  }

  /** One turn of the children loop of `k` at a node `j` that is not a child. */
  lemma SkipStep(orig: seq<Node>, start: seq<Node>, cur: seq<Node>, k: nat, f: nat, j: nat)
    requires UniqueIds(orig) && NonEmptyIds(orig) && SameShape(start, orig)
    requires k < |orig| && f >= 1 && j < |orig|
    requires cur == Stage(start, orig, k, f, j) && cur[j].parentId != cur[k].id
    ensures Count(orig, j + 1, orig[k].id) == Count(orig, j, orig[k].id)
    ensures Stage(start, orig, k, f, j + 1) == Stage(start, orig, k, f, j)
  {
    StageShape(start, orig, k, f, j);
    ParentIsIdMatch(orig, j, k);
    StageSkip(orig, start, k, f, j);
  }

  // ---------------------------------------------------------------------
  // The layout methods.

  /** positionNodeAndChildren: put node `k` at (x, y), then each child of it,
      the i-th (in sheet order) at (x + 250, y + 150 i), recursively. The ghost
      `path` is the chain of calls that led here; it bounds the recursion. On
      return exactly the subtree of `k` is at its layout position and every
      other node is as it was. */
  method PositionNodeAndChildren(nodes: array<Node>, k: nat, x: int, y: int, ghost orig: seq<Node>, ghost path: seq<nat>)
    requires SameShape(nodes[..], orig) && UniqueIds(orig) && NonEmptyIds(orig)
    requires IsDescent(orig, path) && path[|path| - 1] == k && |path| <= |orig|
    requires Pos(orig, k, |path| - 1) == Some((x, y))
    modifies nodes
    ensures nodes[..] == PlaceSubtree(old(nodes[..]), orig, k, |orig| - |path| + 1)
    decreases |orig| - |path|, 1
  {
    ghost var start := nodes[..];
    ghost var f := |orig| - |path| + 1;
    PosStable(orig, k, |path| - 1, |orig|);
    nodes[k] := nodes[k].(x := x, y := y);
    StageInit(orig, start, k, f, x, y);
    var i: nat := 0;
    var j: nat := 0;
    while j < nodes.Length
      invariant j <= nodes.Length
      invariant i == Count(orig, j, orig[k].id)
      invariant nodes[..] == Stage(start, orig, k, f, j)
    {
      if nodes[j].parentId == nodes[k].id {
        PlaceChild(nodes, k, j, i, x, y, orig, path, start, f);
        i := i + 1;
      } else {
        SkipStep(orig, start, nodes[..], k, f, j);
      }
      j := j + 1;
    }
    StageDone(orig, start, nodes[..], k, f, j);
  }

  /** The callback of the children loop: the `i`-th child `c` of `k`, which
      sits at (x, y), goes to (x + 250, y + 150 i) with its subtree, and the
      loop moves on to its next stage. */
  method PlaceChild(nodes: array<Node>, k: nat, c: nat, i: nat, x: int, y: int,
                    ghost orig: seq<Node>, ghost path: seq<nat>, ghost start: seq<Node>, ghost f: nat)
    requires UniqueIds(orig) && NonEmptyIds(orig) && SameShape(start, orig)
    requires IsDescent(orig, path) && path[|path| - 1] == k && |path| <= |orig| && f == |orig| - |path| + 1
    requires Pos(orig, k, |path| - 1) == Some((x, y)) && c < |orig| && i == Count(orig, c, orig[k].id)
    requires nodes[..] == Stage(start, orig, k, f, c) && c < nodes.Length && k < nodes.Length
    requires nodes[c].parentId == nodes[k].id
    modifies nodes
    ensures nodes[..] == Stage(start, orig, k, f, c + 1)
    ensures Count(orig, c + 1, orig[k].id) == i + 1
    decreases |orig| - |path|, 0
  {
    ChildStep(orig, start, path, k, f, c, i, x, y);
    PositionNodeAndChildren(nodes, c, x + ChildDX, y + i * ChildDY, orig, path + [c]);
    StageChild(orig, start, k, f, c);
  }

  /** A descendant of one of the first `r` roots. */
  predicate RootedBefore(d: seq<Node>, m: nat, r: nat)
    requires m < |d|
  {
    exists rho :: 0 <= rho < r && rho < |d| && d[rho].parentId == "" && Descends(d, m, rho, |d|)
  }

  /** Part way through the roots loop: the subtrees of the first `r` roots are placed. */
  function RootsDone(orig: seq<Node>, r: nat): seq<Node> {
    seq(|orig|, m requires 0 <= m < |orig| =>
      if RootedBefore(orig, m, r) then Place(orig[m], Pos(orig, m, |orig|)) else orig[m])
  }

  lemma RootsStep(orig: seq<Node>, r: nat)
    requires r < |orig| && orig[r].parentId == ""
    ensures PlaceSubtree(RootsDone(orig, r), orig, r, |orig|) == RootsDone(orig, r + 1)
  {
    var now := PlaceSubtree(RootsDone(orig, r), orig, r, |orig|);
    forall m | 0 <= m < |now|
      ensures now[m] == RootsDone(orig, r + 1)[m]
    {
      PlaceTwice(orig[m], Pos(orig, m, |orig|));
      if RootedBefore(orig, m, r + 1) && !Descends(orig, m, r, |orig|) {
        var rho :| 0 <= rho < r + 1 && rho < |orig| && orig[rho].parentId == "" && Descends(orig, m, rho, |orig|);
        assert rho < r;
      }
    }
  }

  lemma RootedBeforeSkip(orig: seq<Node>, m: nat, r: nat)
    requires m < |orig| && r < |orig| && orig[r].parentId != ""
    ensures RootedBefore(orig, m, r + 1) == RootedBefore(orig, m, r)
  {
    if RootedBefore(orig, m, r + 1) {
      var rho :| 0 <= rho < r + 1 && rho < |orig| && orig[rho].parentId == "" && Descends(orig, m, rho, |orig|);
      assert rho != r;
    }
  }

  lemma RootsSkip(orig: seq<Node>, r: nat)
    requires r < |orig| && orig[r].parentId != ""
    ensures RootsDone(orig, r + 1) == RootsDone(orig, r)
  {
    forall m | 0 <= m < |orig|
      ensures RootedBefore(orig, m, r + 1) == RootedBefore(orig, m, r)
    {
      RootedBeforeSkip(orig, m, r);
    }
  }

  lemma RootsFinished(orig: seq<Node>, cur: seq<Node>, r: nat)
    requires r == |orig| && cur == RootsDone(orig, r)
    ensures cur == Laid(orig)
  {
    forall m | 0 <= m < |orig|
      ensures RootsDone(orig, |orig|)[m] == Laid(orig)[m]
    {
      if Pos(orig, m, |orig|).Some? {
        var rho := PlacedHasRoot(orig, m, |orig|);
      }
    }
  }

  lemma RootsShape(orig: seq<Node>, r: nat)
    ensures SameShape(RootsDone(orig, r), orig)
  {
  }

  /** The call for the root `r` starts a descent path at the root's position,
      and the next root goes 200 further down. */
  lemma RootCall(orig: seq<Node>, r: nat, y: int)
    requires r < |orig| && orig[r].parentId == ""
    requires y == FirstRootY + RootGap * Count(orig, r, "")
    ensures IsDescent(orig, [r]) && [r][|[r]| - 1] == r && |[r]| <= |orig| && |orig| - |[r]| + 1 == |orig|
    ensures Pos(orig, r, |[r]| - 1) == Some((RootX, y))
    ensures y + RootGap == FirstRootY + RootGap * Count(orig, r + 1, "")
  {
    var c := Count(orig, r, "");
    assert Count(orig, r + 1, "") == c + 1;
    assert RootGap * (c + 1) == RootGap * c + RootGap;
  }

  /** A node that is not a root leaves the roots loop where it was. */
  lemma RootSkip(orig: seq<Node>, r: nat, y: int)
    requires r < |orig| && orig[r].parentId != ""
    requires y == FirstRootY + RootGap * Count(orig, r, "")
    ensures RootsDone(orig, r + 1) == RootsDone(orig, r)
    ensures y == FirstRootY + RootGap * Count(orig, r + 1, "")
  {
    RootsSkip(orig, r);
  }

  /** autoPositionNodes: place each root in sheet order at (100, y), y running
      100, 300, 500, ..., together with its subtree. */
  method AutoPositionNodes(nodes: array<Node>)
    requires UniqueIds(nodes[..]) && NonEmptyIds(nodes[..])
    modifies nodes
    ensures nodes[..] == Laid(old(nodes[..]))
  {
    ghost var orig := nodes[..];
    var y := FirstRootY;
    var r: nat := 0;
    while r < nodes.Length
      invariant r <= nodes.Length
      invariant y == FirstRootY + RootGap * Count(orig, r, "")
      invariant nodes[..] == RootsDone(orig, r)
    {
      RootsShape(orig, r);
      if nodes[r].parentId == "" {
        PlaceRoot(nodes, r, y, orig);
        y := y + RootGap;
      } else {
        RootSkip(orig, r, y);
      }
      r := r + 1;
    }
    RootsFinished(orig, nodes[..], r);
  }

  /** The callback of the roots loop: the root `r` and its subtree go to their
      places, with the root at (100, y), and the loop moves on to its next stage. */
  method PlaceRoot(nodes: array<Node>, r: nat, y: int, ghost orig: seq<Node>)
    requires UniqueIds(orig) && NonEmptyIds(orig)
    requires r < |orig| && orig[r].parentId == "" && y == FirstRootY + RootGap * Count(orig, r, "")
    requires nodes[..] == RootsDone(orig, r)
    modifies nodes
    ensures nodes[..] == RootsDone(orig, r + 1)
    ensures y + RootGap == FirstRootY + RootGap * Count(orig, r + 1, "")
  {
    RootsShape(orig, r);
    RootCall(orig, r, y);
    PositionNodeAndChildren(nodes, r, RootX, y, orig, [r]);
    RootsStep(orig, r);
  }

  /** The trigger in displayTree: some node still sits at (0, 0). */
  predicate NeedsLayout(d: seq<Node>) {
    exists m :: 0 <= m < |d| && d[m].x == 0 && d[m].y == 0
  }

  // ---------------------------------------------------------------------
  // Connector selection.

  /** A connector from the centre of node `parent` to the centre of node `child`. */
  datatype Connector = Connector(parent: nat, child: nat, x1: int, y1: int, x2: int, y2: int)

  function ConnectorFor(d: seq<Node>, m: nat): seq<Connector>
    requires m < |d|
  {
    match ParentOf(d, m)
    case None => []
    case Some(p) => [Connector(p, m, d[p].x + HalfWidth, d[p].y + HalfHeight, d[m].x + HalfWidth, d[m].y + HalfHeight)]
  }

  /** `c` joins the centre of node `c.child` to the centre of its parent. */
  predicate Joins(d: seq<Node>, c: Connector) {
    c.child < |d| && c.parent < |d| && ParentOf(d, c.child) == Some(c.parent)
    && c.x1 == d[c.parent].x + HalfWidth && c.y1 == d[c.parent].y + HalfHeight
    && c.x2 == d[c.child].x + HalfWidth && c.y2 == d[c.child].y + HalfHeight
  }

  /** The connectors of the first `n` nodes, in sheet order. */
  function ConnectionsUpTo(d: seq<Node>, n: nat): seq<Connector>
    requires n <= |d|
  {
    if n == 0 then [] else ConnectionsUpTo(d, n - 1) + ConnectorFor(d, n - 1)
  }

  /** drawConnections' choice of pairs over the whole sheet. */
  function Connections(d: seq<Node>): seq<Connector> {
    ConnectionsUpTo(d, |d|)
  }

  /** Every connector joins a node among the first `n` to its parent's centre,
      and the children come in strictly increasing sheet order, so no node has
      two connectors. */
  lemma {:induction false} ConnectionsSound(d: seq<Node>, n: nat)
    requires n <= |d|
    ensures forall q :: 0 <= q < |ConnectionsUpTo(d, n)| ==>
      ConnectionsUpTo(d, n)[q].child < n && Joins(d, ConnectionsUpTo(d, n)[q])
    ensures forall q, q' :: 0 <= q < q' < |ConnectionsUpTo(d, n)| ==>
      ConnectionsUpTo(d, n)[q].child < ConnectionsUpTo(d, n)[q'].child
  {
    if n > 0 {
      ConnectionsSound(d, n - 1);
      var prev := ConnectionsUpTo(d, n - 1);
      var cs := ConnectionsUpTo(d, n);
      assert cs == prev + ConnectorFor(d, n - 1);
      forall q | 0 <= q < |cs|
        ensures cs[q].child < n && Joins(d, cs[q])
      {
        if q < |prev| {
          assert cs[q] == prev[q];
        }
      }
      forall q, q' | 0 <= q < q' < |cs|
        ensures cs[q].child < cs[q'].child
      {
        assert cs[q] == prev[q];
        if q' < |prev| {
          assert cs[q'] == prev[q'];
        } else {
          assert cs[q'].child == n - 1;
        }
      }
    }
  }

  /** Every node among the first `n` whose parent resolves gets a connector. */
  lemma {:induction false} ConnectionsComplete(d: seq<Node>, n: nat, m: nat)
    requires m < n <= |d| && ParentOf(d, m).Some?
    ensures exists q :: 0 <= q < |ConnectionsUpTo(d, n)| && ConnectionsUpTo(d, n)[q].child == m
  {
    var prev := ConnectionsUpTo(d, n - 1);
    assert ConnectionsUpTo(d, n) == prev + ConnectorFor(d, n - 1);
    if m == n - 1 {
      assert ConnectionsUpTo(d, n)[|prev|].child == m;
    } else {
      ConnectionsComplete(d, n - 1, m);
      var q :| 0 <= q < |prev| && prev[q].child == m;
      assert ConnectionsUpTo(d, n)[q] == prev[q];
    }
  }

  /** A parent id resolves exactly when it is non-empty and some node carries
      it; the parent is then the last such node. */
  lemma ParentOfMeaning(d: seq<Node>, m: nat)
    requires m < |d|
    ensures ParentOf(d, m).Some? <==> (d[m].parentId != "" && exists p :: 0 <= p < |d| && d[p].id == d[m].parentId)
    ensures ParentOf(d, m).Some? ==>
      (ParentOf(d, m).value < |d| && d[ParentOf(d, m).value].id == d[m].parentId
       && forall p :: ParentOf(d, m).value < p < |d| ==> d[p].id != d[m].parentId)
  {
    if d[m].parentId != "" && exists p :: 0 <= p < |d| && d[p].id == d[m].parentId {
      var p :| 0 <= p < |d| && d[p].id == d[m].parentId;
      assert LastWithId(d, d[m].parentId, |d|).Some?;
    }
  }

  /** Exactly one connector per node whose parent resolves, none for any other
      node. */
  lemma ConnectionsExact(d: seq<Node>, m: nat)
    requires m < |d|
    ensures (exists q :: 0 <= q < |Connections(d)| && Connections(d)[q].child == m) <==> ParentOf(d, m).Some?
    ensures forall q, q' ::
      (0 <= q < |Connections(d)| && 0 <= q' < |Connections(d)|
       && Connections(d)[q].child == m && Connections(d)[q'].child == m) ==> q == q'
  {
    var cs := Connections(d);
    ConnectionsSound(d, |d|);
    if ParentOf(d, m).Some? {
      ConnectionsComplete(d, |d|, m);
    }
    if exists q :: 0 <= q < |cs| && cs[q].child == m {
      var q :| 0 <= q < |cs| && cs[q].child == m;
      assert Joins(d, cs[q]);
    }
  }

  /** displayTree: lay the sheet out when some node sits at (0, 0), then pick
      the connectors from the resulting coordinates. Unique, non-empty ids are
      needed only when layout runs. */
  method DisplayTree(nodes: array<Node>) returns (cs: seq<Connector>)
    requires NeedsLayout(nodes[..]) ==> UniqueIds(nodes[..]) && NonEmptyIds(nodes[..])
    modifies nodes
    ensures nodes[..] == if NeedsLayout(old(nodes[..])) then Laid(old(nodes[..])) else old(nodes[..])
    ensures cs == Connections(nodes[..])
  {
    if NeedsLayout(nodes[..]) {
      AutoPositionNodes(nodes);
    }
    cs := Connections(nodes[..]);
  }
}
