/** What the menu forest holds, the breadcrumb walk `PathTo`, and the loops of `BuildTree`. */
module MenuForest {
  import opened Sets
  import opened Sequences
  import opened Wrappers
  import opened MenuTree

  // ----- every grounded row once -----

  /** The Components of a node and its descendants, parents first. */
  function Flatten(n: MenuTreeNode): seq<string> { [n.component] + FlattenAll(n.children) }

  function FlattenAll(ns: seq<MenuTreeNode>): seq<string> {
    if ns == [] then [] else Flatten(ns[0]) + FlattenAll(ns[1..])
  }

  function Count(s: seq<string>, c: string): nat { multiset(s)[c] }

  lemma CountSplits(a: seq<string>, b: seq<string>, c: string)
    ensures Count(a + b, c) == Count(a, c) + Count(b, c)
  {
  }

  /** Whether chain q runs through the end of `path` into one of `kids`. */
  predicate Through(q: seq<nat>, path: seq<nat>, kids: seq<nat>) { path < q && q[|path|] in kids }

  lemma {:induction false} CountOn(menus: seq<Menu>, path: seq<nat>, q: seq<nat>)
    requires Distinct(menus) && NoLoops(menus) && Chain(menus, path) && Chain(menus, q)
    ensures Count(Flatten(Subtree(menus, path)), menus[q[|q| - 1]].component) == if path <= q then 1 else 0
    decreases |menus| - |path|, 1, 0
  {
    var i, c := path[|path| - 1], menus[q[|q| - 1]].component;
    var kids := Kids(menus, i);
    KidsListed(menus, i);
    CountOnKids(menus, path, kids, q);
    CountSplits([menus[i].component], FlattenAll(Subtrees(menus, path, kids)), c);
    if menus[i].component == c {
      SameRow(menus, i, q[|q| - 1]);
      ChainUnique(menus, path, q);
    }
    if path < q {
      assert IsKid(menus, q[|path| - 1], q[|path|]);
    }
  }

  lemma {:induction false} CountOnKids(menus: seq<Menu>, path: seq<nat>, kids: seq<nat>, q: seq<nat>)
    requires Distinct(menus) && NoLoops(menus) && Chain(menus, path) && Chain(menus, q)
    requires KidsOf(menus, path, kids) && Simple(kids)
    ensures Count(FlattenAll(Subtrees(menus, path, kids)), menus[q[|q| - 1]].component)
         == if Through(q, path, kids) then 1 else 0
    decreases |menus| - |path|, 0, |kids|
  {
    if kids != [] {
      var c := menus[q[|q| - 1]].component;
      CountOnOne(menus, path, kids[0], q);
      assert KidsOf(menus, path, kids[1..]) && Simple(kids[1..]);
      CountOnKids(menus, path, kids[1..], q);
      CountSplits(Flatten(Subtree(menus, path + [kids[0]])), FlattenAll(Subtrees(menus, path, kids[1..])), c);
    }
  }

  lemma {:induction false} CountOnOne(menus: seq<Menu>, path: seq<nat>, kid: nat, q: seq<nat>)
    requires Distinct(menus) && NoLoops(menus) && Chain(menus, path) && Chain(menus, q)
    requires IsKid(menus, path[|path| - 1], kid)
    ensures Chain(menus, path + [kid])
    ensures Count(Flatten(Subtree(menus, path + [kid])), menus[q[|q| - 1]].component)
         == if path < q && q[|path|] == kid then 1 else 0
    decreases |menus| - |path|, 0, 0
  {
    var longer := path + [kid];
    ChainExtends(menus, path, kid);
    ChainFits(menus, longer);
    CountOn(menus, longer, q);
    assert longer <= q <==> path < q && q[|path|] == kid;
  }

  lemma {:induction false} CountOff(menus: seq<Menu>, path: seq<nat>, j: nat)
    requires Distinct(menus) && NoLoops(menus) && Chain(menus, path) && j < |menus| && !Grounded(menus, j)
    ensures Count(Flatten(Subtree(menus, path)), menus[j].component) == 0
    decreases |menus| - |path|, 1, 0
  {
    var i := path[|path| - 1];
    var kids := Kids(menus, i);
    CountOffKids(menus, path, kids, j);
    CountSplits([menus[i].component], FlattenAll(Subtrees(menus, path, kids)), menus[j].component);
    assert Grounded(menus, i);
  }

  lemma {:induction false} CountOffKids(menus: seq<Menu>, path: seq<nat>, kids: seq<nat>, j: nat)
    requires Distinct(menus) && NoLoops(menus) && Chain(menus, path) && j < |menus| && !Grounded(menus, j)
    requires KidsOf(menus, path, kids)
    ensures Count(FlattenAll(Subtrees(menus, path, kids)), menus[j].component) == 0
    decreases |menus| - |path|, 0, |kids|
  {
    if kids != [] {
      var longer := path + [kids[0]];
      ChainExtends(menus, path, kids[0]);
      ChainFits(menus, longer);
      CountOff(menus, longer, j);
      assert KidsOf(menus, path, kids[1..]);
      CountOffKids(menus, path, kids[1..], j);
      CountSplits(Flatten(Subtree(menus, longer)), FlattenAll(Subtrees(menus, path, kids[1..])), menus[j].component);
    }
  }

  lemma {:induction false} CountTrees(menus: seq<Menu>, roots: seq<nat>, j: nat)
    requires Distinct(menus) && NoLoops(menus) && j < |menus| && Simple(roots)
    requires forall k | 0 <= k < |roots| :: roots[k] < |menus| && IsRoot(menus, roots[k])
    ensures var n := Count(FlattenAll(Trees(menus, roots)), menus[j].component);
            && (!Grounded(menus, j) ==> n == 0)
            && forall q: seq<nat> | Chain(menus, q) && q[|q| - 1] == j :: n == if q[0] in roots then 1 else 0
    decreases |roots|
  {
    if roots != [] {
      var c := menus[j].component;
      CountTrees(menus, roots[1..], j);
      CountSplits(Flatten(Subtree(menus, [roots[0]])), FlattenAll(Trees(menus, roots[1..])), c);
      if !Grounded(menus, j) { CountOff(menus, [roots[0]], j); }
      forall q: seq<nat> | Chain(menus, q) && q[|q| - 1] == j
        ensures Count(FlattenAll(Trees(menus, roots)), c) == if q[0] in roots then 1 else 0
      {
        CountOn(menus, [roots[0]], q);
        assert [roots[0]] <= q <==> q[0] == roots[0];
      }
    }
  }

  /** With distinct Components the forest holds exactly once each row whose chain of parents
      reaches an empty or missing one, and no other row. */
  lemma ForestConserves(menus: seq<Menu>, j: nat)
    requires Distinct(menus) && j < |menus|
    ensures NoLoops(menus)
    ensures Count(FlattenAll(Forest(menus)), menus[j].component) == if Grounded(menus, j) then 1 else 0
  {
    DistinctNoLoops(menus);
    RootsListed(menus, |menus|);
    CountTrees(menus, RootsUpTo(menus, |menus|), j);
    if Grounded(menus, j) {
      var q: seq<nat> :| Chain(menus, q) && q[|q| - 1] == j;
      assert q[0] in RootsUpTo(menus, |menus|);
    }
  }

  /** A node carries its row's columns, and its children are the rows filed under that one,
      in table order. */
  ghost predicate Shows(menus: seq<Menu>, n: MenuTreeNode, i: nat) {
    && i < |menus|
    && n.component == menus[i].component && n.title == menus[i].title && n.uri == menus[i].uri
    && n.icon == menus[i].icon && n.hidden == menus[i].hidden && n.public == menus[i].public
    && |n.children| == |Kids(menus, i)|
    && forall k | 0 <= k < |n.children| :: n.children[k].component == menus[Kids(menus, i)[k]].component
  }

  ghost predicate AllShow(menus: seq<Menu>, ns: seq<MenuTreeNode>) {
    ns == [] || ((exists i :: Shows(menus, ns[0], i)) && AllShow(menus, ns[0].children) && AllShow(menus, ns[1..]))
  }

  lemma {:induction false} SubtreeShows(menus: seq<Menu>, path: seq<nat>)
    requires NoLoops(menus) && Chain(menus, path)
    ensures Shows(menus, Subtree(menus, path), path[|path| - 1]) && AllShow(menus, Subtree(menus, path).children)
    decreases |menus| - |path|, 1, 0
  {
    var kids := Kids(menus, path[|path| - 1]);
    SubtreesShow(menus, path, kids);
    forall k | 0 <= k < |kids| ensures Subtrees(menus, path, kids)[k].component == menus[kids[k]].component {
      SubtreesAt(menus, path, kids, k);
    }
  }

  lemma {:induction false} SubtreesShow(menus: seq<Menu>, path: seq<nat>, kids: seq<nat>)
    requires NoLoops(menus) && Chain(menus, path) && KidsOf(menus, path, kids)
    ensures AllShow(menus, Subtrees(menus, path, kids))
    decreases |menus| - |path|, 0, |kids|
  {
    if kids != [] {
      var longer := path + [kids[0]];
      ChainExtends(menus, path, kids[0]);
      ChainFits(menus, longer);
      assert KidsOf(menus, path, kids[1..]);
      SubtreeShows(menus, longer);
      SubtreesShow(menus, path, kids[1..]);
    }
  }

  lemma {:induction false} TreesShow(menus: seq<Menu>, roots: seq<nat>)
    requires NoLoops(menus) && forall k | 0 <= k < |roots| :: roots[k] < |menus| && IsRoot(menus, roots[k])
    ensures AllShow(menus, Trees(menus, roots))
    decreases |roots|
  {
    if roots != [] {
      SubtreeShows(menus, [roots[0]]);
      TreesShow(menus, roots[1..]);
    }
  }

  /** Every node of the forest shows a row, whatever the table. */
  lemma ForestShows(menus: seq<Menu>)
    requires NoLoops(menus)
    ensures AllShow(menus, Forest(menus))
  {
    TreesShow(menus, RootsUpTo(menus, |menus|));
  }

  lemma {:induction false} ShownPresent(menus: seq<Menu>, ns: seq<MenuTreeNode>, c: string)
    requires AllShow(menus, ns) && c in FlattenAll(ns)
    ensures Present(menus, c)
    decreases ns
  {
    if c in FlattenAll(ns[0].children) {
      ShownPresent(menus, ns[0].children, c);
    } else if c in FlattenAll(ns[1..]) {
      ShownPresent(menus, ns[1..], c);
    } else {
      var i :| Shows(menus, ns[0], i);
    }
  }

  function Components(menus: seq<Menu>): (r: seq<string>)
    ensures |r| == |menus| && forall i | 0 <= i < |menus| :: r[i] == menus[i].component
  {
    seq(|menus|, i requires 0 <= i < |menus| => menus[i].component)
  }

  /** Parents always rank below their children: no cycle of parent links. */
  ghost predicate Acyclic(menus: seq<Menu>, rank: string -> nat) {
    forall i | 0 <= i < |menus| && !IsRoot(menus, i) :: rank(menus[i].parent) < rank(menus[i].component)
  }

  lemma {:induction false} AcyclicGrounded(menus: seq<Menu>, rank: string -> nat, i: nat)
    requires Acyclic(menus, rank) && i < |menus|
    ensures Grounded(menus, i)
    decreases rank(menus[i].component)
  {
    if IsRoot(menus, i) {
      assert Chain(menus, [i]);
      assert [i][|[i]| - 1] == i;
    } else {
      var p :| 0 <= p < |menus| && menus[p].component == menus[i].parent;
      AcyclicGrounded(menus, rank, p);
      var path: seq<nat> :| Chain(menus, path) && path[|path| - 1] == p;
      ChainExtends(menus, path, i);
      assert (path + [i])[|path + [i]| - 1] == i;
    }
  }

  lemma {:induction false} DistinctCount(s: seq<string>, c: string)
    requires Simple(s)
    ensures Count(s, c) == if c in s then 1 else 0
    decreases |s|
  {
    if s != [] {
      assert s == [s[0]] + s[1..];
      CountSplits([s[0]], s[1..], c);
      DistinctCount(s[1..], c);
    }
  }

  ghost predicate AllGrounded(menus: seq<Menu>) { forall i | 0 <= i < |menus| :: Grounded(menus, i) }

  /** With distinct Components nothing is lost, and the forest is a permutation of the table,
      exactly when every row's chain of parents reaches an empty or missing one. */
  lemma PermutesExactly(menus: seq<Menu>)
    requires Distinct(menus)
    ensures NoLoops(menus)
    ensures multiset(FlattenAll(Forest(menus))) == multiset(Components(menus)) <==> AllGrounded(menus)
  {
    DistinctNoLoops(menus);
    if AllGrounded(menus) {
      forall c ensures multiset(FlattenAll(Forest(menus)))[c] == multiset(Components(menus))[c] { CountsAgree(menus, c); }
    } else {
      var j :| 0 <= j < |menus| && !Grounded(menus, j);
      ForestConserves(menus, j);
      assert Simple(Components(menus));
      DistinctCount(Components(menus), menus[j].component);
      assert menus[j].component == Components(menus)[j];
    }
  }

  lemma CountsAgree(menus: seq<Menu>, c: string)
    requires Distinct(menus) && NoLoops(menus) && AllGrounded(menus)
    ensures Count(FlattenAll(Forest(menus)), c) == Count(Components(menus), c)
  {
    assert Simple(Components(menus));
    DistinctCount(Components(menus), c);
    if j :| 0 <= j < |menus| && menus[j].component == c {
      assert c == Components(menus)[j];
      ForestConserves(menus, j);
    } else if c in FlattenAll(Forest(menus)) {
      ForestShows(menus);
      ShownPresent(menus, Forest(menus), c);
    }
  }

  ghost predicate Ends(menus: seq<Menu>, path: seq<nat>, c: string) {
    Chain(menus, path) && menus[path[|path| - 1]].component == c
  }

  /** How far below a root the row of that Component sits. */
  ghost function Depth(menus: seq<Menu>, c: string): nat {
    if path: seq<nat> :| Ends(menus, path, c) then |path| else 0
  }

  lemma DepthIs(menus: seq<Menu>, path: seq<nat>)
    requires Distinct(menus) && Chain(menus, path)
    ensures Depth(menus, menus[path[|path| - 1]].component) == |path|
  {
    var c := menus[path[|path| - 1]].component;
    assert Ends(menus, path, c);
    forall q: seq<nat> | Ends(menus, q, c) ensures q == path {
      SameRow(menus, q[|q| - 1], path[|path| - 1]);
      ChainUnique(menus, q, path);
    }
  }

  /** With distinct Components, the parent links have no cycle exactly when every row is grounded:
      so acyclic tables, and only those, give permutations. */
  lemma AcyclicPermutes(menus: seq<Menu>)
    requires Distinct(menus)
    ensures NoLoops(menus)
    ensures (exists rank :: Acyclic(menus, rank)) <==> multiset(FlattenAll(Forest(menus))) == multiset(Components(menus))
  {
    PermutesExactly(menus);
    if rank :| Acyclic(menus, rank) {
      forall i | 0 <= i < |menus| ensures Grounded(menus, i) { AcyclicGrounded(menus, rank, i); }
    }
    if AllGrounded(menus) { GroundedAcyclic(menus); }
  }

  lemma GroundedAcyclic(menus: seq<Menu>)
    requires Distinct(menus) && AllGrounded(menus)
    ensures Acyclic(menus, c => Depth(menus, c))
  {
    forall i | 0 <= i < |menus| && !IsRoot(menus, i)
      ensures Depth(menus, menus[i].parent) < Depth(menus, menus[i].component)
    {
      assert Grounded(menus, i);
      var path: seq<nat> :| Chain(menus, path) && path[|path| - 1] == i;
      DepthIs(menus, path);
      ChainEnd(menus, path);
      DepthIs(menus, path[..|path| - 1]);
    }
  }

  // ----- the breadcrumb -----

  function Names(menus: seq<Menu>, path: seq<nat>): (r: seq<string>)
    requires forall k | 0 <= k < |path| :: path[k] < |menus|
    ensures |r| == |path| && forall k | 0 <= k < |path| :: r[k] == menus[path[k]].component
  {
    seq(|path|, k requires 0 <= k < |path| => menus[path[k]].component)
  }

  /** The first row of that Component in primary-key order; the table's length if none. */
  function FirstWith(menus: seq<Menu>, component: string): (i: nat)
    ensures i <= |menus| && (i < |menus| ==> menus[i].component == component)
    ensures forall j | 0 <= j < i :: menus[j].component != component
  {
    FirstIndex(menus, (m: Menu) => m.component == component)
  }

  /** The Components above `cur`, itself included, not yet visited. */
  function Walk(menus: seq<Menu>, visited: set<string>, cur: string): seq<string>
    decreases Elements(Components(menus)) - visited
  {
    if cur == "" || cur in visited || FirstWith(menus, cur) == |menus| then []
    else
      var p := FirstWith(menus, cur);
      assert cur == Components(menus)[p];
      Walk(menus, visited + {cur}, menus[p].parent) + [menus[p].component]
  }

  function FirstWithId(menus: seq<Menu>, id: nat): (i: nat)
    ensures i <= |menus| && (i < |menus| ==> menus[i].id == id) && forall j | 0 <= j < i :: menus[j].id != id
  {
    FirstIndex(menus, (m: Menu) => m.id == id)
  }

  function Breadcrumb(menus: seq<Menu>, i: nat): seq<string>
    requires i < |menus|
  {
    Walk(menus, {menus[i].component}, menus[i].parent) + [menus[i].component]
  }

  /** None is the error of a missing start row. */
  method PathTo(menus: seq<Menu>, id: nat) returns (r: Option<seq<string>>)
    ensures var i := FirstWithId(menus, id);
            r == if i == |menus| then None else Some(Breadcrumb(menus, i))
  {
    var i := FirstWithId(menus, id);
    if i == |menus| {
      return None;
    }
    var start := menus[i];
    var path := [start.component];
    var visited := {start.component};
    var cur := start.parent;
    ghost var result := Breadcrumb(menus, i);
    while cur != ""
      invariant result == Walk(menus, visited, cur) + path
      decreases Elements(Components(menus)) - visited
    {
      WalkEnds(menus, visited, cur, path);
      if cur in visited {
        break;
      }
      visited := visited + {cur};
      var p := FirstWith(menus, cur);
      if p == |menus| {
        break;
      }
      Prepends(Walk(menus, visited, menus[p].parent), menus[p].component, path);
      assert cur == Components(menus)[p];
      path := [menus[p].component] + path;
      cur := menus[p].parent;
    }
    WalkEnds(menus, visited, cur, path);
    return Some(path);
  }

  lemma WalkEnds(menus: seq<Menu>, visited: set<string>, cur: string, path: seq<string>)
    ensures cur == "" || cur in visited || FirstWith(menus, cur) == |menus| ==> Walk(menus, visited, cur) + path == path
  {
  }

  lemma Prepends(above: seq<string>, component: string, path: seq<string>)
    ensures above + [component] + path == above + ([component] + path)
  {
  }

  /** Whatever the table, cycles included: no Component repeats and the start row comes last. */
  lemma {:induction false} WalkSimple(menus: seq<Menu>, visited: set<string>, cur: string)
    ensures Simple(Walk(menus, visited, cur)) && forall c | c in Walk(menus, visited, cur) :: c !in visited
    decreases Elements(Components(menus)) - visited
  {
    if cur != "" && cur !in visited && FirstWith(menus, cur) < |menus| {
      var p := FirstWith(menus, cur);
      assert cur == Components(menus)[p];
      WalkSimple(menus, visited + {cur}, menus[p].parent);
    }
  }

  lemma PathToSimple(menus: seq<Menu>, i: nat)
    requires i < |menus|
    ensures Simple(Breadcrumb(menus, i)) && Breadcrumb(menus, i)[|Breadcrumb(menus, i)| - 1] == menus[i].component
  {
    WalkSimple(menus, {menus[i].component}, menus[i].parent);
  }

  /** The row is the first of that Component. */
  ghost predicate FirstOf(menus: seq<Menu>, i: nat, component: string) {
    i < |menus| && menus[i].component == component && forall j | 0 <= j < i :: menus[j].component != component
  }

  /** Rows from the top of a walk down, each the first that the next one's parent link names. */
  ghost predicate Climbed(menus: seq<Menu>, rows: seq<nat>) {
    && (forall k | 0 <= k < |rows| :: rows[k] < |menus|)
    && forall k | 0 < k < |rows| :: menus[rows[k]].parent != "" && FirstOf(menus, rows[k - 1], menus[rows[k]].parent)
  }

  /** The link leads nowhere: it is empty, no row has that Component, or it was passed already. */
  ghost predicate Stops(menus: seq<Menu>, link: string, passed: set<string>) {
    link == "" || (forall m | m in menus :: m.component != link) || link in passed
  }

  lemma {:induction false} WalkExact(menus: seq<Menu>, visited: set<string>, cur: string) returns (rows: seq<nat>)
    ensures Climbed(menus, rows) && Walk(menus, visited, cur) == Names(menus, rows)
    ensures rows == [] ==> Stops(menus, cur, visited)
    ensures rows != [] ==> cur != "" && FirstOf(menus, rows[|rows| - 1], cur)
    ensures rows != [] ==> Stops(menus, menus[rows[0]].parent, visited + Elements(Names(menus, rows)))
    decreases Elements(Components(menus)) - visited
  {
    rows := [];
    if cur == "" || cur in visited {
    } else if FirstWith(menus, cur) == |menus| {
      assert forall m | m in menus :: m.component != cur;
    } else {
      var p := FirstWith(menus, cur);
      assert cur == Components(menus)[p];
      var above := WalkExact(menus, visited + {cur}, menus[p].parent);
      rows := above + [p];
      RowsAbove(menus, above, p);
      StopsAbove(menus, visited, cur, p, above);
    }
  }

  lemma StopsAbove(menus: seq<Menu>, visited: set<string>, cur: string, p: nat, above: seq<nat>)
    requires Climbed(menus, above) && p < |menus| && menus[p].component == cur
    requires above == [] ==> Stops(menus, menus[p].parent, visited + {cur})
    requires above != [] ==> Stops(menus, menus[above[0]].parent, visited + {cur} + Elements(Names(menus, above)))
    ensures Stops(menus, menus[(above + [p])[0]].parent, visited + Elements(Names(menus, above) + [cur]))
  {
    ElementsSnoc(Names(menus, above), cur);
    assert visited + (Elements(Names(menus, above)) + {cur}) == visited + {cur} + Elements(Names(menus, above));
    if above != [] { assert (above + [p])[0] == above[0]; }
  }

  lemma ElementsSnoc(names: seq<string>, c: string)
    ensures Elements(names + [c]) == Elements(names) + {c}
  {
    assert forall x :: x in names + [c] <==> x in names || x == c;
  }

  lemma RowsAbove(menus: seq<Menu>, above: seq<nat>, p: nat)
    requires Climbed(menus, above) && p < |menus|
    requires above != [] ==> menus[p].parent != "" && FirstOf(menus, above[|above| - 1], menus[p].parent)
    ensures Climbed(menus, above + [p]) && Names(menus, above + [p]) == Names(menus, above) + [menus[p].component]
  {
  }

  /** On every table, with cycles or repeated Components too, the breadcrumb climbs from the row
      to the first row its parent link names, and so on, until a link leads nowhere. */
  lemma BreadcrumbExact(menus: seq<Menu>, i: nat) returns (rows: seq<nat>)
    requires i < |menus|
    ensures rows != [] && rows[|rows| - 1] == i && Climbed(menus, rows)
    ensures |Breadcrumb(menus, i)| == |rows|
    ensures forall k | 0 <= k < |rows| :: Breadcrumb(menus, i)[k] == menus[rows[k]].component
    ensures Stops(menus, menus[rows[0]].parent, set k | 0 <= k < |rows| :: Breadcrumb(menus, i)[k])
  {
    var c := menus[i].component;
    var above := WalkExact(menus, {c}, menus[i].parent);
    rows := above + [i];
    RowsAbove(menus, above, i);
    var names := Breadcrumb(menus, i);
    assert names == Names(menus, above) + [c];
    assert names[|above|] == c;
    forall x | x in {c} + Elements(Names(menus, above)) ensures x in (set k | 0 <= k < |rows| :: names[k]) {
      if x != c {
        var k :| 0 <= k < |above| && Names(menus, above)[k] == x;
        assert names[k] == x;
      }
    }
  }

  lemma {:induction false} WalkIsChain(menus: seq<Menu>, visited: set<string>, q: seq<nat>)
    requires Distinct(menus) && Chain(menus, q)
    requires forall k | 0 <= k < |q| - 1 :: menus[q[k]].component !in visited
    ensures Walk(menus, visited, menus[q[|q| - 1]].parent) == Names(menus, q[..|q| - 1])
    decreases |q|
  {
    ChainEnd(menus, q);
    var front, cur := q[..|q| - 1], menus[q[|q| - 1]].parent;
    if |q| > 1 {
      ParentFound(menus, q);
      ChainNamesDiffer(menus, front);
      WalkIsChain(menus, visited + {cur}, front);
      NamesSnoc(menus, front);
    }
  }

  lemma ParentFound(menus: seq<Menu>, q: seq<nat>)
    requires Distinct(menus) && Chain(menus, q) && |q| > 1
    ensures var cur := menus[q[|q| - 1]].parent;
            cur != "" && FirstWith(menus, cur) == q[|q| - 2] && menus[q[|q| - 2]].component == cur
  {
    ChainEnd(menus, q);
    SameRow(menus, FirstWith(menus, menus[q[|q| - 1]].parent), q[|q| - 2]);
  }

  lemma NamesSnoc(menus: seq<Menu>, q: seq<nat>)
    requires q != [] && forall k | 0 <= k < |q| :: q[k] < |menus|
    ensures Names(menus, q) == Names(menus, q[..|q| - 1]) + [menus[q[|q| - 1]].component]
  {
  }

  lemma ChainNamesDiffer(menus: seq<Menu>, q: seq<nat>)
    requires Distinct(menus) && Chain(menus, q)
    ensures forall k | 0 <= k < |q| - 1 :: menus[q[k]].component != menus[q[|q| - 1]].component
  {
    DistinctNoLoops(menus);
    assert Simple(q);
    forall k | 0 <= k < |q| - 1 ensures menus[q[k]].component != menus[q[|q| - 1]].component {
      assert q[k] != q[|q| - 1];
    }
  }

  /** A way down the forest from a root node: one Component per node passed. */
  ghost predicate Occurs(ns: seq<MenuTreeNode>, names: seq<string>)
    decreases |names|
  {
    names != [] && exists k :: 0 <= k < |ns| && ns[k].component == names[0] &&
                               (|names| == 1 || Occurs(ns[k].children, names[1..]))
  }

  lemma {:induction false} SubtreesAt(menus: seq<Menu>, path: seq<nat>, kids: seq<nat>, k: nat)
    requires NoLoops(menus) && Chain(menus, path) && KidsOf(menus, path, kids) && k < |kids|
    ensures Chain(menus, path + [kids[k]])
    ensures Subtrees(menus, path, kids)[k] == Subtree(menus, path + [kids[k]])
    decreases |kids|
  {
    ChainExtends(menus, path, kids[k]);
    if k > 0 {
      assert KidsOf(menus, path, kids[1..]);
      SubtreesAt(menus, path, kids[1..], k - 1);
    }
  }

  lemma {:induction false} TreesAt(menus: seq<Menu>, roots: seq<nat>, k: nat)
    requires NoLoops(menus) && k < |roots|
    requires forall r | 0 <= r < |roots| :: roots[r] < |menus| && IsRoot(menus, roots[r])
    ensures Trees(menus, roots)[k] == Subtree(menus, [roots[k]])
    decreases |roots|
  {
    if k > 0 {
      TreesAt(menus, roots[1..], k - 1);
    }
  }

  lemma OccursAt(ns: seq<MenuTreeNode>, k: nat, names: seq<string>)
    requires k < |ns| && names != [] && ns[k].component == names[0]
    requires |names| == 1 || Occurs(ns[k].children, names[1..])
    ensures Occurs(ns, names)
  {
  }

  lemma KidAt(menus: seq<Menu>, path: seq<nat>, kid: nat) returns (k: nat)
    requires NoLoops(menus) && Chain(menus, path) && IsKid(menus, path[|path| - 1], kid)
    ensures Chain(menus, path + [kid])
    ensures var ns := Subtree(menus, path).children; k < |ns| && ns[k] == Subtree(menus, path + [kid])
  {
    var i := path[|path| - 1];
    KidsListed(menus, i);
    k :| 0 <= k < |Kids(menus, i)| && Kids(menus, i)[k] == kid;
    SubtreesAt(menus, path, Kids(menus, i), k);
  }

  lemma {:induction false} ChainOccurs(menus: seq<Menu>, path: seq<nat>, q: seq<nat>)
    requires NoLoops(menus) && Chain(menus, path) && Chain(menus, q) && path < q
    ensures Occurs(Subtree(menus, path).children, Names(menus, q[|path|..]))
    decreases |q| - |path|
  {
    var kid := q[|path|];
    assert IsKid(menus, q[|path| - 1], kid);
    var k := KidAt(menus, path, kid);
    var names := Names(menus, q[|path|..]);
    if |q| > |path| + 1 {
      ChainOccurs(menus, path + [kid], q);
      assert names[1..] == Names(menus, q[|path| + 1..]);
    }
    OccursAt(Subtree(menus, path).children, k, names);
  }

  lemma NamesCons(menus: seq<Menu>, q: seq<nat>, n: nat)
    requires n < |q| && forall k | 0 <= k < |q| :: q[k] < |menus|
    ensures Names(menus, q[n..]) == [menus[q[n]].component] + Names(menus, q[n + 1..])
  {
  }

  lemma {:induction false} OccursChain(menus: seq<Menu>, path: seq<nat>, names: seq<string>) returns (q: seq<nat>)
    requires NoLoops(menus) && Chain(menus, path) && Occurs(Subtree(menus, path).children, names)
    ensures Chain(menus, q) && path < q && Names(menus, q[|path|..]) == names
    decreases |names|
  {
    var kids := Kids(menus, path[|path| - 1]);
    var ns := Subtrees(menus, path, kids);
    var k :| 0 <= k < |ns| && ns[k].component == names[0] && (|names| == 1 || Occurs(ns[k].children, names[1..]));
    SubtreesAt(menus, path, kids, k);
    q := path + [kids[k]];
    if |names| > 1 {
      q := OccursChain(menus, path + [kids[k]], names[1..]);
      NamesCons(menus, q, |path|);
    }
  }

  lemma BreadcrumbIsChain(menus: seq<Menu>, q: seq<nat>)
    requires Distinct(menus) && Chain(menus, q)
    ensures Breadcrumb(menus, q[|q| - 1]) == Names(menus, q)
  {
    var i := q[|q| - 1];
    ChainNamesDiffer(menus, q);
    WalkIsChain(menus, {menus[i].component}, q);
    assert q == q[..|q| - 1] + [i];
  }

  /** The two implementations agree: with distinct Components the breadcrumbs of the rows
      that appear in the tree are the ways down the tree, no more and no fewer. */
  lemma BreadcrumbsAreTreePaths(menus: seq<Menu>, names: seq<string>)
    requires Distinct(menus)
    ensures NoLoops(menus)
    ensures Occurs(Forest(menus), names)
       <==> exists i :: 0 <= i < |menus| && Grounded(menus, i) && Breadcrumb(menus, i) == names
  {
    DistinctNoLoops(menus);
    var roots := RootsUpTo(menus, |menus|);
    if i :| 0 <= i < |menus| && Grounded(menus, i) && Breadcrumb(menus, i) == names {
      var q: seq<nat> :| Chain(menus, q) && q[|q| - 1] == i;
      BreadcrumbIsChain(menus, q);
      ChainInForest(menus, q);
    }
    if Occurs(Forest(menus), names) {
      var q := ForestChain(menus, names);
      BreadcrumbIsChain(menus, q);
      assert Grounded(menus, q[|q| - 1]);
    }
  }

  lemma ChainInForest(menus: seq<Menu>, q: seq<nat>)
    requires NoLoops(menus) && Chain(menus, q)
    ensures Occurs(Forest(menus), Names(menus, q))
  {
    var roots := RootsUpTo(menus, |menus|);
    RootsListed(menus, |menus|);
    var k :| 0 <= k < |roots| && roots[k] == q[0];
    TreesAt(menus, roots, k);
    if |q| > 1 {
      ChainCut(menus, q, 1);
      assert q[..1] == [q[0]];
      ChainOccurs(menus, [q[0]], q);
      assert Names(menus, q)[1..] == Names(menus, q[1..]);
    }
    assert Forest(menus)[k].component == Names(menus, q)[0];
  }

  lemma ForestChain(menus: seq<Menu>, names: seq<string>) returns (q: seq<nat>)
    requires NoLoops(menus) && Occurs(Forest(menus), names)
    ensures Chain(menus, q) && Names(menus, q) == names
  {
    var roots, ns := RootsUpTo(menus, |menus|), Forest(menus);
    var k :| 0 <= k < |ns| && ns[k].component == names[0] && (|names| == 1 || Occurs(ns[k].children, names[1..]));
    TreesAt(menus, roots, k);
    q := [roots[k]];
    if |names| > 1 {
      q := OccursChain(menus, [roots[k]], names[1..]);
      assert Names(menus, q) == [names[0]] + Names(menus, q[1..]);
    }
  }

  // ----- the loops that build it -----

  type Index = map<string, nat>
  type Files = map<string, seq<nat>>

  function FileOf(files: Files, component: string): seq<nat> {
    if component in files then files[component] else []
  }

  ghost predicate FilesOk(menus: seq<Menu>, files: Files, n: nat)
    requires n <= |menus|
  {
    forall c :: FileOf(files, c) == Filed(menus, c, n)
  }

  method IndexComponents(menus: seq<Menu>) returns (byComponent: Index)
    ensures forall c :: c in byComponent <==> Present(menus, c)
  {
    byComponent := map[];
    for i := 0 to |menus|
      invariant forall c :: c in byComponent <==> exists j :: 0 <= j < i && menus[j].component == c
    {
      byComponent := byComponent[menus[i].component := i];
    }
  }

  lemma FileStep(menus: seq<Menu>, files: Files, i: nat)
    requires i < |menus| && FilesOk(menus, files, i)
    ensures var p := menus[i].parent;
            FilesOk(menus, if p == "" || !Present(menus, p) then files else files[p := FileOf(files, p) + [i]], i + 1)
  {
    var p := menus[i].parent;
    var files' := if p == "" || !Present(menus, p) then files else files[p := FileOf(files, p) + [i]];
    forall c ensures FileOf(files', c) == Filed(menus, c, i + 1) {
      assert FileOf(files, c) == Filed(menus, c, i);
      assert ChildrenUpTo(menus, c, i + 1) == ChildrenUpTo(menus, c, i) + (if p == c then [i] else []);
    }
  }

  lemma FilesEmpty(menus: seq<Menu>)
    ensures FilesOk(menus, map[], 0)
  {
  }

  method FileChildren(menus: seq<Menu>, byComponent: Index) returns (children: Files)
    requires forall c :: c in byComponent <==> Present(menus, c)
    ensures FilesOk(menus, children, |menus|)
  {
    children := map[];
    FilesEmpty(menus);
    for i := 0 to |menus|
      invariant FilesOk(menus, children, i)
    {
      var m := menus[i];
      FileStep(menus, children, i);
      if m.parent !in byComponent || m.parent == "" {
        continue;
      }
      children := children[m.parent := FileOf(children, m.parent) + [i]];
    }
  }

  lemma RootStep(menus: seq<Menu>, i: nat)
    requires NoLoops(menus) && i < |menus|
    ensures Trees(menus, RootsUpTo(menus, i + 1))
         == Trees(menus, RootsUpTo(menus, i)) + (if IsRoot(menus, i) then [Subtree(menus, [i])] else [])
  {
    if IsRoot(menus, i) {
      TreesAppend(menus, RootsUpTo(menus, i), i);
    } else {
      assert RootsUpTo(menus, i + 1) == RootsUpTo(menus, i);
    }
  }

  method BuildTree(menus: seq<Menu>) returns (roots: seq<MenuTreeNode>)
    requires NoLoops(menus)
    ensures roots == Forest(menus)
  {
    var byComponent := IndexComponents(menus);
    var children := FileChildren(menus, byComponent);
    roots := [];
    for i := 0 to |menus|
      invariant roots == Trees(menus, RootsUpTo(menus, i))
    {
      var m := menus[i];
      RootStep(menus, i);
      if m.parent == "" || m.parent !in byComponent {
        var node := BuildRoot(menus, children, i);
        roots := roots + [node];
      }
    }
  }

  /** The call of the last loop. */
  method BuildRoot(menus: seq<Menu>, children: Files, i: nat) returns (node: MenuTreeNode)
    requires NoLoops(menus) && FilesOk(menus, children, |menus|) && i < |menus| && IsRoot(menus, i)
    ensures node == Subtree(menus, [i])
  {
    ghost var path: seq<nat> := [i];
    assert Chain(menus, path);
    node := BuildSubtree(menus, children, i, path);
  }

  method BuildSubtree(menus: seq<Menu>, children: Files, idx: nat, ghost path: seq<nat>) returns (node: MenuTreeNode)
    requires NoLoops(menus) && FilesOk(menus, children, |menus|) && Chain(menus, path) && path[|path| - 1] == idx
    ensures node == Subtree(menus, path)
    decreases |menus| - |path|
  {
    var m := menus[idx];
    node := NodeOf(m, []);
    var kids := FileOf(children, m.component);
    KidsFiled(menus, children, idx);
    for k := 0 to |kids|
      invariant KidsOf(menus, path, kids[..k]) && node == NodeOf(m, Subtrees(menus, path, kids[..k]))
    {
      NextKid(menus, path, kids, k);
      var child := BuildSubtree(menus, children, kids[k], path + [kids[k]]);
      node := node.(children := node.children + [child]);
    }
    assert kids[..|kids|] == kids;
  }

  lemma NextKid(menus: seq<Menu>, path: seq<nat>, kids: seq<nat>, k: nat)
    requires NoLoops(menus) && Chain(menus, path) && KidsOf(menus, path, kids) && k < |kids|
    ensures Chain(menus, path + [kids[k]]) && |path| < |menus|
    ensures KidsOf(menus, path, kids[..k]) && KidsOf(menus, path, kids[..k + 1])
    ensures Subtrees(menus, path, kids[..k + 1]) == Subtrees(menus, path, kids[..k]) + [Subtree(menus, path + [kids[k]])]
  {
    ChainExtends(menus, path, kids[k]);
    ChainFits(menus, path + [kids[k]]);
    assert kids[..k + 1] == kids[..k] + [kids[k]];
    SubtreesAppend(menus, path, kids[..k], kids[k]);
  }

  lemma KidsFiled(menus: seq<Menu>, files: Files, i: nat)
    requires i < |menus| && FilesOk(menus, files, |menus|)
    ensures FileOf(files, menus[i].component) == Kids(menus, i)
    ensures forall k | 0 <= k < |Kids(menus, i)| :: IsKid(menus, i, FileOf(files, menus[i].component)[k])
  {
  }

  lemma {:induction false} SubtreesAppend(menus: seq<Menu>, path: seq<nat>, kids: seq<nat>, kid: nat)
    requires NoLoops(menus) && Chain(menus, path) && KidsOf(menus, path, kids + [kid])
    ensures KidsOf(menus, path, kids) && Chain(menus, path + [kid])
    ensures Subtrees(menus, path, kids + [kid]) == Subtrees(menus, path, kids) + [Subtree(menus, path + [kid])]
    decreases |kids|
  {
    var all := kids + [kid];
    assert forall k | 0 <= k < |kids| :: kids[k] == all[k];
    assert all[|kids|] == kid;
    ChainExtends(menus, path, kid);
    if kids == [] {
      assert all == [kid] && all[1..] == [];
    } else {
      assert all[1..] == kids[1..] + [kid] && KidsOf(menus, path, all[1..]);
      SubtreesAppend(menus, path, kids[1..], kid);
    }
  }

  lemma {:induction false} TreesAppend(menus: seq<Menu>, roots: seq<nat>, r: nat)
    requires NoLoops(menus) && r < |menus| && IsRoot(menus, r)
    requires forall k | 0 <= k < |roots| :: roots[k] < |menus| && IsRoot(menus, roots[k])
    ensures Trees(menus, roots + [r]) == Trees(menus, roots) + [Subtree(menus, [r])]
    decreases |roots|
  {
    if roots == [] {
      assert [] + [r] == [r] && [r][1..] == [];
    } else {
      assert (roots + [r])[1..] == roots[1..] + [r];
      TreesAppend(menus, roots[1..], r);
    }
  }
}
