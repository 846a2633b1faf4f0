/** The menu forest of `admin/models/menu.go`: a flat table whose rows name their parent by
    Component becomes nested nodes (`BuildTree`), and one row's ancestors are walked (`PathTo`). */
module MenuTree {
  import opened Sets
  import opened Wrappers

  datatype Menu = Menu(id: nat, parent: string, component: string, title: string, uri: string,
                       icon: string, hidden: bool, public: bool)

  datatype MenuTreeNode = MenuTreeNode(component: string, title: string, uri: string, icon: string,
                                       hidden: bool, public: bool, children: seq<MenuTreeNode>)

  /** The schema's `unique` rule on Component. */
  ghost predicate Distinct(menus: seq<Menu>) {
    forall i, j | 0 <= i < j < |menus| :: menus[i].component != menus[j].component
  }

  predicate Present(menus: seq<Menu>, component: string) {
    exists i | 0 <= i < |menus| :: menus[i].component == component
  }

  /** No parent, or one that is not in the table. */
  predicate IsRoot(menus: seq<Menu>, i: nat)
    requires i < |menus|
  {
    menus[i].parent == "" || !Present(menus, menus[i].parent)
  }

  /** Row j names row i as its parent. */
  predicate IsKid(menus: seq<Menu>, i: nat, j: nat) {
    i < |menus| && j < |menus| && menus[j].parent == menus[i].component && menus[j].parent != ""
  }

  /** The rows before the n-th that name `component` as their parent, in table order. */
  function ChildrenUpTo(menus: seq<Menu>, component: string, n: nat): (r: seq<nat>)
    requires n <= |menus|
    ensures forall k | 0 <= k < |r| :: r[k] < n && menus[r[k]].parent == component
  {
    if n == 0 then []
    else ChildrenUpTo(menus, component, n - 1) + (if menus[n - 1].parent == component then [n - 1] else [])
  }

  /** The rows before the n-th that BuildTree files under `component`: none under an empty or
      absent one. */
  function Filed(menus: seq<Menu>, component: string, n: nat): seq<nat>
    requires n <= |menus|
  {
    if component == "" || !Present(menus, component) then [] else ChildrenUpTo(menus, component, n)
  }

  function Kids(menus: seq<Menu>, i: nat): (r: seq<nat>)
    requires i < |menus|
    ensures forall k | 0 <= k < |r| :: IsKid(menus, i, r[k])
  {
    Filed(menus, menus[i].component, |menus|)
  }

  function RootsUpTo(menus: seq<Menu>, n: nat): (r: seq<nat>)
    requires n <= |menus|
    ensures forall k | 0 <= k < |r| :: r[k] < n && IsRoot(menus, r[k])
  {
    if n == 0 then [] else RootsUpTo(menus, n - 1) + (if IsRoot(menus, n - 1) then [n - 1] else [])
  }

  lemma {:induction false} ChildrenListed(menus: seq<Menu>, component: string, n: nat)
    requires n <= |menus|
    ensures forall j | 0 <= j < n && menus[j].parent == component :: j in ChildrenUpTo(menus, component, n)
    ensures Ascending(ChildrenUpTo(menus, component, n))
  {
    if n > 0 { ChildrenListed(menus, component, n - 1); }
  }

  /** Siblings stand in table order, so none is listed twice. */
  ghost predicate Ascending(s: seq<nat>) { forall j, k | 0 <= j < k < |s| :: s[j] < s[k] }

  /** The kids of a row are exactly the rows naming it, in table order. */
  lemma KidsListed(menus: seq<Menu>, i: nat)
    requires i < |menus|
    ensures forall j | IsKid(menus, i, j) :: j in Kids(menus, i)
    ensures Ascending(Kids(menus, i))
  {
    ChildrenListed(menus, menus[i].component, |menus|);
    assert Present(menus, menus[i].component);
  }

  lemma {:induction false} RootsListed(menus: seq<Menu>, n: nat)
    requires n <= |menus|
    ensures forall j | 0 <= j < n && IsRoot(menus, j) :: j in RootsUpTo(menus, n)
    ensures Ascending(RootsUpTo(menus, n))
  {
    if n > 0 { RootsListed(menus, n - 1); }
  }

  function NodeOf(m: Menu, children: seq<MenuTreeNode>): MenuTreeNode {
    MenuTreeNode(m.component, m.title, m.uri, m.icon, m.hidden, m.public, children)
  }

  // ----- chains of parents -----

  /** Rows from a root down, each filed under the one before. */
  ghost predicate Chain(menus: seq<Menu>, path: seq<nat>) {
    && path != [] && (forall k | 0 <= k < |path| :: path[k] < |menus|)
    && IsRoot(menus, path[0])
    && forall k | 0 < k < |path| :: IsKid(menus, path[k - 1], path[k])
  }

  /** A row whose chain of parents reaches an empty or missing one. */
  ghost predicate Grounded(menus: seq<Menu>, i: nat) {
    exists path: seq<nat> :: Chain(menus, path) && path[|path| - 1] == i
  }

  /** No chain of filed rows meets a row twice. */
  ghost predicate NoLoops(menus: seq<Menu>) {
    forall path: seq<nat> | Chain(menus, path) :: Simple(path)
  }

  lemma ChainExtends(menus: seq<Menu>, path: seq<nat>, kid: nat)
    requires Chain(menus, path) && IsKid(menus, path[|path| - 1], kid)
    ensures Chain(menus, path + [kid])
  {
  }

  lemma ChainCut(menus: seq<Menu>, path: seq<nat>, n: nat)
    requires Chain(menus, path) && 0 < n <= |path|
    ensures Chain(menus, path[..n])
  {
  }

  lemma ChainFits(menus: seq<Menu>, path: seq<nat>)
    requires NoLoops(menus) && Chain(menus, path)
    ensures |path| <= |menus|
  {
    SimpleFits(path, |menus|);
  }

  lemma ChainEnd(menus: seq<Menu>, p: seq<nat>)
    requires Chain(menus, p)
    ensures |p| == 1 ==> IsRoot(menus, p[0])
    ensures |p| > 1 ==>
      Chain(menus, p[..|p| - 1]) && !IsRoot(menus, p[|p| - 1]) &&
      menus[p[|p| - 1]].parent == menus[p[|p| - 2]].component
  {
    if |p| > 1 {
      assert IsKid(menus, p[|p| - 2], p[|p| - 1]);
      ChainCut(menus, p, |p| - 1);
    }
  }

  lemma SameRow(menus: seq<Menu>, i: nat, j: nat)
    requires Distinct(menus) && i < |menus| && j < |menus| && menus[i].component == menus[j].component
    ensures i == j
  {
  }

  /** With distinct Components a row ends one chain at most. */
  lemma {:induction false} ChainUnique(menus: seq<Menu>, p: seq<nat>, q: seq<nat>)
    requires Distinct(menus) && Chain(menus, p) && Chain(menus, q) && p[|p| - 1] == q[|q| - 1]
    ensures p == q
    decreases |p|
  {
    ChainEnd(menus, p);
    ChainEnd(menus, q);
    if |p| > 1 {
      SameRow(menus, p[|p| - 2], q[|q| - 2]);
      ChainUnique(menus, p[..|p| - 1], q[..|q| - 1]);
      assert p == p[..|p| - 1] + [p[|p| - 1]] && q == q[..|q| - 1] + [q[|q| - 1]];
    }
  }

  lemma DistinctNoLoops(menus: seq<Menu>)
    requires Distinct(menus)
    ensures NoLoops(menus)
  {
    forall path: seq<nat> | Chain(menus, path) ensures Simple(path) {
      forall j, k | 0 <= j < k < |path| ensures path[j] != path[k] {
        ChainCut(menus, path, j + 1);
        ChainCut(menus, path, k + 1);
        assert |path[..j + 1]| < |path[..k + 1]|;
        if path[j] == path[k] {
          ChainUnique(menus, path[..j + 1], path[..k + 1]);
        }
      }
    }
  }

  // ----- the forest -----

  ghost predicate KidsOf(menus: seq<Menu>, path: seq<nat>, kids: seq<nat>)
    requires Chain(menus, path)
  {
    forall k | 0 <= k < |kids| :: IsKid(menus, path[|path| - 1], kids[k])
  }

  /** The node of the row a chain ends in, with all its descendants. */
  ghost function Subtree(menus: seq<Menu>, path: seq<nat>): MenuTreeNode
    requires NoLoops(menus) && Chain(menus, path)
    decreases |menus| - |path|, 1, 0
  {
    var i := path[|path| - 1];
    NodeOf(menus[i], Subtrees(menus, path, Kids(menus, i)))
  }

  ghost function Subtrees(menus: seq<Menu>, path: seq<nat>, kids: seq<nat>): (r: seq<MenuTreeNode>)
    requires NoLoops(menus) && Chain(menus, path)
    requires KidsOf(menus, path, kids)
    ensures |r| == |kids|
    decreases |menus| - |path|, 0, |kids|
  {
    if kids == [] then []
    else
      ChainExtends(menus, path, kids[0]);
      ChainFits(menus, path + [kids[0]]);
      [Subtree(menus, path + [kids[0]])] + Subtrees(menus, path, kids[1..])
  }

  ghost function Trees(menus: seq<Menu>, roots: seq<nat>): (r: seq<MenuTreeNode>)
    requires NoLoops(menus) && forall k | k in roots :: k < |menus| && IsRoot(menus, k)
    ensures |r| == |roots|
  {
    if roots == [] then []
    else
      assert roots[0] in roots;
      [Subtree(menus, [roots[0]])] + Trees(menus, roots[1..])
  }

  ghost function Forest(menus: seq<Menu>): seq<MenuTreeNode>
    requires NoLoops(menus)
  {
    Trees(menus, RootsUpTo(menus, |menus|))
  }

  // ----- termination, exactly -----

  /** buildSubtree run for at most `fuel` nested calls; None when that is not enough. */
  function Bounded(menus: seq<Menu>, i: nat, fuel: nat): Option<MenuTreeNode>
    requires i < |menus|
    decreases fuel, 1, 0
  {
    if fuel == 0 then None
    else
      var kids := BoundedAll(menus, Kids(menus, i), fuel);
      if kids.None? then None else Some(NodeOf(menus[i], kids.value))
  }

  function BoundedAll(menus: seq<Menu>, kids: seq<nat>, fuel: nat): Option<seq<MenuTreeNode>>
    requires fuel > 0 && forall k | 0 <= k < |kids| :: kids[k] < |menus|
    decreases fuel, 0, |kids|
  {
    if kids == [] then Some([])
    else
      var first := Bounded(menus, kids[0], fuel - 1);
      var others := BoundedAll(menus, kids[1..], fuel);
      if first.None? || others.None? then None else Some([first.value] + others.value)
  }

  lemma {:induction false} EnoughFuel(menus: seq<Menu>, path: seq<nat>, fuel: nat)
    requires NoLoops(menus) && Chain(menus, path) && |path| + fuel > |menus|
    ensures Bounded(menus, path[|path| - 1], fuel) == Some(Subtree(menus, path))
    decreases fuel, 1, 0
  {
    ChainFits(menus, path);
    EnoughFuelAll(menus, path, Kids(menus, path[|path| - 1]), fuel);
  }

  lemma BoundedAllCons(menus: seq<Menu>, kids: seq<nat>, fuel: nat, first: MenuTreeNode, others: seq<MenuTreeNode>)
    requires fuel > 0 && kids != [] && forall k | 0 <= k < |kids| :: kids[k] < |menus|
    requires Bounded(menus, kids[0], fuel - 1) == Some(first) && BoundedAll(menus, kids[1..], fuel) == Some(others)
    ensures BoundedAll(menus, kids, fuel) == Some([first] + others)
  {
  }

  lemma {:induction false} EnoughFuelAll(menus: seq<Menu>, path: seq<nat>, kids: seq<nat>, fuel: nat)
    requires NoLoops(menus) && Chain(menus, path) && |path| + fuel > |menus| && fuel > 0
    requires KidsOf(menus, path, kids)
    ensures BoundedAll(menus, kids, fuel) == Some(Subtrees(menus, path, kids))
    decreases fuel, 0, |kids|
  {
    if kids != [] {
      EnoughFuelOne(menus, path, kids[0], fuel);
      assert KidsOf(menus, path, kids[1..]);
      EnoughFuelAll(menus, path, kids[1..], fuel);
      BoundedAllCons(menus, kids, fuel, Subtree(menus, path + [kids[0]]), Subtrees(menus, path, kids[1..]));
    }
  }

  lemma {:induction false} EnoughFuelOne(menus: seq<Menu>, path: seq<nat>, kid: nat, fuel: nat)
    requires NoLoops(menus) && Chain(menus, path) && |path| + fuel > |menus| && fuel > 0
    requires IsKid(menus, path[|path| - 1], kid)
    ensures Chain(menus, path + [kid])
    ensures Bounded(menus, kid, fuel - 1) == Some(Subtree(menus, path + [kid]))
    decreases fuel, 0, 0
  {
    ChainExtends(menus, path, kid);
    EnoughFuel(menus, path + [kid], fuel - 1);
    assert (path + [kid])[|path|] == kid;
  }

  lemma {:induction false} OneKidMissing(menus: seq<Menu>, kids: seq<nat>, kid: nat, fuel: nat)
    requires fuel > 0 && (forall k | 0 <= k < |kids| :: kids[k] < |menus|) && kid in kids
    requires Bounded(menus, kid, fuel - 1).None?
    ensures BoundedAll(menus, kids, fuel).None?
    decreases |kids|
  {
    if kids[0] != kid {
      OneKidMissing(menus, kids[1..], kid, fuel);
    }
  }

  /** A node whose kid never completes does not complete either. */
  lemma KidDelays(menus: seq<Menu>, path: seq<nat>, m: nat, fuel: nat)
    requires Chain(menus, path) && m + 1 < |path|
    requires fuel > 0 ==> Bounded(menus, path[m + 1], fuel - 1).None?
    ensures Bounded(menus, path[m], fuel).None?
  {
    if fuel > 0 {
      assert IsKid(menus, path[m], path[m + 1]);
      KidsListed(menus, path[m]);
      OneKidMissing(menus, Kids(menus, path[m]), path[m + 1], fuel);
    }
  }

  lemma {:induction false} LoopDiverges(menus: seq<Menu>, path: seq<nat>, j: nat, k: nat, m: nat, fuel: nat)
    requires Chain(menus, path) && j <= m <= k < |path| && j < k && path[j] == path[k]
    ensures Bounded(menus, path[m], fuel).None?
    decreases fuel, if m == k then 1 else 0
  {
    if m == k {
      LoopDiverges(menus, path, j, k, j, fuel);
    } else {
      if fuel > 0 { LoopDiverges(menus, path, j, k, m + 1, fuel - 1); }
      KidDelays(menus, path, m, fuel);
    }
  }

  lemma {:induction false} PrefixDiverges(menus: seq<Menu>, path: seq<nat>, m: nat, fuel: nat)
    requires Chain(menus, path) && m < |path| && forall n: nat :: Bounded(menus, path[m], n).None?
    ensures Bounded(menus, path[0], fuel).None?
    decreases m
  {
    if m > 0 {
      var i := path[m - 1];
      forall n: nat ensures Bounded(menus, i, n).None? {
        KidDelays(menus, path, m - 1, n);
      }
      PrefixDiverges(menus, path, m - 1, fuel);
    }
  }

  /** Every root's recursion ends. */
  ghost predicate Terminates(menus: seq<Menu>) {
    forall r | 0 <= r < |menus| && IsRoot(menus, r) :: exists fuel: nat :: Bounded(menus, r, fuel).Some?
  }

  /** BuildTree terminates exactly when no row below a root is filed under itself, however
      indirectly; distinct Components are enough for that. */
  lemma TerminationExact(menus: seq<Menu>)
    ensures Terminates(menus) <==> NoLoops(menus)
    ensures Distinct(menus) ==> NoLoops(menus)
  {
    if Distinct(menus) { DistinctNoLoops(menus); }
    if NoLoops(menus) {
      forall r | 0 <= r < |menus| && IsRoot(menus, r) ensures exists fuel: nat :: Bounded(menus, r, fuel).Some? {
        EnoughFuel(menus, [r], |menus|);
      }
    }
    if !NoLoops(menus) {
      var path: seq<nat> :| Chain(menus, path) && !Simple(path);
      var j, k :| 0 <= j < k < |path| && path[j] == path[k];
      forall fuel: nat ensures Bounded(menus, path[j], fuel).None? { LoopDiverges(menus, path, j, k, j, fuel); }
      forall fuel: nat ensures Bounded(menus, path[0], fuel).None? { PrefixDiverges(menus, path, j, fuel); }
      assert IsRoot(menus, path[0]);
    }
  }

  function Row(component: string, parent: string): Menu { Menu(0, parent, component, "", "", "", false, false) }

  /** With a repeated Component the recursion can run forever: X at the root, Y under X, and
      a second X under Y. */
  lemma RepeatedComponentLoops()
    ensures !Terminates([Row("X", ""), Row("Y", "X"), Row("X", "Y")])
  {
    var menus := [Row("X", ""), Row("Y", "X"), Row("X", "Y")];
    var path := [0, 1, 2, 1];
    assert IsKid(menus, 0, 1) && IsKid(menus, 1, 2) && IsKid(menus, 2, 1);
    assert Chain(menus, path) && path[1] == path[3];
    TerminationExact(menus);
  }
}
