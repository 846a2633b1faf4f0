/** The router's nodes as `transport/cli/router.go` keeps them: objects that `Handle`
    extends in place. `Abs` is the value of `Trie` a node and its descendants stand for. */
module RouterNode {
  import opened Strings
  import opened Trie
  import opened Wrappers

  class Node {
    const name: string
    const path: seq<string>
    var children: seq<Node>
    var command: Option<Command>
    var params: seq<string>
    ghost var Repr: set<object>

    ghost predicate Valid()
      reads this, Repr
      decreases Repr
    {
      && this in Repr
      && (forall i | 0 <= i < |children| ::
            children[i] in Repr && children[i].Repr < Repr && this !in children[i].Repr && children[i].Valid())
      && (forall i, j | 0 <= i < j < |children| :: children[i].Repr !! children[j].Repr)
    }

    ghost function Abs(): (r: Router)
      requires Valid()
      reads this, Repr
      ensures r.name == name && r.path == path && r.command == command && |r.children| == |children|
      decreases Repr
    {
      Router(name, path, seq(|children|, i requires Valid() && 0 <= i < |children| reads this, Repr => children[i].Abs()), command, params)
    }

    constructor (name: string, path: seq<string>)
      ensures Valid() && fresh(Repr) && Repr == {this}
      ensures Abs() == New(name, path)
    {
      this.name, this.path := name, path;
      children, command, params := [], None, [];
      Repr := {this};
    }

    /** getChildren; the number of children when there is none of that name. */
    method GetChildren(name: string) returns (i: nat)
      requires Valid()
      ensures i == Find(Abs().children, name)
    {
      i := 0;
      ghost var cs := Abs().children;
      while i < |children|
        invariant 0 <= i <= |children|
        invariant forall j | 0 <= j < i :: cs[j].name != name
      {
        if children[i].name == name {
          FindIs(cs, name, i);
          return;
        }
        i := i + 1;
      }
      FindIs(cs, name, i);
    }

    /** A registration; a failing one may have attached nodes (`Trie` shows it never has). */
    method Handle(path: string, command: Command) returns (err: Option<HandleError>)
      requires Valid()
      modifies Repr
      ensures Valid() && fresh(Repr - old(Repr))
      ensures (Abs(), err) == Trie.Handle(old(Abs()), path, command)
      decreases |path|, 0, 0
    {
      var p := CutPrefix(CutSuffix(path));
      if p == "" {
        this.command := Some(command);
        assert Abs().children == old(Abs()).children;
        return None;
      }
      if p[0] == ':' {
        params := params + TrimColons(Split(p));
        this.command := Some(command);
        assert Abs().children == old(Abs()).children;
        return None;
      }
      var pos := IndexSlash(p);
      err := Descend(NameOf(p[..pos]), p[pos..], command);
    }

    method Descend(name: string, rest: string, command: Command) returns (err: Option<HandleError>)
      requires Valid()
      modifies Repr
      ensures Valid() && fresh(Repr - old(Repr))
      ensures (Abs(), err) == Trie.Descend(old(Abs()), name, rest, command)
      decreases |rest|, 1, 0
    {
      ghost var cs := Abs().children;
      var i := ChildNamed(name);
      assert forall c, c' :: (cs + [c])[|cs| := c'] == cs + [c'];
      var child := children[i];
      if child.command.Some? {
        return Some(HandleRegistered(child.path));
      }
      err := HandleBelow(i, rest, command);
    }

    /** The recursive call: one child changes, its siblings do not. */
    method HandleBelow(i: nat, rest: string, command: Command) returns (err: Option<HandleError>)
      requires Valid() && i < |children|
      modifies Repr
      ensures Valid() && fresh(Repr - old(Repr))
      ensures var before := old(Abs());
              var below := Trie.Handle(before.children[i], rest, command);
              Abs() == before.(children := before.children[i := below.0]) && err == below.1
      decreases |rest|, 0, 1
    {
      ghost var before := Abs();
      var child := children[i];
      err := child.Handle(rest, command);
      Repr := Repr + child.Repr;
      assert forall j | 0 <= j < |children| && j != i :: children[j].Abs() == before.children[j];
      assert Abs().children == before.children[i := child.Abs()];
    }

    /** The child of that name, attached if missing. */
    method ChildNamed(name: string) returns (i: nat)
      requires Valid()
      modifies this
      ensures Valid() && fresh(Repr - old(Repr)) && i < |children|
      ensures var before := old(Abs());
              && i == Find(before.children, name) && children[i].Abs() == ChildFor(before, name)
              && Abs() == if i < |before.children| then before
                          else before.(children := before.children + [New(name, before.path + [name])])
      ensures children[i].command == children[i].Abs().command && children[i].path == children[i].Abs().path
    {
      i := GetChildren(name);
      if i == |children| {
        Attach(name);
      }
      assert Abs().children[i] == children[i].Abs();
    }

    method Attach(name: string)
      requires Valid()
      modifies this
      ensures Valid() && fresh(Repr - old(Repr))
      ensures |children| == |old(children)| + 1 && children[..|children| - 1] == old(children)
      ensures var before := old(Abs()); Abs() == before.(children := before.children + [New(name, before.path + [name])])
    {
      var child := new Node(name, path + [name]);
      children := children + [child];
      Repr := Repr + child.Repr;
      assert forall j | 0 <= j < |children| - 1 :: children[j].Abs() == old(Abs()).children[j];
      assert Abs().children == old(Abs()).children + [child.Abs()];
    }

    method Lookup(tokens: seq<string>) returns (node: Node?, args: seq<string>)
      requires Valid()
      ensures match Trie.Lookup(Abs(), tokens) {
                case None => node == null
                case Some(found) => node != null && node in Repr && node.Valid() && node.Abs() == found.0 && args == found.1
              }
      decreases |tokens|
    {
      if |tokens| > 0 {
        var i := GetChildren(tokens[0]);
        if i < |children| {
          node, args := children[i].Lookup(tokens[1..]);
          return;
        }
      }
      if command.None? {
        return null, [];
      }
      return this, tokens;
    }
  }

  lemma FindIs(cs: seq<Router>, name: string, i: nat)
    requires i <= |cs| && (i < |cs| ==> cs[i].name == name) && forall j | 0 <= j < i :: cs[j].name != name
    ensures Find(cs, name) == i
  {
  }
}
