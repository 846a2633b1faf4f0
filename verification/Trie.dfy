/** The command trie of `transport/cli/router.go`, as a value: what `Handle` makes of it and
    what `Lookup` finds. Strings are byte strings. */
module Trie {
  import opened Sequences
  import opened Strings
  import opened Wrappers

  /** A command with a handler; the program's zero command (nil handler) is `None`. */
  datatype Command = Command(path: string, description: string, handler: nat)

  datatype Router = Router(name: string, path: seq<string>, children: seq<Router>,
                           command: Option<Command>, params: seq<string>)

  /** Carries the path of the node that already has a command. */
  datatype HandleError = HandleRegistered(path: seq<string>)

  function New(name: string, path: seq<string>): Router { Router(name, path, [], None, []) }

  function TrimColons(ss: seq<string>): (r: seq<string>)
    ensures |r| == |ss| && forall i | 0 <= i < |ss| :: r[i] == TrimColon(ss[i])
  {
    seq(|ss|, i requires 0 <= i < |ss| => TrimColon(ss[i]))
  }

  // ----- the router -----

  /** The first child of that name; the number of children when there is none. */
  function Find(cs: seq<Router>, name: string): (i: nat)
    ensures i <= |cs| && (i < |cs| ==> cs[i].name == name) && forall j | 0 <= j < i :: cs[j].name != name
  {
    FirstIndex(cs, (c: Router) => c.name == name)
  }

  function NameOf(segment: string): string { if segment == "-" then "app" else segment }

  /** The child of that name, or the fresh one that would be attached. */
  function ChildFor(r: Router, name: string): Router {
    var i := Find(r.children, name);
    if i < |r.children| then r.children[i] else New(name, r.path + [name])
  }

  function WithChild(r: Router, name: string, child: Router): Router {
    var i := Find(r.children, name);
    r.(children := if i < |r.children| then r.children[i := child] else r.children + [child])
  }

  /** The router afterwards, and the error if any. A missing child is attached before the
      recursive call, so a failure further down would leave it there. */
  function Handle(r: Router, path: string, command: Command): (Router, Option<HandleError>)
    decreases |path|, 0
  {
    var p := CutPrefix(CutSuffix(path));
    if p == "" then (r.(command := Some(command)), None)
    else if p[0] == ':' then (r.(params := r.params + TrimColons(Split(p)), command := Some(command)), None)
    else
      var pos := IndexSlash(p);
      Descend(r, NameOf(p[..pos]), p[pos..], command)
  }

  function Descend(r: Router, name: string, rest: string, command: Command): (Router, Option<HandleError>)
    decreases |rest|, 1
  {
    var child := ChildFor(r, name);
    if child.command.Some? then (r, Some(HandleRegistered(child.path)))
    else
      var (child', err) := Handle(child, rest, command);
      (WithChild(r, name, child'), err)
  }

  /** The node a command line resolves to, and the tokens left as arguments. */
  function Lookup(r: Router, tokens: seq<string>): Option<(Router, seq<string>)>
    decreases |tokens|
  {
    var i := if tokens == [] then |r.children| else Find(r.children, tokens[0]);
    if i < |r.children| then Lookup(r.children[i], tokens[1..])
    else if r.command.None? then None
    else Some((r, tokens))
  }

  // ----- paths as segments -----

  /** Segments of a path: none empty, none holding a slash. */
  predicate Segments(segs: seq<string>) {
    forall i | 0 <= i < |segs| :: segs[i] != "" && '/' !in segs[i]
  }

  /** A path as registered: a slash in front and one behind are optional. */
  function Text(segs: seq<string>, front: bool, behind: bool): string {
    (if front then "/" else "") + Join(segs) + (if behind then "/" else "")
  }

  /** The registration segment by segment. */
  function Insert(r: Router, segs: seq<string>, command: Command): (Router, Option<HandleError>)
    requires Segments(segs)
    decreases |segs|
  {
    if segs == [] then (r.(command := Some(command)), None)
    else if segs[0][0] == ':' then (r.(params := r.params + TrimColons(segs), command := Some(command)), None)
    else
      var name := NameOf(segs[0]);
      var child := ChildFor(r, name);
      if child.command.Some? then (r, Some(HandleRegistered(child.path)))
      else
        var (child', err) := Insert(child, segs[1..], command);
        (WithChild(r, name, child'), err)
  }

  /** What follows the first segment. */
  function Beyond(segs: seq<string>): string
    requires segs != []
  {
    if |segs| == 1 then "" else Text(segs[1..], true, false)
  }

  lemma JoinCons(segs: seq<string>)
    requires segs != []
    ensures Join(segs) == segs[0] + Beyond(segs)
    ensures |segs| > 1 ==> Beyond(segs) == "/" + Join(segs[1..])
  {
    if |segs| > 1 {
      SlashBetween(segs[0], Join(segs[1..]));
    } else {
      NoTail(segs[0]);
    }
  }

  lemma JoinEnds(segs: seq<string>)
    requires Segments(segs) && segs != []
    ensures var p := Join(segs); p != "" && p[0] == segs[0][0] && p[0] != '/'
    ensures var p := Join(segs);
            IndexSlash(p) == |segs[0]| && p[..|segs[0]|] == segs[0] && p[|segs[0]|..] == Beyond(segs)
  {
    JoinCons(segs);
    FirstSlash(segs[0], Beyond(segs));
  }

  lemma {:induction false} JoinEnd(segs: seq<string>)
    requires Segments(segs) && segs != []
    ensures var p := Join(segs); p != "" && p[|p| - 1] != '/'
    decreases |segs|
  {
    if |segs| > 1 {
      JoinEnd(segs[1..]);
      var p, more := Join(segs), Join(segs[1..]);
      assert p[|p| - 1] == more[|more| - 1];
    }
  }

  lemma {:induction false} SplitJoins(segs: seq<string>)
    requires Segments(segs) && segs != []
    ensures Split(Join(segs)) == segs
    decreases |segs|
  {
    JoinEnds(segs);
    if |segs| > 1 {
      SplitJoins(segs[1..]);
      assert Join(segs) == segs[0] + ("/" + Join(segs[1..]));
      assert Join(segs)[|segs[0]| + 1..] == Join(segs[1..]);
    }
  }

  lemma TrimsToJoin(segs: seq<string>, front: bool, behind: bool)
    requires Segments(segs)
    ensures CutPrefix(CutSuffix(Text(segs, front, behind))) == Join(segs)
  {
    if segs != [] { JoinEnds(segs); JoinEnd(segs); }
    SlashesCut(Join(segs), front, behind);
  }

  lemma HandleCuts(r: Router, segs: seq<string>, front: bool, behind: bool, command: Command)
    requires Segments(segs) && segs != []
    ensures Handle(r, Text(segs, front, behind), command) ==
            if segs[0][0] == ':' then (r.(params := r.params + TrimColons(segs), command := Some(command)), None)
            else Descend(r, NameOf(segs[0]), if |segs| == 1 then "" else Text(segs[1..], true, false), command)
  {
    TrimsToJoin(segs, front, behind);
    JoinEnds(segs);
    SplitJoins(segs);
  }

  /** On paths without empty segments the string-cutting code registers segment by segment. */
  lemma {:induction false} HandleInserts(r: Router, segs: seq<string>, front: bool, behind: bool, command: Command)
    requires Segments(segs)
    ensures Handle(r, Text(segs, front, behind), command) == Insert(r, segs, command)
    decreases |segs|
  {
    if segs == [] {
      TrimsToJoin(segs, front, behind);
    } else {
      HandleCuts(r, segs, front, behind, command);
      HandleInserts(ChildFor(r, NameOf(segs[0])), segs[1..], |segs| > 1, false, command);
      assert |segs| == 1 ==> Text(segs[1..], false, false) == "";
    }
  }

  // ----- what every registration keeps -----

  /** Siblings have distinct names, a child's path extends its parent's, and only nodes with
      a command have parameters. */
  ghost predicate Tidy(r: Router) {
    && (forall i, j | 0 <= i < j < |r.children| :: r.children[i].name != r.children[j].name)
    && (r.command.None? ==> r.params == [])
    && (forall i | 0 <= i < |r.children| :: r.children[i].path == r.path + [r.children[i].name])
    && forall i | 0 <= i < |r.children| :: Tidy(r.children[i])
  }

  lemma {:induction false} InsertKeepsName(r: Router, segs: seq<string>, command: Command)
    requires Segments(segs)
    ensures Insert(r, segs, command).0.name == r.name && Insert(r, segs, command).0.path == r.path
  {
  }

  lemma WithChildTidy(r: Router, name: string, child: Router)
    requires Tidy(r) && Tidy(child) && child.name == name && child.path == r.path + [name]
    ensures Tidy(WithChild(r, name, child))
  {
  }

  lemma WithChildFound(r: Router, name: string, child: Router)
    requires child.name == name
    ensures var cs := WithChild(r, name, child).children;
            Find(cs, name) == Find(r.children, name) < |cs| && cs[Find(cs, name)] == child
  {
    var cs, i := WithChild(r, name, child).children, Find(r.children, name);
    assert cs[i].name == name && forall j | 0 <= j < i :: cs[j] == r.children[j];
  }

  lemma {:induction false} InsertKeepsTidy(r: Router, segs: seq<string>, command: Command)
    requires Segments(segs) && Tidy(r)
    ensures Tidy(Insert(r, segs, command).0)
    decreases |segs|
  {
    if segs != [] && segs[0][0] != ':' {
      var name := NameOf(segs[0]);
      var child := ChildFor(r, name);
      if child.command.None? {
        InsertKeepsName(child, segs[1..], command);
        InsertKeepsTidy(child, segs[1..], command);
        WithChildTidy(r, name, Insert(child, segs[1..], command).0);
      }
    }
  }

  /** A child attached on the way never meets an error below it. */
  lemma {:induction false} NewNeverFails(r: Router, segs: seq<string>, command: Command)
    requires Segments(segs) && r.children == []
    ensures Insert(r, segs, command).1.None?
    decreases |segs|
  {
    if segs != [] && segs[0][0] != ':' {
      NewNeverFails(New(NameOf(segs[0]), r.path + [NameOf(segs[0])]), segs[1..], command);
    }
  }

  lemma {:induction false} FailureChangesNothing(r: Router, segs: seq<string>, command: Command)
    requires Segments(segs) && Insert(r, segs, command).1.Some?
    ensures Insert(r, segs, command).0 == r
    decreases |segs|
  {
    if segs != [] && segs[0][0] != ':' {
      var name := NameOf(segs[0]);
      var i := Find(r.children, name);
      if i < |r.children| {
        if r.children[i].command.None? {
          FailureChangesNothing(r.children[i], segs[1..], command);
          assert r.children[i := r.children[i]] == r.children;
        }
      } else {
        NewNeverFails(New(name, r.path + [name]), segs[1..], command);
      }
    }
  }

  // ----- what a registration makes of the lookups -----

  /** The command-line words of a path: its segments up to the first parameter. */
  function Static(segs: seq<string>): seq<string>
    requires Segments(segs)
  {
    if segs == [] || segs[0][0] == ':' then [] else [NameOf(segs[0])] + Static(segs[1..])
  }

  function ParamsOf(segs: seq<string>): seq<string>
    requires Segments(segs)
  {
    if segs == [] then [] else if segs[0][0] == ':' then TrimColons(segs) else ParamsOf(segs[1..])
  }

  lemma LookupDescends(r: Router, name: string, child: Router, words: seq<string>)
    requires child.name == name
    ensures Lookup(WithChild(r, name, child), [name] + words) == Lookup(child, words)
  {
    WithChildFound(r, name, child);
    assert ([name] + words)[1..] == words;
  }

  /** Further words are arguments unless they name a child. */
  predicate Arguments(n: Router, args: seq<string>) { args == [] || Find(n.children, args[0]) == |n.children| }

  /** The node a registration sets the command of. */
  function Landed(r: Router, segs: seq<string>, command: Command): Router
    requires Segments(segs)
    decreases |segs|
  {
    if segs == [] || segs[0][0] == ':' then Insert(r, segs, command).0
    else Landed(ChildFor(r, NameOf(segs[0])), segs[1..], command)
  }

  lemma ChildTidy(r: Router, name: string)
    requires Tidy(r)
    ensures var c := ChildFor(r, name);
            Tidy(c) && c.path == r.path + [name] && c.name == name && (c.command.None? ==> c.params == [])
  {
  }

  lemma {:induction false} LandedPath(r: Router, segs: seq<string>, command: Command)
    requires Segments(segs) && Tidy(r)
    ensures Landed(r, segs, command).command == Some(command)
    ensures Landed(r, segs, command).path == r.path + Static(segs)
    decreases |segs|
  {
    if segs != [] && segs[0][0] != ':' {
      var name := NameOf(segs[0]);
      ChildTidy(r, name);
      LandedPath(ChildFor(r, name), segs[1..], command);
      assert r.path + [name] + Static(segs[1..]) == r.path + Static(segs);
    }
  }

  lemma {:induction false} LandedParams(r: Router, segs: seq<string>, command: Command)
    requires Segments(segs) && Tidy(r) && Insert(r, segs, command).1.None?
    ensures Landed(r, segs, command).params == (if Static(segs) == [] then r.params else []) + ParamsOf(segs)
    decreases |segs|
  {
    if segs == [] {
      assert r.params + [] == r.params;
    } else if segs[0][0] != ':' {
      var child := ChildFor(r, NameOf(segs[0]));
      ChildTidy(r, NameOf(segs[0]));
      assert child.params == [];
      LandedParams(child, segs[1..], command);
    }
  }

  /** A successful registration is found under its words, whatever arguments follow. */
  lemma {:induction false} InsertFound(r: Router, segs: seq<string>, command: Command, args: seq<string>)
    requires Segments(segs) && Insert(r, segs, command).1.None?
    requires Arguments(Landed(r, segs, command), args)
    ensures Lookup(Insert(r, segs, command).0, Static(segs) + args) == Some((Landed(r, segs, command), args))
    decreases |segs|
  {
    if segs == [] || segs[0][0] == ':' {
      assert Static(segs) == [] && [] + args == args;
      assert Insert(r, segs, command).0.children == r.children;
    } else {
      var name := NameOf(segs[0]);
      var child := ChildFor(r, name);
      InsertFound(child, segs[1..], command, args);
      InsertKeepsName(child, segs[1..], command);
      var words := Static(segs[1..]) + args;
      LookupDescends(r, name, Insert(child, segs[1..], command).0, words);
      WordsJoin(name, Static(segs[1..]), args);
    }
  }

  /** No registration disturbs a lookup that resolved below the root. */
  lemma {:induction false} LookupsKept(r: Router, segs: seq<string>, command: Command, tokens: seq<string>)
    requires Segments(segs) && Lookup(r, tokens).Some? && |Lookup(r, tokens).value.1| < |tokens|
    ensures Lookup(Insert(r, segs, command).0, tokens) == Lookup(r, tokens)
    decreases |tokens|
  {
    var i := Find(r.children, tokens[0]);
    if segs != [] && segs[0][0] != ':' {
      var name := NameOf(segs[0]);
      var child := ChildFor(r, name);
      if child.command.None? {
        var child' := Insert(child, segs[1..], command).0;
        InsertKeepsName(child, segs[1..], command);
        if name == tokens[0] {
          LookupShrinks(child, tokens[1..]);
          LookupsKept(child, segs[1..], command, tokens[1..]);
          LookupDescends(r, name, child', tokens[1..]);
          assert [name] + tokens[1..] == tokens;
        } else {
          OthersKept(r, name, child', i);
        }
      }
    }
  }

  lemma {:induction false} LookupShrinks(r: Router, tokens: seq<string>)
    requires Lookup(r, tokens).Some?
    ensures |Lookup(r, tokens).value.1| <= |tokens|
    ensures r.command.None? ==> |Lookup(r, tokens).value.1| < |tokens|
    decreases |tokens|
  {
    var i := if tokens == [] then |r.children| else Find(r.children, tokens[0]);
    if i < |r.children| {
      LookupShrinks(r.children[i], tokens[1..]);
    }
  }

  lemma OthersKept(r: Router, name: string, child: Router, i: nat)
    requires child.name == name && i < |r.children| && r.children[i].name != name
    requires forall j | 0 <= j < i :: r.children[j].name != r.children[i].name
    ensures var cs := WithChild(r, name, child).children;
            i < |cs| && cs[i] == r.children[i] && Find(cs, r.children[i].name) == i
  {
    var cs := WithChild(r, name, child).children;
    assert forall j | 0 <= j < i :: cs[j].name == r.children[j].name;
  }

  // ----- whole runs -----

  datatype Registration = Registration(segs: seq<string>, front: bool, behind: bool, command: Command)

  ghost predicate Wellformed(regs: seq<Registration>) {
    forall i | 0 <= i < |regs| :: Segments(regs[i].segs)
  }

  function After(r: Router, regs: seq<Registration>): Router
    decreases |regs|
  {
    if regs == [] then r
    else
      var before := After(r, regs[..|regs| - 1]);
      var g := regs[|regs| - 1];
      Handle(before, Text(g.segs, g.front, g.behind), g.command).0
  }

  lemma {:induction false} RunsStayTidy(regs: seq<Registration>)
    requires Wellformed(regs)
    ensures Tidy(After(New("", []), regs)) && After(New("", []), regs).path == []
    decreases |regs|
  {
    if regs != [] {
      var g := regs[|regs| - 1];
      var before := After(New("", []), regs[..|regs| - 1]);
      RunsStayTidy(regs[..|regs| - 1]);
      HandleInserts(before, g.segs, g.front, g.behind, g.command);
      InsertKeepsTidy(before, g.segs, g.command);
      InsertKeepsName(before, g.segs, g.command);
    }
  }

  lemma {:induction false} LookupsSurvive(r: Router, regs: seq<Registration>, tokens: seq<string>)
    requires Wellformed(regs) && Lookup(r, tokens).Some? && |Lookup(r, tokens).value.1| < |tokens|
    ensures Lookup(After(r, regs), tokens) == Lookup(r, tokens)
    decreases |regs|
  {
    if regs != [] {
      var g := regs[|regs| - 1];
      var before := After(r, regs[..|regs| - 1]);
      LookupsSurvive(r, regs[..|regs| - 1], tokens);
      HandleInserts(before, g.segs, g.front, g.behind, g.command);
      LookupsKept(before, g.segs, g.command, tokens);
    }
  }

  lemma {:induction false} AfterSplits(r: Router, xs: seq<Registration>, ys: seq<Registration>)
    ensures After(r, xs + ys) == After(After(r, xs), ys)
    decreases |ys|
  {
    if ys == [] {
      assert xs + ys == xs;
    } else {
      assert (xs + ys)[..|xs + ys| - 1] == xs + ys[..|ys| - 1];
      AfterSplits(r, xs, ys[..|ys| - 1]);
    }
  }

  /** In every run of registrations on paths without empty segments: a failed one changes
      nothing, and a successful one below the root is found by its words, with its command,
      its path, its parameters and the arguments given, after every later registration. */
  lemma RegistrationLasts(earlier: seq<Registration>, g: Registration, later: seq<Registration>, args: seq<string>)
    requires Wellformed(earlier) && Segments(g.segs) && Wellformed(later)
    ensures var before := After(New("", []), earlier);
            var (middle, err) := Handle(before, Text(g.segs, g.front, g.behind), g.command);
            var n := Landed(before, g.segs, g.command);
            && (err.Some? ==> middle == before)
            && (err.None? && Static(g.segs) != [] && Arguments(n, args) ==>
                  && Lookup(After(New("", []), earlier + [g] + later), Static(g.segs) + args) == Some((n, args))
                  && n.command == Some(g.command) && n.path == Static(g.segs) && n.params == ParamsOf(g.segs))
  {
    var before := After(New("", []), earlier);
    var n := Landed(before, g.segs, g.command);
    RunsStayTidy(earlier);
    HandleInserts(before, g.segs, g.front, g.behind, g.command);
    if Insert(before, g.segs, g.command).1.Some? {
      FailureChangesNothing(before, g.segs, g.command);
    } else if Static(g.segs) != [] && Arguments(n, args) {
      LandedPath(before, g.segs, g.command);
      LandedParams(before, g.segs, g.command);
      InsertFound(before, g.segs, g.command, args);
      assert (earlier + [g])[..|earlier|] == earlier;
      AfterSplits(New("", []), earlier + [g], later);
      LookupsSurvive(After(New("", []), earlier + [g]), later, Static(g.segs) + args);
      assert [] + Static(g.segs) == Static(g.segs) && [] + ParamsOf(g.segs) == ParamsOf(g.segs);
    }
  }
}
