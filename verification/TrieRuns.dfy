/** Runs of registrations on the command trie (`transport/cli/router.go`), in terms of nothing but
    the paths registered: which succeed, and what the command lines then resolve to. */
module TrieRuns {
  import opened Strings
  import opened Trie
  import opened Wrappers

  // ----- how a path reads -----

  /** The words are the segments in front of the first that starts with a colon, a dash standing
      for "app"; the parameters are the rest, each without one leading colon. */
  ghost predicate Reads(segs: seq<string>, words: seq<string>, params: seq<string>) {
    && Segments(segs) && |words| + |params| == |segs|
    && (forall i | 0 <= i < |words| :: segs[i][0] != ':' && words[i] == if segs[i] == "-" then "app" else segs[i])
    && (params != [] ==> segs[|words|][0] == ':')
    && forall i | 0 <= i < |params| ::
         segs[|words| + i] == ":" + params[i] || (segs[|words| + i][0] != ':' && params[i] == segs[|words| + i])
  }

  /** Every path without empty segments reads one way only: the way the code takes it. */
  lemma {:induction false} ReadsAsCoded(segs: seq<string>)
    requires Segments(segs)
    ensures Reads(segs, Static(segs), ParamsOf(segs))
    decreases |segs|
  {
    if segs != [] && segs[0][0] != ':' {
      ReadsAsCoded(segs[1..]);
      var words, params := Static(segs), ParamsOf(segs);
      forall i | 0 <= i < |params|
        ensures segs[|words| + i] == ":" + params[i] || (segs[|words| + i][0] != ':' && params[i] == segs[|words| + i])
      {
        assert segs[|words| + i] == segs[1..][|words[1..]| + i];
      }
    } else {
      forall i | 0 <= i < |segs|
        ensures segs[i] == ":" + TrimColon(segs[i]) || (segs[i][0] != ':' && TrimColon(segs[i]) == segs[i])
      {
        if segs[i][0] == ':' { assert segs[i] == ":" + segs[i][1..]; }
      }
    }
  }

  lemma ReadsOnce(segs: seq<string>, words: seq<string>, params: seq<string>, words': seq<string>, params': seq<string>)
    requires Reads(segs, words, params) && Reads(segs, words', params')
    ensures words == words' && params == params'
  {
    assert |words| == |words'|;
    forall i | 0 <= i < |params| ensures params[i] == params'[i] {
      OneColon(segs[|words| + i], params[i], params'[i]);
    }
  }

  lemma OneColon(seg: string, a: string, b: string)
    requires seg != "" && (seg == ":" + a || (seg[0] != ':' && a == seg)) && (seg == ":" + b || (seg[0] != ':' && b == seg))
    ensures a == b
  {
    if seg[0] == ':' { assert a == seg[1..] && b == seg[1..]; }
  }

  lemma ReadsIsCoded(segs: seq<string>, words: seq<string>, params: seq<string>)
    requires Reads(segs, words, params)
    ensures words == Static(segs) && params == ParamsOf(segs)
  {
    ReadsAsCoded(segs);
    ReadsOnce(segs, words, params, Static(segs), ParamsOf(segs));
  }

  // ----- the nodes of a trie -----

  ghost predicate HasNode(r: Router, words: seq<string>)
    decreases |words|
  {
    words == [] || (Find(r.children, words[0]) < |r.children| && HasNode(r.children[Find(r.children, words[0])], words[1..]))
  }

  ghost predicate HasCommand(r: Router, words: seq<string>)
    decreases |words|
  {
    if words == [] then r.command.Some?
    else Find(r.children, words[0]) < |r.children| && HasCommand(r.children[Find(r.children, words[0])], words[1..])
  }

  /** A command stands on the way, the root aside. */
  ghost predicate Blocked(r: Router, words: seq<string>) {
    exists k :: 0 < k <= |words| && HasCommand(r, words[..k])
  }

  lemma PrefixCons(words: seq<string>, k: nat)
    requires words != [] && 0 < k <= |words|
    ensures words[..k] != [] && words[..k][0] == words[0] && words[..k][1..] == words[1..][..k - 1]
  {
  }

  /** Below the first word, the way is blocked by the child or further down. */
  lemma BlockedBelow(r: Router, words: seq<string>)
    requires words != []
    ensures var i := Find(r.children, words[0]);
            Blocked(r, words) <==> i < |r.children| && (r.children[i].command.Some? || Blocked(r.children[i], words[1..]))
  {
    var i := Find(r.children, words[0]);
    if k :| 0 < k <= |words| && HasCommand(r, words[..k]) {
      PrefixCons(words, k);
      assert HasCommand(r.children[i], words[1..][..k - 1]);
      if k == 1 {
        assert r.children[i].command.Some?;
      } else {
        assert Blocked(r.children[i], words[1..]);
      }
    }
    if i < |r.children| && r.children[i].command.Some? {
      PrefixCons(words, 1);
      assert words[..1][1..] == [] && HasCommand(r, words[..1]);
    }
    if i < |r.children| && Blocked(r.children[i], words[1..]) {
      var k :| 0 < k <= |words[1..]| && HasCommand(r.children[i], words[1..][..k]);
      PrefixCons(words, k + 1);
      assert HasCommand(r, words[..k + 1]);
    }
  }

  /** A leaf blocks nothing. */
  lemma LeafOpen(r: Router, words: seq<string>)
    requires r.children == []
    ensures !Blocked(r, words)
  {
    if words != [] { BlockedBelow(r, words); }
  }

  /** A registration fails exactly when a command stands on its way. */
  lemma {:induction false} FailsIfBlocked(r: Router, segs: seq<string>, command: Command)
    requires Segments(segs)
    ensures Insert(r, segs, command).1.Some? <==> Blocked(r, Static(segs))
    decreases |segs|
  {
    if segs != [] && segs[0][0] != ':' {
      var child := ChildFor(r, NameOf(segs[0]));
      BlockedBelow(r, Static(segs));
      assert Static(segs)[1..] == Static(segs[1..]);
      if child.command.None? {
        FailsIfBlocked(child, segs[1..], command);
        LeafOpen(New(NameOf(segs[0]), r.path + [NameOf(segs[0])]), Static(segs[1..]));
      }
    }
  }

  /** A successful one adds its command and the nodes on its way, and nothing else. */
  lemma {:induction false} InsertAdds(r: Router, segs: seq<string>, command: Command, words: seq<string>)
    requires Segments(segs) && Insert(r, segs, command).1.None?
    ensures var r' := Insert(r, segs, command).0;
            && (HasCommand(r', words) <==> HasCommand(r, words) || words == Static(segs))
            && (HasNode(r', words) <==> HasNode(r, words) || words <= Static(segs))
    decreases |segs|
  {
    if segs != [] && segs[0][0] != ':' {
      var name := NameOf(segs[0]);
      var child := ChildFor(r, name);
      var child' := Insert(child, segs[1..], command).0;
      InsertKeepsName(child, segs[1..], command);
      var r' := WithChild(r, name, child');
      WithChildFound(r, name, child');
      if words != [] {
        var i := Find(r.children, words[0]);
        if words[0] == name {
          InsertAdds(child, segs[1..], command, words[1..]);
          ConsPrefix(name, words, Static(segs[1..]));
          if i == |r.children| { LeafHas(child, words[1..]); }
        } else {
          OtherChild(r, name, child', words[0]);
        }
      }
    }
  }

  lemma ConsPrefix(name: string, words: seq<string>, more: seq<string>)
    requires words != [] && words[0] == name
    ensures words == [name] + more <==> words[1..] == more
    ensures words <= [name] + more <==> words[1..] <= more
  {
    assert words == [name] + words[1..];
    if words[1..] <= more { assert [name] + more == words + more[|words| - 1..]; }
  }

  lemma LeafHas(r: Router, words: seq<string>)
    requires r.children == [] && r.command.None?
    ensures !HasCommand(r, words) && (HasNode(r, words) <==> words == [])
  {
  }

  lemma OtherChild(r: Router, name: string, child: Router, other: string)
    requires child.name == name && other != name
    ensures var cs := WithChild(r, name, child).children;
            (Find(cs, other) < |cs| <==> Find(r.children, other) < |r.children|)
            && (Find(cs, other) < |cs| ==> cs[Find(cs, other)] == r.children[Find(r.children, other)])
  {
    var cs, i := WithChild(r, name, child).children, Find(r.children, other);
    if i < |r.children| {
      OthersKept(r, name, child, i);
    } else {
      assert forall j | 0 <= j < |cs| :: cs[j].name != other;
    }
  }

  /** The error carries the path of the first command on the way. */
  lemma {:induction false} BlockingPath(r: Router, segs: seq<string>, command: Command) returns (k: nat)
    requires Segments(segs) && Tidy(r) && Insert(r, segs, command).1.Some?
    ensures 0 < k <= |Static(segs)| && HasCommand(r, Static(segs)[..k]) && !Blocked(r, Static(segs)[..k - 1])
    ensures Insert(r, segs, command).1.value.path == r.path + Static(segs)[..k]
    decreases |segs|
  {
    var words, name := Static(segs), NameOf(segs[0]);
    var child := ChildFor(r, name);
    assert words[0] == name && words[1..] == Static(segs[1..]);
    ChildTidy(r, name);
    if child.command.Some? {
      k := 1;
      BlockFirst(r, words);
      assert words[..1] == [name];
    } else {
      k := BlockingPath(child, segs[1..], command);
      LeafHas(New(name, r.path + [name]), words[1..][..k]);
      BlockDeeper(r, words, k);
      PathCons(r.path, words, k);
      k := k + 1;
    }
  }

  lemma PathCons(path: seq<string>, words: seq<string>, k: nat)
    requires words != [] && k < |words|
    ensures path + [words[0]] + words[1..][..k] == path + words[..k + 1]
  {
  }

  lemma BlockFirst(r: Router, words: seq<string>)
    requires words != [] && Find(r.children, words[0]) < |r.children| && r.children[Find(r.children, words[0])].command.Some?
    ensures HasCommand(r, words[..1]) && !Blocked(r, words[..0])
  {
    PrefixCons(words, 1);
    assert words[..1][1..] == [];
  }

  lemma BlockDeeper(r: Router, words: seq<string>, k: nat)
    requires words != [] && Find(r.children, words[0]) < |r.children| && r.children[Find(r.children, words[0])].command.None?
    requires 0 < k < |words| && HasCommand(r.children[Find(r.children, words[0])], words[1..][..k])
    requires !Blocked(r.children[Find(r.children, words[0])], words[1..][..k - 1])
    ensures HasCommand(r, words[..k + 1]) && !Blocked(r, words[..k])
  {
    PrefixCons(words, k + 1);
    PrefixCons(words, k);
    BlockedBelow(r, words[..k]);
  }

  // ----- runs -----

  /** Some registration's words, not none, begin the given ones. */
  ghost predicate Shadowed(regs: seq<Registration>, words: seq<string>)
    requires Wellformed(regs)
  {
    exists i :: 0 <= i < |regs| && Static(regs[i].segs) != [] && Static(regs[i].segs) <= words
  }

  function Built(regs: seq<Registration>): Router { After(New("", []), regs) }

  lemma {:induction false} BlockedIsShadowed(regs: seq<Registration>, words: seq<string>)
    requires Wellformed(regs)
    ensures Blocked(Built(regs), words) <==> Shadowed(regs, words)
    decreases |regs|
  {
    if regs == [] {
      LeafOpen(New("", []), words);
    } else {
      var n := |regs| - 1;
      var g, before := regs[n], Built(regs[..n]);
      var own := Static(g.segs);
      BlockedIsShadowed(regs[..n], words);
      BlockedIsShadowed(regs[..n], own);
      HandleInserts(before, g.segs, g.front, g.behind, g.command);
      FailsIfBlocked(before, g.segs, g.command);
      ShadowedCons(regs, words);
      if Insert(before, g.segs, g.command).1.Some? {
        FailureChangesNothing(before, g.segs, g.command);
        if own <= words { ShadowedLonger(regs[..n], own, words); }
      } else {
        BlockedAfter(before, g.segs, g.command, words);
      }
    }
  }

  lemma ShadowedCons(regs: seq<Registration>, words: seq<string>)
    requires Wellformed(regs) && regs != []
    ensures var own := Static(regs[|regs| - 1].segs);
            Shadowed(regs, words) <==> Shadowed(regs[..|regs| - 1], words) || (own != [] && own <= words)
  {
    var n := |regs| - 1;
    assert forall i | 0 <= i < n :: regs[..n][i] == regs[i];
    if Shadowed(regs, words) {
      var i :| 0 <= i < |regs| && Static(regs[i].segs) != [] && Static(regs[i].segs) <= words;
      assert i < n ==> Static(regs[..n][i].segs) <= words;
    }
    if Shadowed(regs[..n], words) {
      var i :| 0 <= i < n && Static(regs[..n][i].segs) != [] && Static(regs[..n][i].segs) <= words;
      assert Static(regs[i].segs) <= words;
    }
    if Static(regs[n].segs) != [] && Static(regs[n].segs) <= words { assert Shadowed(regs, words); }
  }

  lemma ShadowedLonger(regs: seq<Registration>, words: seq<string>, longer: seq<string>)
    requires Wellformed(regs) && Shadowed(regs, words) && words <= longer
    ensures Shadowed(regs, longer)
  {
    var i :| 0 <= i < |regs| && Static(regs[i].segs) != [] && Static(regs[i].segs) <= words;
    assert Static(regs[i].segs) <= longer;
  }

  lemma BlockedAfter(r: Router, segs: seq<string>, command: Command, words: seq<string>)
    requires Segments(segs) && Insert(r, segs, command).1.None?
    ensures var own := Static(segs);
            Blocked(Insert(r, segs, command).0, words) <==> Blocked(r, words) || (own != [] && own <= words)
  {
    var r', own := Insert(r, segs, command).0, Static(segs);
    forall k | 0 < k <= |words| ensures HasCommand(r', words[..k]) <==> HasCommand(r, words[..k]) || words[..k] == own {
      InsertAdds(r, segs, command, words[..k]);
    }
    if own != [] && own <= words { assert words[..|own|] == own; }
  }

  /** Some registration's words lead through these. */
  ghost predicate LedThrough(regs: seq<Registration>, words: seq<string>)
    requires Wellformed(regs)
  {
    exists i :: 0 <= i < |regs| && words <= Static(regs[i].segs)
  }

  lemma LedCons(regs: seq<Registration>, words: seq<string>)
    requires Wellformed(regs) && regs != []
    ensures LedThrough(regs, words) <==> LedThrough(regs[..|regs| - 1], words) || words <= Static(regs[|regs| - 1].segs)
  {
    var n := |regs| - 1;
    if i :| 0 <= i < |regs| && words <= Static(regs[i].segs) {
      assert i < n ==> words <= Static(regs[..n][i].segs);
    }
    if i :| 0 <= i < n && words <= Static(regs[..n][i].segs) { assert words <= Static(regs[i].segs); }
  }

  /** Beyond an open way, a node exists exactly if some registration's words lead through it. */
  lemma {:induction false} NodesRegistered(regs: seq<Registration>, words: seq<string>, next: string)
    requires Wellformed(regs) && !Blocked(Built(regs), words)
    ensures HasNode(Built(regs), words + [next]) <==> LedThrough(regs, words + [next])
    decreases |regs|
  {
    if regs == [] {
      LeafHas(New("", []), words + [next]);
    } else {
      var n := |regs| - 1;
      var g, before := regs[n], Built(regs[..n]);
      HandleInserts(before, g.segs, g.front, g.behind, g.command);
      LedCons(regs, words + [next]);
      NodeAdded(before, g.segs, g.command, words, next);
      NodesRegistered(regs[..n], words, next);
    }
  }

  lemma NodeAdded(r: Router, segs: seq<string>, command: Command, words: seq<string>, next: string)
    requires Segments(segs) && !Blocked(Insert(r, segs, command).0, words)
    ensures !Blocked(r, words)
    ensures HasNode(Insert(r, segs, command).0, words + [next]) <==> HasNode(r, words + [next]) || words + [next] <= Static(segs)
  {
    FailsIfBlocked(r, segs, command);
    if Insert(r, segs, command).1.Some? {
      FailureChangesNothing(r, segs, command);
      if words + [next] <= Static(segs) { BlockedHasNode(r, Static(segs), words, next); }
    } else {
      BlockedAfter(r, segs, command, words);
      InsertAdds(r, segs, command, words + [next]);
    }
  }

  /** A command that blocks the longer way but not the shorter stands at or beyond the next node. */
  lemma BlockedHasNode(r: Router, own: seq<string>, words: seq<string>, next: string)
    requires Blocked(r, own) && !Blocked(r, words) && words + [next] <= own
    ensures HasNode(r, words + [next])
  {
    var k :| 0 < k <= |own| && HasCommand(r, own[..k]);
    PrefixSame(words, own, k);
    assert k > |words|;
    assert own[..k] == words + [next] + own[|words| + 1..k];
    CommandHasNodes(r, words + [next], own[|words| + 1..k]);
  }

  lemma PrefixSame(words: seq<string>, longer: seq<string>, k: nat)
    requires words <= longer
    ensures k <= |words| ==> longer[..k] == words[..k]
  {
  }

  lemma {:induction false} CommandHasNodes(r: Router, words: seq<string>, more: seq<string>)
    requires HasCommand(r, words + more)
    ensures HasNode(r, words)
    decreases |words|
  {
    if words != [] {
      assert (words + more)[0] == words[0] && (words + more)[1..] == words[1..] + more;
      CommandHasNodes(r.children[Find(r.children, words[0])], words[1..], more);
    }
  }

  /** Whether the node a registration lands on has a child of that name. */
  lemma {:induction false} LandedChild(r: Router, segs: seq<string>, command: Command, next: string)
    requires Segments(segs) && Insert(r, segs, command).1.None?
    ensures Find(Landed(r, segs, command).children, next) < |Landed(r, segs, command).children|
       <==> HasNode(r, Static(segs) + [next])
    decreases |segs|
  {
    if segs == [] || segs[0][0] == ':' {
      assert [] + [next] == [next] && [next][1..] == [];
    } else {
      var child := ChildFor(r, NameOf(segs[0]));
      LandedChild(child, segs[1..], command, next);
      var words := Static(segs) + [next];
      assert words[0] == NameOf(segs[0]) && words[1..] == Static(segs[1..]) + [next];
      if Find(r.children, words[0]) == |r.children| { LeafHas(child, words[1..]); }
    }
  }

  // ----- what a run comes to -----

  /** Some earlier path reads as words, not none, that begin the given ones. */
  ghost predicate ReadBefore(regs: seq<Registration>, words: seq<string>) {
    exists i, w, p :: 0 <= i < |regs| && Reads(regs[i].segs, w, p) && w != [] && w <= words
  }

  /** Some earlier path reads as words that go on from the given ones with the next. */
  ghost predicate ReadBeyond(regs: seq<Registration>, words: seq<string>, next: string) {
    exists i, w, p :: 0 <= i < |regs| && Reads(regs[i].segs, w, p) && words + [next] <= w
  }

  lemma ReadIsShadowed(regs: seq<Registration>, words: seq<string>)
    requires Wellformed(regs)
    ensures ReadBefore(regs, words) <==> Shadowed(regs, words)
  {
    if i, w, p :| 0 <= i < |regs| && Reads(regs[i].segs, w, p) && w != [] && w <= words { ReadsIsCoded(regs[i].segs, w, p); }
    if i :| 0 <= i < |regs| && Static(regs[i].segs) != [] && Static(regs[i].segs) <= words { ReadsAsCoded(regs[i].segs); }
  }

  lemma ReadIsBeyond(regs: seq<Registration>, words: seq<string>, next: string)
    requires Wellformed(regs)
    ensures ReadBeyond(regs, words, next) <==> LedThrough(regs, words + [next])
  {
    if i, w, p :| 0 <= i < |regs| && Reads(regs[i].segs, w, p) && words + [next] <= w { ReadsIsCoded(regs[i].segs, w, p); }
    if i :| 0 <= i < |regs| && words + [next] <= Static(regs[i].segs) { ReadsAsCoded(regs[i].segs); }
  }

  /** A registration fails exactly when an earlier path, successful or not, reads as words that
      begin its own; without words of its own it goes to the root. */
  lemma RegistersExactly(earlier: seq<Registration>, g: Registration, words: seq<string>, params: seq<string>)
    requires Wellformed(earlier) && Reads(g.segs, words, params)
    ensures var (after, err) := Handle(Built(earlier), Text(g.segs, g.front, g.behind), g.command);
            && (err.Some? <==> ReadBefore(earlier, words))
            && (err.Some? ==> after == Built(earlier))
            && (words == [] ==> after == Built(earlier).(command := Some(g.command), params := Built(earlier).params + params))
  {
    var before := Built(earlier);
    ReadsIsCoded(g.segs, words, params);
    HandleInserts(before, g.segs, g.front, g.behind, g.command);
    FailsIfBlocked(before, g.segs, g.command);
    BlockedIsRead(earlier, words);
    if ReadBefore(earlier, words) { FailureChangesNothing(before, g.segs, g.command); }
    if g.segs == [] { assert before.params + [] == before.params; }
  }

  /** The error names the words of an earlier path that begin the new one's, the shortest such. */
  lemma RefusalNames(earlier: seq<Registration>, g: Registration, words: seq<string>, params: seq<string>)
    requires Wellformed(earlier) && Reads(g.segs, words, params) && ReadBefore(earlier, words)
    ensures var err := Handle(Built(earlier), Text(g.segs, g.front, g.behind), g.command).1;
            && err.Some? && err.value.path != [] && err.value.path <= words
            && ReadBefore(earlier, err.value.path) && !ReadBefore(earlier, err.value.path[..|err.value.path| - 1])
  {
    var before := Built(earlier);
    ReadsIsCoded(g.segs, words, params);
    RegistersExactly(earlier, g, words, params);
    RunsStayTidy(earlier);
    HandleInserts(before, g.segs, g.front, g.behind, g.command);
    var k := BlockingPath(before, g.segs, g.command);
    assert [] + words[..k] == words[..k];
    ShortestRead(earlier, words, k);
  }

  lemma ShortestRead(regs: seq<Registration>, words: seq<string>, k: nat)
    requires Wellformed(regs) && 0 < k <= |words| && HasCommand(Built(regs), words[..k]) && !Blocked(Built(regs), words[..k - 1])
    ensures ReadBefore(regs, words[..k]) && !ReadBefore(regs, words[..k][..k - 1])
  {
    var p := words[..k];
    assert p[..k] == p && p[..k - 1] == words[..k - 1];
    assert Blocked(Built(regs), p);
    BlockedIsRead(regs, p);
    BlockedIsRead(regs, p[..k - 1]);
  }

  lemma BlockedIsRead(regs: seq<Registration>, words: seq<string>)
    requires Wellformed(regs)
    ensures Blocked(Built(regs), words) <==> ReadBefore(regs, words)
  {
    BlockedIsShadowed(regs, words);
    ReadIsShadowed(regs, words);
  }

  /** When it succeeds, its words followed by any arguments that no earlier path goes on with
      resolve to its command, path and parameters, whatever is registered later. */
  lemma RegisteredFound(earlier: seq<Registration>, g: Registration, later: seq<Registration>,
                        words: seq<string>, params: seq<string>, args: seq<string>)
    requires Wellformed(earlier) && Wellformed(later) && Reads(g.segs, words, params) && words != []
    requires !ReadBefore(earlier, words) && (args != [] ==> !ReadBeyond(earlier, words, args[0]))
    ensures var found := Lookup(Built(earlier + [g] + later), words + args);
            && found.Some? && found.value.1 == args && found.value.0.command == Some(g.command)
            && found.value.0.path == words && found.value.0.params == params
  {
    var before := Built(earlier);
    ReadsIsCoded(g.segs, words, params);
    RegistersExactly(earlier, g, words, params);
    HandleInserts(before, g.segs, g.front, g.behind, g.command);
    BlockedIsRead(earlier, words);
    if args != [] {
      NodesRegistered(earlier, words, args[0]);
      ReadIsBeyond(earlier, words, args[0]);
      LandedChild(before, g.segs, g.command, args[0]);
    }
    RegistrationLasts(earlier, g, later, args);
  }

  // ----- what a lookup does -----

  ghost predicate NodeAt(r: Router, words: seq<string>, n: Router)
    decreases |words|
  {
    if words == [] then n == r
    else exists i :: 0 <= i < |r.children| && r.children[i].name == words[0] && NodeAt(r.children[i], words[1..], n)
  }

  /** A lookup goes down as far as the words name children, and answers with that node, the rest
      as arguments, if it has a command, and not at all if it has none. */
  lemma {:induction false} LookupResolves(r: Router, tokens: seq<string>) returns (k: nat, n: Router)
    ensures k <= |tokens| && NodeAt(r, tokens[..k], n)
    ensures k < |tokens| ==> forall c | c in n.children :: c.name != tokens[k]
    ensures Lookup(r, tokens) == if n.command.Some? then Some((n, tokens[k..])) else None
    decreases |tokens|
  {
    var i := if tokens == [] then |r.children| else Find(r.children, tokens[0]);
    if i < |r.children| {
      k, n := LookupResolves(r.children[i], tokens[1..]);
      assert tokens[1..][..k] == tokens[..k + 1][1..] && tokens[1..][k..] == tokens[k + 1..];
      k := k + 1;
    } else {
      k, n := 0, r;
    }
  }
}
