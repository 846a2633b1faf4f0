/** Paths and their segments: what the routers and the allowlists take from Go's `strings`
    package. Strings are byte strings. */
module Strings {
  function CutSuffix(s: string): string { if s != "" && s[|s| - 1] == '/' then s[..|s| - 1] else s }

  function CutPrefix(s: string): string { if s != "" && s[0] == '/' then s[1..] else s }

  function TrimColon(s: string): string { if s != "" && s[0] == ':' then s[1..] else s }

  /** Where the first slash stands; the length when there is none. */
  function IndexSlash(s: string): (i: nat)
    ensures i <= |s| && (i < |s| ==> s[i] == '/') && forall j | 0 <= j < i :: s[j] != '/'
  {
    if s == "" || s[0] == '/' then 0 else 1 + IndexSlash(s[1..])
  }

  function Split(s: string): seq<string>
    decreases |s|
  {
    var i := IndexSlash(s);
    if i == |s| then [s] else [s[..i]] + Split(s[i + 1..])
  }

  function Join(segs: seq<string>): string {
    if segs == [] then "" else if |segs| == 1 then segs[0] else segs[0] + "/" + Join(segs[1..])
  }

  lemma {:induction false} FirstSlash(head: string, tail: string)
    requires '/' !in head && (tail == "" || tail[0] == '/')
    ensures IndexSlash(head + tail) == |head|
    decreases |head|
  {
    if head == "" {
      assert head + tail == tail;
    } else {
      assert (head + tail)[1..] == head[1..] + tail;
      FirstSlash(head[1..], tail);
    }
  }

  lemma SlashesCut(p: string, front: bool, behind: bool)
    requires p != "" ==> p[0] != '/' && p[|p| - 1] != '/'
    ensures CutPrefix(CutSuffix((if front then "/" else "") + p + (if behind then "/" else ""))) == p
  {
    var slash := if front then "/" else "";
    var cut := slash + p;
    var t := cut + (if behind then "/" else "");
    if behind {
      assert t[..|t| - 1] == cut;
    } else {
      assert t == cut;
    }
    if front { assert cut[1..] == p; } else { assert cut == p; }
  }

  lemma NoTail(s: string)
    ensures s + "" == s
  {
  }

  lemma SlashBetween(a: string, b: string)
    ensures a + "/" + b == a + ("/" + b) && "/" + b + "" == "/" + b
  {
  }

  lemma WordsJoin(word: string, words: seq<string>, args: seq<string>)
    ensures [word] + words + args == [word] + (words + args)
  {
  }

  lemma SplitSome(s: string)
    ensures Split(s) != []
  {
  }

  lemma {:induction false} SplitAt(a: string, b: string)
    ensures Split(a + "/" + b) == Split(a) + Split(b)
    decreases |a|
  {
    var s, i := a + "/" + b, IndexSlash(a);
    IndexIs(s, i);
    if i < |a| {
      assert s[i + 1..] == a[i + 1..] + "/" + b && s[..i] == a[..i];
      SplitAt(a[i + 1..], b);
      WordsJoin(a[..i], Split(a[i + 1..]), Split(b));
    } else {
      assert s[..i] == a && s[i + 1..] == b;
    }
  }

  lemma {:induction false} IndexIs(s: string, i: nat)
    requires i < |s| && s[i] == '/' && forall j | 0 <= j < i :: s[j] != '/'
    ensures IndexSlash(s) == i
  {
  }

  lemma {:induction false} JoinAt(a: seq<string>, b: seq<string>)
    requires a != [] && b != []
    ensures Join(a + b) == Join(a) + "/" + Join(b)
    decreases |a|
  {
    assert (a + b)[1..] == a[1..] + b && (a + b)[0] == a[0];
    if |a| > 1 {
      JoinAt(a[1..], b);
      Slashes(a[0], Join(a[1..]), Join(b));
    } else {
      assert a[1..] + b == b;
    }
  }

  lemma Slashes(x: string, y: string, z: string)
    ensures x + "/" + (y + "/" + z) == x + "/" + y + "/" + z
  {
  }

  lemma {:induction false} SplitRejoins(s: string)
    ensures Join(Split(s)) == s
    decreases |s|
  {
    var i := IndexSlash(s);
    if i < |s| {
      SplitRejoins(s[i + 1..]);
      SplitSome(s[i + 1..]);
      assert Split(s)[1..] == Split(s[i + 1..]);
      assert s == s[..i] + "/" + s[i + 1..];
    }
  }
}
