/** Path patterns that let a request past a check: `isAllowed` in `middleware/auth/jwt.go` and
    the checker's allowlist in `admin/permission.go`. Paths are byte strings. */
module AllowList {
  import opened Strings

  // ----- what a pattern covers, by path segments -----

  /** The path lies strictly below `base`, segment for segment. */
  predicate Below(path: seq<string>, base: seq<string>) { |base| < |path| && path[..|base|] == base }

  /** "*" covers everything; a trailing star covers what lies below the path in front of it, a
      slash at whose end makes no difference; any other pattern covers itself. */
  predicate Covers(pattern: string, path: string) {
    || pattern == path || pattern == "*"
    || (|pattern| > 1 && pattern[|pattern| - 1] == '*'
        && Below(Split(path), Split(CutSuffix(pattern[..|pattern| - 1]))))
  }

  // ----- what the code compares -----

  function MatchPattern(pattern: string, path: string): (ok: bool)
    ensures ok <==> Covers(pattern, path)
  {
    var n := |pattern|;
    if pattern == path || pattern == "*" then true
    else if n > 1 && pattern[n - 1] == '*' then
      var prefix := pattern[..n - 1];
      StarMatches(prefix, path);
      prefix <= path && (prefix[n - 2] == '/' || (|path| > |prefix| && path[|prefix|] == '/'))
    else false
  }

  /** Comparing bytes and a single slash decides the relation on segments. */
  lemma StarMatches(prefix: string, path: string)
    requires prefix != ""
    ensures (prefix <= path && (prefix[|prefix| - 1] == '/' || (|path| > |prefix| && path[|prefix|] == '/')))
       <==> Below(Split(path), Split(CutSuffix(prefix)))
  {
    StarIsPrefix(prefix, path);
    BelowIsPrefix(CutSuffix(prefix), path);
  }

  lemma StarIsPrefix(prefix: string, path: string)
    requires prefix != ""
    ensures (prefix <= path && (prefix[|prefix| - 1] == '/' || (|path| > |prefix| && path[|prefix|] == '/')))
       <==> CutSuffix(prefix) + "/" <= path
  {
    if prefix[|prefix| - 1] == '/' {
      assert prefix == CutSuffix(prefix) + "/";
    } else {
      SlashNext(prefix, path);
    }
  }

  lemma SlashNext(prefix: string, path: string)
    ensures prefix <= path && |path| > |prefix| && path[|prefix|] == '/' <==> prefix + "/" <= path
  {
    if prefix + "/" <= path { assert (prefix + "/")[|prefix|] == path[|prefix|]; }
  }

  lemma BelowIsPrefix(base: string, path: string)
    ensures Below(Split(path), Split(base)) <==> base + "/" <= path
  {
    if base + "/" <= path {
      var rest := path[|base| + 1..];
      assert path == base + "/" + rest;
      PrefixIsBelow(base, rest);
    }
    if Below(Split(path), Split(base)) { BelowHasPrefix(base, path); }
  }

  lemma PrefixIsBelow(base: string, rest: string)
    ensures Below(Split(base + "/" + rest), Split(base))
  {
    SplitAt(base, rest);
    SplitSome(rest);
  }

  lemma BelowHasPrefix(base: string, path: string)
    requires Below(Split(path), Split(base))
    ensures base + "/" <= path
  {
    var more := Split(path)[|Split(base)|..];
    assert Split(path) == Split(base) + more;
    SplitSome(base);
    JoinAt(Split(base), more);
    SplitRejoins(path);
    SplitRejoins(base);
    assert path == base + "/" + Join(more);
  }

  /** The middleware's list. */
  method IsAllowed(path: string, allows: seq<string>) returns (ok: bool)
    ensures ok <==> exists i :: 0 <= i < |allows| && Covers(allows[i], path)
  {
    for k := 0 to |allows|
      invariant forall i | 0 <= i < k :: !Covers(allows[i], path)
    {
      var pattern := allows[k];
      var n := |pattern|;
      if pattern == path {
        return true;
      }
      if pattern == "*" {
        return true;
      }
      if n > 1 && pattern[n - 1] == '*' {
        var prefix := pattern[..n - 1];
        StarMatches(prefix, path);
        if !(prefix <= path) {
          continue;
        }
        if prefix[n - 2] == '/' {
          return true;
        }
        if |path| > n - 1 && path[n - 1] == '/' {
          return true;
        }
      }
    }
    return false;
  }

  // ----- the checker's list -----

  /** An empty method stands for any. */
  datatype AllowEntry = AllowEntry(method_: string, pattern: string)

  ghost predicate Admitted(entries: seq<AllowEntry>, n: nat, m: string, path: string)
    requires n <= |entries|
  {
    exists i :: 0 <= i < n && (entries[i].method_ == "" || entries[i].method_ == m) && Covers(entries[i].pattern, path)
  }

  method Match(entries: seq<AllowEntry>, m: string, path: string) returns (ok: bool)
    ensures ok <==> exists i :: 0 <= i < |entries| && (entries[i].method_ == "" || entries[i].method_ == m)
                                && Covers(entries[i].pattern, path)
  {
    var wildcardHit := false;
    for k := 0 to |entries|
      invariant wildcardHit <==> Admitted(entries, k, m, path)
    {
      var e := entries[k];
      if e.method_ == "" {
        if MatchPattern(e.pattern, path) {
          wildcardHit := true;
        }
      } else if e.method_ == m {
        if MatchPattern(e.pattern, path) {
          return true;
        }
      }
    }
    return wildcardHit;
  }

  /** What a star does not cover: the path in front of it, and a sibling that merely starts
      with its text. */
  lemma SiblingsNotCovered(prefix: string, tail: string)
    requires prefix != "" && prefix[|prefix| - 1] != '/' && '/' !in tail && tail != "*"
    ensures !Covers(prefix + "*", prefix + tail)
  {
    var pattern, path := prefix + "*", prefix + tail;
    assert pattern[..|pattern| - 1] == prefix;
    assert pattern != path by { assert path[|prefix|..] == tail && pattern[|prefix|..] == "*"; }
    StarMatches(prefix, path);
    assert forall k | |prefix| <= k < |path| :: path[k] == tail[k - |prefix|];
  }
}
