/** vde_realpath: the canonical absolute name of a file, built in the caller's buffer. */
module Canonicalize {
  import opened PathWalk

  /** A C string stands at p. */
  ghost predicate Reads(a: array<char>, p: nat, s: string)
    reads a
  {
    NulFree(s) && p + |s| < a.Length && a[p..p + |s|] == s && a[p + |s|] == NUL
  }

  /** What is written so far, up to dest, is the stack's path, possibly with a slash behind it. */
  ghost predicate Spells(resolved: array<char>, dest: nat, stack: Stack)
    reads resolved
  {
    dest < PATH_MAX <= resolved.Length
    && (resolved[..dest] == PathOf(stack) || resolved[..dest] == Slashed(stack))
  }

  lemma ReadsFrom(a: array<char>, p: nat, s: string, k: nat)
    requires Reads(a, p, s) && k <= |s|
    ensures Reads(a, p + k, s[k..]) && p + k < a.Length
    ensures a[p + k] == if k < |s| then s[k] else NUL
  {
    assert a[p..p + |s|][k..] == a[p + k..p + |s|];
  }

  /** `memcpy` and `memmove`: the bytes as they were before, also if the source overlaps the destination. */
  method MoveMemory(to: array<char>, at: nat, from: array<char>, start: nat, count: nat)
    requires at + count <= to.Length && start + count <= from.Length
    modifies to
    ensures to[at..at + count] == old(from[start..start + count])
    ensures to[..at] == old(to[..at]) && to[at + count..] == old(to[at + count..])
  {
    forall i | 0 <= i < count {
      to[at + i] := from[start + i];
    }
  }

  // ---- the path so far

  /** The ends of a path: its last component, and the slash before that. */
  lemma PathEnds(stack: Stack)
    ensures stack == [] ==> PathOf(stack) == Slashed(stack) == "/"
    ensures stack != [] ==>
              PathOf(stack) == Slashed(Parent(stack)) + stack[|stack| - 1] && Slashed(stack) == PathOf(stack) + "/"
  {
  }

  /** `while ((--dest)[-1] != '/')`, unless at the root. */
  method BackUp(resolved: array<char>, start: nat, ghost stack: Stack) returns (dest: nat)
    requires Spells(resolved, start, stack) && Canonical(stack)
    ensures dest <= start && Spells(resolved, dest, Parent(stack))
  {
    hide PathOf, Slashed;
    PathEnds(stack);
    dest := start;
    if dest > 1 {
      ghost var up, c := Slashed(Parent(stack)), stack[|stack| - 1];
      assert c in stack;
      assert resolved[..|up| + |c|] == up + c;
      assert resolved[|up| - 1] == (up + c)[|up| - 1];
      assert forall k :: |up| <= k < |up| + |c| ==> resolved[k] == c[k - |up|];
      dest := dest - 1;
      while resolved[dest - 1] != '/'
        invariant |up| <= dest < start && dest <= |up| + |c|
        decreases dest
      {
        dest := dest - 1;
      }
      assert resolved[..dest] == up;
    }
  }

  /** A slash behind the path, if there is none. */
  method AddSlash(resolved: array<char>, from: nat, ghost stack: Stack) returns (dest: nat)
    requires Spells(resolved, from, stack) && Canonical(stack)
    modifies resolved
    ensures dest <= PATH_MAX <= resolved.Length && resolved[..dest] == Slashed(stack)
  {
    hide PathOf, Slashed;
    PathEnds(stack);
    PathIsNulFree(stack);
    dest := from;
    if resolved[dest - 1] != '/' {
      resolved[dest] := '/';
      dest := dest + 1;
    }
  }

  /** `memcpy`, and a NUL behind it */
  method CopyBehind(resolved: array<char>, from: nat, cur: array<char>, start: nat, end: nat, ghost before: string)
    returns (dest: nat)
    requires resolved != cur && start <= end <= cur.Length && from + (end - start) < resolved.Length
    requires resolved[..from] == before
    modifies resolved
    ensures dest == from + (end - start) && resolved[..dest] == before + cur[start..end] && resolved[dest] == NUL
  {
    MoveMemory(resolved, from, cur, start, end - start);
    dest := from + (end - start);
    resolved[dest] := NUL;
    assert resolved[..from] == before;
    assert resolved[from..dest] == cur[start..end];
    assert resolved[..dest] == resolved[..from] + resolved[from..dest];
  }

  /** A slash if there is none; then the component, if the path with it fits. */
  method AppendComponent(resolved: array<char>, from: nat, cur: array<char>, start: nat, end: nat,
                         ghost stack: Stack, ghost c: string)
    returns (dest: nat, fits: bool)
    requires Spells(resolved, from, stack) && resolved != cur && Canonical(stack) && IsComponent(c)
    requires start <= end <= cur.Length && cur[start..end] == c
    modifies resolved
    ensures fits <==> |Slashed(stack) + c| < PATH_MAX
    ensures fits ==> Spells(resolved, dest, stack + [c]) && Reads(resolved, 0, Slashed(stack) + c)
    ensures fits ==> dest < PATH_MAX <= resolved.Length && resolved[..dest] == Slashed(stack) + c
    ensures !fits ==> Reads(resolved, 0, PathOf(stack))
  {
    hide PathOf, Slashed;
    PathEnds(stack);
    PathIsNulFree(stack);
    PathOfPush(stack, c);
    dest := AddSlash(resolved, from, stack);
    if dest + (end - start) >= PATH_MAX {
      fits := false;
      if dest > 1 {
        dest := dest - 1;
      }
      resolved[dest] := NUL;
      assert resolved[0..dest] == resolved[..dest] == PathOf(stack);
      return;
    }
    fits := true;
    dest := CopyBehind(resolved, dest, cur, start, end, Slashed(stack));
    assert resolved[0..dest] == resolved[..dest];
  }

  lemma {:induction false} PathIsNulFree(stack: Stack)
    requires Canonical(stack)
    ensures NulFree(PathOf(stack)) && NulFree(Slashed(stack))
    ensures PathOf(stack)[|PathOf(stack)| - 1] == '/' <==> stack == []
    decreases |stack|
  {
    if stack != [] {
      var c := stack[|stack| - 1];
      assert c in stack;
      PathIsNulFree(Parent(stack));
      assert PathOf(stack) == Slashed(Parent(stack)) + c;
    }
  }

  // ---- the rest of the name

  /** Skips a sequence of slashes. */
  method SkipSlashes(cur: array<char>, from: nat, ghost rest: string) returns (start: nat)
    requires Reads(cur, from, rest)
    ensures from <= start && start + |AfterSlashes(rest)| == from + |rest| && Reads(cur, start, AfterSlashes(rest))
  {
    hide Reads, AfterSlashes;
    start := from;
    ghost var left := rest;
    ReadsFrom(cur, start, left, 0);
    while cur[start] == '/'
      invariant from <= start && start + |left| == from + |rest| && Reads(cur, start, left)
      invariant start < cur.Length && cur[start] == (if left != "" then left[0] else NUL)
      invariant AfterSlashes(left) == AfterSlashes(rest)
      decreases |left|
    {
      SlashStep(left);
      ReadsFrom(cur, start, left, 1);
      start := start + 1;
      left := left[1..];
    }
    SlashStep(left);
  }

  /** Finds the end of the component. */
  method FindEnd(cur: array<char>, start: nat, ghost text: string) returns (end: nat)
    requires Reads(cur, start, text)
    ensures var c := Component(text);
            end == start + |c| && end < cur.Length && cur[start..end] == c && Reads(cur, end, text[|c|..])
  {
    hide Reads, Component;
    ReadsFrom(cur, start, text, 0);
    ReadsIsNulFree(cur, start, text);
    end := start;
    while cur[end] != NUL && cur[end] != '/'
      invariant start <= end <= start + |text| && end < cur.Length
      invariant cur[end] == if end - start < |text| then text[end - start] else NUL
      invariant forall j :: 0 <= j < end - start ==> text[j] != '/'
      decreases start + |text| - end
    {
      ReadsFrom(cur, start, text, end + 1 - start);
      end := end + 1;
    }
    ComponentEnds(text, end - start);
    ReadsFrom(cur, start, text, end - start);
    ReadsSlice(cur, start, text, end - start);
  }

  lemma SlashStep(s: string)
    ensures AfterSlashes(s) == if s != "" && s[0] == '/' then AfterSlashes(s[1..]) else s
  {
  }

  lemma {:induction false} ComponentEnds(s: string, k: nat)
    requires k <= |s| && (forall j :: 0 <= j < k ==> s[j] != '/') && (k < |s| ==> s[k] == '/')
    ensures Component(s) == s[..k]
    decreases k
  {
    if k > 0 {
      ComponentEnds(s[1..], k - 1);
      assert s[..k] == [s[0]] + s[1..][..k - 1];
    }
  }

  lemma ReadsSlice(a: array<char>, p: nat, s: string, k: nat)
    requires Reads(a, p, s) && k <= |s|
    ensures p + k <= a.Length && a[p..p + k] == s[..k]
  {
    assert a[p..p + |s|][..k] == a[p..p + k];
  }

  // ---- following a link

  /** `strlen` */
  method Length(a: array<char>, p: nat, ghost s: string) returns (n: nat)
    requires Reads(a, p, s)
    ensures n == |s|
  {
    hide Reads;
    n := 0;
    ReadsFrom(a, p, s, 0);
    while a[p + n] != NUL
      invariant n <= |s| && p + n < a.Length && a[p + n] == if n < |s| then s[n] else NUL
      decreases |s| - n
    {
      ReadsFrom(a, p, s, n + 1);
      n := n + 1;
    }
    ReadsIsNulFree(a, p, s);
  }

  lemma ReadsIsNulFree(a: array<char>, p: nat, s: string)
    requires Reads(a, p, s)
    ensures NulFree(s) && p + |s| < a.Length
  {
  }

  /**
   * The link target in front of what is left of the name, which may already stand in the same buffer and is
   * then moved within it.
   */
  method Splice(extraBuf: array<char>, cur: array<char>, end: nat, buf: array<char>, n: nat,
                ghost target: string, ghost after: string)
    returns (fits: bool)
    requires Reads(buf, 0, target) && n == |target| && Reads(cur, end, after)
    requires extraBuf.Length == PATH_MAX && extraBuf != buf
    modifies extraBuf
    ensures fits <==> |target| + |after| < PATH_MAX
    ensures fits ==> Reads(extraBuf, 0, target + after)
  {
    var len := Length(cur, end, after);
    if n + len >= PATH_MAX {
      return false;
    }
    fits := true;
    ReadsWithNul(cur, end, after);
    MoveMemory(extraBuf, n, cur, end, len + 1);
    ReadsWithNul(buf, 0, target);
    assert buf[0..n] == target;
    MoveMemory(extraBuf, 0, buf, 0, n);
    SplicedReads(extraBuf, target, after);
  }

  lemma ReadsWithNul(a: array<char>, p: nat, s: string)
    requires Reads(a, p, s)
    ensures p + |s| < a.Length && a[p..p + |s|] == s && a[p..p + |s| + 1] == s + [NUL] && NulFree(s)
  {
  }

  lemma SplicedReads(a: array<char>, target: string, after: string)
    requires NulFree(target) && NulFree(after) && |target| + |after| < a.Length
    requires a[0..|target|] == target && a[|target|..][..|after| + 1] == after + [NUL]
    ensures Reads(a, 0, target + after)
  {
    var n, m := |target|, |after|;
    assert a[n..][..m + 1] == a[n..n + m + 1];
    assert a[n..n + m] == after by {
      assert a[n..n + m] == a[n..n + m + 1][..m];
    }
    assert a[n + m] == a[n..n + m + 1][m];
    assert a[0..n + m] == a[0..n] + a[n..n + m];
  }

  /** `readlink`, and the NUL it leaves to its caller. */
  method ReadLink(buf: array<char>, target: LinkTarget) returns (n: nat)
    requires buf.Length == PATH_MAX
    modifies buf
    ensures n == |target| && Reads(buf, 0, target)
  {
    n := |target|;
    forall i | 0 <= i < n {
      buf[i] := target[i];
    }
    buf[n] := NUL;
    assert buf[0..n] == target;
  }

  // ---- the navigation

  lemma RootSpelled(resolved: array<char>)
    requires PATH_MAX <= resolved.Length && resolved[0] == '/'
    ensures Spells(resolved, 1, [])
  {
  }

  /** What the caller finds in its buffer. */
  ghost predicate Holds(resolved: array<char>, ok: bool, r: Resolution)
    reads resolved
  {
    match r
    case Resolved(stack) => ok && Reads(resolved, 0, PathOf(stack))
    case Failed(_, at) => !ok && Reads(resolved, 0, at)
  }

  /**
   * The link at c: its target goes in front of what is left of the name, and the walk goes on from the root or
   * from the directory the link is in.
   */
  method FollowLink(resolved: array<char>, from: nat, cur: array<char>, end: nat, buf: array<char>,
                    extraBuf: array<char>, target: LinkTarget, ghost stack: Stack, ghost c: string, ghost after: string)
    returns (ok: bool, dest: nat, ghost stack': Stack)
    requires Spells(resolved, from, stack + [c]) && Canonical(stack + [c]) && resolved[0] == '/'
    requires Reads(cur, end, after)
    requires buf.Length == PATH_MAX == extraBuf.Length && buf != extraBuf && buf != cur
    requires resolved != buf && resolved != extraBuf && PATH_MAX <= resolved.Length
    modifies buf, extraBuf
    ensures ok <==> |target| + |after| < PATH_MAX
    ensures ok ==> Reads(extraBuf, 0, target + after) && Spells(resolved, dest, stack')
    ensures stack' == if target != "" && target[0] == '/' then [] else stack
  {
    hide Spells, Reads, PathOf, Slashed;
    dest, stack' := from, if target != "" && target[0] == '/' then [] else stack;
    PopPushed(stack, c);
    var n := ReadLink(buf, target);
    ok := Splice(extraBuf, cur, end, buf, n, target, after);
    if ok {
      ReadsFrom(buf, 0, target, 0);
      if buf[0] == '/' {
        dest := 1;
        RootSpelled(resolved);
      } else {
        dest := BackUp(resolved, dest, stack + [c]);
      }
    }
  }

  lemma PopPushed(stack: Stack, c: string)
    ensures Parent(stack + [c]) == stack
  {
  }

  /** A component that is neither . nor .. is appended and examined; a link is followed. */
  method Enter(fs: FileSystem, resolved: array<char>, from: nat, cur: array<char>, start: nat, end: nat,
               buf: array<char>, extraBuf: array<char>, numLinks: nat, ghost stack: Stack, ghost text: string)
    returns (ok: bool, dest: nat, cur': array<char>, end': nat, numLinks': nat, ghost stack': Stack, ghost rest: string)
    requires Spells(resolved, from, stack) && Canonical(stack) && resolved != cur && resolved != buf
    requires resolved != extraBuf
    requires buf.Length == PATH_MAX == extraBuf.Length && buf != extraBuf && buf != cur && numLinks <= MAXSYMLINKS
    requires text != "" && text[0] != '/' && IsComponent(Component(text))
    requires start <= end < cur.Length && cur[start..end] == Component(text)
    requires Reads(cur, end, text[|Component(text)|..])
    modifies resolved, buf, extraBuf
    ensures !ok ==> Holds(resolved, false, Walk(fs, stack, text, numLinks))
    ensures ok ==> Walk(fs, stack, text, numLinks) == Walk(fs, stack', rest, numLinks')
    ensures ok ==> Spells(resolved, dest, stack') && Canonical(stack') && Reads(cur', end', rest)
    ensures ok ==> (cur' == cur || cur' == extraBuf) && numLinks <= numLinks' <= MAXSYMLINKS
    ensures ok ==> numLinks' > numLinks || |rest| < |text|
  {
    hide Walk, Step, Spells, Reads, PathOf, Slashed, Component;
    ghost var c := Component(text);
    ghost var after := text[|c|..];
    StepAt(fs, stack, text, numLinks);
    WalkStep(fs, stack, text, numLinks);
    ReadsFrom(cur, end, after, 0);
    cur', end', numLinks', stack', rest := cur, end, numLinks, stack, after;
    var fits;
    dest, fits := AppendComponent(resolved, from, cur, start, end, stack, c);
    if !fits {
      return false, dest, cur', end', numLinks', stack', rest;
    }
    assert Canonical(stack + [c]);
    assert resolved[0] == (Slashed(stack) + c)[0];
    var kind := fs.lstat(resolved[..dest]);
    match kind {
      case Absent =>
        ok := false;
      case Link(target) =>
        numLinks' := numLinks + 1;
        if numLinks' > MAXSYMLINKS {
          return false, dest, cur', end', numLinks', stack', rest;
        }
        ok, dest, stack' := FollowLink(resolved, dest, cur, end, buf, extraBuf, target, stack, c, after);
        if ok {
          cur', end', rest := extraBuf, 0, target + after;
        }
      case File =>
        ok := cur[end] != '/';
        stack' := stack + [c];
      case Directory =>
        ok := cur[end] != '/' || fs.searchable(resolved[..dest]);
        stack' := stack + [c];
    }
  }

  datatype Progress = More | Done | Broken

  /** One component of what is left of the name, if there is one. */
  method Advance(fs: FileSystem, resolved: array<char>, from: nat, cur: array<char>, pos: nat,
                 buf: array<char>, extraBuf: array<char>, numLinks: nat, ghost stack: Stack, ghost rest: string)
    returns (progress: Progress, dest: nat, cur': array<char>, pos': nat, numLinks': nat,
             ghost stack': Stack, ghost rest': string)
    requires Spells(resolved, from, stack) && Canonical(stack) && Reads(cur, pos, rest)
    requires resolved != cur && resolved != buf && resolved != extraBuf && buf != extraBuf && buf != cur
    requires buf.Length == PATH_MAX == extraBuf.Length && numLinks <= MAXSYMLINKS
    modifies resolved, buf, extraBuf
    ensures progress.Broken? ==> Holds(resolved, false, Walk(fs, stack, rest, numLinks))
    ensures progress.Done? ==>
              Walk(fs, stack, rest, numLinks) == Resolved(stack') && Spells(resolved, dest, stack') && Canonical(stack')
              && (cur' == cur || cur' == extraBuf) && numLinks' <= MAXSYMLINKS
    ensures progress.More? ==>
              Walk(fs, stack, rest, numLinks) == Walk(fs, stack', rest', numLinks')
              && Spells(resolved, dest, stack') && Canonical(stack') && Reads(cur', pos', rest')
              && (cur' == cur || cur' == extraBuf) && numLinks <= numLinks' <= MAXSYMLINKS
              && (numLinks' > numLinks || |rest'| < |rest|)
  {
    hide Walk, Step, ComponentStep, Spells, Reads, AfterSlashes, Component, IsComponent, Holds, PathOf, Slashed;
    dest, cur', pos', numLinks', stack', rest' := from, cur, pos, numLinks, stack, rest;
    WalkSkips(fs, stack, rest, numLinks);
    ghost var left := AfterSlashes(rest);
    var begin := SkipSlashes(cur, pos, rest);
    var end := FindEnd(cur, begin, left);
    ghost var c := Component(left);
    ReadsIsNulFree(cur, begin, left);
    if end - begin == 0 {
      NothingLeft(left);
      WalkNothing(fs, stack, numLinks);
      progress := Done;
      return;
    }
    NextIsComponent(left);
    StepAt(fs, stack, left, numLinks);
    WalkStep(fs, stack, left, numLinks);
    Dots(cur, begin, end, c);
    progress := More;
    if end - begin == 1 && cur[begin] == '.' {
      pos', rest' := end, left[|c|..];
    } else if end - begin == 2 && cur[begin] == '.' && cur[begin + 1] == '.' {
      dest := BackUp(resolved, dest, stack);
      pos', rest', stack' := end, left[|c|..], Parent(stack);
    } else {
      var entered;
      entered, dest, cur', pos', numLinks', stack', rest' :=
        Enter(fs, resolved, dest, cur, begin, end, buf, extraBuf, numLinks, stack, left);
      if !entered {
        progress := Broken;
      }
    }
  }

  /** The loop over the components. */
  method Navigate(fs: FileSystem, resolved: array<char>, from: nat, name: array<char>,
                  ghost start: Stack, ghost text: string)
    returns (ok: bool)
    requires Spells(resolved, from, start) && Canonical(start) && resolved != name && Reads(name, 0, text)
    modifies resolved
    ensures Holds(resolved, ok, Walk(fs, start, text, 0))
  {
    hide Walk, Step, ComponentStep, Spells, Reads, Canonical, Holds, PathOf, Slashed;
    var buf, extraBuf := new char[PATH_MAX], new char[PATH_MAX];
    var dest, cur := from, name;
    var pos: nat, numLinks: nat := 0, 0;
    var progress := More;
    ghost var stack, rest := start, text;
    ReadsFrom(cur, pos, rest, 0);
    while progress.More? && cur[pos] != NUL
      invariant (cur == name || cur == extraBuf) && numLinks <= MAXSYMLINKS && !progress.Broken?
      invariant Spells(resolved, dest, stack) && Canonical(stack)
      invariant progress.More? ==>
                  pos < cur.Length && Reads(cur, pos, rest) && cur[pos] == if rest != "" then rest[0] else NUL
      invariant Walk(fs, start, text, 0) == if progress.Done? then Resolved(stack) else Walk(fs, stack, rest, numLinks)
      invariant fresh(buf) && fresh(extraBuf)
      decreases progress.More?, MAXSYMLINKS - numLinks, |rest|
    {
      progress, dest, cur, pos, numLinks, stack, rest :=
        Advance(fs, resolved, dest, cur, pos, buf, extraBuf, numLinks, stack, rest);
      if progress.Broken? {
        return false;
      }
      if progress.More? {
        ReadsFrom(cur, pos, rest, 0);
      }
    }
    if progress.More? {
      ReadsIsNulFree(cur, pos, rest);
      WalkNothing(fs, stack, numLinks);
    }
    Finish(resolved, dest, stack);
    Found(resolved, stack);
    ok := true;
  }

  lemma Dots(a: array<char>, i: nat, j: nat, c: string)
    requires i < j <= a.Length && a[i..j] == c
    ensures j - i == 1 && a[i] == '.' <==> c == "."
    ensures j - i == 2 && a[i] == '.' && a[i + 1] == '.' <==> c == ".."
  {
  }

  lemma NothingLeft(text: string)
    requires Component(text) == "" && (text != "" ==> text[0] != '/')
    ensures text == ""
  {
  }

  lemma NextIsComponent(text: string)
    requires NulFree(text) && Component(text) != ""
    ensures text != "" && text[0] != '/'
    ensures Component(text) != "." && Component(text) != ".." ==> IsComponent(Component(text))
  {
  }

  lemma Found(resolved: array<char>, stack: Stack)
    requires Reads(resolved, 0, PathOf(stack))
    ensures Holds(resolved, true, Resolved(stack))
  {
  }

  /** Drops the slash at the end, unless it is the root. */
  method Finish(resolved: array<char>, from: nat, ghost stack: Stack)
    requires Spells(resolved, from, stack) && Canonical(stack)
    modifies resolved
    ensures Reads(resolved, 0, PathOf(stack))
  {
    hide PathOf, Slashed;
    PathEnds(stack);
    PathIsNulFree(stack);
    var dest := from;
    if dest > 1 && resolved[dest - 1] == '/' {
      dest := dest - 1;
    }
    assert resolved[..dest] == PathOf(stack);
    resolved[dest] := NUL;
    assert resolved[0..dest] == PathOf(stack);
  }

  /** `getcwd` */
  method GetCwd(cwd: Cwd, resolved: array<char>) returns (dest: nat)
    requires cwd.Cwd? && |PathOf(cwd.stack)| < PATH_MAX <= resolved.Length
    modifies resolved
    ensures Spells(resolved, dest, cwd.stack)
  {
    hide PathOf;
    var path := PathOf(cwd.stack);
    dest := |path|;
    forall i | 0 <= i < dest {
      resolved[i] := path[i];
    }
    resolved[dest] := NUL;
    assert resolved[..dest] == path;
  }

  /**
   * `vde_realpath` with a name and a buffer of PATH_MAX bytes: on success the buffer holds the path of the
   * components that `Resolve` finds; on failure, unless the name is empty, the path where it broke off.
   */
  method Realpath(fs: FileSystem, cwd: Cwd, name: array<char>, resolved: array<char>, ghost text: string)
    returns (ok: bool)
    requires Reads(name, 0, text) && resolved != name && resolved.Length >= PATH_MAX
    requires cwd.Cwd? ==> Canonical(cwd.stack) && |PathOf(cwd.stack)| < PATH_MAX
    modifies resolved
    ensures if text == "" then !ok && resolved[..] == old(resolved[..])
            else Holds(resolved, ok, Resolve(fs, cwd, text))
  {
    hide Walk, Reads, Spells, PathOf, Holds;
    ReadsFrom(name, 0, text, 0);
    if name[0] == NUL {
      ReadsIsNulFree(name, 0, text);
      return false;
    }
    ReadsFrom(name, 0, text, 1);
    if name[0] != '/' {
      if cwd.Unknown? {
        resolved[0] := NUL;
        NothingFound(resolved);
        return false;
      }
      var dest := GetCwd(cwd, resolved);
      ok := Navigate(fs, resolved, dest, name, cwd.stack, text);
    } else {
      resolved[0] := '/';
      RootSpelled(resolved);
      if name[1] == NUL {
        ReadsIsNulFree(name, 0, text);
        assert text == "/";
        WalkSlash(fs);
        Finish(resolved, 1, []);
        Found(resolved, []);
        return true;
      }
      ok := Navigate(fs, resolved, 1, name, [], text);
    }
  }

  lemma NothingFound(resolved: array<char>)
    requires resolved.Length > 0 && resolved[0] == NUL
    ensures Holds(resolved, false, Failed(NoDirectory, ""))
  {
  }
}
