/**
 * What a name resolves to, in terms of the name and of `lstat` alone: one law for everything a component can be.
 * A directory is given by its components; its name has a slash in front of each.
 */
module PathNames {
  import opened PathWalk

  function Joined(d: Stack): (name: string) {
    if d == [] then "" else Joined(d[..|d| - 1]) + "/" + d[|d| - 1]
  }

  /** The components name directories one may search, all the way down, and the name is not too long. */
  ghost predicate IsDirectory(fs: FileSystem, d: Stack) {
    (forall c :: c in d ==> c != "" && c != "." && c != ".." && '/' !in c && '\0' !in c)
    && (forall i :: 0 < i <= |d| ==> fs.lstat(Joined(d[..i])) == Directory && fs.searchable(Joined(d[..i])))
    && |Joined(d)| < 4096
  }

  /** An ordinary component, and the text behind it. */
  predicate IsNext(c: string, after: string) {
    c != "" && c != "." && c != ".." && '/' !in c && '\0' !in c && (after != "" ==> after[0] == '/')
  }

  // ---- both ways of writing a path

  lemma {:induction false} JoinedIsSlashed(d: Stack)
    ensures Joined(d) + "/" == Slashed(d) && (d != [] ==> Joined(d) == PathOf(d))
    decreases |d|
  {
    if d != [] {
      var up := d[..|d| - 1];
      JoinedIsSlashed(up);
      assert Joined(d) == Slashed(up) + d[|d| - 1];
    }
  }

  lemma JoinedIsPath(d: Stack, c: string)
    ensures Joined(d) + "/" + c == Slashed(d) + c == PathOf(d + [c]) == Joined(d + [c])
  {
    JoinedIsSlashed(d);
    PathOfPush(d, c);
    JoinedIsSlashed(d + [c]);
  }

  // ---- going down

  /** From any point, the name of a directory leads into it, wherever it is on the way. */
  lemma {:induction false} GoesDown(fs: FileSystem, d: Stack, i: nat, rest: string, links: nat)
    requires IsDirectory(fs, d) && i <= |d| && (rest != "" ==> rest[0] == '/')
    ensures Walk(fs, d[..i], Remaining(d, i) + rest, links) == Walk(fs, d, rest, links)
    decreases |d| - i
  {
    hide Walk, PathOf, Slashed;
    if i == |d| {
      assert d[..i] == d && Remaining(d, i) + rest == rest;
    } else {
      var c, below, longer := d[i], Remaining(d, i + 1), d[..i + 1];
      assert longer == d[..i] + [c] && c in d;
      GoesDown(fs, d, i + 1, rest, links);
      assert Remaining(d, i) + rest == "/" + c + (below + rest);
      JoinedIsPath(d[..i], c);
      JoinedIsShorter(d, i + 1);
      WalkInto(fs, d[..i], c, below + rest, links);
    }
  }

  lemma {:induction false} JoinedIsShorter(d: Stack, i: nat)
    requires i <= |d|
    ensures |Joined(d[..i])| <= |Joined(d)|
    decreases |d|
  {
    if i == |d| {
      assert d[..i] == d;
    } else {
      var up := d[..|d| - 1];
      JoinedIsShorter(up, i);
      assert up[..i] == d[..i];
    }
  }

  lemma JoinedIsRemaining(d: Stack)
    ensures Joined(d) == Remaining(d, 0)
  {
    JoinedIsSlashed(d);
    if d != [] {
      PathIsRemaining(d);
    }
  }

  /** So a name that starts with a directory's goes on from there. */
  lemma FromDirectory(fs: FileSystem, d: Stack, rest: string, links: nat)
    requires IsDirectory(fs, d)
    ensures Walk(fs, [], Joined(d) + "/" + rest, links) == Walk(fs, d, rest, links)
  {
    hide Walk, Joined, Remaining;
    GoesDown(fs, d, 0, "/" + rest, links);
    assert d[..0] == [];
    JoinedIsRemaining(d);
    assert Joined(d) + "/" + rest == Remaining(d, 0) + ("/" + rest);
    assert ("/" + rest)[1..] == rest;
    WalkSkips(fs, d, "/" + rest, links);
    WalkSkips(fs, d, rest, links);
  }

  // ---- the laws

  function GoesOn(fs: FileSystem, m: Move): Resolution {
    match m
    case Stop(result) => result
    case Go(stack, rest, links) => Walk(fs, stack, rest, links)
  }

  /** The component that a text starts with, and its path. */
  lemma AtComponent(fs: FileSystem, d: Stack, c: string, after: string, links: nat)
    requires c != "" && '/' !in c && (after != "" ==> after[0] == '/')
    ensures Walk(fs, d, c + after, links)
         == GoesOn(fs, if c == "." then Go(d, after, links)
                       else if c == ".." then Go(Parent(d), after, links)
                       else ComponentStep(fs, d, c, after, links))
  {
    hide Walk, ComponentStep;
    NextComponent(c, after);
    assert (c + after)[0] == c[0];
    StepAt(fs, d, c + after, links);
    WalkStep(fs, d, c + after, links);
  }

  /** Slashes may be repeated, and "." stays where it is. */
  lemma ThroughNothing(fs: FileSystem, d: Stack, after: string, links: nat)
    requires IsDirectory(fs, d) && (after != "" ==> after[0] == '/')
    ensures Walk(fs, [], Joined(d) + "/" + after, links) == Walk(fs, [], Joined(d) + "/" + "." + after, links)
  {
    hide Walk, Joined;
    FromDirectory(fs, d, after, links);
    FromDirectory(fs, d, "." + after, links);
    AtComponent(fs, d, ".", after, links);
    assert Joined(d) + "/" + "." + after == Joined(d) + "/" + ("." + after);
  }

  /** Nothing behind the name of a directory, or only slashes: the directory. */
  lemma ToDirectory(fs: FileSystem, d: Stack, links: nat)
    requires IsDirectory(fs, d)
    ensures Walk(fs, [], Joined(d) + "/", links) == Resolved(d)
  {
    hide Walk;
    FromDirectory(fs, d, "", links);
    assert Joined(d) + "/" + "" == Joined(d) + "/";
    WalkNothing(fs, d, links);
  }

  /** ".." leads out of a directory again; the root is above itself. */
  lemma ThroughDotDot(fs: FileSystem, d: Stack, last: string, after: string, links: nat)
    requires IsDirectory(fs, d + [last]) && (after != "" ==> after[0] == '/')
    ensures Walk(fs, [], Joined(d) + "/" + last + "/" + ".." + after, links)
         == Walk(fs, [], Joined(d) + "/" + after, links)
    ensures Walk(fs, [], "/" + ".." + after, links) == Walk(fs, [], "/" + after, links)
  {
    hide Walk, Joined;
    UpIsDirectory(fs, d, last);
    AboveIs(fs, d + [last], after, links);
    AboveIs(fs, [], after, links);
    JoinedIsPath(d, last);
    FromDirectory(fs, d, after, links);
    FromDirectory(fs, [], after, links);
    assert Joined([]) == "" by {
      JoinedIsRemaining([]);
    }
    assert "" + "/" + ".." + after == "/" + ".." + after && "" + "/" + after == "/" + after;
  }

  lemma UpIsDirectory(fs: FileSystem, d: Stack, last: string)
    requires IsDirectory(fs, d + [last])
    ensures IsDirectory(fs, d) && IsDirectory(fs, []) && Parent(d + [last]) == d
  {
    hide Joined;
    assert forall i :: 0 <= i <= |d| ==> (d + [last])[..i] == d[..i];
    JoinedIsShorter(d + [last], |d|);
    JoinedIsShorter(d + [last], 0);
    assert d[..|d|] == d && (d + [last])[..0] == [];
    assert forall c :: c in d ==> c in d + [last];
  }

  lemma AboveIs(fs: FileSystem, d: Stack, after: string, links: nat)
    requires IsDirectory(fs, d) && (after != "" ==> after[0] == '/')
    ensures Walk(fs, [], Joined(d) + "/" + ".." + after, links) == Walk(fs, Parent(d), after, links)
  {
    hide Walk, Joined;
    assert Joined(d) + "/" + ".." + after == Joined(d) + "/" + (".." + after);
    FromDirectory(fs, d, ".." + after, links);
    AtComponent(fs, d, "..", after, links);
  }

  /** An ordinary component, seen from its directory. */
  lemma Through(fs: FileSystem, d: Stack, c: string, after: string, links: nat)
    requires IsDirectory(fs, d) && IsNext(c, after)
    ensures Walk(fs, [], Joined(d) + "/" + c + after, links)
         == GoesOn(fs, ComponentStep(fs, d, c, after, links))
    ensures Slashed(d) + c == Joined(d) + "/" + c
  {
    hide Walk, Joined, ComponentStep;
    assert Joined(d) + "/" + c + after == Joined(d) + "/" + (c + after);
    FromDirectory(fs, d, c + after, links);
    AtComponent(fs, d, c, after, links);
    JoinedIsPath(d, c);
  }

  /**
   * A name through a link. An absolute target starts again from the root, a relative one from the directory the link
   * is in; what is behind the link comes behind the target, and one link more is used, of at most 20.
   */
  lemma ThroughLink(fs: FileSystem, d: Stack, c: string, after: string, links: nat, t: LinkTarget)
    requires IsDirectory(fs, d) && IsNext(c, after)
    requires |Joined(d) + "/" + c| < 4096 && fs.lstat(Joined(d) + "/" + c) == Link(t)
    ensures Walk(fs, [], Joined(d) + "/" + c + after, links)
         == if links >= 20 then Failed(TooManyLinks, Joined(d) + "/" + c)
            else if |t| + |after| >= 4096 then Failed(NameTooLong, Joined(d) + "/" + c)
            else if t != "" && t[0] == '/' then Walk(fs, [], t + after, links + 1)
            else Walk(fs, [], Joined(d) + "/" + t + after, links + 1)
  {
    hide Walk, Joined;
    Through(fs, d, c, after, links);
    FromDirectory(fs, d, t + after, links + 1);
    assert Joined(d) + "/" + t + after == Joined(d) + "/" + (t + after);
  }

  /** A name through a directory one may search, which is then where the rest starts; "" and "/" are no rest. */
  lemma ThroughDirectory(fs: FileSystem, d: Stack, c: string, after: string, links: nat)
    requires IsDirectory(fs, d) && IsNext(c, after)
    requires |Joined(d) + "/" + c| < 4096 && fs.lstat(Joined(d) + "/" + c) == Directory
    ensures after == "" ==> Walk(fs, [], Joined(d) + "/" + c + after, links) == Resolved(d + [c])
    ensures after != "" && !fs.searchable(Joined(d) + "/" + c) ==>
              Walk(fs, [], Joined(d) + "/" + c + after, links) == Failed(NotSearchable, Joined(d) + "/" + c)
    ensures fs.searchable(Joined(d) + "/" + c) ==> IsDirectory(fs, d + [c])
  {
    hide Walk, Joined, IsDirectory;
    Through(fs, d, c, after, links);
    WalkNothing(fs, d + [c], links);
    JoinedIsPath(d, c);
    if fs.searchable(Joined(d) + "/" + c) {
      OneMoreDirectory(fs, d, c);
    }
  }

  lemma OneMoreDirectory(fs: FileSystem, d: Stack, c: string)
    requires IsDirectory(fs, d) && IsNext(c, "") && |Joined(d + [c])| < 4096
    requires fs.lstat(Joined(d + [c])) == Directory && fs.searchable(Joined(d + [c]))
    ensures IsDirectory(fs, d + [c])
  {
    hide Joined;
    var longer := d + [c];
    assert longer[..|longer|] == longer && forall i :: 0 <= i <= |d| ==> longer[..i] == d[..i];
  }

  /** A name that ends in anything else is the name of that, and nothing is behind it. */
  lemma ThroughFile(fs: FileSystem, d: Stack, c: string, after: string, links: nat)
    requires IsDirectory(fs, d) && IsNext(c, after)
    requires |Joined(d) + "/" + c| < 4096 && fs.lstat(Joined(d) + "/" + c) == File
    ensures Walk(fs, [], Joined(d) + "/" + c + after, links)
         == if after == "" then Resolved(d + [c]) else Failed(NotADirectory, Joined(d) + "/" + c)
  {
    hide Walk;
    Through(fs, d, c, after, links);
    WalkNothing(fs, d + [c], links);
  }

  /** A name through nothing, and one that is too long. */
  lemma ThroughAbsent(fs: FileSystem, d: Stack, c: string, after: string, links: nat)
    requires IsDirectory(fs, d) && IsNext(c, after)
    ensures |Joined(d) + "/" + c| >= 4096 ==>
              Walk(fs, [], Joined(d) + "/" + c + after, links)
              == Failed(NameTooLong, if d == [] then "/" else Joined(d))
    ensures |Joined(d) + "/" + c| < 4096 && fs.lstat(Joined(d) + "/" + c) == Absent ==>
              Walk(fs, [], Joined(d) + "/" + c + after, links) == Failed(NotFound, Joined(d) + "/" + c)
  {
    hide Walk;
    Through(fs, d, c, after, links);
    JoinedIsSlashed(d);
  }

  /** Absolute names start at the root, and relative ones are names in the current directory. */
  lemma Names(fs: FileSystem, d: Stack, cwd: Cwd, name: string)
    requires IsDirectory(fs, d) && name != ""
    ensures name[0] == '/' ==> Resolve(fs, cwd, name) == Walk(fs, [], name, 0)
    ensures name[0] != '/' ==> Resolve(fs, Cwd(d), name) == Walk(fs, [], Joined(d) + "/" + name, 0)
  {
    hide Walk;
    FromDirectory(fs, d, name, 0);
  }

  /** For instance: in /a a link to "b" leads to /a/b, and a link to "/b" to /b. */
  lemma RelativeLink(fs: FileSystem, cwd: Cwd)
    requires fs.lstat("/a") == Directory && fs.searchable("/a")
    requires fs.lstat("/a/l") == Link("b") && fs.lstat("/a/m") == Link("/b")
    requires fs.lstat("/a/b") == File && fs.lstat("/b") == File
    ensures Resolve(fs, cwd, "/a/l") == Resolved(["a", "b"]) && Resolve(fs, cwd, "/a/m") == Resolved(["b"])
  {
    hide Walk;
    var d := ["a"];
    assert d[..0] == [] && d[..1] == d;
    assert Joined([]) == "";
    assert Joined(d) == "" + "/" + "a" == "/a";
    assert IsDirectory(fs, d) && IsDirectory(fs, []);
    OneBelow("/a", "l");
    OneBelow("/a", "m");
    OneBelow("/a", "b");
    OneBelow("", "b");
    assert "/a" + "/" + "l" == "/a/l" && "/a" + "/" + "m" == "/a/m" && "/a" + "/" + "b" == "/a/b";
    assert "" + "/" + "b" == "/b";
    assert "/b" + "" == "/b";
    ThroughLink(fs, d, "l", "", 0, "b");
    ThroughLink(fs, d, "m", "", 0, "/b");
    ThroughFile(fs, d, "b", "", 1);
    ThroughFile(fs, [], "b", "", 1);
  }

  lemma OneBelow(d: string, c: string)
    ensures d + "/" + c + "" == d + "/" + c && |d + "/" + c| == |d| + 1 + |c|
  {
  }

  /** A link to itself uses up all 20. */
  lemma {:induction false} LinkToItself(fs: FileSystem, links: nat)
    requires fs.lstat("/l") == Link("l") && links <= 20
    ensures Walk(fs, [], "/l", links) == Failed(TooManyLinks, "/l")
    decreases 20 - links
  {
    hide Walk;
    assert Joined([]) == "" && "" + "/" + "l" == "/l" && "/l" + "" == "/l";
    ThroughLink(fs, [], "l", "", links, "l");
    if links < 20 {
      LinkToItself(fs, links + 1);
    }
  }
}
