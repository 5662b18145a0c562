/** Resolving a path name against a file system, on stacks of path components. */
module PathWalk {

  const PATH_MAX := 4096
  const MAXSYMLINKS := 20
  const NUL := '\0'

  predicate NulFree(s: string) {
    forall i :: 0 <= i < |s| ==> s[i] != NUL
  }

  // ---- the file system

  type LinkTarget = t: string | |t| < PATH_MAX && NulFree(t) witness ""

  datatype Kind = Absent | Directory | File | Link(target: LinkTarget)

  /** What `lstat` says of a path name, and whether `access` grants search permission. */
  datatype FileSystem = FileSystem(lstat: string -> Kind, searchable: string -> bool)

  // ---- component stacks

  type Stack = seq<string>

  function PathOf(stack: Stack): (path: string)
    ensures path != "" && path[0] == '/'
    decreases |stack|, 0
  {
    if stack == [] then "/" else Slashed(stack[..|stack| - 1]) + stack[|stack| - 1]
  }

  /** The path with a slash behind it. */
  function Slashed(stack: Stack): (path: string)
    ensures path != "" && path[0] == '/' && path[|path| - 1] == '/'
    decreases |stack|, 1
  {
    if stack == [] then "/" else PathOf(stack) + "/"
  }

  predicate IsComponent(c: string) {
    c != "" && c != "." && c != ".." && '/' !in c && NulFree(c)
  }

  ghost predicate Canonical(stack: Stack) {
    forall c :: c in stack ==> IsComponent(c)
  }

  function Parent(stack: Stack): Stack {
    if stack == [] then [] else stack[..|stack| - 1]
  }

  // ---- path text

  function AfterSlashes(s: string): (r: string)
    ensures |r| <= |s| && (r != "" ==> r[0] != '/')
    ensures NulFree(s) ==> NulFree(r)
  {
    if s != "" && s[0] == '/' then AfterSlashes(s[1..]) else s
  }

  /** The part before the first slash. */
  function Component(s: string): (c: string)
    ensures |c| <= |s| && c == s[..|c|] && '/' !in c && (|c| < |s| ==> s[|c|] == '/')
  {
    if s == "" || s[0] == '/' then "" else [s[0]] + Component(s[1..])
  }

  // ---- the walk

  datatype Problem = NoName | NoDirectory | NameTooLong | NotFound | TooManyLinks | NotADirectory | NotSearchable

  /** A failure comes with the path left in the caller's buffer. */
  datatype Resolution = Resolved(stack: Stack) | Failed(problem: Problem, at: string)

  /** Where one component takes the walk: on to another stack, text and number of links, or to its end. */
  datatype Move = Go(stack: Stack, rest: string, links: nat) | Stop(result: Resolution)

  /** The move over a component that is neither . nor .. */
  function ComponentStep(fs: FileSystem, stack: Stack, c: string, after: string, links: nat): Move {
    var path := Slashed(stack) + c;
    if |path| >= PATH_MAX then Stop(Failed(NameTooLong, PathOf(stack)))
    else
      match fs.lstat(path)
      case Absent => Stop(Failed(NotFound, path))
      case Link(target) =>
        if links >= MAXSYMLINKS then Stop(Failed(TooManyLinks, path))
        else if |target| + |after| >= PATH_MAX then Stop(Failed(NameTooLong, path))
        else Go(if target != "" && target[0] == '/' then [] else stack, target + after, links + 1)
      case File => if after != "" then Stop(Failed(NotADirectory, path)) else Go(stack + [c], "", links)
      case Directory =>
        if after != "" && !fs.searchable(path) then Stop(Failed(NotSearchable, path))
        else Go(stack + [c], after, links)
  }

  function Step(fs: FileSystem, stack: Stack, rest: string, links: nat): (m: Move)
    ensures m.Go? ==> (m.links == links && |m.rest| < |rest|) || (m.links == links + 1 && links < MAXSYMLINKS)
  {
    var text := AfterSlashes(rest);
    var c := Component(text);
    var after := text[|c|..];
    if c == "" then Stop(Resolved(stack))
    else if c == "." then Go(stack, after, links)
    else if c == ".." then Go(Parent(stack), after, links)
    else ComponentStep(fs, stack, c, after, links)
  }

  /** Resolves what is left of a name, starting at a stack, after following some links. */
  function Walk(fs: FileSystem, stack: Stack, rest: string, links: nat): Resolution
    decreases MAXSYMLINKS - links, |rest|
  {
    match Step(fs, stack, rest, links)
    case Stop(result) => result
    case Go(stack', rest', links') => Walk(fs, stack', rest', links')
  }

  datatype Cwd = Unknown | Cwd(stack: Stack)

  /** The whole of `vde_realpath`; only relative names need the current directory. */
  function Resolve(fs: FileSystem, cwd: Cwd, name: string): Resolution {
    if name == "" then Failed(NoName, "")
    else if name[0] == '/' then Walk(fs, [], name, 0)
    else if cwd.Unknown? then Failed(NoDirectory, "")
    else Walk(fs, cwd.stack, name, 0)
  }

  // ---- one step of the walk

  lemma WalkNothing(fs: FileSystem, stack: Stack, links: nat)
    ensures Walk(fs, stack, "", links) == Resolved(stack)
  {
  }

  lemma WalkStep(fs: FileSystem, stack: Stack, rest: string, links: nat)
    ensures Walk(fs, stack, rest, links)
         == match Step(fs, stack, rest, links)
            case Stop(result) => result
            case Go(stack', rest', links') => Walk(fs, stack', rest', links')
  {
    hide Step;
  }

  lemma StepSkips(fs: FileSystem, stack: Stack, rest: string, links: nat)
    ensures Step(fs, stack, rest, links) == Step(fs, stack, AfterSlashes(rest), links)
  {
    hide PathOf, Slashed;
    assert AfterSlashes(AfterSlashes(rest)) == AfterSlashes(rest);
  }

  lemma WalkSkips(fs: FileSystem, stack: Stack, rest: string, links: nat)
    ensures Walk(fs, stack, rest, links) == Walk(fs, stack, AfterSlashes(rest), links)
  {
    hide Step;
    StepSkips(fs, stack, rest, links);
  }

  /** The step at a text that starts with a component. */
  lemma StepAt(fs: FileSystem, stack: Stack, text: string, links: nat)
    requires text != "" && text[0] != '/'
    ensures var c := Component(text);
            var after := text[|c|..];
            c != ""
            && Step(fs, stack, text, links)
               == if c == "." then Go(stack, after, links)
                  else if c == ".." then Go(Parent(stack), after, links)
                  else ComponentStep(fs, stack, c, after, links)
  {
    hide PathOf, Slashed;
  }

  // ---- what a resolved name is

  /** Every directory on the way down to the stack's top, the top included, exists and can be searched. */
  ghost predicate Solid(fs: FileSystem, stack: Stack) {
    forall k :: 0 < k <= |stack| ==> IsSearchable(fs, PathOf(stack[..k]))
  }

  predicate IsSearchable(fs: FileSystem, path: string) {
    fs.lstat(path) == Directory && fs.searchable(path)
  }

  /** The same for the proper prefixes; the top exists and is no link. */
  ghost predicate Clean(fs: FileSystem, stack: Stack) {
    Solid(fs, Parent(stack))
    && (stack != [] ==> fs.lstat(PathOf(stack)).File? || fs.lstat(PathOf(stack)).Directory?)
  }

  lemma SolidIsClean(fs: FileSystem, stack: Stack)
    requires Solid(fs, stack)
    ensures Clean(fs, stack) && Solid(fs, Parent(stack))
  {
    var up := Parent(stack);
    forall k | 0 < k <= |up|
      ensures IsSearchable(fs, PathOf(up[..k]))
    {
      assert up[..k] == stack[..k];
    }
    if stack != [] {
      assert stack[..|stack|] == stack;
    }
  }

  lemma SolidGrows(fs: FileSystem, stack: Stack, c: string)
    requires Solid(fs, stack) && IsSearchable(fs, Slashed(stack) + c)
    ensures Solid(fs, stack + [c])
  {
    var longer := stack + [c];
    forall k | 0 < k <= |longer|
      ensures IsSearchable(fs, PathOf(longer[..k]))
    {
      if k <= |stack| {
        assert longer[..k] == stack[..k];
      } else {
        assert longer[..k] == longer && longer[..|stack|] == stack;
      }
    }
  }

  lemma CleanGrows(fs: FileSystem, stack: Stack, c: string)
    requires Solid(fs, stack)
    requires fs.lstat(Slashed(stack) + c).File? || fs.lstat(Slashed(stack) + c).Directory?
    ensures Clean(fs, stack + [c])
  {
    assert Parent(stack + [c]) == stack;
  }

  // ---- what the walk keeps

  /** What every point of a walk satisfies. With nothing left to resolve, the last directory need not be searchable. */
  ghost predicate Good(fs: FileSystem, stack: Stack, rest: string) {
    Canonical(stack) && |PathOf(stack)| < PATH_MAX && NulFree(rest)
    && if rest == "" then Clean(fs, stack) else Solid(fs, stack)
  }

  lemma RootIsSolid(fs: FileSystem)
    ensures Solid(fs, []) && |PathOf([])| < PATH_MAX
  {
  }

  lemma PathOfPush(stack: Stack, c: string)
    ensures PathOf(stack + [c]) == Slashed(stack) + c
  {
    assert (stack + [c])[..|stack|] == stack;
  }

  lemma ParentIsShorter(stack: Stack)
    ensures |PathOf(Parent(stack))| <= |PathOf(stack)|
  {
  }

  lemma Components(rest: string)
    requires NulFree(rest)
    ensures var text := AfterSlashes(rest);
            var c := Component(text);
            (rest == "" ==> c == "") && NulFree(text[|c|..]) && (c != "" && c != "." && c != ".." ==> IsComponent(c))
  {
  }

  lemma CanonicalMoves(stack: Stack, c: string)
    requires Canonical(stack)
    ensures Canonical(Parent(stack)) && Canonical([]) && (IsComponent(c) ==> Canonical(stack + [c]))
  {
    hide IsComponent;
  }

  /** Appending a component, or following a link from it. */
  lemma ComponentStepKeeps(fs: FileSystem, stack: Stack, c: string, after: string, links: nat)
    requires Canonical(stack) && Solid(fs, stack) && |PathOf(stack)| < PATH_MAX && NulFree(after) && IsComponent(c)
    ensures var m := ComponentStep(fs, stack, c, after, links);
            m.Go? ==> Good(fs, m.stack, m.rest)
  {
    hide Solid, Clean, PathOf, Slashed, IsComponent, Canonical;
    SolidIsClean(fs, stack);
    RootIsSolid(fs);
    SolidIsClean(fs, []);
    CanonicalMoves(stack, c);
    PathOfPush(stack, c);
    var kind := fs.lstat(Slashed(stack) + c);
    if kind.File? || kind.Directory? {
      CleanGrows(fs, stack, c);
    }
    if kind.Directory? && fs.searchable(Slashed(stack) + c) {
      SolidGrows(fs, stack, c);
    }
  }

  lemma StepKeeps(fs: FileSystem, stack: Stack, rest: string, links: nat)
    requires Good(fs, stack, rest) && Step(fs, stack, rest, links).Go?
    ensures var m := Step(fs, stack, rest, links); Good(fs, m.stack, m.rest)
  {
    hide Solid, Clean, PathOf, Slashed, IsComponent, Canonical, ComponentStep, Component, AfterSlashes;
    var c := Component(AfterSlashes(rest));
    Components(rest);
    SolidIsClean(fs, stack);
    SolidIsClean(fs, Parent(stack));
    CanonicalMoves(stack, c);
    ParentIsShorter(stack);
    if c != "." && c != ".." {
      ComponentStepKeeps(fs, stack, c, AfterSlashes(rest)[|c|..], links);
    }
  }

  datatype Point = Point(stack: Stack, rest: string, links: nat)

  /** Where the walk ends: the stack, the text still left and the number of links followed. */
  function Last(fs: FileSystem, stack: Stack, rest: string, links: nat): Point
    decreases MAXSYMLINKS - links, |rest|
  {
    match Step(fs, stack, rest, links)
    case Stop(_) => Point(stack, rest, links)
    case Go(stack', rest', links') => Last(fs, stack', rest', links')
  }

  lemma {:induction false} LastIsGood(fs: FileSystem, stack: Stack, rest: string, links: nat)
    requires Good(fs, stack, rest)
    ensures var last := Last(fs, stack, rest, links);
            Good(fs, last.stack, last.rest) && links <= last.links
            && (links <= MAXSYMLINKS ==> last.links <= MAXSYMLINKS)
            && Step(fs, last.stack, last.rest, last.links) == Stop(Walk(fs, stack, rest, links))
    decreases MAXSYMLINKS - links, |rest|
  {
    hide Good, Step;
    var m := Step(fs, stack, rest, links);
    if m.Go? {
      StepKeeps(fs, stack, rest, links);
      LastIsGood(fs, m.stack, m.rest, m.links);
    }
  }

  /**
   * The result of a walk from a canonical stack of searchable directories: a canonical stack whose path fits,
   * with no link in it and only searchable directories above its last component.
   */
  lemma ResolvedIsCanonical(fs: FileSystem, stack: Stack, rest: string, links: nat)
    requires Canonical(stack) && Solid(fs, stack) && |PathOf(stack)| < PATH_MAX && NulFree(rest)
    requires Walk(fs, stack, rest, links).Resolved?
    ensures var r := Walk(fs, stack, rest, links).stack;
            Canonical(r) && Clean(fs, r) && |PathOf(r)| < PATH_MAX
  {
    hide Solid, Clean, PathOf, Slashed, Canonical, Walk, Last;
    SolidIsClean(fs, stack);
    LastIsGood(fs, stack, rest, links);
    var last := Last(fs, stack, rest, links);
    if last.rest != "" {
      SolidIsClean(fs, last.stack);
    }
  }

  /** A name resolved from the root, or from a current directory that is itself resolved. */
  lemma RealPathIsCanonical(fs: FileSystem, cwd: Cwd, name: string)
    requires NulFree(name) && Resolve(fs, cwd, name).Resolved?
    requires name[0] != '/' ==> Canonical(cwd.stack) && Solid(fs, cwd.stack) && |PathOf(cwd.stack)| < PATH_MAX
    ensures var r := Resolve(fs, cwd, name).stack;
            Canonical(r) && Clean(fs, r) && |PathOf(r)| < PATH_MAX
  {
    hide Walk, PathOf;
    RootIsSolid(fs);
    ResolvedIsCanonical(fs, if name[0] == '/' then [] else cwd.stack, name, 0);
  }

  // ---- resolving a resolved name

  /** The text of the components from k on. */
  function Remaining(stack: Stack, k: nat): string
    requires k <= |stack|
    decreases |stack| - k
  {
    if k == |stack| then "" else "/" + stack[k] + Remaining(stack, k + 1)
  }

  lemma {:induction false} PathFrom(stack: Stack, k: nat)
    requires 0 < k <= |stack|
    ensures PathOf(stack) == PathOf(stack[..k]) + Remaining(stack, k)
    decreases |stack| - k
  {
    if k == |stack| {
      assert stack[..k] == stack;
    } else {
      PathFrom(stack, k + 1);
      assert stack[..k + 1] == stack[..k] + [stack[k]];
      PathOfPush(stack[..k], stack[k]);
      assert PathOf(stack[..k]) + "/" + stack[k] + Remaining(stack, k + 1)
          == PathOf(stack[..k]) + ("/" + stack[k] + Remaining(stack, k + 1));
    }
  }

  lemma PathIsRemaining(stack: Stack)
    requires stack != []
    ensures PathOf(stack) == Remaining(stack, 0)
  {
    PathFrom(stack, 1);
    assert stack[..1] == [] + [stack[0]];
    PathOfPush([], stack[0]);
  }

  lemma {:induction false} ComponentOfText(c: string, rest: string)
    requires '/' !in c && (rest != "" ==> rest[0] == '/')
    ensures Component(c + rest) == c
    decreases |c|
  {
    if c == "" {
      assert c + rest == rest;
    } else {
      ComponentOfText(c[1..], rest);
      assert (c + rest)[1..] == c[1..] + rest;
    }
  }

  lemma NextComponent(c: string, rest: string)
    requires c != "" && '/' !in c && (rest != "" ==> rest[0] == '/')
    ensures AfterSlashes("/" + c + rest) == c + rest
    ensures Component(c + rest) == c && (c + rest)[|c|..] == rest
  {
    assert ("/" + c + rest)[1..] == c + rest && (c + rest)[0] == c[0];
    ComponentOfText(c, rest);
  }

  /** One component that is what a resolved name needs there. */
  lemma WalkInto(fs: FileSystem, stack: Stack, c: string, rest: string, links: nat)
    requires IsComponent(c) && (rest != "" ==> rest[0] == '/') && |Slashed(stack) + c| < PATH_MAX
    requires if rest == "" then fs.lstat(Slashed(stack) + c).File? || fs.lstat(Slashed(stack) + c).Directory?
             else IsSearchable(fs, Slashed(stack) + c)
    ensures Walk(fs, stack, "/" + c + rest, links) == Walk(fs, stack + [c], rest, links)
  {
    hide Slashed;
    NextComponent(c, rest);
    if rest == "" {
      assert Walk(fs, stack + [c], "", links) == Resolved(stack + [c]);
    }
  }

  lemma {:induction false} WalkAgain(fs: FileSystem, stack: Stack, k: nat, links: nat)
    requires Canonical(stack) && Clean(fs, stack) && |PathOf(stack)| < PATH_MAX && k <= |stack|
    ensures Walk(fs, stack[..k], Remaining(stack, k), links) == Resolved(stack)
    decreases |stack| - k
  {
    hide PathOf, Slashed, Walk, IsComponent;
    if k == |stack| {
      assert stack[..k] == stack;
      WalkNothing(fs, stack, links);
    } else {
      var c, rest := stack[k], Remaining(stack, k + 1);
      var up, longer := stack[..k], stack[..k + 1];
      assert longer == up + [c] && c in stack;
      WalkAgain(fs, stack, k + 1, links);
      PathOfPush(up, c);
      PathFrom(stack, k + 1);
      if k + 1 < |stack| {
        assert IsSearchable(fs, PathOf(Parent(stack)[..k + 1])) && Parent(stack)[..k + 1] == longer;
      } else {
        assert longer == stack;
      }
      WalkInto(fs, up, c, rest, links);
    }
  }

  /** Resolving a resolved name changes nothing: for absolute names and solid current directories alike. */
  lemma Idempotent(fs: FileSystem, cwd: Cwd, name: string, anywhere: Cwd)
    requires NulFree(name) && Resolve(fs, cwd, name).Resolved?
    requires name[0] != '/' ==> Canonical(cwd.stack) && Solid(fs, cwd.stack) && |PathOf(cwd.stack)| < PATH_MAX
    ensures Resolve(fs, anywhere, PathOf(Resolve(fs, cwd, name).stack)) == Resolve(fs, cwd, name)
  {
    hide Walk, Canonical, Clean, Solid;
    var r := Resolve(fs, cwd, name).stack;
    RealPathIsCanonical(fs, cwd, name);
    if r == [] {
      WalkSlash(fs);
    } else {
      PathIsRemaining(r);
      assert r[..0] == [];
      WalkAgain(fs, r, 0, 0);
    }
  }

  lemma WalkSlash(fs: FileSystem)
    ensures Walk(fs, [], "/", 0) == Resolved([])
  {
    assert AfterSlashes("/") == AfterSlashes("") == "";
  }
}
