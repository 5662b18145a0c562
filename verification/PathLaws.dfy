/** Resolving a name in parts, and what a failure means. */
module PathLaws {
  import opened PathWalk

  // ---- resolving in two steps

  lemma {:induction false} SlashesJoin(a: string, b: string)
    ensures AfterSlashes(a + "/" + b) == if AfterSlashes(a) == "" then AfterSlashes(b) else AfterSlashes(a) + "/" + b
    decreases |a|
  {
    if a == "" {
      assert a + "/" + b == "/" + b && ("/" + b)[1..] == b;
    } else {
      assert (a + "/" + b)[1..] == a[1..] + "/" + b;
      if a[0] == '/' {
        SlashesJoin(a[1..], b);
      }
    }
  }

  lemma {:induction false} ComponentJoin(text: string, b: string)
    ensures Component(text + "/" + b) == Component(text)
    ensures (text + "/" + b)[|Component(text)|..] == text[|Component(text)|..] + "/" + b
    decreases |text|
  {
    if text == "" {
      assert text + "/" + b == "/" + b;
    } else {
      assert (text + "/" + b)[1..] == text[1..] + "/" + b;
      if text[0] != '/' {
        ComponentJoin(text[1..], b);
      }
    }
  }

  /** Every link followed on the way leaves room for its target, the text behind it and some more. */
  predicate LinksFit(fs: FileSystem, stack: Stack, rest: string, links: nat, extra: nat)
    decreases MAXSYMLINKS - links, |rest|
  {
    match Step(fs, stack, rest, links)
    case Stop(_) => true
    case Go(stack', rest', links') =>
      (links' > links ==> |rest'| + extra < PATH_MAX) && LinksFit(fs, stack', rest', links', extra)
  }

  lemma LinksFitStep(fs: FileSystem, stack: Stack, rest: string, links: nat, extra: nat)
    ensures var m := Step(fs, stack, rest, links);
            LinksFit(fs, stack, rest, links, extra) <==>
            m.Stop?
            || ((m.links > links ==> |m.rest| + extra < PATH_MAX) && LinksFit(fs, m.stack, m.rest, m.links, extra))
  {
    hide Step;
  }

  /** The move m, with more text behind; or it ends here, for a link that does not fit or a top one may not search. */
  ghost predicate WithMore(fs: FileSystem, m: Move, more: Move, b: string, links: nat) {
    m.Go? ==>
      if m.links > links && |m.rest + "/" + b| >= PATH_MAX then
        more.Stop? && more.result.Failed? && more.result.problem == NameTooLong
      else
        more == Go(m.stack, m.rest + "/" + b, m.links)
        || (m.rest == "" && m.links == links && m.stack != [] && !IsSearchable(fs, PathOf(m.stack)))
  }

  lemma ComponentWithMore(fs: FileSystem, stack: Stack, c: string, after: string, b: string, links: nat)
    ensures WithMore(fs, ComponentStep(fs, stack, c, after, links),
                     ComponentStep(fs, stack, c, after + "/" + b, links), b, links)
  {
    hide PathOf, Slashed;
    PathOfPush(stack, c);
    var kind := fs.lstat(Slashed(stack) + c);
    if kind.Link? {
      assert kind.target + (after + "/" + b) == (kind.target + after) + "/" + b;
    }
  }

  /** The same component with more text behind it. */
  lemma StepWithMore(fs: FileSystem, stack: Stack, a: string, b: string, links: nat)
    requires AfterSlashes(a) != ""
    ensures WithMore(fs, Step(fs, stack, a, links), Step(fs, stack, a + "/" + b, links), b, links)
  {
    hide PathOf, Slashed, Component, AfterSlashes, Step, ComponentStep, IsSearchable;
    SlashesJoin(a, b);
    var text := AfterSlashes(a);
    ComponentJoin(text, b);
    StepSkips(fs, stack, a, links);
    StepSkips(fs, stack, a + "/" + b, links);
    StepAt(fs, stack, text, links);
    StepAt(fs, stack, text + "/" + b, links);
    var c := Component(text);
    ComponentWithMore(fs, stack, c, text[|c|..], b, links);
  }

  /**
   * If the first part of a name resolves to a directory one may search, the whole name resolves to what its
   * second part resolves to from there, with some more links used up, exactly if every link followed in the first
   * part still fits in front of the rest; otherwise the name is too long.
   */
  lemma {:induction false} Compose(fs: FileSystem, stack: Stack, a: string, b: string, links: nat)
    returns (used: nat)
    requires links <= MAXSYMLINKS
    requires Walk(fs, stack, a, links).Resolved? && Solid(fs, Walk(fs, stack, a, links).stack)
    ensures links <= used <= MAXSYMLINKS
    ensures var whole := Walk(fs, stack, a + "/" + b, links);
            if LinksFit(fs, stack, a, links, |b| + 1) then whole == Walk(fs, Walk(fs, stack, a, links).stack, b, used)
            else whole.Failed? && whole.problem == NameTooLong
    decreases MAXSYMLINKS - links, |a|
  {
    hide Walk, Solid, PathOf, Slashed, IsSearchable, Step, LinksFit;
    used := links;
    WalkStep(fs, stack, a, links);
    LinksFitStep(fs, stack, a, links, |b| + 1);
    if AfterSlashes(a) == "" {
      WalkSkips(fs, stack, a, links);
      WalkSkips(fs, stack, a + "/" + b, links);
      WalkSkips(fs, stack, b, links);
      SlashesJoin(a, b);
      WalkNothing(fs, stack, links);
      NothingLeft(fs, stack, a, links);
    } else {
      StepWithMore(fs, stack, a, b, links);
      WalkStep(fs, stack, a + "/" + b, links);
      var m := Step(fs, stack, a, links);
      SomethingLeft(fs, stack, a, links);
      if m.rest == "" {
        WalkNothing(fs, m.stack, m.links);
        TopIsSearchable(fs, m.stack);
      }
      if m.links == links || |m.rest + "/" + b| < PATH_MAX {
        used := Compose(fs, m.stack, m.rest, b, m.links);
      }
    }
  }

  lemma NothingLeft(fs: FileSystem, stack: Stack, a: string, links: nat)
    requires AfterSlashes(a) == ""
    ensures Step(fs, stack, a, links) == Stop(Resolved(stack))
  {
  }

  lemma SomethingLeft(fs: FileSystem, stack: Stack, a: string, links: nat)
    requires AfterSlashes(a) != "" && Walk(fs, stack, a, links).Resolved?
    ensures Step(fs, stack, a, links).Go?
  {
    hide PathOf, Slashed;
    WalkStep(fs, stack, a, links);
    StepSkips(fs, stack, a, links);
    StepAt(fs, stack, AfterSlashes(a), links);
  }

  lemma TopIsSearchable(fs: FileSystem, stack: Stack)
    ensures Solid(fs, stack) && stack != [] ==> IsSearchable(fs, PathOf(stack))
  {
    hide PathOf, IsSearchable;
    assert stack[..|stack|] == stack;
  }

  /** In particular, a name followed by /.. resolves to the directory above what the name resolves to. */
  lemma DotDotIsAbove(fs: FileSystem, stack: Stack, a: string, links: nat)
    requires links <= MAXSYMLINKS
    requires Walk(fs, stack, a, links).Resolved? && Solid(fs, Walk(fs, stack, a, links).stack)
    ensures var whole := Walk(fs, stack, a + "/" + "..", links);
            if LinksFit(fs, stack, a, links, 3) then whole == Resolved(Parent(Walk(fs, stack, a, links).stack))
            else whole.Failed? && whole.problem == NameTooLong
  {
    hide Solid, Walk;
    var used := Compose(fs, stack, a, "..", links);
    WalkDotDot(fs, Walk(fs, stack, a, links).stack, used);
  }

  lemma WalkDotDot(fs: FileSystem, stack: Stack, links: nat)
    ensures Walk(fs, stack, "..", links) == Resolved(Parent(stack))
  {
    hide Walk;
    assert Component("..") == ".." by {
      ComponentOfText("..", "");
      assert ".." + "" == "..";
    }
    WalkStep(fs, stack, "..", links);
    WalkNothing(fs, Parent(stack), links);
  }

  // ---- what a failure means

  /** Why the walk broke off at a component of the stack, with the text behind it and some links followed. */
  ghost predicate BrokeOff(fs: FileSystem, problem: Problem, stack: Stack, c: string, after: string, links: nat) {
    Canonical(stack) && Solid(fs, stack) && IsComponent(c)
    && var path := PathOf(stack + [c]);
       var kind := fs.lstat(path);
       match problem
       case NotFound => kind == Absent
       case TooManyLinks => kind.Link? && links >= MAXSYMLINKS
       case NotADirectory => kind == File && after != ""
       case NotSearchable => kind == Directory && !fs.searchable(path) && after != ""
       case NameTooLong => |path| >= PATH_MAX || (kind.Link? && |kind.target| + |after| >= PATH_MAX)
       case _ => false
  }

  /** The component that a point of the walk is at, and the text behind it. */
  function Stuck(p: Point): string {
    Component(AfterSlashes(p.rest))
  }

  function Behind(p: Point): string {
    AfterSlashes(p.rest)[|Stuck(p)|..]
  }

  lemma StepBreaks(fs: FileSystem, p: Point)
    requires Good(fs, p.stack, p.rest) && Step(fs, p.stack, p.rest, p.links).Stop?
    requires Step(fs, p.stack, p.rest, p.links).result.Failed?
    ensures var r := Step(fs, p.stack, p.rest, p.links).result;
            var path := PathOf(p.stack + [Stuck(p)]);
            BrokeOff(fs, r.problem, p.stack, Stuck(p), Behind(p), p.links) && |PathOf(p.stack)| < PATH_MAX
            && (if |path| >= PATH_MAX then r.problem == NameTooLong && r.at == PathOf(p.stack) else r.at == path)
  {
    hide PathOf, Slashed, Solid, Clean, Canonical, Component, AfterSlashes, IsComponent;
    Components(p.rest);
    PathOfPush(p.stack, Stuck(p));
  }

  /**
   * On failure the buffer holds the path of the first component that cannot be resolved, all above it being
   * searchable directories; but if that path itself would be too long, the buffer holds only the path above it.
   */
  lemma FailureIsFirst(fs: FileSystem, stack: Stack, rest: string, links: nat)
    requires Canonical(stack) && Solid(fs, stack) && |PathOf(stack)| < PATH_MAX && NulFree(rest)
    requires Walk(fs, stack, rest, links).Failed?
    ensures var r := Walk(fs, stack, rest, links);
            var last := Last(fs, stack, rest, links);
            var path := PathOf(last.stack + [Stuck(last)]);
            BrokeOff(fs, r.problem, last.stack, Stuck(last), Behind(last), last.links)
            && |PathOf(last.stack)| < PATH_MAX
            && (if |path| >= PATH_MAX then r.problem == NameTooLong && r.at == PathOf(last.stack) else r.at == path)
  {
    hide PathOf, Solid, Clean, Canonical, Walk, Last, BrokeOff, Step, Stuck, Behind;
    SolidIsClean(fs, stack);
    LastIsGood(fs, stack, rest, links);
    StepBreaks(fs, Last(fs, stack, rest, links));
  }

  /** Where the name's walk starts. */
  function Origin(cwd: Cwd, name: string): Stack
    requires name != "" && (name[0] == '/' || cwd.Cwd?)
  {
    if name[0] == '/' then [] else cwd.stack
  }

  /** The path of the first component that cannot be resolved, as `vde_realpath` promises to leave it. */
  ghost function Promised(fs: FileSystem, cwd: Cwd, name: string): string
    requires name != "" && (name[0] == '/' || cwd.Cwd?)
  {
    var last := Last(fs, Origin(cwd, name), name, 0);
    PathOf(last.stack + [Stuck(last)])
  }

  /**
   * The promise is kept exactly if the name is not empty, it is absolute or the current directory is known, and
   * the path fits. In the other cases the buffer holds nothing new, an empty string, and the path above.
   */
  lemma PromiseKeptIff(fs: FileSystem, cwd: Cwd, name: string)
    requires NulFree(name) && Resolve(fs, cwd, name).Failed?
    requires name != "" && name[0] != '/' && cwd.Cwd? ==>
               Canonical(cwd.stack) && Solid(fs, cwd.stack) && |PathOf(cwd.stack)| < PATH_MAX
    ensures var r := Resolve(fs, cwd, name);
            if name == "" then r == Failed(NoName, "")
            else if name[0] != '/' && cwd.Unknown? then r == Failed(NoDirectory, "")
            else
              var last := Last(fs, Origin(cwd, name), name, 0);
              BrokeOff(fs, r.problem, last.stack, Stuck(last), Behind(last), last.links)
              && (r.at == Promised(fs, cwd, name) <==> |Promised(fs, cwd, name)| < PATH_MAX)
              && (|Promised(fs, cwd, name)| >= PATH_MAX ==> r.problem == NameTooLong && r.at == PathOf(last.stack))
  {
    hide PathOf, Solid, Walk, Last, BrokeOff, Stuck, Behind, Slashed;
    if name != "" && (name[0] == '/' || cwd.Cwd?) {
      RootIsSolid(fs);
      FailureIsFirst(fs, Origin(cwd, name), name, 0);
    }
  }

  /** For instance, on every file system, with a first component of 4095 bytes: the buffer holds only "/". */
  lemma PromiseBroken(fs: FileSystem, cwd: Cwd, name: string)
    requires name == "/" + seq(PATH_MAX - 1, _ => 'a')
    ensures Resolve(fs, cwd, name) == Failed(NameTooLong, "/") && Promised(fs, cwd, name) == name
  {
    var c: string := seq(PATH_MAX - 1, _ => 'a');
    assert c + "" == c && name == "/" + c + "";
    NextComponent(c, "");
    PathOfPush([], c);
    StepSkips(fs, [], name, 0);
    StepAt(fs, [], c, 0);
  }
}
