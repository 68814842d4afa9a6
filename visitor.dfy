/**
  The `SimpleFileVisitor` that `JBiscoitoCommand.run` hands to
  `Files.walkFileTree` (src/main/java/dev/matheuscruz/JBiscoitoCommand.java,
  lines 81-128), and the walk itself.

  `Qute.fmt(text, context)` is the uninterpreted `render`; `None` is a
  rendering exception. The walk runs over a snapshot of the tree taken when it
  starts: entries that the visits create are not visited, and each entry is
  visited as the kind (file or directory) it had in the snapshot.
*/
module Visitor {
  import opened Wrappers
  import opened Paths
  import opened Files

  /** What every visit sees: the template function with its context, the
      process's working directory (against which a relative target string
      resolves) and `<userDir>/<repoName>/.git`, the single ignored prefix. */
  datatype Env<!Ctx> = Env(render: (string, Ctx) -> Option<string>, context: Ctx, cwd: Path, dotGit: Path)

  datatype WalkState = WalkState(tree: Tree, removeDirs: set<Path>)

  function Render<Ctx>(env: Env<Ctx>, text: string): Option<string>
  {
    env.render(text, env.context)
  }

  /** The text written back: the rendered content, or the content as it was
      when rendering it throws. */
  function RenderedContent<Ctx>(env: Env<Ctx>, content: string): (r: string)
    ensures Render(env, content).Some? ==> r == Render(env, content).value
    ensures Render(env, content).None? ==> r == content
  {
    match Render(env, content)
    case Some(s) => s
    case None => content
  }

  /** `ignoreDirs.stream().anyMatch(p::startsWith)`: `.git` itself is ignored,
      and so is everything below it, each ignored entry having an ignored
      parent. */
  predicate Ignored<Ctx>(env: Env<Ctx>, p: Path)
    ensures p == env.dotGit ==> Ignored(env, p)
    ensures Ignored(env, p) && p != env.dotGit ==> p != [] && StartsWith(Parent(p), env.dotGit)
  {
    StartsWith(p, env.dotGit)
  }

  /** The ignore test compares whole segments: below the directory holding
      `.git`, an entry is ignored exactly when its first segment there is
      `.git` itself, so `.gitignore` and `.github` are rendered. */
  lemma IgnoredIsSegmentWise<Ctx>(env: Env<Ctx>, dir: Path, name: string, rest: Path)
    requires env.dotGit == dir + [".git"]
    ensures Ignored(env, dir + [name] + rest) <==> name == ".git"
  {
    assert (dir + [name] + rest)[..|dir| + 1] == dir + [name];
    if Ignored(env, dir + [name] + rest) {
      assert (dir + [name])[|dir|] == name;
      assert (dir + [".git"])[|dir|] == ".git";
    }
  }

  lemma GitignoreIsRendered<Ctx>(env: Env<Ctx>, dir: Path)
    requires env.dotGit == dir + [".git"]
    ensures !Ignored(env, dir + [".gitignore"])
  {
    IgnoredIsSegmentWise(env, dir, ".gitignore", []);
    assert dir + [".gitignore"] + [] == dir + [".gitignore"];
    assert |".gitignore"| != |".git"|;
  }

  /** `Path.of(Qute.fmt(file.toString(), context))`: a file renders its whole
      path. There is a target exactly when rendering succeeds and gives no NUL;
      it is well formed, and when the rendered string is the path's own string
      the target is the file itself. */
  function FileTarget<Ctx>(env: Env<Ctx>, file: Path): (r: Option<Path>)
    ensures r.Some? <==> Render(env, ToString(file)).Some? && '\0' !in Render(env, ToString(file)).value
    ensures r.Some? && WellFormed(env.cwd) ==> WellFormed(r.value)
    ensures WellFormed(file) && Render(env, ToString(file)) == Some(ToString(file)) ==> r == Some(file)
  {
    assert WellFormed(file) ==> Parse(ToString(file)) == Some(ParsedPath(true, file)) by {
      if WellFormed(file) {
        ParseToString(file);
      }
    }
    match Render(env, ToString(file))
    case None => None
    case Some(newName) =>
      match Parse(newName)
      case None => None
      case Some(q) => Some(Resolve(env.cwd, q))
  }

  /** A file goes to its whole path rendered: when the path's string renders to
      the string of a well-formed path, that path is the target. */
  lemma RenderedPathIsTarget<Ctx>(env: Env<Ctx>, file: Path, q: Path)
    requires WellFormed(q) && Render(env, ToString(file)) == Some(ToString(q))
    ensures FileTarget(env, file) == Some(q)
  {
    ParseToString(q);
  }

  /** `dir.resolveSibling(Qute.fmt(dir.getFileName().toString(), context))`: a
      directory renders only its own name. The root has no file name
      (`getFileName()` is null, so the visit throws). A new name that is a
      single segment gives the sibling of that name; the directory's own name
      gives the directory itself. */
  function DirTarget<Ctx>(env: Env<Ctx>, dir: Path): (r: Option<Path>)
    ensures r.Some? <==> dir != [] && Render(env, FileName(dir)).Some? && '\0' !in Render(env, FileName(dir)).value
    ensures r.Some? && IsSegment(Render(env, FileName(dir)).value) ==> r.value == Parent(dir) + [Render(env, FileName(dir)).value]
    ensures dir != [] && Render(env, FileName(dir)) == Some(FileName(dir)) && IsSegment(FileName(dir)) ==> r == Some(dir)
  {
    if dir == [] then None
    else match Render(env, FileName(dir))
      case None => None
      case Some(newName) =>
        assert IsSegment(newName) ==> Parse(newName) == Some(ParsedPath(false, [newName])) by {
          if IsSegment(newName) {
            ParseName(newName);
          }
        }
        assert Parent(dir) + [FileName(dir)] == dir;
        match Parse(newName)
        case None => None
        case Some(q) => Some(Resolve(Parent(dir), q))
  }

  /** `visitFile` (lines 83-104): copy the file to its rendered path when the
      rendered string differs (replacing what is there), then rewrite the
      target with its rendered content. Any exception ends the visit, keeping
      what was already done. */
  function VisitFile<Ctx>(env: Env<Ctx>, t: Tree, file: Path): (r: Tree)
    ensures Ignored(env, file) || FileTarget(env, file).None? ==> r == t
    ensures t.Keys <= r.Keys
    ensures forall q :: FileTarget(env, file) != Some(q) ==> (q in r <==> q in t) && (q in t ==> r[q] == t[q])
    ensures WellFormed(file) && !Ignored(env, file) && FileTarget(env, file).Some? && file in t && t[file].File? ==>
      var target := FileTarget(env, file).value;
      if Copy(t, file, target).None? then r == t
      else r == t[target := File(RenderedContent(env, t[file].content))]
  {
    if Ignored(env, file) then t
    else match FileTarget(env, file)
      case None => t
      case Some(target) =>
        var copied := if Render(env, ToString(file)) == Some(ToString(file)) then Some(t) else Copy(t, file, target);
        assert WellFormed(file) && Render(env, ToString(file)) == Some(ToString(file)) ==> target == file;
        match copied
        case None => t
        case Some(t1) =>
          match ReadString(t1, target)
          case None => t1
          case Some(content) =>
            match Render(env, content)
            case None => t1
            case Some(fmt) =>
              match WriteString(t1, target, fmt)
              case None => t1
              case Some(t2) => t2
  }

  /** `preVisitDirectory` (lines 107-127): when the rendered name differs, copy
      the directory node to the sibling with that name and only then record the
      original in `removeDirs`. Any exception ends the visit unrecorded. */
  function PreVisitDirectory<Ctx>(env: Env<Ctx>, t: Tree, removeDirs: set<Path>, dir: Path): (r: WalkState)
    ensures r.removeDirs == removeDirs || r.removeDirs == removeDirs + {dir}
    ensures Ignored(env, dir) || DirTarget(env, dir).None? ==> r == WalkState(t, removeDirs)
    ensures r.tree == t || (DirTarget(env, dir).Some? && Copy(t, dir, DirTarget(env, dir).value) == Some(r.tree))
    ensures dir != [] && Render(env, FileName(dir)) == Some(FileName(dir)) ==> r == WalkState(t, removeDirs)
    ensures r.tree != t ==> dir in r.removeDirs
    ensures dir in r.removeDirs - removeDirs ==>
      && !Ignored(env, dir) && DirTarget(env, dir).Some?
      && Render(env, FileName(dir)) != Some(FileName(dir))
      && Copy(t, dir, DirTarget(env, dir).value) == Some(r.tree)
    ensures (!Ignored(env, dir) && DirTarget(env, dir).Some? && Render(env, FileName(dir)) != Some(FileName(dir))
             && Copy(t, dir, DirTarget(env, dir).value).Some?) ==> dir in r.removeDirs
  {
    if Ignored(env, dir) then WalkState(t, removeDirs)
    else match DirTarget(env, dir)
      case None => WalkState(t, removeDirs)
      case Some(sibling) =>
        if Render(env, FileName(dir)) == Some(FileName(dir)) then WalkState(t, removeDirs)
        else match Copy(t, dir, sibling)
          case None => WalkState(t, removeDirs)
          case Some(t1) => WalkState(t1, removeDirs + {dir})
  }

  /** One visit, chosen by the entry's kind in the snapshot. */
  function Visit<Ctx>(env: Env<Ctx>, snapshot: Tree, s: WalkState, p: Path): WalkState
  {
    if p in snapshot && snapshot[p].Dir? then PreVisitDirectory(env, s.tree, s.removeDirs, p)
    else WalkState(VisitFile(env, s.tree, p), s.removeDirs)
  }

  /** The path a visit of `p` may create or overwrite. */
  function VisitTarget<Ctx>(env: Env<Ctx>, snapshot: Tree, p: Path): Option<Path>
  {
    if p in snapshot && snapshot[p].Dir? then DirTarget(env, p) else FileTarget(env, p)
  }

  /** The visits of `order`, one after the other. */
  function WalkSpec<Ctx>(env: Env<Ctx>, snapshot: Tree, s: WalkState, order: seq<Path>): WalkState
    decreases |order|
  {
    if order == [] then s
    else Visit(env, snapshot, WalkSpec(env, snapshot, s, order[..|order| - 1]), order[|order| - 1])
  }

  /** An order `Files.walkFileTree` may produce over the snapshot: every entry
      at or below `root` exactly once, each directory before everything below
      it. (Depth-first order keeps each subtree together as well; the
      properties below hold without that.) */
  ghost predicate IsWalkOrder(order: seq<Path>, t: Tree, root: Path)
  {
    && (forall i :: 0 <= i < |order| ==> order[i] in t && StartsWith(order[i], root))
    && (forall i, j :: 0 <= i < j < |order| ==> order[i] != order[j])
    && (forall p :: p in t && StartsWith(p, root) ==> p in order)
    && (forall i, j :: 0 <= i < |order| && 0 <= j < |order| && StartsWith(order[j], order[i]) ==> i <= j)
  }

  /** Two sequences of paths, each strictly increasing in length, holding the
      same paths, are the same sequence. */
  lemma {:induction false} SortedByLengthUnique(o: seq<Path>, c: seq<Path>)
    requires forall i, j :: 0 <= i < j < |o| ==> |o[i]| < |o[j]|
    requires forall i, j :: 0 <= i < j < |c| ==> |c[i]| < |c[j]|
    requires forall x :: x in o <==> x in c
    ensures o == c
    decreases |c|
  {
    assert o != [] ==> o[0] in c;
    assert c != [] ==> c[0] in o;
    if o != [] && c != [] {
      var x, y := o[|o| - 1], c[|c| - 1];
      var o', c' := o[..|o| - 1], c[..|c| - 1];
      assert x in c && y in o;
      assert x == y;
      forall z
        ensures z in o' <==> z in c'
      {
        if z in o' {
          assert z in c;
        }
        if z in c' {
          assert z in o;
        }
      }
      SortedByLengthUnique(o', c');
      assert o == o' + [x] && c == c' + [y];
    }
  }

  /** When the entries to walk form one chain, each below the one before, the
      walk has a single order: the chain itself. */
  lemma ChainIsOnlyWalkOrder(o: seq<Path>, chain: seq<Path>, t: Tree, root: Path)
    requires IsWalkOrder(o, t, root) && IsWalkOrder(chain, t, root)
    requires forall a, b :: 0 <= a < b < |chain| ==> StartsWith(chain[b], chain[a])
    ensures o == chain
  {
    forall a, b | 0 <= a < b < |chain|
      ensures |chain[a]| < |chain[b]|
    {
      assert StartsWith(chain[b], chain[a]);
      assert chain[a] != chain[b];
    }
    forall x
      ensures x in o <==> x in chain
    {
    }
    forall i, j | 0 <= i < j < |o|
      ensures |o[i]| < |o[j]|
    {
      var a :| 0 <= a < |chain| && chain[a] == o[i];
      var b :| 0 <= b < |chain| && chain[b] == o[j];
      var x, y := o[i], o[j];
      assert b < a ==> StartsWith(x, y);
      assert a != b;
      assert a < b;
    }
    SortedByLengthUnique(o, chain);
  }

  lemma ShortestOf(s: set<Path>) returns (m: Path)
    requires s != {}
    ensures m in s && forall q :: q in s ==> |m| <= |q|
  {
    var x :| x in s;
    if s == {x} {
      m := x;
    } else {
      var m' := ShortestOf(s - {x});
      m := if |x| < |m'| then x else m';
    }
  }

  /** The loop state of `Walk`: `order` lists the visited entries of the
      subtree, `unvisited` the rest, and no visited entry lies below an
      unvisited one. */
  ghost predicate WalkProgress(order: seq<Path>, unvisited: set<Path>, t: Tree, root: Path)
  {
    && (forall p :: p in unvisited ==> p in t && StartsWith(p, root))
    && (forall i :: 0 <= i < |order| ==> order[i] in t && StartsWith(order[i], root))
    && (forall i :: 0 <= i < |order| ==> order[i] !in unvisited)
    && (forall p :: p in t && StartsWith(p, root) ==> p in unvisited || p in order)
    && (forall i, j :: 0 <= i < j < |order| ==> order[i] != order[j])
    && (forall i, j :: 0 <= i < |order| && 0 <= j < |order| && StartsWith(order[j], order[i]) ==> i <= j)
    && (forall i, q :: 0 <= i < |order| && q in unvisited ==> !StartsWith(order[i], q))
  }

  lemma NoShorterPrefix(p: Path, q: Path)
    requires |p| <= |q| && q != p
    ensures !StartsWith(p, q)
  {
  }

  /** Visiting an unvisited entry next keeps directories before their contents. */
  lemma ParentsFirstStep(order: seq<Path>, unvisited: set<Path>, p: Path)
    requires forall i, j :: 0 <= i < |order| && 0 <= j < |order| && StartsWith(order[j], order[i]) ==> i <= j
    requires forall i, q :: 0 <= i < |order| && q in unvisited ==> !StartsWith(order[i], q)
    requires p in unvisited
    ensures var order' := order + [p];
      forall i, j :: 0 <= i < |order'| && 0 <= j < |order'| && StartsWith(order'[j], order'[i]) ==> i <= j
  {
    var order' := order + [p];
    forall i, j | 0 <= i < |order'| && 0 <= j < |order'| && StartsWith(order'[j], order'[i])
      ensures i <= j
    {
      if j < |order| {
        assert order'[j] == order[j];
      }
    }
  }

  /** A shortest unvisited entry lies below no other unvisited entry. */
  lemma NothingBelowUnvisitedStep(order: seq<Path>, unvisited: set<Path>, p: Path)
    requires forall i, q :: 0 <= i < |order| && q in unvisited ==> !StartsWith(order[i], q)
    requires p in unvisited && forall q :: q in unvisited ==> |p| <= |q|
    ensures var order', unvisited' := order + [p], unvisited - {p};
      forall i, q :: 0 <= i < |order'| && q in unvisited' ==> !StartsWith(order'[i], q)
  {
    var order', unvisited' := order + [p], unvisited - {p};
    forall i, q | 0 <= i < |order'| && q in unvisited'
      ensures !StartsWith(order'[i], q)
    {
      if i == |order| {
        NoShorterPrefix(p, q);
      } else {
        assert order'[i] == order[i];
      }
    }
  }

  /** Visiting a shortest unvisited entry next keeps the walk's progress. */
  lemma WalkProgressStep(order: seq<Path>, unvisited: set<Path>, t: Tree, root: Path, p: Path)
    requires WalkProgress(order, unvisited, t, root)
    requires p in unvisited && forall q :: q in unvisited ==> |p| <= |q|
    ensures WalkProgress(order + [p], unvisited - {p}, t, root)
  {
    ParentsFirstStep(order, unvisited, p);
    NothingBelowUnvisitedStep(order, unvisited, p);
  }

  /** `Files.walkFileTree(cloneDirPath, ..., visitor)` over the snapshot `t0`:
      the entries are taken in an order the model leaves open, apart from
      directories coming before what they contain, and the result is the
      visits applied in that order. */
  method Walk<Ctx>(env: Env<Ctx>, t0: Tree, root: Path) returns (s: WalkState, ghost order: seq<Path>)
    ensures IsWalkOrder(order, t0, root)
    ensures s == WalkSpec(env, t0, WalkState(t0, {}), order)
    ensures WellFormedTree(t0) && WellFormed(env.cwd) ==> WellFormedTree(s.tree)
  {
    var unvisited := Subtree(t0, root);
    s := WalkState(t0, {});
    order := [];
    while unvisited != {}
      invariant WalkProgress(order, unvisited, t0, root)
      invariant s == WalkSpec(env, t0, WalkState(t0, {}), order)
      invariant WellFormedTree(t0) && WellFormed(env.cwd) ==> WellFormedTree(s.tree)
      decreases unvisited
    {
      ghost var shortest := ShortestOf(unvisited);
      var p :| p in unvisited && forall q :: q in unvisited ==> |p| <= |q|;
      if WellFormedTree(t0) && WellFormed(env.cwd) {
        VisitKeepsWellFormed(env, t0, s, p);
      }
      WalkProgressStep(order, unvisited, t0, root, p);
      ghost var visited := order;
      s := Visit(env, t0, s, p);
      order := order + [p];
      unvisited := unvisited - {p};
      assert order[..|order| - 1] == visited;
    }
  }

  lemma VisitKeepsWellFormed<Ctx>(env: Env<Ctx>, snapshot: Tree, s: WalkState, p: Path)
    requires WellFormedTree(snapshot) && WellFormedTree(s.tree) && WellFormed(env.cwd)
    ensures WellFormedTree(Visit(env, snapshot, s, p).tree)
  {
    if p in snapshot && snapshot[p].Dir? {
      if !Ignored(env, p) && DirTarget(env, p).Some? {
        CopyKeepsWellFormed(s.tree, p, DirTarget(env, p).value);
      }
    } else {
      FileVisitKeepsWellFormed(env, s.tree, p);
    }
  }

  lemma FileVisitKeepsWellFormed<Ctx>(env: Env<Ctx>, t: Tree, p: Path)
    requires WellFormedTree(t) && WellFormed(env.cwd)
    ensures WellFormedTree(VisitFile(env, t, p))
  {
    if !Ignored(env, p) && FileTarget(env, p).Some? {
      var target := FileTarget(env, p).value;
      var copied := if Render(env, ToString(p)) == Some(ToString(p)) then Some(t) else Copy(t, p, target);
      assert WellFormed(target);
      assert copied.Some? ==> WellFormedTree(copied.value) by {
        CopyKeepsWellFormed(t, p, target);
      }
      if copied.Some? {
        var c := ReadString(copied.value, target);
        if c.Some? && Render(env, c.value).Some? {
          WriteKeepsWellFormed(copied.value, target, Render(env, c.value).value);
        }
      }
    }
  }


  /** An entry whose visit changes nothing whatever the state: it lies under
      `.git`, rendering its name or path throws (the exception is caught and
      the walk goes on), or it is a directory whose name renders to itself. */
  predicate Inert<Ctx>(env: Env<Ctx>, snapshot: Tree, p: Path)
  {
    || Ignored(env, p)
    || VisitTarget(env, snapshot, p).None?
    || (p in snapshot && snapshot[p].Dir? && Render(env, FileName(p)) == Some(FileName(p)))
  }

  /** `order` without its inert entries. */
  function WithoutInert<Ctx>(env: Env<Ctx>, snapshot: Tree, order: seq<Path>): (r: seq<Path>)
    ensures forall p :: p in r <==> p in order && !Inert(env, snapshot, p)
    decreases |order|
  {
    if order == [] then []
    else
      var last := order[|order| - 1];
      WithoutInert(env, snapshot, order[..|order| - 1]) + (if Inert(env, snapshot, last) then [] else [last])
  }

  lemma InertVisit<Ctx>(env: Env<Ctx>, snapshot: Tree, s: WalkState, p: Path)
    requires Inert(env, snapshot, p)
    ensures Visit(env, snapshot, s, p) == s
  {
  }

  /** Per-entry isolation: the walk ends exactly as if the inert entries (the
      `.git` subtree, the entries whose rendering throws, the directories that
      keep their name) were not there at all. */
  lemma {:induction false} SkipInertVisits<Ctx>(env: Env<Ctx>, snapshot: Tree, s: WalkState, order: seq<Path>)
    ensures WalkSpec(env, snapshot, s, order) == WalkSpec(env, snapshot, s, WithoutInert(env, snapshot, order))
    decreases |order|
  {
    if order != [] {
      var init, last := order[..|order| - 1], order[|order| - 1];
      SkipInertVisits(env, snapshot, s, init);
      var kept := WithoutInert(env, snapshot, init);
      var w := WalkSpec(env, snapshot, s, init);
      assert WalkSpec(env, snapshot, s, order) == Visit(env, snapshot, w, last);
      if Inert(env, snapshot, last) {
        InertVisit(env, snapshot, w, last);
        assert WithoutInert(env, snapshot, order) == kept;
      } else {
        assert WithoutInert(env, snapshot, order) == kept + [last];
        assert (kept + [last])[..|kept + [last]| - 1] == kept;
      }
    }
  }

  /** `removeDirs` only grows, and what the walk adds are the directories of
      `order` (in the snapshot), outside `.git`, whose name rendered to a
      different one. No file is ever recorded. */
  lemma {:induction false} WalkRecords<Ctx>(env: Env<Ctx>, snapshot: Tree, s: WalkState, order: seq<Path>)
    ensures s.removeDirs <= WalkSpec(env, snapshot, s, order).removeDirs
    ensures forall d :: d in WalkSpec(env, snapshot, s, order).removeDirs - s.removeDirs ==>
      && d in order && d in snapshot && snapshot[d].Dir? && !Ignored(env, d)
      && d != [] && Render(env, FileName(d)) != Some(FileName(d))
    decreases |order|
  {
    if order != [] {
      var init, last := order[..|order| - 1], order[|order| - 1];
      WalkRecords(env, snapshot, s, init);
      VisitRecords(env, snapshot, WalkSpec(env, snapshot, s, init), last);
      assert forall d :: d in init ==> d in order;
    }
  }

  lemma VisitRecords<Ctx>(env: Env<Ctx>, snapshot: Tree, s: WalkState, p: Path)
    ensures s.removeDirs <= Visit(env, snapshot, s, p).removeDirs
    ensures forall d :: d in Visit(env, snapshot, s, p).removeDirs - s.removeDirs ==>
      && d == p && p in snapshot && snapshot[p].Dir? && !Ignored(env, p)
      && p != [] && Render(env, FileName(p)) != Some(FileName(p))
  {
  }

  /** The paths the visits of `order` may create or overwrite. */
  function Targets<Ctx>(env: Env<Ctx>, snapshot: Tree, order: seq<Path>): set<Path>
  {
    set p | p in order && VisitTarget(env, snapshot, p).Some? :: VisitTarget(env, snapshot, p).value
  }

  lemma VisitFrame<Ctx>(env: Env<Ctx>, snapshot: Tree, s: WalkState, p: Path)
    ensures s.tree.Keys <= Visit(env, snapshot, s, p).tree.Keys
    ensures forall q :: VisitTarget(env, snapshot, p) != Some(q) ==>
      var r := Visit(env, snapshot, s, p).tree;
      (q in r <==> q in s.tree) && (q in s.tree ==> r[q] == s.tree[q])
  {
  }

  /** Nothing is deleted during the walk, and every path that no visit targets
      is left as it was. */
  lemma {:induction false} WalkFrame<Ctx>(env: Env<Ctx>, snapshot: Tree, s: WalkState, order: seq<Path>)
    ensures s.tree.Keys <= WalkSpec(env, snapshot, s, order).tree.Keys
    ensures forall q :: q !in Targets(env, snapshot, order) ==>
      var r := WalkSpec(env, snapshot, s, order).tree;
      (q in r <==> q in s.tree) && (q in s.tree ==> r[q] == s.tree[q])
    decreases |order|
  {
    if order != [] {
      var init := order[..|order| - 1];
      WalkFrame(env, snapshot, s, init);
      VisitFrame(env, snapshot, WalkSpec(env, snapshot, s, init), order[|order| - 1]);
      assert Targets(env, snapshot, init) <= Targets(env, snapshot, order);
    }
  }

  /** Two files rendered to the same target: with REPLACE_EXISTING the later
      visit decides what the target holds, whatever the earlier one wrote. */
  lemma LaterWriterWins<Ctx>(env: Env<Ctx>, t: Tree, f1: Path, f2: Path)
    requires WellFormedTree(t) && f1 != f2 && f1 in t && t[f1].File? && f2 in t && t[f2].File?
    requires WellFormed(f2) && !Ignored(env, f2)
    requires FileTarget(env, f2).Some? && FileTarget(env, f1) == FileTarget(env, f2)
    requires var target := FileTarget(env, f2).value;
      && target != f2 && target != [] && Parent(target) in t && t[Parent(target)].Dir?
      && (target in t ==> t[target].File?)
    ensures var target := FileTarget(env, f2).value;
      && target in VisitFile(env, VisitFile(env, t, f1), f2)
      && VisitFile(env, VisitFile(env, t, f1), f2)[target] == File(RenderedContent(env, t[f2].content))
      && VisitFile(env, VisitFile(env, t, f1), f2)[target] == VisitFile(env, t, f2)[target]
  {
    var target := FileTarget(env, f2).value;
    var t1 := VisitFile(env, t, f1);
    assert Parent(target) != target;
    assert !HasChildren(t1, target);
    assert Copy(t1, f2, target).Some?;
    assert Copy(t, f2, target).Some?;
  }

}
