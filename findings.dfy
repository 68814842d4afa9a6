/**
  Two defects of the rewrite engine, each shown on a concrete clone, and the
  engine as it is evidently meant to work, with what it then guarantees.

  The concrete runs use a renderer that turns every 'x' into 'y', standing
  for a template placeholder (`{name}`) that renders to a project name: it
  renders a path string segment by segment, as a placeholder does.
*/
module Findings {
  import opened Wrappers
  import opened Paths
  import opened Files
  import opened Visitor
  import opened Command

  /** The path with every segment passed through `f`. */
  function MapPath(f: string -> string, p: Path): (r: Path)
    ensures |r| == |p| && forall i :: 0 <= i < |p| ==> r[i] == f(p[i])
  {
    seq(|p|, i requires 0 <= i < |p| => f(p[i]))
  }

  lemma MapPathPrefix(f: string -> string, p: Path, k: nat)
    requires k <= |p|
    ensures MapPath(f, p)[..k] == MapPath(f, p[..k])
  {
  }

  function SwapX(s: string): (r: string)
    ensures |r| == |s| && forall i :: 0 <= i < |s| ==> r[i] == if s[i] == 'x' then 'y' else s[i]
  {
    seq(|s|, i requires 0 <= i < |s| => if s[i] == 'x' then 'y' else s[i])
  }

  lemma SwapXNames()
    ensures SwapX("r") == "r" && SwapX("x") == "y" && SwapX("f") == "f"
  {
    assert SwapX("r")[0] == 'r';
    assert SwapX("x")[0] == 'y';
    assert SwapX("f")[0] == 'f';
  }

  lemma SwapXConcat(a: string, b: string)
    ensures SwapX(a + b) == SwapX(a) + SwapX(b)
  {
  }

  /** Replacing characters other than '/' is rendering each segment. */
  lemma {:induction false} SwapXJoin(p: Path)
    ensures SwapX(Join(p)) == Join(MapPath(SwapX, p))
  {
    if p != [] {
      var init := p[..|p| - 1];
      SwapXJoin(init);
      SwapXConcat(Join(init) + "/", p[|p| - 1]);
      SwapXConcat(Join(init), "/");
      MapPathPrefix(SwapX, p, |p| - 1);
    }
  }

  lemma SwapXToString(p: Path)
    ensures SwapX(ToString(p)) == ToString(MapPath(SwapX, p))
  {
    SwapXJoin(p);
  }

  /** Runs of the examples: the user's directory is "/", the repository is
      named "r", so the clone directory is "/r" and "/r/.git" is ignored. */
  const SwapEnv: Env<int> := Env((s: string, c: int) => Some(SwapX(s)), 0, [], ["r", ".git"])

  lemma WalkSnoc<Ctx>(env: Env<Ctx>, snapshot: Tree, s: WalkState, init: seq<Path>, p: Path)
    ensures WalkSpec(env, snapshot, s, init + [p]) == Visit(env, snapshot, WalkSpec(env, snapshot, s, init), p)
  {
    assert (init + [p])[..|init|] == init;
  }

  /** A directory renamed inside a renamed directory. */
  const Nested: Tree := map[[] := Dir, ["r"] := Dir, ["r", "x"] := Dir, ["r", "x", "x"] := Dir, ["r", "x", "x", "f"] := File("c")]

  const NestedOrder: seq<Path> := [["r"], ["r", "x"], ["r", "x", "x"], ["r", "x", "x", "f"]]

  /** The walk over `Nested` after its two renamed directories: both copies
      made, both originals recorded. */
  const NestedWalked: Tree := Nested[["r", "y"] := Dir][["r", "x", "y"] := Dir]

  lemma NestedRootVisit()
    ensures Visit(SwapEnv, Nested, WalkState(Nested, {}), ["r"]) == WalkState(Nested, {})
  {
    SwapXNames();
    assert FileName(["r"]) == "r";
    assert Render(SwapEnv, "r") == Some("r");
  }

  /** The visit of a directory whose name renders to a new one and whose copy succeeds. */
  lemma RenamedDirVisit<Ctx>(env: Env<Ctx>, snapshot: Tree, s: WalkState, d: Path, target: Path, t1: Tree)
    requires d in snapshot && snapshot[d].Dir? && !Ignored(env, d)
    requires DirTarget(env, d) == Some(target) && Render(env, FileName(d)) != Some(FileName(d))
    requires Copy(s.tree, d, target) == Some(t1)
    ensures Visit(env, snapshot, s, d) == WalkState(t1, s.removeDirs + {d})
  {
  }

  /** `x` renders to `y`, in place in its parent. */
  lemma RenamedX(d: Path)
    requires d != [] && FileName(d) == "x"
    ensures DirTarget(SwapEnv, d) == Some(Parent(d) + ["y"]) && Render(SwapEnv, FileName(d)) != Some(FileName(d))
  {
    SwapXNames();
    ParseName("y");
  }

  lemma NestedOuterVisit()
    ensures Visit(SwapEnv, Nested, WalkState(Nested, {}), ["r", "x"]) == WalkState(Nested[["r", "y"] := Dir], {["r", "x"]})
  {
    var b := ["r", "x"];
    RenamedX(b);
    assert Parent(b) + ["y"] == ["r", "y"];
    assert Copy(Nested, b, ["r", "y"]) == Some(Nested[["r", "y"] := Dir]) by {
      assert Parent(["r", "y"]) == ["r"];
    }
    assert |".git"| != 1;
    RenamedDirVisit(SwapEnv, Nested, WalkState(Nested, {}), b, ["r", "y"], Nested[["r", "y"] := Dir]);
  }

  lemma NestedInnerVisit()
    ensures Visit(SwapEnv, Nested, WalkState(Nested[["r", "y"] := Dir], {["r", "x"]}), ["r", "x", "x"])
         == WalkState(NestedWalked, {["r", "x"], ["r", "x", "x"]})
  {
    var c := ["r", "x", "x"];
    var t2 := Nested[["r", "y"] := Dir];
    RenamedX(c);
    assert Parent(c) + ["y"] == ["r", "x", "y"];
    assert Copy(t2, c, ["r", "x", "y"]) == Some(NestedWalked) by {
      assert Parent(["r", "x", "y"]) == ["r", "x"];
      assert ["r", "x", "y"] !in t2;
    }
    assert |".git"| != 1;
    RenamedDirVisit(SwapEnv, Nested, WalkState(t2, {["r", "x"]}), c, ["r", "x", "y"], NestedWalked);
  }

  lemma NestedRootWalked()
    ensures WalkSpec(SwapEnv, Nested, WalkState(Nested, {}), [["r"]]) == WalkState(Nested, {})
  {
    NestedRootVisit();
    WalkSnoc(SwapEnv, Nested, WalkState(Nested, {}), [], ["r"]);
    assert [] + [["r"]] == [["r"]];
  }

  lemma NestedOuterWalked()
    ensures WalkSpec(SwapEnv, Nested, WalkState(Nested, {}), [["r"], ["r", "x"]]) == WalkState(Nested[["r", "y"] := Dir], {["r", "x"]})
  {
    NestedRootWalked();
    NestedOuterVisit();
    WalkSnoc(SwapEnv, Nested, WalkState(Nested, {}), [["r"]], ["r", "x"]);
    assert [["r"]] + [["r", "x"]] == [["r"], ["r", "x"]];
  }

  lemma NestedDirVisits()
    ensures WalkSpec(SwapEnv, Nested, WalkState(Nested, {}), [["r"], ["r", "x"], ["r", "x", "x"]]) == WalkState(NestedWalked, {["r", "x"], ["r", "x", "x"]})
  {
    NestedOuterWalked();
    NestedInnerVisit();
    WalkSnoc(SwapEnv, Nested, WalkState(Nested, {}), [["r"], ["r", "x"]], ["r", "x", "x"]);
    assert [["r"], ["r", "x"]] + [["r", "x", "x"]] == [["r"], ["r", "x"], ["r", "x", "x"]];
  }

  lemma NestedFileTarget()
    ensures FileTarget(SwapEnv, ["r", "x", "x", "f"]) == Some(["r", "y", "y", "f"])
  {
    var f, target := ["r", "x", "x", "f"], ["r", "y", "y", "f"];
    SwapXToString(f);
    SwapXNames();
    assert MapPath(SwapX, f) == target;
    ParseToString(target);
    assert Render(SwapEnv, ToString(f)) == Some(ToString(target));
  }

  lemma NamesAreSegments()
    ensures IsSegment("r") && IsSegment("x") && IsSegment("y") && IsSegment("f")
  {
  }

  lemma NestedFileWellFormed()
    ensures WellFormed(["r", "x", "x", "f"])
  {
    NamesAreSegments();
  }

  lemma NestedFileNotIgnored()
    ensures !Ignored(SwapEnv, ["r", "x", "x", "f"])
  {
    var f := ["r", "x", "x", "f"];
    assert |f[..2][1]| == 1;
  }

  lemma NestedFileCopyFails()
    ensures Copy(NestedWalked, ["r", "x", "x", "f"], ["r", "y", "y", "f"]).None?
  {
    var target := ["r", "y", "y", "f"];
    assert Parent(target) == ["r", "y", "y"];
    assert Parent(target) !in NestedWalked;
  }

  lemma NestedFileVisit()
    ensures Visit(SwapEnv, Nested, WalkState(NestedWalked, {["r", "x"], ["r", "x", "x"]}), ["r", "x", "x", "f"])
         == WalkState(NestedWalked, {["r", "x"], ["r", "x", "x"]})
  {
    var f := ["r", "x", "x", "f"];
    NestedFileTarget();
    NestedFileWellFormed();
    NestedFileNotIgnored();
    NestedFileCopyFails();
    assert f in NestedWalked && NestedWalked[f].File?;
    assert f in Nested && !Nested[f].Dir?;
  }

  lemma NestedWellFormed()
    ensures WellFormedTree(Nested)
  {
    NamesAreSegments();
    forall p | p in Nested ensures WellFormed(p) && (p != [] ==> Parent(p) in Nested && Nested[Parent(p)].Dir?) {
      if p == ["r", "x", "x", "f"] {
        assert Parent(p) == ["r", "x", "x"];
      } else if p == ["r", "x", "x"] {
        assert Parent(p) == ["r", "x"];
      } else if p == ["r", "x"] {
        assert Parent(p) == ["r"];
      } else if p == ["r"] {
        assert Parent(p) == [];
      }
    }
  }

  lemma NestedOrderInside()
    ensures forall i :: 0 <= i < |NestedOrder| ==> NestedOrder[i] in Nested && StartsWith(NestedOrder[i], ["r"])
  {
  }

  lemma NestedOrderDistinct()
    ensures forall i, j :: 0 <= i < j < |NestedOrder| ==> NestedOrder[i] != NestedOrder[j]
  {
  }

  lemma NestedOrderCovers()
    ensures forall p :: p in Nested && StartsWith(p, ["r"]) ==> p in NestedOrder
  {
    forall p | p in Nested && StartsWith(p, ["r"]) ensures p in NestedOrder {
      assert p != [];
    }
  }

  lemma NestedOrderParentsFirst()
    ensures forall i, j :: 0 <= i < |NestedOrder| && 0 <= j < |NestedOrder| && StartsWith(NestedOrder[j], NestedOrder[i]) ==> i <= j
  {
  }

  lemma NestedIsWalkOrder()
    ensures IsWalkOrder(NestedOrder, Nested, ["r"])
  {
    NestedOrderInside();
    NestedOrderDistinct();
    NestedOrderCovers();
    NestedOrderParentsFirst();
  }

  lemma NestedOrderIsChain()
    ensures forall a, b :: 0 <= a < b < |NestedOrder| ==> StartsWith(NestedOrder[b], NestedOrder[a])
  {
  }

  /** `Nested` is a single chain below the clone directory, so `NestedOrder`
      is the only order a walk can take. */
  lemma NestedOrderUnique(o: seq<Path>)
    requires IsWalkOrder(o, Nested, ["r"])
    ensures o == NestedOrder
  {
    NestedIsWalkOrder();
    NestedOrderIsChain();
    ChainIsOnlyWalkOrder(o, NestedOrder, Nested, ["r"]);
  }

  lemma NestedWalk()
    ensures WalkSpec(SwapEnv, Nested, WalkState(Nested, {}), NestedOrder) == WalkState(NestedWalked, {["r", "x"], ["r", "x", "x"]})
  {
    NestedDirVisits();
    NestedFileVisit();
    WalkSnoc(SwapEnv, Nested, WalkState(Nested, {}), [["r"], ["r", "x"], ["r", "x", "x"]], ["r", "x", "x", "f"]);
    assert [["r"], ["r", "x"], ["r", "x", "x"]] + [["r", "x", "x", "f"]] == NestedOrder;
  }

  /** A drain leaves exactly `kept` when `kept` lies in the tree outside every
      drained directory and everything else lies below one of them. */
  lemma RemoveTreesLeaves(t: Tree, roots: set<Path>, b: Path, kept: Tree)
    requires b in roots
    requires forall q :: q in kept ==> q in t && t[q] == kept[q] && forall d :: d in roots ==> !StartsWith(q, d)
    requires forall q :: q in t && q !in kept ==> StartsWith(q, b)
    ensures RemoveTrees(t, roots) == kept
  {
  }

  const NestedKept: Tree := map[[] := Dir, ["r"] := Dir, ["r", "y"] := Dir]

  lemma NestedKeptOutside()
    ensures forall q :: q in NestedKept ==>
      q in NestedWalked && NestedWalked[q] == NestedKept[q] && !StartsWith(q, ["r", "x"]) && !StartsWith(q, ["r", "x", "x"])
  {
    forall q | q in NestedKept
      ensures q in NestedWalked && NestedWalked[q] == NestedKept[q] && !StartsWith(q, ["r", "x"]) && !StartsWith(q, ["r", "x", "x"])
    {
      if q == ["r", "y"] {
        assert q[1] != "x";
      }
    }
  }

  lemma NestedRestBelow()
    ensures forall q :: q in NestedWalked && q !in NestedKept ==> StartsWith(q, ["r", "x"])
  {
    forall q | q in NestedWalked && q !in NestedKept ensures StartsWith(q, ["r", "x"]) {
      assert q[..2] == ["r", "x"];
    }
  }

  lemma NestedDrained()
    ensures RemoveTrees(NestedWalked, {["r", "x"], ["r", "x", "x"]}) == NestedKept
  {
    NestedKeptOutside();
    NestedRestBelow();
    RemoveTreesLeaves(NestedWalked, {["r", "x"], ["r", "x", "x"]}, ["r", "x"], NestedKept);
  }

  /** As written, the file `/r/x/x/f` is lost: its directory `/r/x/x` is
      copied to `/r/x/y`, a sibling inside the old parent, while the file is
      sent to `/r/y/y/f`, whose parent never exists, so its copy fails; then
      the drain deletes `/r/x` with everything in it. Whatever the walk
      order, the run ends with three empty directories. */
  lemma NestedRenameLosesFile()
    ensures WellFormedTree(Nested) && IsWalkOrder(NestedOrder, Nested, ["r"])
    ensures var w := WalkSpec(SwapEnv, Nested, WalkState(Nested, {}), NestedOrder);
      && w.removeDirs == {["r", "x"], ["r", "x", "x"]}
      && RemoveTrees(w.tree, w.removeDirs) == map[[] := Dir, ["r"] := Dir, ["r", "y"] := Dir]
    ensures forall o, r :: Rewritten(SwapEnv, Nested, ["r"], {}, o, r) ==>
      r == map[[] := Dir, ["r"] := Dir, ["r", "y"] := Dir]
  {
    NestedWellFormed();
    NestedIsWalkOrder();
    NestedWalk();
    NestedDrained();
    forall o, r | Rewritten(SwapEnv, Nested, ["r"], {}, o, r)
      ensures r == map[[] := Dir, ["r"] := Dir, ["r", "y"] := Dir]
    {
      NestedOrderUnique(o);
    }
  }

  /** A file renamed in a directory that keeps its name. */
  const Flat: Tree := map[[] := Dir, ["r"] := Dir, ["r", "x"] := File("c")]

  const FlatOrder: seq<Path> := [["r"], ["r", "x"]]

  lemma FlatWellFormed()
    ensures WellFormedTree(Flat)
  {
    NamesAreSegments();
    forall p | p in Flat ensures WellFormed(p) && (p != [] ==> Parent(p) in Flat && Flat[Parent(p)].Dir?) {
      if p == ["r", "x"] {
        assert Parent(p) == ["r"];
      } else if p == ["r"] {
        assert Parent(p) == [];
      }
    }
  }

  lemma FlatIsWalkOrder()
    ensures IsWalkOrder(FlatOrder, Flat, ["r"])
  {
    forall p | p in Flat && StartsWith(p, ["r"]) ensures p in FlatOrder {
      assert p != [];
    }
  }

  lemma FlatOrderUnique(o: seq<Path>)
    requires IsWalkOrder(o, Flat, ["r"])
    ensures o == FlatOrder
  {
    FlatIsWalkOrder();
    assert StartsWith(FlatOrder[1], FlatOrder[0]);
    ChainIsOnlyWalkOrder(o, FlatOrder, Flat, ["r"]);
  }

  lemma FlatFileTarget()
    ensures FileTarget(SwapEnv, ["r", "x"]) == Some(["r", "y"])
  {
    var b, target := ["r", "x"], ["r", "y"];
    SwapXNames();
    SwapXToString(b);
    assert MapPath(SwapX, b) == target;
    ParseToString(target);
    assert Render(SwapEnv, ToString(b)) == Some(ToString(target));
  }

  /** The visit of a file whose copy succeeds. */
  lemma CopiedFileVisit<Ctx>(env: Env<Ctx>, t: Tree, file: Path, target: Path)
    requires WellFormed(file) && !Ignored(env, file) && FileTarget(env, file) == Some(target)
    requires file in t && t[file].File? && Copy(t, file, target).Some?
    ensures VisitFile(env, t, file) == t[target := File(RenderedContent(env, t[file].content))]
  {
  }

  lemma FlatFileFacts()
    ensures WellFormed(["r", "x"]) && !Ignored(SwapEnv, ["r", "x"])
    ensures Copy(Flat, ["r", "x"], ["r", "y"]).Some?
    ensures RenderedContent(SwapEnv, "c") == "c"
  {
    NamesAreSegments();
    var b := ["r", "x"];
    assert |b[..2][1]| == 1;
    assert Parent(["r", "y"]) == ["r"];
    assert SwapX("c")[0] == 'c';
  }

  lemma FlatFileVisit()
    ensures VisitFile(SwapEnv, Flat, ["r", "x"]) == Flat[["r", "y"] := File("c")]
  {
    FlatFileTarget();
    FlatFileFacts();
    CopiedFileVisit(SwapEnv, Flat, ["r", "x"], ["r", "y"]);
  }

  lemma FlatRootVisit()
    ensures Visit(SwapEnv, Flat, WalkState(Flat, {}), ["r"]) == WalkState(Flat, {})
  {
    SwapXNames();
    assert FileName(["r"]) == "r";
    assert Render(SwapEnv, "r") == Some("r");
  }

  lemma FlatWalk()
    ensures WalkSpec(SwapEnv, Flat, WalkState(Flat, {}), FlatOrder) == WalkState(Flat[["r", "y"] := File("c")], {})
  {
    var a, b := ["r"], ["r", "x"];
    var s0 := WalkState(Flat, {});
    FlatFileVisit();
    FlatRootVisit();
    WalkSnoc(SwapEnv, Flat, s0, [], a);
    WalkSnoc(SwapEnv, Flat, s0, [a], b);
    assert [] + [a] == [a] && [a] + [b] == FlatOrder;
  }

  /** As written, the original `/r/x` stays beside its rendered copy `/r/y`:
      files are never recorded in `removeDirs`. `FlatOrder` is the only walk
      order, so every run ends so. */
  lemma RenamedFileLeftBehind()
    ensures WellFormedTree(Flat) && IsWalkOrder(FlatOrder, Flat, ["r"])
    ensures var w := WalkSpec(SwapEnv, Flat, WalkState(Flat, {}), FlatOrder);
      && w.removeDirs == {}
      && RemoveTrees(w.tree, w.removeDirs) == Flat[["r", "y"] := File("c")]
    ensures forall o, r :: Rewritten(SwapEnv, Flat, ["r"], {}, o, r) ==> r == Flat[["r", "y"] := File("c")]
  {
    FlatWellFormed();
    FlatIsWalkOrder();
    FlatWalk();
    var t1 := Flat[["r", "y"] := File("c")];
    assert RemoveTrees(t1, {}) == t1;
    forall o, r | Rewritten(SwapEnv, Flat, ["r"], {}, o, r)
      ensures r == t1
    {
      FlatOrderUnique(o);
    }
  }

  /** As written, a directory's copy goes where its entries are sent (the
      path rendered segment by segment) exactly when its parent keeps its
      path: `resolveSibling` places it in the parent as it was, not as it
      was renamed. */
  lemma SiblingCopyMisplaced<Ctx>(env: Env<Ctx>, f: string -> string, d: Path)
    requires d != [] && Render(env, FileName(d)) == Some(f(FileName(d))) && IsSegment(f(FileName(d)))
    ensures DirTarget(env, d) == Some(MapPath(f, d)) <==> MapPath(f, Parent(d)) == Parent(d)
  {
    ParseName(f(FileName(d)));
    MapPathPrefix(f, d, |d| - 1);
    assert MapPath(f, d) == MapPath(f, Parent(d)) + [f(FileName(d))];
    if DirTarget(env, d) == Some(MapPath(f, d)) {
      assert Parent(d) + [f(FileName(d))] == MapPath(f, Parent(d)) + [f(FileName(d))];
      assert (Parent(d) + [f(FileName(d))])[..|d| - 1] == Parent(d);
    }
  }

  /** The engine as evidently intended: a directory's copy goes to its whole
      path rendered (where the files below it are sent), and a file whose
      path changes is recorded too, so that the drain removes every original
      that was copied away. `removeDirs` then holds files as well. */
  function FixedVisit<Ctx>(env: Env<Ctx>, snapshot: Tree, s: WalkState, p: Path): (r: WalkState)
    ensures r.removeDirs == s.removeDirs || r.removeDirs == s.removeDirs + {p}
    ensures Ignored(env, p) || FileTarget(env, p).None? ==> r == s
    ensures p in snapshot && snapshot[p].Dir? && r.tree != s.tree ==>
      FileTarget(env, p).Some? && Copy(s.tree, p, FileTarget(env, p).value) == Some(r.tree)
    ensures p in r.removeDirs - s.removeDirs ==>
      && !Ignored(env, p) && FileTarget(env, p).Some?
      && Render(env, ToString(p)) != Some(ToString(p)) && Copy(s.tree, p, FileTarget(env, p).value).Some?
    ensures (!Ignored(env, p) && FileTarget(env, p).Some? && Render(env, ToString(p)) != Some(ToString(p))
             && Copy(s.tree, p, FileTarget(env, p).value).Some?) ==> p in r.removeDirs
  {
    if Ignored(env, p) then s
    else match FileTarget(env, p)
      case None => s
      case Some(target) =>
        var isDir := p in snapshot && snapshot[p].Dir?;
        if Render(env, ToString(p)) == Some(ToString(p)) then
          (if isDir then s else WalkState(VisitFile(env, s.tree, p), s.removeDirs))
        else if isDir then
          match Copy(s.tree, p, target)
          case None => s
          case Some(t1) => WalkState(t1, s.removeDirs + {p})
        else
          var moved := Copy(s.tree, p, target).Some?;
          WalkState(VisitFile(env, s.tree, p), if moved then s.removeDirs + {p} else s.removeDirs)
  }

  function FixedWalkSpec<Ctx>(env: Env<Ctx>, snapshot: Tree, s: WalkState, order: seq<Path>): WalkState
    decreases |order|
  {
    if order == [] then s
    else FixedVisit(env, snapshot, FixedWalkSpec(env, snapshot, s, order[..|order| - 1]), order[|order| - 1])
  }

  /** The entries the engine renders: those at or below the clone directory
      and outside `.git`. */
  ghost predicate InScope<Ctx>(env: Env<Ctx>, t: Tree, root: Path, p: Path)
  {
    p in t && StartsWith(p, root) && !Ignored(env, p)
  }

  /** What a template that renders names one by one does to the clone: every
      entry in scope renders to its path with each segment through `f`, the
      clone directory keeps its path, no two entries in scope render to the
      same path, and none renders onto another entry of the clone. */
  ghost predicate RendersBySegment<Ctx>(env: Env<Ctx>, f: string -> string, t: Tree, root: Path)
  {
    && MapPath(f, root) == root
    && (forall p :: InScope(env, t, root, p) ==>
          WellFormed(MapPath(f, p)) && Render(env, ToString(p)) == Some(ToString(MapPath(f, p))))
    && (forall p, q :: InScope(env, t, root, p) && InScope(env, t, root, q) && MapPath(f, p) == MapPath(f, q) ==> p == q)
    && (forall p, q :: InScope(env, t, root, p) && q in t && StartsWith(q, root) && MapPath(f, p) == q ==> p == q)
  }

  /** The node an entry should end as: directories stay directories, files
      carry their rendered content. */
  function Expected<Ctx>(env: Env<Ctx>, n: Node): Node
  {
    match n
    case Dir => Dir
    case File(c) => File(RenderedContent(env, c))
  }

  /** The rendered paths of the visited entries in scope. */
  ghost function Placed<Ctx>(env: Env<Ctx>, f: string -> string, t: Tree, root: Path, visited: seq<Path>): set<Path>
  {
    set p | p in visited && InScope(env, t, root, p) :: MapPath(f, p)
  }

  /** Each visited entry in scope sits at its rendered path as expected. */
  ghost predicate FixedPlaced<Ctx>(env: Env<Ctx>, f: string -> string, t: Tree, root: Path, visited: seq<Path>, s: WalkState)
  {
    forall p :: p in visited && InScope(env, t, root, p) ==>
      MapPath(f, p) in s.tree && s.tree[MapPath(f, p)] == Expected(env, t[p])
  }

  /** Every other path is as it was. */
  ghost predicate FixedFrame<Ctx>(env: Env<Ctx>, f: string -> string, t: Tree, root: Path, visited: seq<Path>, s: WalkState)
  {
    forall q :: q !in Placed(env, f, t, root, visited) ==> (q in s.tree <==> q in t) && (q in t ==> s.tree[q] == t[q])
  }

  /** Exactly the visited entries in scope that moved are recorded. */
  ghost predicate FixedRecorded<Ctx>(env: Env<Ctx>, f: string -> string, t: Tree, root: Path, visited: seq<Path>, s: WalkState)
  {
    forall p :: p in s.removeDirs <==> p in visited && InScope(env, t, root, p) && MapPath(f, p) != p
  }

  /** The state of the corrected walk after visiting `visited`. */
  ghost predicate FixedProgress<Ctx>(env: Env<Ctx>, f: string -> string, t: Tree, root: Path, visited: seq<Path>, s: WalkState)
  {
    && FixedPlaced(env, f, t, root, visited, s)
    && FixedFrame(env, f, t, root, visited, s)
    && FixedRecorded(env, f, t, root, visited, s)
  }

  lemma PlacedSnoc<Ctx>(env: Env<Ctx>, f: string -> string, t: Tree, root: Path, visited: seq<Path>, p: Path)
    ensures Placed(env, f, t, root, visited + [p])
         == Placed(env, f, t, root, visited) + (if InScope(env, t, root, p) then {MapPath(f, p)} else {})
  {
    assert forall x :: x in visited + [p] <==> x in visited || x == p;
  }

  lemma RenderedBelowRoot(f: string -> string, p: Path, root: Path)
    requires StartsWith(p, root) && MapPath(f, root) == root
    ensures StartsWith(MapPath(f, p), root)
  {
    MapPathPrefix(f, p, |root|);
  }

  lemma StartsWithTrans(p: Path, q: Path, r: Path)
    requires StartsWith(p, q) && StartsWith(q, r)
    ensures StartsWith(p, r)
  {
    assert p[..|r|] == p[..|q|][..|r|];
  }

  lemma PrefixOfAncestor(p: Path, q: Path, r: Path)
    ensures StartsWith(p, q) && StartsWith(q, r) ==> StartsWith(p, r)
  {
    if StartsWith(p, q) && StartsWith(q, r) {
      StartsWithTrans(p, q, r);
    }
  }

  /** Two prefixes of one path are prefixes of each other. */
  lemma PrefixesComparable(p: Path, a: Path, b: Path)
    requires StartsWith(p, a) && StartsWith(p, b)
    ensures StartsWith(a, b) || StartsWith(b, a)
  {
    if |a| <= |b| {
      assert b[..|a|] == p[..|a|];
    } else {
      assert a[..|b|] == p[..|b|];
    }
  }

  /** The parent of an entry in scope below the clone directory is in scope. */
  lemma ParentInScope<Ctx>(env: Env<Ctx>, t: Tree, root: Path, p: Path)
    requires WellFormedTree(t) && InScope(env, t, root, p) && p != root
    ensures p != [] && InScope(env, t, root, Parent(p)) && t[Parent(p)].Dir?
  {
    assert |p| > |root|;
    PrefixOfAncestor(p, Parent(p), env.dotGit);
    assert Parent(p)[..|root|] == p[..|root|];
  }

  /** An entry whose rendered path differs renders to a path not in the clone. */
  lemma RenderedPathIsFresh<Ctx>(env: Env<Ctx>, f: string -> string, t: Tree, root: Path, p: Path)
    requires RendersBySegment(env, f, t, root) && InScope(env, t, root, p) && MapPath(f, p) != p
    ensures MapPath(f, p) !in t
  {
    RenderedBelowRoot(f, p, root);
  }

  lemma FixedTarget<Ctx>(env: Env<Ctx>, f: string -> string, t: Tree, root: Path, p: Path)
    requires WellFormedTree(t) && RendersBySegment(env, f, t, root) && InScope(env, t, root, p)
    ensures FileTarget(env, p) == Some(MapPath(f, p))
    ensures Render(env, ToString(p)) == Some(ToString(p)) <==> MapPath(f, p) == p
  {
    ParseToString(MapPath(f, p));
    ToStringInjective(p, MapPath(f, p));
  }

  /** A visit of an entry that keeps its path leaves the tree with the
      expected node there and records nothing. */
  lemma FixedVisitKept<Ctx>(env: Env<Ctx>, t: Tree, s: WalkState, p: Path)
    requires p in t && WellFormed(p) && !Ignored(env, p) && FileTarget(env, p) == Some(p)
    requires Render(env, ToString(p)) == Some(ToString(p)) && p in s.tree && s.tree[p] == t[p]
    ensures FixedVisit(env, t, s, p) == WalkState(s.tree[p := Expected(env, t[p])], s.removeDirs)
  {
    if t[p].Dir? {
      assert s.tree[p := Expected(env, t[p])] == s.tree;
    } else {
      assert Copy(s.tree, p, p) == Some(s.tree);
    }
  }

  /** A visit of an entry that moves to a fresh path in an existing directory
      puts the expected node there and records the entry. */
  lemma FixedVisitMoved<Ctx>(env: Env<Ctx>, t: Tree, s: WalkState, p: Path, target: Path)
    requires p in t && WellFormed(p) && !Ignored(env, p) && FileTarget(env, p) == Some(target)
    requires Render(env, ToString(p)) != Some(ToString(p)) && p in s.tree && s.tree[p] == t[p]
    requires target !in s.tree && target != [] && Parent(target) in s.tree && s.tree[Parent(target)] == Dir
    ensures FixedVisit(env, t, s, p) == WalkState(s.tree[target := Expected(env, t[p])], s.removeDirs + {p})
  {
    assert target != p;
    assert Copy(s.tree, p, target) == Some(s.tree[target := CopiedNode(t[p])]);
  }

  /** An unvisited entry in scope is still in place, and the path it
      renders to, when different, is still free. */
  lemma UnplacedEntry<Ctx>(env: Env<Ctx>, f: string -> string, t: Tree, root: Path, visited: seq<Path>, s: WalkState, p: Path)
    requires RendersBySegment(env, f, t, root) && FixedFrame(env, f, t, root, visited, s)
    requires InScope(env, t, root, p) && p !in visited
    ensures p in s.tree && s.tree[p] == t[p]
    ensures MapPath(f, p) != p ==> MapPath(f, p) !in s.tree
  {
    forall x | x in visited && InScope(env, t, root, x) ensures MapPath(f, x) != p && MapPath(f, x) != MapPath(f, p) {
      assert x != p;
    }
    assert p !in Placed(env, f, t, root, visited) && MapPath(f, p) !in Placed(env, f, t, root, visited);
    if MapPath(f, p) != p {
      RenderedPathIsFresh(env, f, t, root, p);
    }
  }

  /** The rendered path of an entry below the clone directory lies in the
      rendered path of its parent, which the parent's visit created. */
  lemma ParentPlaced<Ctx>(env: Env<Ctx>, f: string -> string, t: Tree, root: Path, visited: seq<Path>, s: WalkState, p: Path)
    requires WellFormedTree(t) && FixedPlaced(env, f, t, root, visited, s)
    requires InScope(env, t, root, p) && p != root && Parent(p) in visited
    ensures MapPath(f, p) != [] && Parent(MapPath(f, p)) in s.tree && s.tree[Parent(MapPath(f, p))] == Dir
  {
    ParentInScope(env, t, root, p);
    MapPathPrefix(f, p, |p| - 1);
    assert Parent(MapPath(f, p)) == MapPath(f, Parent(p));
  }

  /** Visiting an entry in scope puts the expected node at its rendered path
      and records it when that path differs. */
  lemma FixedVisitInScope<Ctx>(env: Env<Ctx>, f: string -> string, t: Tree, root: Path, visited: seq<Path>, s: WalkState, p: Path)
    requires WellFormedTree(t) && RendersBySegment(env, f, t, root)
    requires FixedPlaced(env, f, t, root, visited, s) && FixedFrame(env, f, t, root, visited, s)
    requires InScope(env, t, root, p) && p !in visited && (p != root ==> Parent(p) in visited)
    ensures var target := MapPath(f, p);
      FixedVisit(env, t, s, p) == WalkState(s.tree[target := Expected(env, t[p])],
                                            if target != p then s.removeDirs + {p} else s.removeDirs)
  {
    FixedTarget(env, f, t, root, p);
    UnplacedEntry(env, f, t, root, visited, s, p);
    if MapPath(f, p) == p {
      FixedVisitKept(env, t, s, p);
    } else {
      ParentPlaced(env, f, t, root, visited, s, p);
      FixedVisitMoved(env, t, s, p, MapPath(f, p));
    }
  }

  /** An entry outside the scope below the clone directory lies in `.git`,
      and its visit changes nothing. */
  lemma FixedStepOutOfScope<Ctx>(env: Env<Ctx>, f: string -> string, t: Tree, root: Path, visited: seq<Path>, s: WalkState, p: Path)
    requires FixedProgress(env, f, t, root, visited, s)
    requires p in t && StartsWith(p, root) && !InScope(env, t, root, p)
    ensures FixedProgress(env, f, t, root, visited + [p], FixedVisit(env, t, s, p))
  {
    PlacedSnoc(env, f, t, root, visited, p);
    assert FixedVisit(env, t, s, p) == s;
    assert forall x :: x in visited + [p] && InScope(env, t, root, x) <==> x in visited && InScope(env, t, root, x);
  }

  lemma PlacedStep<Ctx>(env: Env<Ctx>, f: string -> string, t: Tree, root: Path, visited: seq<Path>, s: WalkState, p: Path, s': WalkState)
    requires FixedPlaced(env, f, t, root, visited, s) && InScope(env, t, root, p)
    requires forall x :: x in visited && InScope(env, t, root, x) ==> MapPath(f, x) != MapPath(f, p)
    requires s'.tree == s.tree[MapPath(f, p) := Expected(env, t[p])]
    ensures FixedPlaced(env, f, t, root, visited + [p], s')
  {
    forall x | x in visited + [p] && InScope(env, t, root, x)
      ensures MapPath(f, x) in s'.tree && s'.tree[MapPath(f, x)] == Expected(env, t[x])
    {
      if x != p {
        assert x in visited;
      }
    }
  }

  lemma FrameStep<Ctx>(env: Env<Ctx>, f: string -> string, t: Tree, root: Path, visited: seq<Path>, s: WalkState, p: Path, s': WalkState)
    requires FixedFrame(env, f, t, root, visited, s) && InScope(env, t, root, p)
    requires s'.tree == s.tree[MapPath(f, p) := Expected(env, t[p])]
    ensures FixedFrame(env, f, t, root, visited + [p], s')
  {
    PlacedSnoc(env, f, t, root, visited, p);
  }

  lemma RecordedStep<Ctx>(env: Env<Ctx>, f: string -> string, t: Tree, root: Path, visited: seq<Path>, s: WalkState, p: Path, s': WalkState)
    requires FixedRecorded(env, f, t, root, visited, s) && InScope(env, t, root, p)
    requires s'.removeDirs == if MapPath(f, p) != p then s.removeDirs + {p} else s.removeDirs
    ensures FixedRecorded(env, f, t, root, visited + [p], s')
  {
    assert forall x :: x in visited + [p] <==> x in visited || x == p;
  }

  lemma FixedStepInScope<Ctx>(env: Env<Ctx>, f: string -> string, t: Tree, root: Path, visited: seq<Path>, s: WalkState, p: Path)
    requires WellFormedTree(t) && RendersBySegment(env, f, t, root) && FixedProgress(env, f, t, root, visited, s)
    requires InScope(env, t, root, p) && p !in visited && (p != root ==> Parent(p) in visited)
    ensures FixedProgress(env, f, t, root, visited + [p], FixedVisit(env, t, s, p))
  {
    FixedVisitInScope(env, f, t, root, visited, s, p);
    var s' := FixedVisit(env, t, s, p);
    forall x | x in visited && InScope(env, t, root, x) ensures MapPath(f, x) != MapPath(f, p) {
      assert x != p;
    }
    PlacedStep(env, f, t, root, visited, s, p, s');
    FrameStep(env, f, t, root, visited, s, p, s');
    RecordedStep(env, f, t, root, visited, s, p, s');
  }

  lemma FixedProgressStep<Ctx>(env: Env<Ctx>, f: string -> string, t: Tree, root: Path, visited: seq<Path>, s: WalkState, p: Path)
    requires WellFormedTree(t) && RendersBySegment(env, f, t, root) && FixedProgress(env, f, t, root, visited, s)
    requires p in t && StartsWith(p, root) && p !in visited && (p != root ==> Parent(p) in visited)
    ensures FixedProgress(env, f, t, root, visited + [p], FixedVisit(env, t, s, p))
  {
    if InScope(env, t, root, p) {
      FixedStepInScope(env, f, t, root, visited, s, p);
    } else {
      FixedStepOutOfScope(env, f, t, root, visited, s, p);
    }
  }

  /** The k-th entry of a walk order is in the tree below `root`, has not been
      visited before, and follows its parent. */
  lemma WalkOrderStep(order: seq<Path>, t: Tree, root: Path, k: nat)
    requires WellFormedTree(t) && IsWalkOrder(order, t, root) && k < |order|
    ensures order[k] in t && StartsWith(order[k], root) && order[k] !in order[..k]
    ensures order[k] != root ==> order[k] != [] && Parent(order[k]) in order[..k]
  {
    var p := order[k];
    if p != root {
      assert |p| > |root| && p[..|root|] == root;
      assert Parent(p)[..|root|] == root;
      var j :| 0 <= j < |order| && order[j] == Parent(p);
      assert StartsWith(p, Parent(p));
      assert j < k;
      assert order[..k][j] == Parent(p);
    }
  }

  lemma FixedWalkSnoc<Ctx>(env: Env<Ctx>, t: Tree, s: WalkState, init: seq<Path>, p: Path)
    ensures FixedWalkSpec(env, t, s, init + [p]) == FixedVisit(env, t, FixedWalkSpec(env, t, s, init), p)
  {
    assert (init + [p])[..|init|] == init;
  }

  lemma {:induction false} FixedWalkPrefix<Ctx>(env: Env<Ctx>, f: string -> string, t: Tree, root: Path, order: seq<Path>, k: nat)
    requires WellFormedTree(t) && RendersBySegment(env, f, t, root) && IsWalkOrder(order, t, root) && k <= |order|
    ensures FixedProgress(env, f, t, root, order[..k], FixedWalkSpec(env, t, WalkState(t, {}), order[..k]))
    decreases k
  {
    if k > 0 {
      FixedWalkPrefix(env, f, t, root, order, k - 1);
      FixedPrefixStepAt(env, f, t, root, order, k);
    }
  }

  lemma FixedPrefixStepAt<Ctx>(env: Env<Ctx>, f: string -> string, t: Tree, root: Path, order: seq<Path>, k: nat)
    requires WellFormedTree(t) && RendersBySegment(env, f, t, root) && IsWalkOrder(order, t, root) && 0 < k <= |order|
    requires FixedProgress(env, f, t, root, order[..k - 1], FixedWalkSpec(env, t, WalkState(t, {}), order[..k - 1]))
    ensures FixedProgress(env, f, t, root, order[..k], FixedWalkSpec(env, t, WalkState(t, {}), order[..k]))
  {
    WalkOrderStep(order, t, root, k - 1);
    TakeSnoc(order, k);
    FixedPrefixStep(env, f, t, root, order[..k - 1], order[k - 1]);
  }

  lemma TakeSnoc(s: seq<Path>, k: nat)
    requires 0 < k <= |s|
    ensures s[..k] == s[..k - 1] + [s[k - 1]]
  {
  }

  lemma FixedPrefixStep<Ctx>(env: Env<Ctx>, f: string -> string, t: Tree, root: Path, init: seq<Path>, p: Path)
    requires WellFormedTree(t) && RendersBySegment(env, f, t, root)
    requires FixedProgress(env, f, t, root, init, FixedWalkSpec(env, t, WalkState(t, {}), init))
    requires p in t && StartsWith(p, root) && p !in init && (p != root ==> Parent(p) in init)
    ensures FixedProgress(env, f, t, root, init + [p], FixedWalkSpec(env, t, WalkState(t, {}), init + [p]))
  {
    FixedWalkSnoc(env, t, WalkState(t, {}), init, p);
    FixedProgressStep(env, f, t, root, init, FixedWalkSpec(env, t, WalkState(t, {}), init), p);
  }

  /** Nothing renders below an entry of the clone that moves. */
  lemma RenderedBelowOnlyKept<Ctx>(env: Env<Ctx>, f: string -> string, t: Tree, root: Path, p: Path, d: Path)
    requires WellFormedTree(t) && RendersBySegment(env, f, t, root) && InScope(env, t, root, p)
    requires d in t && StartsWith(d, root)
    ensures StartsWith(MapPath(f, p), d) ==> MapPath(f, d) == d
  {
    if StartsWith(MapPath(f, p), d) {
      var a := p[..|d|];
      assert StartsWith(p, a);
      AncestorExists(t, p, a);
      assert a[..|root|] == p[..|root|];
      PrefixOfAncestor(p, a, env.dotGit);
      MapPathPrefix(f, p, |d|);
    }
  }

  /** The only directory in scope that holds part of `.git` is the clone
      directory itself. */
  lemma GitBelowOnlyRoot<Ctx>(env: Env<Ctx>, t: Tree, root: Path, q: Path, d: Path)
    requires env.dotGit == root + [GitDir] && Ignored(env, q) && InScope(env, t, root, d)
    ensures StartsWith(q, d) ==> d == root
  {
    if StartsWith(q, d) {
      PrefixesComparable(q, d, env.dotGit);
      assert env.dotGit[..|root|] == root;
    }
  }

  /** After the whole walk, an entry in scope is at its rendered path and
      survives the drain. */
  lemma FixedRendered<Ctx>(env: Env<Ctx>, f: string -> string, t: Tree, root: Path, order: seq<Path>, w: WalkState, p: Path)
    requires WellFormedTree(t) && RendersBySegment(env, f, t, root) && IsWalkOrder(order, t, root)
    requires FixedProgress(env, f, t, root, order, w) && InScope(env, t, root, p)
    ensures MapPath(f, p) in RemoveTrees(w.tree, w.removeDirs)
    ensures RemoveTrees(w.tree, w.removeDirs)[MapPath(f, p)] == Expected(env, t[p])
  {
    assert p in order;
    forall d | d in w.removeDirs ensures !StartsWith(MapPath(f, p), d) {
      RenderedBelowOnlyKept(env, f, t, root, p, d);
    }
  }

  /** After the whole walk, an entry outside the scope is untouched and
      survives the drain. */
  lemma FixedUntouched<Ctx>(env: Env<Ctx>, f: string -> string, t: Tree, root: Path, order: seq<Path>, w: WalkState, q: Path)
    requires WellFormedTree(t) && RendersBySegment(env, f, t, root) && env.dotGit == root + [GitDir]
    requires FixedProgress(env, f, t, root, order, w) && q in t && !InScope(env, t, root, q)
    ensures q in RemoveTrees(w.tree, w.removeDirs) && RemoveTrees(w.tree, w.removeDirs)[q] == t[q]
  {
    forall p | p in order && InScope(env, t, root, p) ensures MapPath(f, p) != q {
      RenderedBelowRoot(f, p, root);
    }
    assert q !in Placed(env, f, t, root, order);
    assert q in w.tree && w.tree[q] == t[q];
    forall d | d in w.removeDirs ensures !StartsWith(q, d) {
      assert InScope(env, t, root, d) && MapPath(f, d) != d;
      if StartsWith(q, root) {
        GitBelowOnlyRoot(env, t, root, q, d);
      } else {
        PrefixOfAncestor(q, d, root);
      }
    }
  }

  /** An entry in scope that moved is gone after the drain. */
  lemma FixedGone<Ctx>(env: Env<Ctx>, f: string -> string, t: Tree, root: Path, order: seq<Path>, w: WalkState, p: Path)
    requires IsWalkOrder(order, t, root) && FixedRecorded(env, f, t, root, order, w)
    requires InScope(env, t, root, p) && MapPath(f, p) != p
    ensures p !in RemoveTrees(w.tree, w.removeDirs)
  {
    assert p in order && p in w.removeDirs && StartsWith(p, p);
  }

  /** Whatever is left after the drain was there before or is the rendered
      path of an entry in scope. */
  lemma FixedNothingElse<Ctx>(env: Env<Ctx>, f: string -> string, t: Tree, root: Path, order: seq<Path>, w: WalkState, q: Path)
    requires FixedFrame(env, f, t, root, order, w) && q in RemoveTrees(w.tree, w.removeDirs) && q !in t
    ensures exists p :: InScope(env, t, root, p) && MapPath(f, p) == q
  {
    assert q in w.tree;
    assert q in Placed(env, f, t, root, order);
  }

  /** The whole walk of the corrected engine ends in its progress state. */
  lemma FixedWalkComplete<Ctx>(env: Env<Ctx>, f: string -> string, t: Tree, root: Path, order: seq<Path>)
    requires WellFormedTree(t) && RendersBySegment(env, f, t, root) && IsWalkOrder(order, t, root)
    ensures FixedProgress(env, f, t, root, order, FixedWalkSpec(env, t, WalkState(t, {}), order))
  {
    FixedWalkPrefix(env, f, t, root, order, |order|);
    assert order[..|order|] == order;
  }

  /** What the drain leaves after a walk that ended in the progress state. */
  lemma FixedDrained<Ctx>(env: Env<Ctx>, f: string -> string, t: Tree, root: Path, order: seq<Path>, w: WalkState)
    requires WellFormedTree(t) && RendersBySegment(env, f, t, root) && IsWalkOrder(order, t, root)
    requires env.dotGit == root + [GitDir] && FixedProgress(env, f, t, root, order, w)
    ensures var final := RemoveTrees(w.tree, w.removeDirs);
      && (forall p :: InScope(env, t, root, p) ==>
            MapPath(f, p) in final && final[MapPath(f, p)] == Expected(env, t[p]))
      && (forall p :: InScope(env, t, root, p) && MapPath(f, p) != p ==> p !in final)
      && (forall q :: q in t && !InScope(env, t, root, q) ==> q in final && final[q] == t[q])
      && (forall q :: q in final ==> q in t || exists p :: InScope(env, t, root, p) && MapPath(f, p) == q)
  {
    var final := RemoveTrees(w.tree, w.removeDirs);
    forall p | InScope(env, t, root, p) ensures MapPath(f, p) in final && final[MapPath(f, p)] == Expected(env, t[p]) {
      FixedRendered(env, f, t, root, order, w, p);
    }
    forall p | InScope(env, t, root, p) && MapPath(f, p) != p ensures p !in final {
      FixedGone(env, f, t, root, order, w, p);
    }
    forall q | q in t && !InScope(env, t, root, q) ensures q in final && final[q] == t[q] {
      FixedUntouched(env, f, t, root, order, w, q);
    }
    forall q | q in final && q !in t ensures exists p :: InScope(env, t, root, p) && MapPath(f, p) == q {
      FixedNothingElse(env, f, t, root, order, w, q);
    }
  }

  /** The corrected engine, for a template that renders names one by one:
      after the walk (in any order `walkFileTree` may take) and the drain,
      every entry in scope is at its rendered path, as a directory or as a
      file with its rendered content; every entry that moved is gone from
      its old path; everything outside the scope (`.git` included) is as it
      was; and nothing else exists. */
  lemma FixedRewriteIsComplete<Ctx>(env: Env<Ctx>, f: string -> string, t: Tree, root: Path, order: seq<Path>)
    requires WellFormedTree(t) && RendersBySegment(env, f, t, root) && IsWalkOrder(order, t, root)
    requires env.dotGit == root + [GitDir]
    ensures var w := FixedWalkSpec(env, t, WalkState(t, {}), order);
      var final := RemoveTrees(w.tree, w.removeDirs);
      && (forall p :: InScope(env, t, root, p) ==>
            MapPath(f, p) in final && final[MapPath(f, p)] == Expected(env, t[p]))
      && (forall p :: InScope(env, t, root, p) && MapPath(f, p) != p ==> p !in final)
      && (forall q :: q in t && !InScope(env, t, root, q) ==> q in final && final[q] == t[q])
      && (forall q :: q in final ==> q in t || exists p :: InScope(env, t, root, p) && MapPath(f, p) == q)
  {
    FixedWalkComplete(env, f, t, root, order);
    FixedDrained(env, f, t, root, order, FixedWalkSpec(env, t, WalkState(t, {}), order));
  }

  /** A path through `f` is its parent through `f` and then its name through `f`. */
  lemma MapPathSnoc(f: string -> string, p: Path)
    requires p != []
    ensures MapPath(f, p) == MapPath(f, Parent(p)) + [f(FileName(p))]
  {
  }

  /** The templates the engine as written handles: each directory renders its
      own name as that name's part of the whole path, a directory that moves
      sits in one that keeps its path, and a file moves only together with a
      directory above it. */
  ghost predicate RenamesInPlace<Ctx>(env: Env<Ctx>, f: string -> string, t: Tree, root: Path)
  {
    && (forall d :: InScope(env, t, root, d) && t[d].Dir? && d != [] ==>
          && Render(env, FileName(d)) == Some(f(FileName(d)))
          && (MapPath(f, d) != d ==> MapPath(f, Parent(d)) == Parent(d)))
    && (forall p :: InScope(env, t, root, p) && t[p].File? && MapPath(f, p) != p ==>
          p != [] && p != root && MapPath(f, Parent(p)) != Parent(p))
  }

  /** A state of the walk as written and one of the corrected walk agree: the
      same tree, and the directories recorded by the corrected walk are the
      ones recorded as written. */
  ghost predicate Agree(t: Tree, aw: WalkState, fx: WalkState)
  {
    && aw.tree == fx.tree
    && forall d :: d in aw.removeDirs <==> d in fx.removeDirs && d in t && t[d].Dir?
  }

  /** Both visit a file alike, except that the corrected one may record it. */
  lemma AgreeFileStep<Ctx>(env: Env<Ctx>, t: Tree, aw: WalkState, fx: WalkState, p: Path)
    requires Agree(t, aw, fx) && !(p in t && t[p].Dir?)
    ensures Agree(t, Visit(env, t, aw, p), FixedVisit(env, t, fx, p))
  {
  }

  /** A directory whose name renders as its part of the rendered path, in a
      parent that keeps its path when it moves: the sibling of its rendered
      name is its whole path rendered, and its name is unchanged exactly when
      its path is. */
  lemma SiblingIsRendered<Ctx>(env: Env<Ctx>, f: string -> string, p: Path)
    requires p != [] && WellFormed(p) && WellFormed(MapPath(f, p))
    requires Render(env, FileName(p)) == Some(f(FileName(p)))
    requires MapPath(f, p) != p ==> MapPath(f, Parent(p)) == Parent(p)
    ensures DirTarget(env, p) == Some(MapPath(f, p))
    ensures Render(env, FileName(p)) == Some(FileName(p)) <==> MapPath(f, p) == p
  {
    var target, name := MapPath(f, p), f(FileName(p));
    MapPathSnoc(f, p);
    assert IsSegment(name) by {
      assert target[|target| - 1] == name;
    }
    assert Parent(p) + [FileName(p)] == p;
    if target == p {
      assert name == target[|p| - 1];
    }
  }

  /** Visits that copy a directory to the same place, or both leave it, agree. */
  lemma AgreeSameTarget<Ctx>(env: Env<Ctx>, t: Tree, aw: WalkState, fx: WalkState, p: Path)
    requires Agree(t, aw, fx) && p in t && t[p].Dir? && !Ignored(env, p) && p != []
    requires DirTarget(env, p) == FileTarget(env, p)
    requires Render(env, FileName(p)) == Some(FileName(p)) <==> Render(env, ToString(p)) == Some(ToString(p))
    ensures Agree(t, Visit(env, t, aw, p), FixedVisit(env, t, fx, p))
  {
    if DirTarget(env, p).None? || Render(env, FileName(p)) == Some(FileName(p)) {
      assert Visit(env, t, aw, p) == aw;
      assert FixedVisit(env, t, fx, p) == fx;
    } else {
      var c := Copy(aw.tree, p, DirTarget(env, p).value);
      if c.None? {
        assert Visit(env, t, aw, p) == aw;
        assert FixedVisit(env, t, fx, p) == fx;
      } else {
        assert Visit(env, t, aw, p) == WalkState(c.value, aw.removeDirs + {p});
        assert FixedVisit(env, t, fx, p) == WalkState(c.value, fx.removeDirs + {p});
      }
    }
  }

  /** For a directory in scope both visits copy it to the same place, or
      neither does. */
  lemma AgreeDirStep<Ctx>(env: Env<Ctx>, f: string -> string, t: Tree, root: Path, aw: WalkState, fx: WalkState, p: Path)
    requires WellFormedTree(t) && RendersBySegment(env, f, t, root) && RenamesInPlace(env, f, t, root)
    requires Agree(t, aw, fx) && InScope(env, t, root, p) && t[p].Dir?
    ensures Agree(t, Visit(env, t, aw, p), FixedVisit(env, t, fx, p))
  {
    FixedTarget(env, f, t, root, p);
    if p == [] {
      assert MapPath(f, p) == p;
    } else {
      assert WellFormed(p) && WellFormed(MapPath(f, p));
      SiblingIsRendered(env, f, p);
      AgreeSameTarget(env, t, aw, fx, p);
    }
  }

  lemma AgreeStep<Ctx>(env: Env<Ctx>, f: string -> string, t: Tree, root: Path, aw: WalkState, fx: WalkState, p: Path)
    requires WellFormedTree(t) && RendersBySegment(env, f, t, root) && RenamesInPlace(env, f, t, root)
    requires Agree(t, aw, fx) && p in t && StartsWith(p, root)
    ensures Agree(t, Visit(env, t, aw, p), FixedVisit(env, t, fx, p))
  {
    if t[p].Dir? && !Ignored(env, p) {
      AgreeDirStep(env, f, t, root, aw, fx, p);
    } else if !t[p].Dir? {
      AgreeFileStep(env, t, aw, fx, p);
    }
  }

  lemma {:induction false} AgreePrefix<Ctx>(env: Env<Ctx>, f: string -> string, t: Tree, root: Path, order: seq<Path>, k: nat)
    requires WellFormedTree(t) && RendersBySegment(env, f, t, root) && RenamesInPlace(env, f, t, root)
    requires IsWalkOrder(order, t, root) && k <= |order|
    ensures Agree(t, WalkSpec(env, t, WalkState(t, {}), order[..k]), FixedWalkSpec(env, t, WalkState(t, {}), order[..k]))
    decreases k
  {
    if k > 0 {
      AgreePrefix(env, f, t, root, order, k - 1);
      WalkOrderStep(order, t, root, k - 1);
      TakeSnoc(order, k);
      AgreeSnoc(env, f, t, root, order[..k - 1], order[k - 1]);
    }
  }

  lemma AgreeSnoc<Ctx>(env: Env<Ctx>, f: string -> string, t: Tree, root: Path, init: seq<Path>, p: Path)
    requires WellFormedTree(t) && RendersBySegment(env, f, t, root) && RenamesInPlace(env, f, t, root)
    requires Agree(t, WalkSpec(env, t, WalkState(t, {}), init), FixedWalkSpec(env, t, WalkState(t, {}), init))
    requires p in t && StartsWith(p, root)
    ensures Agree(t, WalkSpec(env, t, WalkState(t, {}), init + [p]), FixedWalkSpec(env, t, WalkState(t, {}), init + [p]))
  {
    WalkSnoc(env, t, WalkState(t, {}), init, p);
    FixedWalkSnoc(env, t, WalkState(t, {}), init, p);
    AgreeStep(env, f, t, root, WalkSpec(env, t, WalkState(t, {}), init), FixedWalkSpec(env, t, WalkState(t, {}), init), p);
  }

  /** Every entry the corrected walk records lies at or below a directory
      recorded as written: a moved file sits in a moved directory. */
  lemma RecordedIsCovered<Ctx>(env: Env<Ctx>, f: string -> string, t: Tree, root: Path, order: seq<Path>,
                               aw: WalkState, fx: WalkState, d: Path) returns (c: Path)
    requires WellFormedTree(t) && RenamesInPlace(env, f, t, root) && IsWalkOrder(order, t, root)
    requires Agree(t, aw, fx) && FixedRecorded(env, f, t, root, order, fx) && d in fx.removeDirs
    ensures c in aw.removeDirs && StartsWith(d, c)
  {
    if t[d].Dir? {
      c := d;
    } else {
      ParentInScope(env, t, root, d);
      c := Parent(d);
      assert c in order;
      assert c in fx.removeDirs;
    }
  }

  /** Agreeing walks drain to the same tree. */
  lemma AgreeDrained<Ctx>(env: Env<Ctx>, f: string -> string, t: Tree, root: Path, order: seq<Path>, aw: WalkState, fx: WalkState)
    requires WellFormedTree(t) && RenamesInPlace(env, f, t, root) && IsWalkOrder(order, t, root)
    requires Agree(t, aw, fx) && FixedRecorded(env, f, t, root, order, fx)
    ensures RemoveTrees(aw.tree, aw.removeDirs) == RemoveTrees(fx.tree, fx.removeDirs)
  {
    forall q | q in RemoveTrees(aw.tree, aw.removeDirs)
      ensures q in RemoveTrees(fx.tree, fx.removeDirs)
    {
      forall d | d in fx.removeDirs
        ensures !StartsWith(q, d)
      {
        var c := RecordedIsCovered(env, f, t, root, order, aw, fx, d);
        PrefixOfAncestor(q, d, c);
      }
    }
  }

  /** The engine as written is right for the templates it handles: when every
      directory that moves sits in one that keeps its path and every file
      that moves goes with its directory, its walk (in any order
      `walkFileTree` may take) and drain leave the same tree as the corrected
      engine's, so everything `FixedRewriteIsComplete` promises holds for it. */
  lemma AsWrittenRewriteIsComplete<Ctx>(env: Env<Ctx>, f: string -> string, t: Tree, root: Path, order: seq<Path>)
    requires WellFormedTree(t) && RendersBySegment(env, f, t, root) && RenamesInPlace(env, f, t, root)
    requires IsWalkOrder(order, t, root) && env.dotGit == root + [GitDir]
    ensures var w := WalkSpec(env, t, WalkState(t, {}), order);
      var fx := FixedWalkSpec(env, t, WalkState(t, {}), order);
      var final := RemoveTrees(w.tree, w.removeDirs);
      && final == RemoveTrees(fx.tree, fx.removeDirs)
      && (forall p :: InScope(env, t, root, p) ==>
            MapPath(f, p) in final && final[MapPath(f, p)] == Expected(env, t[p]))
      && (forall p :: InScope(env, t, root, p) && MapPath(f, p) != p ==> p !in final)
      && (forall q :: q in t && !InScope(env, t, root, q) ==> q in final && final[q] == t[q])
      && (forall q :: q in final ==> q in t || exists p :: InScope(env, t, root, p) && MapPath(f, p) == q)
  {
    var w := WalkSpec(env, t, WalkState(t, {}), order);
    var fx := FixedWalkSpec(env, t, WalkState(t, {}), order);
    AgreePrefix(env, f, t, root, order, |order|);
    assert order[..|order|] == order;
    FixedWalkComplete(env, f, t, root, order);
    AgreeDrained(env, f, t, root, order, w, fx);
    FixedRewriteIsComplete(env, f, t, root, order);
  }
}
