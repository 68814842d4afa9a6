/**
  `JBiscoitoCommand.run` and `deleteDir`
  (src/main/java/dev/matheuscruz/JBiscoitoCommand.java): the overwrite guard,
  the clone, the walk that renders the tree, and the deferred deletion of the
  directories it recorded.

  The disk is a `Tree` value that the methods take and return. `git clone`
  runs as an external process and is an input here: the repository it
  writes, or `None` when it exits with a non-zero status. The JSON context is
  an input in the same way, `None` when it cannot be read. The entries the
  operating system refuses to delete are the set `refused`.
*/
module Command {
  import opened Wrappers
  import opened Strings
  import opened Paths
  import opened Files
  import opened Visitor
  import RepoUrl

  /** No entry at or below `root` is one the operating system refuses to delete. */
  predicate Deletable(t: Tree, root: Path, refused: set<Path>)
  {
    forall q :: q in t && StartsWith(q, root) ==> q !in refused
  }

  lemma LongestOf(s: set<Path>) returns (m: Path)
    requires s != {}
    ensures m in s && forall q :: q in s ==> |q| <= |m|
  {
    var x :| x in s;
    if s == {x} {
      m := x;
    } else {
      var m' := LongestOf(s - {x});
      m := if |x| > |m'| then x else m';
    }
  }

  /** The loop state of `DeleteDir`: `r` is `t` without the entries of
      `deleted`, all of them below `path` and none refused, deleted longest
      first, so that no entry went before one below it. */
  ghost predicate DeleteProgress(t: Tree, path: Path, refused: set<Path>, r: Tree, deleted: seq<Path>)
  {
    && (forall q :: q in r ==> q in t && r[q] == t[q])
    && (forall q :: q in t && !StartsWith(q, path) ==> q in r)
    && (forall q :: q in t && q !in r <==> q in deleted)
    && (forall i :: 0 <= i < |deleted| ==> deleted[i] !in refused)
    && (forall i, q :: 0 <= i < |deleted| && q in r && StartsWith(q, path) ==> |q| <= |deleted[i]|)
    && (forall i, j :: 0 <= i < j < |deleted| ==> !StartsWith(deleted[j], deleted[i]))
  }

  /** A longest entry below `path` has nothing below it. */
  lemma LongestIsLeaf(r: Tree, path: Path, q: Path)
    requires q in r && StartsWith(q, path)
    requires forall q' :: q' in r && StartsWith(q', path) ==> |q'| <= |q|
    ensures !HasChildren(r, q)
  {
    forall c | c in r && c != [] && Parent(c) == q ensures false {
      assert StartsWith(c, path);
    }
  }

  lemma DeleteStep(t: Tree, path: Path, refused: set<Path>, r: Tree, deleted: seq<Path>, q: Path)
    requires DeleteProgress(t, path, refused, r, deleted)
    requires q in r && StartsWith(q, path)
    requires forall q' :: q' in r && StartsWith(q', path) ==> |q'| <= |q|
    requires Delete(r, q, refused).Some?
    ensures DeleteProgress(t, path, refused, Delete(r, q, refused).value, deleted + [q])
  {
    forall i | 0 <= i < |deleted| ensures !StartsWith(q, deleted[i]) {
      NoShorterPrefix(q, deleted[i]);
    }
  }

  /** Deleting an entry with nothing below it keeps the tree well formed. */
  lemma DeleteKeepsWellFormed(r: Tree, q: Path, refused: set<Path>)
    requires WellFormedTree(r) && Delete(r, q, refused).Some?
    ensures WellFormedTree(Delete(r, q, refused).value)
  {
    var r' := Delete(r, q, refused).value;
    forall p | p in r' && p != [] ensures Parent(p) in r' && r'[Parent(p)].Dir? {
      assert p in r;
    }
  }

  lemma DeleteDone(t: Tree, path: Path, refused: set<Path>, r: Tree, deleted: seq<Path>)
    requires DeleteProgress(t, path, refused, r, deleted) && Subtree(r, path) == {}
    ensures Deletable(t, path, refused)
    ensures r == RemoveTree(t, path)
  {
    forall q | q in t && StartsWith(q, path) ensures q !in refused {
      assert q !in r;
    }
    assert r.Keys == RemoveTree(t, path).Keys;
  }

  /** `deleteDir(path)` (lines 144-165): nothing when `path` does not exist;
      otherwise a walk of the subtree deleting each file on its visit and each
      directory after its contents, which stops at the first deletion that
      fails (`ok` false: the IOException propagates). The loop deletes a
      longest remaining entry, which has nothing below it. `deleted` lists
      the deletions in the order they happen. */
  method DeleteDir(t: Tree, path: Path, refused: set<Path>) returns (r: Tree, ok: bool, ghost deleted: seq<Path>)
    ensures path !in t ==> r == t && ok
    ensures path in t ==> (ok <==> Deletable(t, path, refused))
    ensures ok && path in t ==> r == RemoveTree(t, path)
    ensures forall q :: q in r ==> q in t && r[q] == t[q]
    ensures forall q :: q in t && !StartsWith(q, path) ==> q in r
    ensures WellFormedTree(t) ==> WellFormedTree(r)
    ensures forall q :: q in t && q !in r <==> q in deleted
    ensures forall i, j :: 0 <= i < j < |deleted| ==> !StartsWith(deleted[j], deleted[i])
  {
    r, ok, deleted := t, true, [];
    if path !in t {
      return;
    }
    while ok && Subtree(r, path) != {}
      invariant DeleteProgress(t, path, refused, r, deleted)
      invariant WellFormedTree(t) ==> WellFormedTree(r)
      invariant !ok ==> !Deletable(t, path, refused)
      decreases |r|, if ok then 1 else 0
    {
      ghost var longest := LongestOf(Subtree(r, path));
      var q :| q in r && StartsWith(q, path) && forall q' :: q' in r && StartsWith(q', path) ==> |q'| <= |q|;
      LongestIsLeaf(r, path, q);
      match Delete(r, q, refused)
      case None =>
        ok := false;
      case Some(r') =>
        DeleteStep(t, path, refused, r, deleted, q);
        if WellFormedTree(t) {
          DeleteKeepsWellFormed(r, q, refused);
        }
        r, deleted := r', deleted + [q];
    }
    if ok {
      DeleteDone(t, path, refused, r, deleted);
    }
  }

  /** The loop state of `Drain`: `done` are the recorded directories already
      handed to `deleteDir`. */
  ghost predicate DrainProgress(t: Tree, removeDirs: set<Path>, refused: set<Path>, done: set<Path>, r: Tree)
  {
    && (forall q :: q in r ==> q in t && r[q] == t[q])
    && (forall q :: q in t && (forall d :: d in done ==> !StartsWith(q, d)) ==> q in r)
    && (WellFormedTree(t) ==> WellFormedTree(r))
    && (WellFormedTree(t) ==> forall d :: d in done && Deletable(t, d, refused) ==> Subtree(r, d) == {})
  }

  lemma DrainStep(t: Tree, removeDirs: set<Path>, refused: set<Path>, done: set<Path>, r: Tree, d: Path, r': Tree, ok: bool)
    requires DrainProgress(t, removeDirs, refused, done, r)
    requires d !in r ==> r' == r && ok
    requires d in r ==> (ok <==> Deletable(r, d, refused))
    requires ok && d in r ==> r' == RemoveTree(r, d)
    requires forall q :: q in r' ==> q in r && r'[q] == r[q]
    requires forall q :: q in r && !StartsWith(q, d) ==> q in r'
    requires WellFormedTree(r) ==> WellFormedTree(r')
    ensures DrainProgress(t, removeDirs, refused, done + {d}, r')
  {
    if WellFormedTree(t) && Deletable(t, d, refused) {
      if d in r {
        assert Deletable(r, d, refused);
      } else {
        forall q | q in r && StartsWith(q, d) ensures false {
          AncestorExists(r, q, d);
        }
      }
    }
  }

  /** `removeDirs.forEach(dir -> deleteDir(dir))` (lines 130-136), after the
      walk: each recorded directory is deleted on its own, in an order the
      set leaves open, and a failure (logged) does not stop the others. Each
      recorded directory whose subtree holds nothing refused is gone
      afterwards, and nothing outside the recorded subtrees is touched; with
      no refusal the result is one tree whatever the order. */
  method Drain(t: Tree, removeDirs: set<Path>, refused: set<Path>) returns (r: Tree)
    ensures forall q :: q in r ==> q in t && r[q] == t[q]
    ensures forall q :: q in t && (forall d :: d in removeDirs ==> !StartsWith(q, d)) ==> q in r
    ensures WellFormedTree(t) ==> WellFormedTree(r)
    ensures WellFormedTree(t) ==> forall d :: d in removeDirs && Deletable(t, d, refused) ==> Subtree(r, d) == {}
    ensures WellFormedTree(t) && refused == {} ==> r == RemoveTrees(t, removeDirs)
  {
    r := t;
    var pending := removeDirs;
    while pending != {}
      invariant pending <= removeDirs
      invariant DrainProgress(t, removeDirs, refused, removeDirs - pending, r)
      decreases pending
    {
      var d :| d in pending;
      ghost var deleted;
      var r', ok;
      r', ok, deleted := DeleteDir(r, d, refused);
      DrainStep(t, removeDirs, refused, removeDirs - pending, r, d, r', ok);
      assert removeDirs - (pending - {d}) == (removeDirs - pending) + {d};
      r, pending := r', pending - {d};
    }
    if WellFormedTree(t) && refused == {} {
      DrainDone(t, removeDirs, r);
    }
  }

  /** With nothing refused, every recorded subtree is gone and nothing else. */
  lemma DrainDone(t: Tree, removeDirs: set<Path>, r: Tree)
    requires WellFormedTree(t) && DrainProgress(t, removeDirs, {}, removeDirs, r)
    ensures r == RemoveTrees(t, removeDirs)
  {
    forall q | q in t && (exists d :: d in removeDirs && StartsWith(q, d)) ensures q !in r {
      var d :| d in removeDirs && StartsWith(q, d);
      assert q !in Subtree(r, d);
    }
    assert r.Keys == RemoveTrees(t, removeDirs).Keys;
  }

  /** `Path.of(String.format("%s/%s", userDir, name))` (lines 44-46). For a
      repository name (which never holds '/'), it is `userDir/name`, or
      `userDir` itself when the name is empty, and it fails only when the name
      holds NUL. */
  function CloneDir(userDir: Path, name: string): (r: Option<Path>)
    ensures WellFormed(userDir) && '/' !in name ==> (r.Some? <==> '\0' !in name)
    ensures WellFormed(userDir) && '/' !in name && r.Some? ==> r.value == userDir + (if name == "" then [] else [name])
  {
    assert WellFormed(userDir) && '/' !in name ==>
      Segments(ToString(userDir) + "/" + name) == userDir + (if name == "" then [] else [name]) by {
      if WellFormed(userDir) && '/' !in name {
        ParseToString(userDir);
        SegmentsConcat(ToString(userDir), name);
        SegmentsOfName(name);
      }
    }
    match Parse(ToString(userDir) + "/" + name)
    case None => None
    case Some(q) => Some(q.segments)
  }

  const GitDir: string := ".git"

  /** The ignored prefix `String.format("%s/%s/%s", userDir, name, ".git")`
      (line 75), as `Path.startsWith(String)` reads it: the `.git` child of
      the clone directory. */
  function DotGit(userDir: Path, name: string): (r: Option<Path>)
    ensures WellFormed(userDir) && '/' !in name && '\0' !in name ==>
      r == Some(userDir + (if name == "" then [] else [name]) + [GitDir])
  {
    assert WellFormed(userDir) && '/' !in name && '\0' !in name ==>
      Parse(ToString(userDir) + "/" + name + "/" + ".git") == Some(ParsedPath(true, userDir + (if name == "" then [] else [name]) + [GitDir])) by {
      if WellFormed(userDir) && '/' !in name && '\0' !in name {
        GitDirString(userDir, name);
      }
    }
    match Parse(ToString(userDir) + "/" + name + "/" + ".git")
    case None => None
    case Some(q) => Some(q.segments)
  }

  lemma GitDirString(userDir: Path, name: string)
    requires WellFormed(userDir) && '/' !in name && '\0' !in name
    ensures Parse(ToString(userDir) + "/" + name + "/" + ".git") == Some(ParsedPath(true, userDir + (if name == "" then [] else [name]) + [GitDir]))
  {
    var base := ToString(userDir) + "/" + name;
    var full := base + "/" + GitDir;
    var dir := userDir + (if name == "" then [] else [name]);
    assert Segments(base) == dir by {
      ParseToString(userDir);
      SegmentsConcat(ToString(userDir), name);
      SegmentsOfName(name);
    }
    assert Segments(full) == dir + [GitDir] by {
      SegmentsConcat(base, GitDir);
      SegmentsOfName(GitDir);
    }
    assert full[0] == '/';
    assert '\0' !in full;
  }

  /** A URL ending in '/' names the empty repository: the clone directory is
      the user's directory itself, which the guard deletes when it exists and
      overwriting is on. */
  lemma TrailingSlashClonesIntoUserDir(url: string, userDir: Path)
    requires WellFormed(userDir) && |url| > 0 && url[|url| - 1] == '/'
    ensures CloneDirOf(url, userDir) == Some(userDir)
  {
    RepoUrl.TrailingSlashGivesEmptyName(url);
    assert userDir + [] == userDir;
  }

  /** The tree after `git clone` wrote the repository `repo` (its paths
      relative to the clone directory, `[]` being the directory itself) at `at`. */
  function Mount(t: Tree, at: Path, repo: Tree): (r: Tree)
    ensures forall q :: q in repo ==> at + q in r && r[at + q] == repo[q]
    ensures forall q :: !StartsWith(q, at) ==> (q in r <==> q in t) && (q in t ==> r[q] == t[q])
    ensures forall q :: q in r && StartsWith(q, at) ==>
      (q[|at|..] in repo && r[q] == repo[q[|at|..]]) || (q in t && r[q] == t[q])
  {
    assert forall q :: (at + q)[|at|..] == q;
    map q | q in t.Keys + (set p | p in repo :: at + p) ::
      if StartsWith(q, at) && q[|at|..] in repo then repo[q[|at|..]] else t[q]
  }

  datatype Outcome =
    | Completed     // the walk and the drain ran
    | OutputExists  // the clone directory exists and overwriting is off (lines 51-55)
    | CloneFailed   // `git clone` exited with a non-zero status (lines 70-72)
    | Failed        // an exception reached the outer catch, rethrown (lines 138-141)

  /** The clone directory of a URL, when the URL is accepted. */
  function CloneDirOf(repoUrl: string, userDir: Path): Option<Path>
  {
    match RepoUrl.Create(repoUrl)
    case None => None
    case Some(u) => CloneDir(userDir, u.repositoryName)
  }

  function DotGitOf(repoUrl: string, userDir: Path): Option<Path>
  {
    match RepoUrl.Create(repoUrl)
    case None => None
    case Some(u) => DotGit(userDir, u.repositoryName)
  }

  /** The guard lets the run go on: the clone directory is absent, or it is
      deleted without a refusal. */
  predicate GuardPasses(t: Tree, cloneDir: Path, overwriteIfExists: bool, refused: set<Path>)
    ensures refused == {} ==> (GuardPasses(t, cloneDir, overwriteIfExists, refused) <==> cloneDir !in t || overwriteIfExists)
  {
    cloneDir !in t || (overwriteIfExists && Deletable(t, cloneDir, refused))
  }

  /** The tree the walk starts from: the existing clone directory deleted,
      then the repository cloned into it. Everything outside the clone
      directory is kept, and inside it nothing of the old tree survives. */
  function Prepared(t: Tree, cloneDir: Path, repo: Tree): (r: Tree)
    ensures forall q :: q in repo ==> cloneDir + q in r && r[cloneDir + q] == repo[q]
    ensures forall q :: !StartsWith(q, cloneDir) ==> (q in r <==> q in t) && (q in t ==> r[q] == t[q])
    ensures WellFormedTree(t) ==>
      forall q :: q in r && StartsWith(q, cloneDir) ==> q[|cloneDir|..] in repo && r[q] == repo[q[|cloneDir|..]]
  {
    var cleared := if cloneDir in t then RemoveTree(t, cloneDir) else t;
    assert WellFormedTree(t) ==> forall q :: q in cleared ==> !StartsWith(q, cloneDir) by {
      if WellFormedTree(t) && cloneDir !in t {
        forall q | q in t
          ensures !StartsWith(q, cloneDir)
        {
          if StartsWith(q, cloneDir) {
            AncestorExists(t, q, cloneDir);
          }
        }
      }
    }
    Mount(cleared, cloneDir, repo)
  }

  /** What the walk and the drain make of the tree `t0`, for the visit order
      `order`: the drained walk result, exactly `RemoveTrees` of it when no
      deletion is refused. */
  ghost predicate Rewritten<Ctx>(env: Env<Ctx>, t0: Tree, root: Path, refused: set<Path>, order: seq<Path>, r: Tree)
  {
    var w := WalkSpec(env, t0, WalkState(t0, {}), order);
    && IsWalkOrder(order, t0, root)
    && (forall q :: q in r ==> q in w.tree && r[q] == w.tree[q])
    && (forall q :: q in w.tree && (forall d :: d in w.removeDirs ==> !StartsWith(q, d)) ==> q in r)
    && (WellFormedTree(t0) && WellFormed(env.cwd) && refused == {} ==> r == RemoveTrees(w.tree, w.removeDirs))
  }

  /** Lines 78-136: walk the clone, then drain `removeDirs`. */
  method Rewrite<Ctx>(env: Env<Ctx>, t0: Tree, root: Path, refused: set<Path>) returns (r: Tree, ghost order: seq<Path>)
    ensures Rewritten(env, t0, root, refused, order, r)
    ensures WellFormedTree(t0) && WellFormed(env.cwd) ==> WellFormedTree(r)
  {
    var s;
    s, order := Walk(env, t0, root);
    r := Drain(s.tree, s.removeDirs, refused);
  }

  /** `JBiscoitoCommand.run` (lines 40-142). `userDir` is `user.dir`, which is
      also the directory a relative rendered path resolves against. `order`
      is the order in which the walk visited the entries. */
  method Run<Ctx>(repoUrl: string, overwriteIfExists: bool, userDir: Path, t: Tree, refused: set<Path>,
                  repo: Option<Tree>, context: Option<Ctx>, render: (string, Ctx) -> Option<string>)
    returns (r: Tree, outcome: Outcome, ghost order: seq<Path>)
    ensures CloneDirOf(repoUrl, userDir).None? ==> outcome == Failed && r == t
    ensures outcome == OutputExists <==>
      CloneDirOf(repoUrl, userDir).Some? && CloneDirOf(repoUrl, userDir).value in t && !overwriteIfExists
    ensures outcome == OutputExists ==> r == t
    ensures outcome == Failed && CloneDirOf(repoUrl, userDir).Some? &&
            !GuardPasses(t, CloneDirOf(repoUrl, userDir).value, overwriteIfExists, refused) ==>
      && (forall q :: q in r ==> q in t && r[q] == t[q])
      && (forall q :: q in t && !StartsWith(q, CloneDirOf(repoUrl, userDir).value) ==> q in r)
    ensures outcome == CloneFailed <==>
      && CloneDirOf(repoUrl, userDir).Some?
      && GuardPasses(t, CloneDirOf(repoUrl, userDir).value, overwriteIfExists, refused)
      && repo.None?
    ensures outcome == CloneFailed ==>
      var cloneDir := CloneDirOf(repoUrl, userDir).value;
      r == (if cloneDir in t then RemoveTree(t, cloneDir) else t)
    ensures outcome == Failed && CloneDirOf(repoUrl, userDir).Some? &&
            GuardPasses(t, CloneDirOf(repoUrl, userDir).value, overwriteIfExists, refused) ==>
      repo.Some? && r == Prepared(t, CloneDirOf(repoUrl, userDir).value, repo.value)
    ensures outcome == Completed <==>
      && CloneDirOf(repoUrl, userDir).Some? && DotGitOf(repoUrl, userDir).Some?
      && GuardPasses(t, CloneDirOf(repoUrl, userDir).value, overwriteIfExists, refused)
      && repo.Some? && context.Some?
    ensures outcome == Completed ==>
      var cloneDir := CloneDirOf(repoUrl, userDir).value;
      var t1 := Prepared(t, cloneDir, repo.value);
      var env := Env(render, context.value, userDir, DotGitOf(repoUrl, userDir).value);
      Rewritten(env, t1, cloneDir, refused, order, r)
  {
    r, order := t, [];
    var url := RepoUrl.Create(repoUrl);
    if url.None? {
      return r, Failed, order;
    }
    var name := url.value.repositoryName;
    var cloneDir := CloneDir(userDir, name);
    if cloneDir.None? {
      return r, Failed, order;
    }
    var dir := cloneDir.value;
    if dir in r {
      if overwriteIfExists {
        var ok;
        ghost var deleted;
        r, ok, deleted := DeleteDir(r, dir, refused);
        if !ok {
          return r, Failed, order;
        }
      } else {
        return r, OutputExists, order;
      }
    }
    if repo.None? {
      return r, CloneFailed, order;
    }
    r := Mount(r, dir, repo.value);
    var dotGit := DotGit(userDir, name);
    if context.None? || dotGit.None? {
      return r, Failed, order;
    }
    var env := Env(render, context.value, userDir, dotGit.value);
    r, order := Rewrite(env, r, dir, refused);
    outcome := Completed;
  }
}
