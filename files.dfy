/**
  The file system the engine works on, and the `java.nio.file.Files` operations
  it calls, each as a partial operation on the tree: `None` is the
  IOException the JDK throws. The tree maps every existing absolute path to a
  directory node or to a file with its text.
*/
module Files {
  import opened Wrappers
  import opened Paths

  datatype Node = Dir | File(content: string)

  type Tree = map<Path, Node>

  /** Every entry has a well-formed path, and every entry but the root sits in
      an existing directory. */
  ghost predicate WellFormedTree(t: Tree)
  {
    forall p :: p in t ==> WellFormed(p) && (p != [] ==> Parent(p) in t && t[Parent(p)].Dir?)
  }

  predicate HasChildren(t: Tree, d: Path)
  {
    exists q :: q in t && q != [] && Parent(q) == d
  }

  /** The entries at or below `root`. */
  function Subtree(t: Tree, root: Path): (s: set<Path>)
    ensures forall p :: p in s <==> p in t && StartsWith(p, root)
  {
    set p | p in t && StartsWith(p, root)
  }

  /** What `Files.copy` leaves at the target: the file with its content, or an
      empty directory (entries of a directory are not copied). */
  function CopiedNode(n: Node): Node
  {
    if n.File? then n else Dir
  }

  /** `Files.copy(src, dst, REPLACE_EXISTING)`. It fails when the source is
      missing, when the target's parent is not an existing directory, and when
      the target is a non-empty directory (it cannot be deleted to make room).
      Copying a path onto itself does nothing. It succeeds in every other case. */
  function Copy(t: Tree, src: Path, dst: Path): (r: Option<Tree>)
    ensures src !in t ==> r.None?
    ensures src in t && src != dst && dst in t && t[dst].Dir? && HasChildren(t, dst) ==> r.None?
    ensures src in t && src != dst && (dst == [] || Parent(dst) !in t || !t[Parent(dst)].Dir?) ==> r.None?
    ensures src in t && src == dst ==> r.Some?
    ensures src in t && dst != [] && Parent(dst) in t && t[Parent(dst)].Dir? && !(dst in t && t[dst].Dir? && HasChildren(t, dst)) ==> r.Some?
    ensures r.Some? ==> dst in r.value && r.value[dst] == CopiedNode(t[src])
    ensures r.Some? ==> src in r.value && (src != dst ==> r.value[src] == t[src])
    ensures r.Some? ==> forall q :: q != dst ==> (q in r.value <==> q in t) && (q in t ==> r.value[q] == t[q])
  {
    if src !in t then None
    else if src == dst then Some(t)
    else if dst == [] || Parent(dst) !in t || !t[Parent(dst)].Dir? then None
    else if dst in t && t[dst].Dir? && HasChildren(t, dst) then None
    else Some(t[dst := CopiedNode(t[src])])
  }

  /** `Files.readString(p)`: fails unless `p` is an existing file. */
  function ReadString(t: Tree, p: Path): (r: Option<string>)
    ensures r.Some? <==> p in t && t[p].File?
    ensures r.Some? ==> t[p] == File(r.value)
  {
    if p in t && t[p].File? then Some(t[p].content) else None
  }

  /** `Files.writeString(p, s)` with the default options CREATE,
      TRUNCATE_EXISTING and WRITE: replaces the content of an existing file, or
      creates the file in an existing directory. */
  function WriteString(t: Tree, p: Path, s: string): (r: Option<Tree>)
    ensures p in t && t[p].File? ==> r == Some(t[p := File(s)])
    ensures p in t && t[p].Dir? ==> r.None?
    ensures r.Some? ==> r.value == t[p := File(s)]
  {
    if p in t then (if t[p].File? then Some(t[p := File(s)]) else None)
    else if p != [] && Parent(p) in t && t[Parent(p)].Dir? then Some(t[p := File(s)])
    else None
  }

  /** `Files.delete(p)`: fails when `p` is missing, is a non-empty directory,
      or is an entry the operating system refuses to remove. */
  function Delete(t: Tree, p: Path, refused: set<Path>): (r: Option<Tree>)
    ensures r.Some? <==> p in t && p !in refused && !(t[p].Dir? && HasChildren(t, p))
    ensures r.Some? ==> r.value == t - {p}
  {
    if p !in t || p in refused || (t[p].Dir? && HasChildren(t, p)) then None
    else Some(t - {p})
  }

  /** The tree without `root` and everything below it. */
  function RemoveTree(t: Tree, root: Path): (r: Tree)
    ensures forall q :: q in r <==> q in t && !StartsWith(q, root)
    ensures forall q :: q in r ==> r[q] == t[q]
  {
    map q | q in t && !StartsWith(q, root) :: t[q]
  }

  /** The tree without every listed directory and everything below them. */
  function RemoveTrees(t: Tree, roots: set<Path>): (r: Tree)
    ensures forall q :: q in r <==> q in t && forall d :: d in roots ==> !StartsWith(q, d)
    ensures forall q :: q in r ==> r[q] == t[q]
  {
    map q | q in t && forall d :: d in roots ==> !StartsWith(q, d) :: t[q]
  }

  /** In a well-formed tree every ancestor of an entry exists: nothing can sit
      below a missing path. */
  lemma {:induction false} AncestorExists(t: Tree, q: Path, a: Path)
    requires WellFormedTree(t) && q in t && StartsWith(q, a)
    ensures a in t
    decreases |q|
  {
    if |q| > |a| {
      assert StartsWith(Parent(q), a);
      AncestorExists(t, Parent(q), a);
    } else {
      assert q == a;
    }
  }

  /** Deleting a missing path removes nothing. */
  lemma RemoveMissingTree(t: Tree, root: Path)
    requires WellFormedTree(t) && root !in t
    ensures RemoveTree(t, root) == t
  {
    forall q | q in t ensures !StartsWith(q, root) {
      if StartsWith(q, root) {
        AncestorExists(t, q, root);
      }
    }
  }

  lemma CopyKeepsWellFormed(t: Tree, src: Path, dst: Path)
    requires WellFormedTree(t) && WellFormed(dst)
    ensures Copy(t, src, dst).Some? ==> WellFormedTree(Copy(t, src, dst).value)
  {
    if Copy(t, src, dst).Some? && src != dst {
      var r := Copy(t, src, dst).value;
      forall p | p in r && p != [] ensures Parent(p) in r && r[Parent(p)].Dir? {
        if p != dst && Parent(p) == dst {
          assert HasChildren(t, dst);
        }
      }
    }
  }

  lemma WriteKeepsWellFormed(t: Tree, p: Path, s: string)
    requires WellFormedTree(t) && WellFormed(p)
    ensures WriteString(t, p, s).Some? ==> WellFormedTree(WriteString(t, p, s).value)
  {
    if WriteString(t, p, s).Some? {
      var r := WriteString(t, p, s).value;
      forall q | q in r && q != [] ensures Parent(q) in r && r[Parent(q)].Dir? {
        if q != p {
          assert q in t;
        }
      }
    }
  }

}
