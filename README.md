# jbiscoito rewrite engine in Dafny

jbiscoito scaffolds a project from a template repository. It clones the
repository into `<user.dir>/<repository name>`, where an existing directory of
that name is deleted first when `--overwrite-if-exists` is on. It then walks
the clone and renders every path and every file content with Qute against a
JSON context. A file is copied to its rendered path and its content rewritten
there. A directory whose rendered name differs is copied, as an empty node, to
a sibling with the new name and recorded in `removeDirs`. After the walk,
every recorded directory is deleted with everything below it. The repository
name comes from the URL through the pattern `.*/(.*?)(\.git)?$`.

This project models that engine and proves what it guarantees. It also proves
where the engine falls short of what it evidently means to do.

- `wrappers.dfy`, `strings.dfy`: an `Option` type and the last-index and
  suffix helpers the name extraction needs.
- `repo_url.dfy` (module `RepoUrl`): `RepoURL.create` as string logic. The
  greedy `.*/` stops at the last '/'. The lazy group is the shortest text
  that leaves ".git" or nothing to the end.
- `paths.dfy` (module `Paths`): Unix `java.nio.file.Path` as a sequence of
  name segments, with `toString`, `Path.of`, `resolve`, `resolveSibling`,
  `startsWith` (segment-wise), `getParent` and `getFileName`.
- `files.dfy` (module `Files`): the file system as a map from path to node
  (directory, or file with its text). `Files.copy`, `readString`,
  `writeString` and `delete` are partial functions on it, where `None` is the
  IOException.
- `visitor.dfy` (module `Visitor`): `visitFile` and `preVisitDirectory`, and
  the fold of visits over a walk order. A walk order is any order that takes
  each entry once and each directory before its contents (`IsWalkOrder`);
  the fold's properties are proved for all of them, depth-first orders
  included. The method `Walk` always visits a shortest unvisited entry (level
  order), so it never produces the depth-first order of
  `Files.walkFileTree` once two sibling directories have contents.
- `command.dfy` (module `Command`): `deleteDir` as a loop that deletes a
  deepest remaining entry each time, and the drain of `removeDirs`. Also the
  clone directory and `.git` prefix, and the whole `run` with its early
  returns.
- `findings.dfy` (module `Findings`): two defects shown on concrete clones,
  and the engine as evidently intended, with its correctness theorem. It
  also proves that the engine as written ends exactly as the corrected one
  for the templates it handles: every renamed directory sits in one that
  keeps its path, and every renamed file goes with its directory.

Inputs that the program takes from outside are parameters here:

- the repository `git clone` writes, or `None` when the clone exits non-zero;
- the JSON context, or `None` when it cannot be read;
- the template function with its context, which returns `None` when Qute
  throws;
- `user.dir`;
- the set of entries the operating system refuses to delete.

The walk runs over a snapshot of the tree taken when it starts.

Behaviour of the code worth knowing:

- A file's target is its whole path string rendered and resolved against
  the working directory (lines 89-91). It is not a sibling named by the
  rendered file name.
- A directory whose rendered name collides with a non-empty directory is not
  overwritten. `Files.copy` with REPLACE_EXISTING fails there.
- A renamed directory is copied as an empty node, and only files follow it
  to the rendered path. A directory below a renamed directory, renamed or
  not, is not recreated there, so the files below it are lost (see
  Findings).

## Model

| member | source | states |
|---|---|---|
| Strings.LastIndexOf | src/main/java/dev/matheuscruz/git/RepoURL.java:8 | the greedy `.*/` ends at the last '/': the index is -1 or holds '/', with no '/' after it |
| RepoUrl.StripGitSuffix | src/main/java/dev/matheuscruz/git/RepoURL.java:8 | the name is the lazy group: the segment is the name plus ".git", or the name alone, and no shorter prefix leaves ".git" |
| RepoUrl.Create | src/main/java/dev/matheuscruz/git/RepoURL.java:12-25 | `create` fails exactly when the URL has no '/'; `value()` is the URL unchanged; the repository name never holds '/' |
| RepoUrl.LazyGroupUnique | src/main/java/dev/matheuscruz/git/RepoURL.java:8 | a segment has only one possible group 1, so the extracted name is determined |
| RepoUrl.NameIsLastSegment | src/main/java/dev/matheuscruz/git/RepoURL.java:8-17 | round trip: the text after the last '/' is the name followed by ".git" or by nothing, and the name is the lazy group |
| RepoUrl.NameWithoutGitSuffix | src/main/java/dev/matheuscruz/git/RepoURL.java:8-17 | a last segment not ending in ".git" is the whole name |
| RepoUrl.CreateOfLastSegment | src/main/java/dev/matheuscruz/git/RepoURL.java:8-17 | a URL `prefix/segment` is accepted, keeps its value, and is named after `segment` with one ".git" stripped |
| RepoUrl.OneGitSuffixStripped | src/main/java/dev/matheuscruz/git/RepoURL.java:8 | exactly one ".git" is removed: `prefix/name.git` names `name`, even when `name` itself ends in ".git" |
| RepoUrl.TrailingSlashGivesEmptyName | src/main/java/dev/matheuscruz/git/RepoURL.java:8-17 | every URL ending in '/' is accepted with the empty repository name |
| RepoUrl.RepositoryNameOfScpUrl | src/test/java/dev/matheuscruz/git/RepoURLTest.java:11-12 | "git@github.com:quarkiverse/quarkus-openapi-generator.git" names `quarkus-openapi-generator` |
| Paths.SegmentsAreNames | src/main/java/dev/matheuscruz/JBiscoitoCommand.java:91 | every part `Path.of` keeps is a non-empty name without '/', and a well-formed path when the string has no NUL |
| Paths.ToString | src/main/java/dev/matheuscruz/JBiscoitoCommand.java:89 | `toString` of every path starts with '/', and of a well-formed path holds no NUL |
| Paths.Parse | src/main/java/dev/matheuscruz/JBiscoitoCommand.java:91 | `Path.of` fails exactly on a string holding NUL; otherwise every part is a file-system name, and the path is absolute exactly when the string starts with '/' |
| Paths.Resolve | src/main/java/dev/matheuscruz/JBiscoitoCommand.java:91 | an absolute path is returned unchanged; a relative path resolves to the base followed by its parts; a well-formed base and path give a well-formed result |
| Paths.StartsWith | src/main/java/dev/matheuscruz/JBiscoitoCommand.java:84 | a path starts with itself, and a prefix as long as the path is the path |
| Paths.SegmentsConcat | src/main/java/dev/matheuscruz/JBiscoitoCommand.java:45-46 | a '/' between two strings separates their parts: the parts of `a/b` are those of `a` then those of `b` |
| Paths.JoinShape | src/main/java/dev/matheuscruz/JBiscoitoCommand.java:89 | the string of a well-formed path holds no NUL |
| Paths.SegmentsOfJoin | src/main/java/dev/matheuscruz/JBiscoitoCommand.java:89-91 | splitting the joined string gives the segments back |
| Paths.ParseToString | src/main/java/dev/matheuscruz/JBiscoitoCommand.java:89-91 | `Path.of(p.toString())` is `p` again, absolute |
| Paths.ToStringInjective | src/main/java/dev/matheuscruz/JBiscoitoCommand.java:93 | two well-formed paths have the same string exactly when they are the same path |
| Paths.SegmentsOfName | src/main/java/dev/matheuscruz/JBiscoitoCommand.java:45-46 | a string without '/' is one part, or none when empty |
| Paths.ParseName | src/main/java/dev/matheuscruz/JBiscoitoCommand.java:114-115 | `Path.of(name)` of a single name is that name as a relative path |
| Files.Copy | src/main/java/dev/matheuscruz/JBiscoitoCommand.java:94 | `Files.copy` with REPLACE_EXISTING fails exactly on a missing source, a missing parent and a non-empty target directory, and succeeds otherwise; then the target holds the file, or an empty directory, and nothing else changes |
| Files.ReadString | src/main/java/dev/matheuscruz/JBiscoitoCommand.java:97 | reading succeeds exactly on an existing file and returns its text |
| Files.WriteString | src/main/java/dev/matheuscruz/JBiscoitoCommand.java:99 | writing replaces an existing file's text, fails on a directory, and only ever sets that one path |
| Files.Delete | src/main/java/dev/matheuscruz/JBiscoitoCommand.java:151 | `Files.delete` succeeds exactly on an existing, unrefused entry with nothing below it, and the result is the tree without that entry, every other entry unchanged |
| Files.RemoveTree | src/main/java/dev/matheuscruz/JBiscoitoCommand.java:144-165 | the tree without the subtree at `root`, everything else as it was |
| Files.RemoveTrees | src/main/java/dev/matheuscruz/JBiscoitoCommand.java:130-136 | the tree without every listed subtree, everything else as it was |
| Files.AncestorExists | src/main/java/dev/matheuscruz/JBiscoitoCommand.java:145-147 | in a well-formed tree nothing lies below a missing path |
| Files.RemoveMissingTree | src/main/java/dev/matheuscruz/JBiscoitoCommand.java:145-147 | deleting a missing path changes nothing |
| Files.CopyKeepsWellFormed | src/main/java/dev/matheuscruz/JBiscoitoCommand.java:118 | a successful copy to a well-formed path keeps every entry inside an existing directory |
| Files.WriteKeepsWellFormed | src/main/java/dev/matheuscruz/JBiscoitoCommand.java:99 | a successful write keeps the tree well formed |
| Visitor.IgnoredIsSegmentWise | src/main/java/dev/matheuscruz/JBiscoitoCommand.java:75-84 | below the directory holding `.git`, an entry is ignored exactly when its segment there is `.git` |
| Visitor.GitignoreIsRendered | src/main/java/dev/matheuscruz/JBiscoitoCommand.java:75-84 | `.gitignore` next to `.git` is not ignored |
| Visitor.Ignored | src/main/java/dev/matheuscruz/JBiscoitoCommand.java:84 | `.git` itself is ignored, and every other ignored entry has an ignored parent: the whole subtree from `.git` down, nothing else |
| Visitor.RenderedContent | src/main/java/dev/matheuscruz/JBiscoitoCommand.java:97-99 | the text written back is the rendered content, or the content as it was when rendering throws |
| Visitor.FileTarget | src/main/java/dev/matheuscruz/JBiscoitoCommand.java:89-91 | a file has a target exactly when its path renders without an exception and without NUL; the target is well formed; a path rendering to its own string targets the file itself |
| Visitor.RenderedPathIsTarget | src/main/java/dev/matheuscruz/JBiscoitoCommand.java:89-91 | a file goes to its whole path rendered: when its path string renders to the string of a well-formed path, that path is the target |
| Visitor.DirTarget | src/main/java/dev/matheuscruz/JBiscoitoCommand.java:113-115 | a directory other than the root has a target exactly when its name renders without an exception and without NUL; a single-segment new name gives the sibling of that name; a name rendering to itself gives the directory itself |
| Visitor.VisitFile | src/main/java/dev/matheuscruz/JBiscoitoCommand.java:83-104 | an ignored file or a failed render leaves the tree alone. Otherwise, when the copy succeeds, the target holds the rendered content (the file itself when its name is unchanged), and the original and every other path stay as they were. When the copy fails, nothing changes |
| Visitor.PreVisitDirectory | src/main/java/dev/matheuscruz/JBiscoitoCommand.java:107-127 | `removeDirs` grows by at most the directory. A name that renders to itself, an ignored directory or a failed render is a no-op. A renamed directory whose sibling copy succeeds is copied and recorded. Nothing is recorded when the copy fails |
| Visitor.WithoutInert | src/main/java/dev/matheuscruz/JBiscoitoCommand.java:84-86 | keeps exactly the entries of the order whose visit can change something |
| Visitor.InertVisit | src/main/java/dev/matheuscruz/JBiscoitoCommand.java:100-102 | an ignored entry, one whose rendering throws, or a directory keeping its name changes nothing |
| Visitor.SkipInertVisits | src/main/java/dev/matheuscruz/JBiscoitoCommand.java:81-128 | per-entry isolation: the walk ends exactly as it would without its inert entries |
| Visitor.VisitRecords | src/main/java/dev/matheuscruz/JBiscoitoCommand.java:117-120 | a visit only ever adds the visited directory, when its name rendered differently |
| Visitor.WalkRecords | src/main/java/dev/matheuscruz/JBiscoitoCommand.java:79-128 | `removeDirs` only grows during the walk, and only with renamed, non-ignored directories of the snapshot; never a file |
| Visitor.VisitFrame | src/main/java/dev/matheuscruz/JBiscoitoCommand.java:83-127 | a visit deletes nothing and changes only its own target |
| Visitor.WalkFrame | src/main/java/dev/matheuscruz/JBiscoitoCommand.java:81-128 | the walk deletes nothing, and every path no visit targets is left as it was |
| Visitor.LaterWriterWins | src/main/java/dev/matheuscruz/JBiscoitoCommand.java:93-99 | two files rendered to one target: the later visit decides what the target holds |
| Visitor.VisitKeepsWellFormed | src/main/java/dev/matheuscruz/JBiscoitoCommand.java:81-128 | every visit keeps the tree well formed |
| Visitor.FileVisitKeepsWellFormed | src/main/java/dev/matheuscruz/JBiscoitoCommand.java:83-104 | a file visit keeps the tree well formed |
| Visitor.SortedByLengthUnique | src/main/java/dev/matheuscruz/JBiscoitoCommand.java:81 | two sequences of paths strictly increasing in length and holding the same paths are equal |
| Visitor.ChainIsOnlyWalkOrder | src/main/java/dev/matheuscruz/JBiscoitoCommand.java:81 | when the entries to walk form one chain, each below the one before, the chain is the only walk order |
| Visitor.ParentsFirstStep | src/main/java/dev/matheuscruz/JBiscoitoCommand.java:81 | visiting an entry that has no visited entry below it keeps directories before their contents |
| Visitor.NothingBelowUnvisitedStep | src/main/java/dev/matheuscruz/JBiscoitoCommand.java:81 | visiting a shortest unvisited entry leaves no visited entry below an unvisited one |
| Visitor.WalkProgressStep | src/main/java/dev/matheuscruz/JBiscoitoCommand.java:81 | one step of the walk keeps its loop state |
| Visitor.Walk | src/main/java/dev/matheuscruz/JBiscoitoCommand.java:81-128 | the walk visits every entry of the subtree once, each directory before its contents, and ends in the fold of the visits over that order, keeping the tree well formed |
| Command.LongestIsLeaf | src/main/java/dev/matheuscruz/JBiscoitoCommand.java:148-164 | a deepest remaining entry has nothing below it, so post-order deletion can remove it |
| Command.DeleteStep | src/main/java/dev/matheuscruz/JBiscoitoCommand.java:150-163 | deleting a deepest entry keeps the loop state: only entries below `path` go, children before parents |
| Command.DeleteKeepsWellFormed | src/main/java/dev/matheuscruz/JBiscoitoCommand.java:151-158 | deleting an entry with nothing below it keeps the tree well formed |
| Command.DeleteDone | src/main/java/dev/matheuscruz/JBiscoitoCommand.java:144-165 | once nothing is left below `path`, the result is the tree without that subtree and none of it was refused |
| Command.DeleteDir | src/main/java/dev/matheuscruz/JBiscoitoCommand.java:144-165 | a missing path is a no-op. Otherwise it succeeds exactly when nothing in the subtree is refused, and then removes the subtree and nothing else. Every deletion is below `path` and comes after the deletions below it. It keeps the tree well formed |
| Command.DrainStep | src/main/java/dev/matheuscruz/JBiscoitoCommand.java:130-136 | handing one more recorded directory to `deleteDir` keeps the drain's state |
| Command.Drain | src/main/java/dev/matheuscruz/JBiscoitoCommand.java:130-136 | deletions are independent: every recorded directory with nothing refused is gone even when others fail, nothing outside the recorded subtrees changes, and with no refusal the result is the same tree for every order |
| Command.DrainDone | src/main/java/dev/matheuscruz/JBiscoitoCommand.java:130-136 | with nothing refused, the drain leaves exactly the tree without the recorded subtrees |
| Command.CloneDir | src/main/java/dev/matheuscruz/JBiscoitoCommand.java:44-46 | for a repository name, the clone directory is `userDir/name`, or `userDir` itself for the empty name, and it fails exactly when the name holds NUL |
| Command.DotGit | src/main/java/dev/matheuscruz/JBiscoitoCommand.java:75 | the ignored prefix is the `.git` child of the clone directory |
| Command.GuardPasses | src/main/java/dev/matheuscruz/JBiscoitoCommand.java:48-57 | with nothing refused, the run passes the guard exactly when the clone directory is absent or overwriting is on |
| Command.TrailingSlashClonesIntoUserDir | src/main/java/dev/matheuscruz/JBiscoitoCommand.java:43-50 | for every URL ending in '/', the clone directory is the user's directory itself, which the guard would delete |
| Command.Mount | src/main/java/dev/matheuscruz/JBiscoitoCommand.java:59-69 | after the clone the repository sits below the clone directory, everything outside it is unchanged, and every entry inside it comes from the repository or was there before |
| Command.Prepared | src/main/java/dev/matheuscruz/JBiscoitoCommand.java:48-69 | the tree the walk starts from holds the repository below the clone directory and the old tree outside it; in a well-formed tree nothing of the old clone directory survives |
| Command.Rewrite | src/main/java/dev/matheuscruz/JBiscoitoCommand.java:78-136 | the walk then the drain: the drained fold of the visits over a walk order, exactly `RemoveTrees` of the walk's result when nothing is refused |
| Command.Run | src/main/java/dev/matheuscruz/JBiscoitoCommand.java:40-142 | a rejected URL fails without changes. An existing output with overwriting off stops without changes. A refused guard deletion fails, having deleted only inside the clone directory. A failed clone stops with the clone directory deleted. A context that cannot be read fails on the cloned tree. Otherwise the rewrite runs on the cloned tree with `.git` ignored |
| Findings.SiblingCopyMisplaced | src/main/java/dev/matheuscruz/JBiscoitoCommand.java:113-115 | a directory's copy lands where its files are sent exactly when its parent keeps its path |
| Findings.FixedVisit | src/main/java/dev/matheuscruz/JBiscoitoCommand.java:83-127 | corrected visit: a directory is copied to its whole path rendered, and every entry copied away, file or directory, is recorded; an ignored entry or a failed render changes nothing |
| Findings.NestedWalk | src/main/java/dev/matheuscruz/JBiscoitoCommand.java:81-128 | on the nested clone, the walk ends with both directories copied beside their originals and recorded, and no copy of the file |
| Findings.NestedDrained | src/main/java/dev/matheuscruz/JBiscoitoCommand.java:130-136 | on the nested clone, the drain leaves three empty directories |
| Findings.NestedOrderUnique | src/main/java/dev/matheuscruz/JBiscoitoCommand.java:81 | the nested clone has a single walk order |
| Findings.NestedRenameLosesFile | src/main/java/dev/matheuscruz/JBiscoitoCommand.java:89-136 | as written, whatever the walk order, a file under a renamed directory nested in a renamed directory is lost |
| Findings.FlatWalk | src/main/java/dev/matheuscruz/JBiscoitoCommand.java:93-99 | a renamed file is copied and rendered, and nothing is recorded |
| Findings.FlatOrderUnique | src/main/java/dev/matheuscruz/JBiscoitoCommand.java:81 | the flat clone has a single walk order |
| Findings.RenamedFileLeftBehind | src/main/java/dev/matheuscruz/JBiscoitoCommand.java:93-95 | as written, whatever the walk order, a renamed file leaves its original beside the copy |
| Findings.RenamedDirVisit | src/main/java/dev/matheuscruz/JBiscoitoCommand.java:113-120 | a renamed directory whose copy succeeds ends its visit copied and recorded |
| Findings.CopiedFileVisit | src/main/java/dev/matheuscruz/JBiscoitoCommand.java:89-99 | a file whose copy succeeds ends its visit with the rendered content at its target |
| Findings.FixedWalkComplete | src/main/java/dev/matheuscruz/JBiscoitoCommand.java:81-128 | the corrected walk places every visited entry in scope at its rendered path, leaves every other path alone, and records exactly the moved entries |
| Findings.FixedDrained | src/main/java/dev/matheuscruz/JBiscoitoCommand.java:130-136 | after the corrected walk, the drain removes exactly the moved originals and keeps what was placed |
| Findings.FixedRewriteIsComplete | src/main/java/dev/matheuscruz/JBiscoitoCommand.java:81-136 | corrected engine: after walk and drain, every entry in scope is at its rendered path with its rendered content, moved originals are gone, `.git` and everything out of scope are untouched, and nothing else exists |
| Findings.SiblingIsRendered | src/main/java/dev/matheuscruz/JBiscoitoCommand.java:113-115 | when a directory's parent keeps its path, the sibling of its rendered name is its whole path rendered |
| Findings.AgreeDirStep | src/main/java/dev/matheuscruz/JBiscoitoCommand.java:107-127 | under those templates, visiting a directory as written and as corrected gives the same tree and records the same directory |
| Findings.AgreePrefix | src/main/java/dev/matheuscruz/JBiscoitoCommand.java:81-128 | under those templates, every prefix of a walk as written agrees with the corrected walk: the same tree, the same recorded directories |
| Findings.RecordedIsCovered | src/main/java/dev/matheuscruz/JBiscoitoCommand.java:117-119 | every entry the corrected walk records lies at or below a directory recorded as written |
| Findings.AgreeDrained | src/main/java/dev/matheuscruz/JBiscoitoCommand.java:130-136 | agreeing walks drain to the same tree |
| Findings.AsWrittenRewriteIsComplete | src/main/java/dev/matheuscruz/JBiscoitoCommand.java:81-136 | as written, for a template where every moved directory sits in one that keeps its path and every moved file goes with its directory, the run ends exactly as the corrected engine's, with all its guarantees |

## Left out

- `git clone`: `new Git().cloneCommand(repoURL)` and the process it starts (lines 59-72) are not modelled. The model takes the repository the clone writes, or `None` for a non-zero exit status, as an input.
- The loop that logs the clone's output (lines 64-66), and all logging, are not modelled: they do not change the tree.
- Reading `jbiscoito.json` with Jackson (line 76) is not modelled. The context is an opaque input, `None` when it cannot be read.
- Qute's template syntax is not modelled. `Qute.fmt` is an uninterpreted function that may fail.
- picocli option parsing and `System.getProperty("user.dir")` are not modelled. Both are parameters.
- `QuteVisitor.java` is not part of this model. The engine does not call it.
- Binary files are not modelled: a file holds text, and the engine renders every file.
- Regex line terminators are not modelled. `$` in `find()` also matches before a final line terminator, and URLs with line terminators are out of scope.
- `Walk`: the traversal order of the JDK is not modelled. The method takes a level order, and the walk's properties are stated for every order that takes each directory before its contents. The walk runs over a snapshot, so entries created by visits are not visited. Directory-stream and attribute errors during the walk are not modelled.
- `Walk`: a clone directory missing after the clone is not modelled as the NoSuchFileException that `walkFileTree` would raise. The walk over a missing root visits nothing.
- `Paths.Parse`: `.` and `..` are kept as names, as `Path.of` keeps them, and the model looks them up literally, while the file system resolves them. A URL ending in "/.." gives the repository name "..", so the program acts on the parent of `user.dir` (and deletes it under `--overwrite-if-exists`); the model acts on an entry named "..".
- `Command.DeleteDir`: deletes a deepest remaining entry each time, not in the depth-first post-order of `walkFileTree`. With nothing refused the result is the same. After a refusal, the set of entries already deleted can differ from the program's, and the contract only bounds it: everything deleted lies below the path, each after the entries below it.
- Symbolic links are not modelled: a node is a directory or a file. `walkFileTree` does not follow links, `Files.copy` without NOFOLLOW_LINKS copies what a link points to, and `Files.delete` removes the link itself; none of this is captured.
- `Files.Delete`: permission failures are modelled only for deletion, through the `refused` set. Copies and writes fail only for the structural reasons in `Files.Copy` and `Files.WriteString`.
- `Command.Rewrite`: the result is stated exactly (`RemoveTrees` of the walk's result) only for a well-formed tree with nothing refused. Otherwise the contract gives bounds: only recorded subtrees lose entries, and refusal-free recorded subtrees are gone.
- `RepoUrl.RepositoryNameOfScpUrl`: the test URL is written as a concatenation of its literal pieces, which is the same string.
- `Findings.FixedRewriteIsComplete`: proved for templates that render a path segment by segment, with no two entries colliding. The engine's behaviour on colliding names is covered only by `Visitor.LaterWriterWins`.

## Findings

| source | as written | input that shows it | evidently intended | confidence | as-written member | corrected member |
|---|---|---|---|---|---|---|
| src/main/java/dev/matheuscruz/JBiscoitoCommand.java:113-115 | a directory is copied to `resolveSibling(render(name))` inside its original parent, while files below it go to their whole path rendered (lines 89-91); so any directory below a renamed directory, renamed or not, is not recreated where its files are sent: their copies fail for a missing parent, and the drain deletes the originals with the files | clone `/r/x/x/f` with a template turning `x` into `y`: the run ends with `/`, `/r`, `/r/y` and the file is gone | every entry ends at its whole path rendered, with its rendered content, and the original subtree is removed | not executed | Findings.NestedRenameLosesFile | Findings.FixedRewriteIsComplete |
| src/main/java/dev/matheuscruz/JBiscoitoCommand.java:93-95 | a renamed file is copied to its new path but never recorded (only directories are added at line 119), so the original stays | clone `/r/x` (a file) with a template turning `x` into `y`: the run ends with both `/r/x` and `/r/y` | a renamed file's original is removed like a renamed directory's | not executed | Findings.RenamedFileLeftBehind | Findings.FixedRewriteIsComplete |
