/**
  `RepoURL` (src/main/java/dev/matheuscruz/git/RepoURL.java): a repository URL
  and the repository name taken from it with the pattern `.*\/(.*?)(\.git)?$`
  under `Matcher.find`. The match is written out as string logic: the greedy
  `.*\/` stops at the last '/', the lazy group then takes the shortest text after
  it that leaves either ".git" or nothing to the end of the input.
*/
module RepoUrl {
  import opened Wrappers
  import opened Strings

  /** The two final fields of a constructed `RepoURL`; `value()` and
      `repositoryName()` return them. */
  datatype RepoURL = RepoURL(value: string, repositoryName: string)

  const GitSuffix: string := ".git"

  /** What the regex allows as group 1 for the text `rest` after the last '/':
      `rest` is the group followed by an optional ".git", and the group is the
      shortest such text (the lazy quantifier). */
  predicate LazyGroup(rest: string, name: string)
  {
    && (rest == name + GitSuffix || rest == name)
    && forall k :: 0 <= k < |name| ==> rest[k..] != GitSuffix
  }

  /** The text of a last segment with one trailing ".git" removed. */
  function StripGitSuffix(segment: string): (name: string)
    ensures LazyGroup(segment, name)
  {
    if HasSuffix(segment, GitSuffix) then segment[..|segment| - |GitSuffix|] else segment
  }

  /** `RepoURL.create(value)`; `None` is the IllegalArgumentException thrown when
      `find()` fails. */
  function Create(value: string): (r: Option<RepoURL>)
    ensures r.None? <==> '/' !in value
    ensures r.Some? ==> r.value.value == value
    ensures r.Some? ==> '/' !in r.value.repositoryName
  {
    var i := LastIndexOf(value, '/');
    if i < 0 then None else Some(RepoURL(value, StripGitSuffix(value[i + 1..])))
  }

  lemma NoShorterGroup(rest: string, name: string, k: int)
    requires LazyGroup(rest, name) && 0 <= k < |name|
    ensures rest[k..] != GitSuffix
  {
  }

  /** There is only one group the regex can report for a given segment. */
  lemma LazyGroupUnique(rest: string, n1: string, n2: string)
    requires LazyGroup(rest, n1) && LazyGroup(rest, n2)
    ensures n1 == n2
  {
    if |n1| < |n2| {
      NoShorterGroup(rest, n2, |n1|);
      assert false;
    } else if |n2| < |n1| {
      NoShorterGroup(rest, n1, |n2|);
      assert false;
    } else {
      assert n1 == rest[..|n1|] == n2;
    }
  }

  /** Round trip: for the '/' at position `i` with none after it, the segment
      after it is the repository name followed by ".git" or by nothing, and the
      name is the regex's lazy group for that segment. */
  lemma NameIsLastSegment(value: string, i: int)
    requires 0 <= i < |value| && value[i] == '/'
    requires forall j :: i < j < |value| ==> value[j] != '/'
    ensures Create(value).Some?
    ensures value[i + 1..] == Create(value).value.repositoryName + GitSuffix
         || value[i + 1..] == Create(value).value.repositoryName
    ensures LazyGroup(value[i + 1..], Create(value).value.repositoryName)
  {
    LastIndexOfIs(value, '/', i);
  }

  /** A last segment that does not end in ".git" is the whole name; in
      particular a trailing '/' gives the empty name. */
  lemma NameWithoutGitSuffix(value: string, i: int)
    requires 0 <= i < |value| && value[i] == '/'
    requires forall j :: i < j < |value| ==> value[j] != '/'
    requires !HasSuffix(value[i + 1..], GitSuffix)
    ensures Create(value).Some? && Create(value).value.repositoryName == value[i + 1..]
  {
    NameIsLastSegment(value, i);
  }

  /** A URL whose last segment is `segment` is named after that segment,
      stripped of one ".git". */
  lemma CreateOfLastSegment(prefix: string, segment: string)
    requires '/' !in segment
    ensures Create(prefix + "/" + segment) == Some(RepoURL(prefix + "/" + segment, StripGitSuffix(segment)))
  {
    var v := prefix + "/" + segment;
    assert v[|prefix|] == '/';
    assert forall j :: |prefix| < j < |v| ==> v[j] == segment[j - |prefix| - 1];
    LastIndexOfIs(v, '/', |prefix|);
    assert v[|prefix| + 1..] == segment;
  }

  /** Exactly one ".git" is removed: a last segment `name + ".git"` names the
      repository `name`, even when `name` itself ends in ".git". */
  lemma OneGitSuffixStripped(prefix: string, name: string)
    requires '/' !in name
    ensures Create(prefix + "/" + name + GitSuffix) == Some(RepoURL(prefix + "/" + name + GitSuffix, name))
  {
    assert prefix + "/" + name + GitSuffix == prefix + "/" + (name + GitSuffix);
    CreateOfLastSegment(prefix, name + GitSuffix);
    assert (name + GitSuffix)[..|name|] == name;
  }

  /** A URL ending in '/' is accepted, with the empty repository name. */
  lemma TrailingSlashGivesEmptyName(url: string)
    requires |url| > 0 && url[|url| - 1] == '/'
    ensures Create(url) == Some(RepoURL(url, ""))
  {
    assert !HasSuffix(url[|url|..], GitSuffix);
    NameWithoutGitSuffix(url, |url| - 1);
  }

  /** The example of RepoURLTest, whose URL
      "git@github.com:quarkiverse/quarkus-openapi-generator.git" is written
      here as its pieces. */
  lemma RepositoryNameOfScpUrl()
    ensures Create("git@github.com:quarkiverse" + "/" + "quarkus-openapi-generator" + ".git").Some?
    ensures Create("git@github.com:quarkiverse" + "/" + "quarkus-openapi-generator" + ".git").value.repositoryName
         == "quarkus-openapi-generator"
  {
    OneGitSuffixStripped("git@github.com:quarkiverse", "quarkus-openapi-generator");
  }

}
