/** Permission vocabulary, the strength merge and the repository naming convention
    shared by the expand and apply stages. */
module Perms {
  import opened Wrappers

  /** Bitbucket repository permissions, weakest first. */
  const PermOrder: seq<string> := ["REPO_READ", "REPO_WRITE", "REPO_ADMIN"]

  /** Bitbucket permission to GitHub collaborator level. */
  const BitbucketToGithub: map<string, string> := map["REPO_READ" := "pull", "REPO_WRITE" := "push", "REPO_ADMIN" := "admin"]

  /** The three GitHub levels the tool grants, weakest first. */
  const GithubLevels: seq<string> := ["pull", "push", "admin"]

  /** Python's `list.index`: position of the first occurrence, `None` standing for `ValueError`. */
  function IndexOf<T(==)>(xs: seq<T>, x: T): (r: Option<nat>)
    ensures r.None? <==> x !in xs
    ensures r.Some? ==> r.value < |xs| && xs[r.value] == x && x !in xs[..r.value]
  {
    if |xs| == 0 then None
    else if xs[0] == x then Some(0)
    else match IndexOf(xs[1..], x)
      case None => None
      case Some(i) =>
        assert xs[..i + 1] == [xs[0]] + xs[1..][..i];
        Some(i + 1)
  }

  /** One of the three Bitbucket permissions. */
  predicate Known(p: string) {
    p in PermOrder
  }

  /** Strength of a known permission: its index in `PermOrder`. */
  function Rank(p: string): (n: nat)
    requires Known(p)
    ensures n < |PermOrder| && PermOrder[n] == p
  {
    IndexOf(PermOrder, p).value
  }

  /** `max_perm`: the stronger of the stored permission and a new one.
      No stored value yields the new value as is; an unknown value on either side keeps the
      stored one. */
  function MaxPerm(current: Option<string>, newPerm: string): (r: string)
    ensures current.None? ==> r == newPerm
    ensures current.Some? && !(Known(current.value) && Known(newPerm)) ==> r == current.value
    ensures current.Some? && Known(current.value) && Known(newPerm) ==>
              && (r == current.value || r == newPerm)
              && Known(r)
              && Rank(current.value) <= Rank(r)
              && Rank(newPerm) <= Rank(r)
  {
    match current
    case None => newPerm
    case Some(cur) =>
      match (IndexOf(PermOrder, cur), IndexOf(PermOrder, newPerm))
      case (Some(i), Some(j)) => if j > i then newPerm else cur
      case _ => cur
  }

  /** Maximum of two known permissions, as a reference for `MaxPerm`. */
  function Stronger(a: string, b: string): string
    requires Known(a) && Known(b)
  {
    if Rank(a) >= Rank(b) then a else b
  }

  lemma RankInjective(a: string, b: string)
    requires Known(a) && Known(b)
    ensures Rank(a) == Rank(b) <==> a == b
  {
  }

  /** On two known values `MaxPerm` is the maximum under READ < WRITE < ADMIN. */
  lemma MaxPermIsMax(a: string, b: string)
    requires Known(a) && Known(b)
    ensures MaxPerm(Some(a), b) == Stronger(a, b)
  {
  }

  lemma MaxPermNoneYieldsNew(p: string)
    ensures MaxPerm(None, p) == p
  {
  }

  /** An unknown stored value survives every merge. */
  lemma MaxPermUnknownAbsorbing(cur: string, p: string)
    requires !Known(cur)
    ensures MaxPerm(Some(cur), p) == cur
  {
  }

  /** An unknown new value leaves the stored value in place. */
  lemma MaxPermUnknownIgnored(cur: string, p: string)
    requires !Known(p)
    ensures MaxPerm(Some(cur), p) == cur
  {
  }

  lemma MaxPermCommutative(a: string, b: string)
    requires Known(a) && Known(b)
    ensures MaxPerm(Some(a), b) == MaxPerm(Some(b), a)
  {
    RankInjective(a, b);
  }

  lemma MaxPermAssociative(a: string, b: string, c: string)
    requires Known(a) && Known(b) && Known(c)
    ensures MaxPerm(Some(MaxPerm(Some(a), b)), c) == MaxPerm(Some(a), MaxPerm(Some(b), c))
  {
    RankInjective(a, b);
    RankInjective(b, c);
    RankInjective(a, c);
  }

  lemma MaxPermIdempotent(a: string)
    ensures MaxPerm(Some(a), a) == a
  {
  }

  /** The Bitbucket-to-GitHub table is defined exactly on the known permissions, is injective and
      keeps the order: the GitHub level of a permission sits at the permission's own rank. */
  lemma BitbucketToGithubOrderPreserving(p: string, q: string)
    ensures p in BitbucketToGithub <==> Known(p)
    ensures Known(p) ==> BitbucketToGithub[p] == GithubLevels[Rank(p)]
    ensures Known(p) && Known(q) ==> (BitbucketToGithub[p] == BitbucketToGithub[q] <==> p == q)
  {
  }

  /** `GithubTarget`: the GitHub organisation and repository name of a Bitbucket repository. */
  datatype GithubTarget = GithubTarget(org: string, repo: string)

  /** `GithubTarget.from_project_repo`: naming convention `{project_key}-{repo_slug}`. */
  function FromProjectRepo(org: string, projectKey: string, repoSlug: string): (t: GithubTarget)
    ensures t.org == org
    ensures t.repo == projectKey + "-" + repoSlug
  {
    GithubTarget(org, projectKey + "-" + repoSlug)
  }

  /** The `owner/name` form the GitHub client is addressed with. */
  function FullName(t: GithubTarget): string {
    t.org + "/" + t.repo
  }

  /** In `{project_key}-{repo_slug}` with a hyphen-free key, the first hyphen ends the key. */
  lemma FirstHyphen(p: string, s: string)
    requires '-' !in p
    ensures IndexOf(p + "-" + s, '-') == Some(|p|)
  {
    var n := p + "-" + s;
    assert n[|p|] == '-';
    assert n[..|p|] == p;
    assert n[..|p| + 1] == p + "-";
  }

  /** Bitbucket project keys contain no hyphen; under that condition the naming convention
      never sends two Bitbucket repositories of one organisation to the same GitHub name. */
  lemma FromProjectRepoInjective(org: string, p1: string, s1: string, p2: string, s2: string)
    requires '-' !in p1 && '-' !in p2
    requires FromProjectRepo(org, p1, s1) == FromProjectRepo(org, p2, s2)
    ensures p1 == p2 && s1 == s2
  {
    var n := p1 + "-" + s1;
    assert n == p2 + "-" + s2;
    FirstHyphen(p1, s1);
    FirstHyphen(p2, s2);
    assert p1 == n[..|p1|] && p2 == n[..|p2|];
    assert s1 == n[|p1| + 1..] && s2 == n[|p2| + 1..];
  }

  /** Without that condition names collide: project `A-B` repo `c` and project `A` repo `B-c`. */
  lemma FromProjectRepoCollision()
    ensures FromProjectRepo("org", "A-B", "c") == FromProjectRepo("org", "A", "B-c")
  {
  }
}
