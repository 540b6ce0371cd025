/** The apply stage: for every repository of the plan and every entry in it, decide whether the
    collaborator already has the level the entry asks for, and grant it when not. GitHub is a
    state value: the repositories the token can open and what the permission read returns. */
module ApplyGithub {
  import opened Wrappers
  import opened Perms
  import opened ApplyInputs

  /** The run's options: target organisation, loaded mapping, `--default-missing`, `--dry-run`. */
  datatype Config = Config(org: string, mapping: map<string, string>, defaultMissing: Option<string>, dryRun: bool)

  /** The GitHub level an entry asks for. An empty permission counts as REPO_READ; a permission
      outside the table yields `None`, and the entry is skipped. */
  function DesiredLevel(permission: string): (r: Option<string>)
    ensures r.Some? <==> permission == "" || Known(permission)
    ensures r.Some? ==> r.value in GithubLevels
    ensures permission == "" ==> r == Some("pull")
    ensures Known(permission) ==> r == Some(GithubLevels[Rank(permission)])
  {
    var bb := if permission == "" then "REPO_READ" else permission;
    if bb in BitbucketToGithub then Some(BitbucketToGithub[bb]) else None
  }

  /** The login an entry is applied to: the mapped login, else a non-empty default, else none. */
  function ResolveLogin(email: string, mapping: map<string, string>, defaultMissing: Option<string>): (r: Option<string>)
    ensures r.Some? ==> r.value != ""
    ensures email in mapping && mapping[email] != "" ==> r == Some(mapping[email])
    ensures !(email in mapping && mapping[email] != "") ==>
              r == if defaultMissing.Some? && defaultMissing.value != "" then defaultMissing else None
  {
    if email in mapping && mapping[email] != "" then Some(mapping[email])
    else if defaultMissing.Some? && defaultMissing.value != "" then defaultMissing
    else None
  }

  /** The collaborator and level an entry resolves to. */
  datatype Target = Target(login: string, level: string)

  function Resolve(c: Config, e: Entry): (r: Option<Target>)
    ensures r.Some? <==> DesiredLevel(e.permission).Some? && ResolveLogin(NormEmail(e.email), c.mapping, c.defaultMissing).Some?
    ensures r.Some? ==> r.value.login != "" && r.value.level in GithubLevels
    ensures r.Some? ==> r.value == Target(ResolveLogin(NormEmail(e.email), c.mapping, c.defaultMissing).value,
                                          DesiredLevel(e.permission).value)
  {
    match DesiredLevel(e.permission)
    case None => None
    case Some(level) =>
      match ResolveLogin(NormEmail(e.email), c.mapping, c.defaultMissing)
      case None => None
      case Some(login) => Some(Target(login, level))
  }

  /* ---------- reading the current permission ---------- */

  /** What reading a collaborator's permission gives: an exception (for one, the user is not a
      collaborator yet), no value, or a permission name. */
  datatype CurrentPermission = ReadFailed | NoPermission | Reported(name: string)

  /** GitHub's names mapped onto the levels; a name outside the table is kept as it is. */
  const NormalizeTable: map<string, string> :=
    map["admin" := "admin", "write" := "push", "triage" := "triage", "maintain" := "maintain", "read" := "pull"]

  function Normalize(name: string): (r: string)
    ensures r != name <==> name == "write" || name == "read"
    ensures name == "write" ==> r == "push"
    ensures name == "read" ==> r == "pull"
  {
    if name in NormalizeTable then NormalizeTable[name] else name
  }

  /** The name GitHub reports for a collaborator holding a granted level. */
  function ReportedName(level: string): (n: string)
    requires level in GithubLevels
    ensures n in NormalizeTable && NormalizeTable[n] == level
  {
    if level == "pull" then "read" else if level == "push" then "write" else "admin"
  }

  /** No update is needed exactly when the read returned a non-empty name that normalises to the level. */
  predicate AlreadyCurrent(cur: CurrentPermission, level: string) {
    cur.Reported? && cur.name != "" && Normalize(cur.name) == level
  }

  /** The names that count as holding a level are the level itself and GitHub's name for it. */
  lemma NormalizeInverse(name: string, level: string)
    requires level in GithubLevels
    ensures Normalize(name) == level <==> name == level || name == ReportedName(level)
  {
  }

  /** `maintain` and `triage` never count as a level the tool grants, so such a collaborator is
      always rewritten to the entry's level. */
  lemma NormalizeKeepsExtraRoles(level: string)
    requires level in GithubLevels
    ensures !AlreadyCurrent(Reported("maintain"), level)
    ensures !AlreadyCurrent(Reported("triage"), level)
  {
  }

  /* ---------- GitHub as a state ---------- */

  /** Repositories that open, and the read result per (repository, login); a pair absent from
      the map reads as an exception. */
  datatype Github = Github(reachable: set<string>, collaborators: map<(string, string), CurrentPermission>)

  function Read(gh: Github, repo: string, login: string): (r: CurrentPermission)
    ensures (repo, login) !in gh.collaborators ==> r == ReadFailed
    ensures (repo, login) in gh.collaborators ==> r == gh.collaborators[(repo, login)]
  {
    if (repo, login) in gh.collaborators then gh.collaborators[(repo, login)] else ReadFailed
  }

  /** A successful `add_to_collaborators`: later reads report the granted level. */
  function Grant(gh: Github, repo: string, login: string, level: string): (r: Github)
    requires level in GithubLevels
    ensures r.reachable == gh.reachable
    ensures AlreadyCurrent(Read(r, repo, login), level)
    ensures forall rp, l :: (rp, l) != (repo, login) ==> Read(r, rp, l) == Read(gh, rp, l)
  {
    gh.(collaborators := gh.collaborators[(repo, login) := Reported(ReportedName(level))])
  }

  /** What the run does or reports for a repository or an entry. */
  datatype Action =
    | RepoUnreachable(repo: string)
    | UnknownPermission(repo: string, email: string, permission: string)
    | NoMapping(repo: string, email: string)
    | AlreadyHas(repo: string, login: string, level: string)
    | WouldApply(repo: string, login: string, level: string)
    | Granted(repo: string, login: string, level: string)

  datatype Outcome = Outcome(actions: seq<Action>, gh: Github)

  /** The decision for one entry of a reachable repository. */
  function ProcessEntry(c: Config, repo: string, e: Entry, gh: Github): (o: Outcome)
    ensures |o.actions| == 1
    ensures o.gh.reachable == gh.reachable
    ensures o.actions[0].UnknownPermission? <==> DesiredLevel(e.permission).None?
    ensures o.actions[0].NoMapping? <==>
              DesiredLevel(e.permission).Some? && ResolveLogin(NormEmail(e.email), c.mapping, c.defaultMissing).None?
    ensures o.actions[0].AlreadyHas? <==>
              Resolve(c, e).Some? && AlreadyCurrent(Read(gh, repo, Resolve(c, e).value.login), Resolve(c, e).value.level)
    ensures o.actions[0].Granted? <==> !c.dryRun && Resolve(c, e).Some? && !AlreadyCurrent(Read(gh, repo, Resolve(c, e).value.login), Resolve(c, e).value.level)
    ensures o.actions[0].WouldApply? <==> c.dryRun && Resolve(c, e).Some? && !AlreadyCurrent(Read(gh, repo, Resolve(c, e).value.login), Resolve(c, e).value.level)
    ensures o.actions[0].Granted? || o.actions[0].WouldApply? || o.actions[0].AlreadyHas? ==>
              o.actions[0].repo == repo && Resolve(c, e) == Some(Target(o.actions[0].login, o.actions[0].level))
    ensures !o.actions[0].Granted? ==> o.gh == gh
    ensures o.actions[0].Granted? ==> o.gh == Grant(gh, repo, o.actions[0].login, o.actions[0].level)
  {
    var email := NormEmail(e.email);
    match DesiredLevel(e.permission)
    case None => Outcome([UnknownPermission(repo, email, e.permission)], gh)
    case Some(level) =>
      match ResolveLogin(email, c.mapping, c.defaultMissing)
      case None => Outcome([NoMapping(repo, email)], gh)
      case Some(login) =>
        if AlreadyCurrent(Read(gh, repo, login), level) then Outcome([AlreadyHas(repo, login, level)], gh)
        else if c.dryRun then Outcome([WouldApply(repo, login, level)], gh)
        else Outcome([Granted(repo, login, level)], Grant(gh, repo, login, level))
  }

  /** The entries of one repository, in order; each read sees the grants made before it. */
  function ProcessEntries(c: Config, repo: string, es: seq<Entry>, gh: Github): (o: Outcome)
    ensures |o.actions| == |es|
    ensures o.gh.reachable == gh.reachable
  {
    if |es| == 0 then Outcome([], gh)
    else
      var first := ProcessEntry(c, repo, es[0], gh);
      var rest := ProcessEntries(c, repo, es[1..], first.gh);
      Outcome(first.actions + rest.actions, rest.gh)
  }

  /** One repository: a single report when it cannot be opened, its entries otherwise. */
  function ProcessRepo(c: Config, b: Bucket, gh: Github): (o: Outcome)
    ensures o.gh.reachable == gh.reachable
    ensures b.name !in gh.reachable ==> o == Outcome([RepoUnreachable(b.name)], gh)
  {
    if b.name !in gh.reachable then Outcome([RepoUnreachable(b.name)], gh)
    else ProcessEntries(c, b.name, b.entries, gh)
  }

  function ProcessRepos(c: Config, bs: seq<Bucket>, gh: Github): (o: Outcome)
    ensures o.gh.reachable == gh.reachable
  {
    if |bs| == 0 then Outcome([], gh)
    else
      var first := ProcessRepo(c, bs[0], gh);
      var rest := ProcessRepos(c, bs[1..], first.gh);
      Outcome(first.actions + rest.actions, rest.gh)
  }

  /** `apply_permissions` after loading: every repository of the plan, in name order. */
  function ApplyPermissions(c: Config, rows: seq<Entry>, gh: Github): (o: Outcome)
    ensures o.gh.reachable == gh.reachable
  {
    ProcessRepos(c, Plan(c.org, rows), gh)
  }
}
