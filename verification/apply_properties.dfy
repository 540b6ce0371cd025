/** Properties of the apply stage: what a dry run leaves alone, where grants go, and when a
    second run has nothing left to do. */
module ApplyProperties {
  import opened Wrappers
  import opened Strings
  import opened Ordering
  import opened Perms
  import opened ApplyInputs
  import opened ApplyGithub

  /** Two entries that resolve to the same login ask for the same level. */
  ghost predicate ConsistentEntries(c: Config, es: seq<Entry>) {
    forall e1, e2 ::
      (e1 in es && e2 in es && Resolve(c, e1).Some? && Resolve(c, e2).Some? &&
       Resolve(c, e1).value.login == Resolve(c, e2).value.login) ==> Resolve(c, e1) == Resolve(c, e2)
  }

  /** Every resolvable entry's collaborator already holds the entry's level on `repo`. */
  ghost predicate AllSettled(c: Config, repo: string, es: seq<Entry>, gh: Github) {
    forall e :: e in es && Resolve(c, e).Some? ==> AlreadyCurrent(Read(gh, repo, Resolve(c, e).value.login), Resolve(c, e).value.level)
  }

  /* ---------- the entries of one repository ---------- */

  lemma {:induction false} EntriesDryRun(c: Config, repo: string, es: seq<Entry>, gh: Github)
    requires c.dryRun
    ensures ProcessEntries(c, repo, es, gh).gh == gh
    ensures forall a :: a in ProcessEntries(c, repo, es, gh).actions ==> !a.Granted?
  {
    if |es| > 0 {
      EntriesDryRun(c, repo, es[1..], gh);
    }
  }

  lemma {:induction false} EntriesActions(c: Config, repo: string, es: seq<Entry>, gh: Github)
    ensures forall a :: a in ProcessEntries(c, repo, es, gh).actions ==> a.repo == repo && !a.RepoUnreachable?
    ensures forall a :: a in ProcessEntries(c, repo, es, gh).actions && (a.Granted? || a.WouldApply? || a.AlreadyHas?) ==>
              exists e :: e in es && Resolve(c, e) == Some(Target(a.login, a.level))
  {
    if |es| > 0 {
      var first := ProcessEntry(c, repo, es[0], gh);
      EntriesActions(c, repo, es[1..], first.gh);
      assert es[0] in es;
      assert forall e :: e in es[1..] ==> e in es;
    }
  }

  /** Only pairs that received a grant read differently afterwards. */
  lemma {:induction false} EntriesFrame(c: Config, repo: string, es: seq<Entry>, gh: Github)
    ensures forall rp, l :: Read(ProcessEntries(c, repo, es, gh).gh, rp, l) != Read(gh, rp, l) ==>
              exists lv :: Granted(rp, l, lv) in ProcessEntries(c, repo, es, gh).actions
  {
    if |es| > 0 {
      var first := ProcessEntry(c, repo, es[0], gh);
      var rest := ProcessEntries(c, repo, es[1..], first.gh);
      EntriesFrame(c, repo, es[1..], first.gh);
      assert ProcessEntries(c, repo, es, gh).actions == first.actions + rest.actions;
      forall rp, l | Read(rest.gh, rp, l) != Read(gh, rp, l)
        ensures exists lv :: Granted(rp, l, lv) in first.actions + rest.actions
      {
        if Read(rest.gh, rp, l) == Read(first.gh, rp, l) {
          var a := first.actions[0];
          assert a.Granted?;
          assert (rp, l) == (repo, a.login);
          assert a == Granted(rp, l, a.level);
          assert a in first.actions + rest.actions;
        } else {
          var lv :| Granted(rp, l, lv) in rest.actions;
          assert Granted(rp, l, lv) in first.actions + rest.actions;
        }
      }
    }
  }

  /** Entries that want `t`'s level whenever they resolve to `t`'s login keep `t` settled. */
  lemma {:induction false} EntriesPreserve(c: Config, repo: string, es: seq<Entry>, gh: Github, t: Target)
    requires AlreadyCurrent(Read(gh, repo, t.login), t.level)
    requires forall e :: e in es && Resolve(c, e).Some? && Resolve(c, e).value.login == t.login ==> Resolve(c, e) == Some(t)
    ensures AlreadyCurrent(Read(ProcessEntries(c, repo, es, gh).gh, repo, t.login), t.level)
  {
    if |es| > 0 {
      var first := ProcessEntry(c, repo, es[0], gh);
      assert es[0] in es;
      assert AlreadyCurrent(Read(first.gh, repo, t.login), t.level);
      assert forall e :: e in es[1..] ==> e in es;
      EntriesPreserve(c, repo, es[1..], first.gh, t);
    }
  }

  /** A real run leaves every resolvable entry of a reachable repository settled. */
  lemma {:induction false} EntriesSettle(c: Config, repo: string, es: seq<Entry>, gh: Github)
    requires !c.dryRun
    requires ConsistentEntries(c, es)
    ensures AllSettled(c, repo, es, ProcessEntries(c, repo, es, gh).gh)
  {
    if |es| > 0 {
      var first := ProcessEntry(c, repo, es[0], gh);
      var o := ProcessEntries(c, repo, es, gh);
      assert forall e :: e in es[1..] ==> e in es;
      assert es[0] in es;
      assert ConsistentEntries(c, es[1..]);
      EntriesSettle(c, repo, es[1..], first.gh);
      if Resolve(c, es[0]).Some? {
        var t := Resolve(c, es[0]).value;
        assert AlreadyCurrent(Read(first.gh, repo, t.login), t.level);
        EntriesPreserve(c, repo, es[1..], first.gh, t);
      }
      forall e | e in es && Resolve(c, e).Some?
        ensures AlreadyCurrent(Read(o.gh, repo, Resolve(c, e).value.login), Resolve(c, e).value.level)
      {
        if e != es[0] {
          assert e in es[1..];
        }
      }
    }
  }

  /** Over settled entries nothing is granted, reported as pending, or changed. */
  lemma {:induction false} EntriesQuiet(c: Config, repo: string, es: seq<Entry>, gh: Github)
    requires AllSettled(c, repo, es, gh)
    ensures ProcessEntries(c, repo, es, gh).gh == gh
    ensures forall a :: a in ProcessEntries(c, repo, es, gh).actions ==> !a.Granted? && !a.WouldApply?
  {
    if |es| > 0 {
      assert es[0] in es;
      assert forall e :: e in es[1..] ==> e in es;
      EntriesQuiet(c, repo, es[1..], gh);
    }
  }

  /* ---------- the repositories of a plan ---------- */

  lemma {:induction false} ReposDryRun(c: Config, bs: seq<Bucket>, gh: Github)
    requires c.dryRun
    ensures ProcessRepos(c, bs, gh).gh == gh
    ensures forall a :: a in ProcessRepos(c, bs, gh).actions ==> !a.Granted?
  {
    if |bs| > 0 {
      EntriesDryRun(c, bs[0].name, bs[0].entries, gh);
      ReposDryRun(c, bs[1..], gh);
    }
  }

  lemma {:induction false} ReposActions(c: Config, bs: seq<Bucket>, gh: Github)
    ensures forall a :: a in ProcessRepos(c, bs, gh).actions ==> exists b :: b in bs && b.name == a.repo
    ensures forall a :: a in ProcessRepos(c, bs, gh).actions && a.repo !in gh.reachable ==> a.RepoUnreachable?
    ensures forall a :: a in ProcessRepos(c, bs, gh).actions && (a.Granted? || a.WouldApply? || a.AlreadyHas?) ==>
              exists b, e :: b in bs && b.name == a.repo && e in b.entries && Resolve(c, e) == Some(Target(a.login, a.level))
  {
    if |bs| > 0 {
      var first := ProcessRepo(c, bs[0], gh);
      ReposActions(c, bs[1..], first.gh);
      EntriesActions(c, bs[0].name, bs[0].entries, gh);
      assert bs[0] in bs;
      assert forall b :: b in bs[1..] ==> b in bs;
    }
  }

  lemma {:induction false} ReposFrame(c: Config, bs: seq<Bucket>, gh: Github)
    ensures forall rp, l :: Read(ProcessRepos(c, bs, gh).gh, rp, l) != Read(gh, rp, l) ==>
              exists lv :: Granted(rp, l, lv) in ProcessRepos(c, bs, gh).actions
  {
    if |bs| > 0 {
      var first := ProcessRepo(c, bs[0], gh);
      var rest := ProcessRepos(c, bs[1..], first.gh);
      EntriesFrame(c, bs[0].name, bs[0].entries, gh);
      ReposFrame(c, bs[1..], first.gh);
      forall rp, l | Read(rest.gh, rp, l) != Read(gh, rp, l)
        ensures exists lv :: Granted(rp, l, lv) in first.actions + rest.actions
      {
        if Read(rest.gh, rp, l) == Read(first.gh, rp, l) {
          var lv :| Granted(rp, l, lv) in first.actions;
          assert Granted(rp, l, lv) in first.actions + rest.actions;
        } else {
          var lv :| Granted(rp, l, lv) in rest.actions;
          assert Granted(rp, l, lv) in first.actions + rest.actions;
        }
      }
    }
  }

  ghost predicate ReposSettled(c: Config, bs: seq<Bucket>, gh: Github) {
    forall b :: b in bs && b.name in gh.reachable ==> AllSettled(c, b.name, b.entries, gh)
  }

  lemma {:induction false} ReposSettle(c: Config, bs: seq<Bucket>, gh: Github)
    requires !c.dryRun
    requires DistinctKeys(bs, BucketName)
    requires forall b :: b in bs ==> ConsistentEntries(c, b.entries)
    ensures ReposSettled(c, bs, ProcessRepos(c, bs, gh).gh)
  {
    if |bs| > 0 {
      var b0 := bs[0];
      var first := ProcessRepo(c, b0, gh);
      var rest := ProcessRepos(c, bs[1..], first.gh);
      assert b0 in bs;
      assert forall b :: b in bs[1..] ==> b in bs;
      DistinctTail(bs, BucketName);
      ReposSettle(c, bs[1..], first.gh);
      if b0.name in gh.reachable {
        EntriesSettle(c, b0.name, b0.entries, gh);
        ReposFrame(c, bs[1..], first.gh);
        ReposActions(c, bs[1..], first.gh);
        HeadKeyFresh(bs, bs[1..], BucketName);
        forall a | a in rest.actions ensures a.repo != b0.name {
          var b :| b in bs[1..] && b.name == a.repo;
        }
        assert forall l, lv :: Granted(b0.name, l, lv) !in rest.actions;
        assert AllSettled(c, b0.name, b0.entries, rest.gh);
      }
      forall b | b in bs && b.name in rest.gh.reachable ensures AllSettled(c, b.name, b.entries, rest.gh) {
        if b != b0 {
          assert b in bs[1..];
        }
      }
    }
  }

  lemma {:induction false} ReposQuiet(c: Config, bs: seq<Bucket>, gh: Github)
    requires ReposSettled(c, bs, gh)
    ensures ProcessRepos(c, bs, gh).gh == gh
    ensures forall a :: a in ProcessRepos(c, bs, gh).actions ==> !a.Granted? && !a.WouldApply?
  {
    if |bs| > 0 {
      assert bs[0] in bs;
      assert forall b :: b in bs[1..] ==> b in bs;
      if bs[0].name in gh.reachable {
        EntriesQuiet(c, bs[0].name, bs[0].entries, gh);
      }
      ReposQuiet(c, bs[1..], gh);
    }
  }

  /* ---------- the whole run ---------- */

  /** Two rows of one repository that resolve to the same login ask for the same level. */
  ghost predicate ConsistentRows(c: Config, rows: seq<Entry>) {
    forall e1, e2 ::
      (e1 in rows && e2 in rows && RepoOf(c.org, e1) == RepoOf(c.org, e2) &&
       Resolve(c, e1).Some? && Resolve(c, e2).Some? &&
       Resolve(c, e1).value.login == Resolve(c, e2).value.login) ==> Resolve(c, e1) == Resolve(c, e2)
  }

  /** A dry run grants nothing and leaves GitHub as it was. */
  lemma ApplyDryRun(c: Config, rows: seq<Entry>, gh: Github)
    requires c.dryRun
    ensures ApplyPermissions(c, rows, gh).gh == gh
    ensures forall a :: a in ApplyPermissions(c, rows, gh).actions ==> !a.Granted?
  {
    ReposDryRun(c, Plan(c.org, rows), gh);
  }

  /** Every grant goes to a reachable `org/{project_key}-{repo_slug}` of some row, for the login
      and GitHub level that row resolves to; an unreachable repository gets only its report. */
  lemma ApplyGrantTargets(c: Config, rows: seq<Entry>, gh: Github)
    ensures forall a :: a in ApplyPermissions(c, rows, gh).actions && a.repo !in gh.reachable ==> a.RepoUnreachable?
    ensures forall a :: a in ApplyPermissions(c, rows, gh).actions && a.Granted? ==>
              && a.repo in gh.reachable
              && a.level in GithubLevels
              && exists e :: e in rows && a.repo == c.org + "/" + e.projectKey + "-" + e.repoSlug &&
                             Resolve(c, e) == Some(Target(a.login, a.level))
  {
    var plan := Plan(c.org, rows);
    ReposActions(c, plan, gh);
    PlanContents(c.org, rows);
    forall a | a in ApplyPermissions(c, rows, gh).actions && a.Granted?
      ensures exists e :: e in rows && a.repo == c.org + "/" + e.projectKey + "-" + e.repoSlug &&
                          Resolve(c, e) == Some(Target(a.login, a.level))
    {
      var b, e :| b in plan && b.name == a.repo && e in b.entries && Resolve(c, e) == Some(Target(a.login, a.level));
      assert e in RowsFor(c.org, rows, b.name);
      assert RepoOf(c.org, e) == a.repo;
    }
  }

  /** Only pairs that received a grant read differently after the run. */
  lemma ApplyFrame(c: Config, rows: seq<Entry>, gh: Github)
    ensures ApplyPermissions(c, rows, gh).gh.reachable == gh.reachable
    ensures forall rp, l :: Read(ApplyPermissions(c, rows, gh).gh, rp, l) != Read(gh, rp, l) ==>
              exists lv :: Granted(rp, l, lv) in ApplyPermissions(c, rows, gh).actions
  {
    ReposFrame(c, Plan(c.org, rows), gh);
  }

  /** Consistent rows make every repository's buckets consistent, and put each row in its bucket. */
  lemma PlanConsistent(c: Config, rows: seq<Entry>)
    requires ConsistentRows(c, rows)
    ensures forall b :: b in Plan(c.org, rows) ==> ConsistentEntries(c, b.entries)
  {
    PlanContents(c.org, rows);
  }

  /** After a real run over consistent rows, every resolvable row of a reachable repository has
      its collaborator at its level. */
  lemma ApplySettles(c: Config, rows: seq<Entry>, gh: Github)
    requires !c.dryRun
    requires ConsistentRows(c, rows)
    ensures forall e :: e in rows && RepoOf(c.org, e) in gh.reachable && Resolve(c, e).Some? ==>
              AlreadyCurrent(Read(ApplyPermissions(c, rows, gh).gh, RepoOf(c.org, e), Resolve(c, e).value.login), Resolve(c, e).value.level)
  {
    var plan := Plan(c.org, rows);
    PlanConsistent(c, rows);
    PlanContents(c.org, rows);
    ReposSettle(c, plan, gh);
    var o := ApplyPermissions(c, rows, gh);
    forall e | e in rows && RepoOf(c.org, e) in gh.reachable && Resolve(c, e).Some?
      ensures AlreadyCurrent(Read(o.gh, RepoOf(c.org, e), Resolve(c, e).value.login), Resolve(c, e).value.level)
    {
      var b :| b in plan && b.name == RepoOf(c.org, e);
      assert e in RowsFor(c.org, rows, b.name);
      assert AllSettled(c, b.name, b.entries, o.gh);
    }
  }

  /** Running again over the same consistent rows grants nothing and changes nothing. */
  lemma ApplyIdempotent(c: Config, rows: seq<Entry>, gh: Github)
    requires !c.dryRun
    requires ConsistentRows(c, rows)
    ensures ApplyPermissions(c, rows, ApplyPermissions(c, rows, gh).gh).gh == ApplyPermissions(c, rows, gh).gh
    ensures forall a :: a in ApplyPermissions(c, rows, ApplyPermissions(c, rows, gh).gh).actions ==> !a.Granted? && !a.WouldApply?
  {
    var plan := Plan(c.org, rows);
    PlanConsistent(c, rows);
    ReposSettle(c, plan, gh);
    var o := ApplyPermissions(c, rows, gh);
    assert o.gh.reachable == gh.reachable;
    ReposQuiet(c, plan, o.gh);
  }

  /* ---------- single decisions ---------- */

  /** A read that fails or returns nothing always leads to a grant of a resolvable entry. */
  lemma ReadFailureForcesGrant(c: Config, repo: string, e: Entry, gh: Github)
    requires !c.dryRun
    requires Resolve(c, e).Some?
    requires Read(gh, repo, Resolve(c, e).value.login) in {ReadFailed, NoPermission, Reported("")}
    ensures ProcessEntry(c, repo, e, gh).actions == [Granted(repo, Resolve(c, e).value.login, Resolve(c, e).value.level)]
  {
  }

  /** A different current level is overwritten, also when it is higher: an administrator whose
      entry asks for REPO_READ is lowered to `pull`. */
  lemma ExampleDowngrade()
    ensures ProcessEntry(Config("org", map[], Some("svc"), false), "org/P-r",
                         Entry("P", "r", "", "REPO_READ"),
                         Github({"org/P-r"}, map[("org/P-r", "svc") := Reported("admin")])).actions
            == [Granted("org/P-r", "svc", "pull")]
  {
    assert NormEmail("") == "";
  }

  /** Without consistency the last entry wins and a second run grants again: two unmapped
      entries that both fall back to `svc` with READ and ADMIN. */
  lemma ExampleInconsistentRegrants()
    ensures var c := Config("org", map[], Some("svc"), false);
            var es := [Entry("P", "r", "", "REPO_READ"), Entry("P", "r", "", "REPO_ADMIN")];
            var gh := Github({"org/P-r"}, map[]);
            var once := ProcessEntries(c, "org/P-r", es, gh);
            ProcessEntries(c, "org/P-r", es, once.gh).actions[0] == Granted("org/P-r", "svc", "pull")
  {
    var c := Config("org", map[], Some("svc"), false);
    var es := [Entry("P", "r", "", "REPO_READ"), Entry("P", "r", "", "REPO_ADMIN")];
    var gh := Github({"org/P-r"}, map[]);
    var g1 := Grant(gh, "org/P-r", "svc", "pull");
    var g2 := Grant(g1, "org/P-r", "svc", "admin");
    assert ProcessEntry(c, "org/P-r", es[0], gh).gh == g1;
    assert ProcessEntries(c, "org/P-r", es[1..], g1).gh == g2;
    assert Read(g2, "org/P-r", "svc") == Reported("admin");
  }
}
