/** The apply stage's inputs: the email-to-login mapping it loads, and the effective rows it
    groups by target GitHub repository and visits in name order. */
module ApplyInputs {
  import opened Wrappers
  import opened Strings
  import opened Ordering
  import opened Perms

  /* ---------- email_github_login.csv ---------- */

  /** A row of email_github_login.csv. */
  datatype MappingRow = MappingRow(email: string, githubLogin: string)

  /** Emails are compared stripped and lower-cased. */
  function NormEmail(s: string): string {
    Lower(Strip(s))
  }

  /** A normalised email is never longer than the input, has no upper-case letter and no
      whitespace at either end, and is empty exactly when the input is all whitespace. */
  lemma NormEmailSpec(s: string)
    ensures |NormEmail(s)| <= |s|
    ensures forall i :: 0 <= i < |NormEmail(s)| ==> !('A' <= NormEmail(s)[i] <= 'Z')
    ensures NormEmail(s) == [] || (!IsSpace(NormEmail(s)[0]) && !IsSpace(NormEmail(s)[|NormEmail(s)| - 1]))
    ensures NormEmail(s) == [] <==> forall i :: 0 <= i < |s| ==> IsSpace(s[i])
  {
    StripSpec(s);
    LowerSpec(Strip(s));
  }

  /** A mapping row is kept only when both its normalised email and its stripped login are non-empty. */
  predicate Usable(r: MappingRow) {
    NormEmail(r.email) != "" && Strip(r.githubLogin) != ""
  }

  /** The login the last usable row for email `e` names, if any. */
  function LastLogin(rows: seq<MappingRow>, e: string): Option<string> {
    if |rows| == 0 then None
    else
      var last := rows[|rows| - 1];
      if Usable(last) && NormEmail(last.email) == e then Some(Strip(last.githubLogin))
      else LastLogin(rows[..|rows| - 1], e)
  }

  lemma LastLoginSnoc(rows: seq<MappingRow>, r: MappingRow, e: string)
    ensures LastLogin(rows + [r], e) == if Usable(r) && NormEmail(r.email) == e then Some(Strip(r.githubLogin)) else LastLogin(rows, e)
  {
    assert (rows + [r])[..|rows|] == rows;
  }

  /** One more mapping row updates the loaded map the way `mapping[email] = login` does. */
  lemma LastLoginStep(rows: seq<MappingRow>, r: MappingRow, mapping: map<string, string>)
    requires Loaded(rows, mapping)
    ensures Loaded(rows + [r], if Usable(r) then mapping[NormEmail(r.email) := Strip(r.githubLogin)] else mapping)
  {
    forall e ensures LastLogin(rows + [r], e) == if Usable(r) && NormEmail(r.email) == e then Some(Strip(r.githubLogin)) else LastLogin(rows, e) {
      LastLoginSnoc(rows, r, e);
    }
  }

  /** An email has a login exactly when some usable row names it, and that login comes from such a row. */
  lemma {:induction false} LastLoginMeaning(rows: seq<MappingRow>, e: string)
    ensures LastLogin(rows, e).None? <==> forall row :: row in rows ==> !(Usable(row) && NormEmail(row.email) == e)
    ensures LastLogin(rows, e).Some? ==>
              exists row :: row in rows && Usable(row) && NormEmail(row.email) == e && Strip(row.githubLogin) == LastLogin(rows, e).value
    decreases |rows|
  {
    if |rows| > 0 {
      var front := rows[..|rows| - 1];
      var last := rows[|rows| - 1];
      assert rows == front + [last];
      LastLoginMeaning(front, e);
      assert forall row :: row in rows <==> row in front || row == last;
      if Usable(last) && NormEmail(last.email) == e {
        assert last in rows;
      }
    }
  }

  /** A usable row for `e` followed only by rows that say nothing about `e` decides `e`'s login. */
  lemma {:induction false} LastLoginLastWins(rows: seq<MappingRow>, i: nat)
    requires i < |rows| && Usable(rows[i])
    requires forall j :: i < j < |rows| ==> !(Usable(rows[j]) && NormEmail(rows[j].email) == NormEmail(rows[i].email))
    ensures LastLogin(rows, NormEmail(rows[i].email)) == Some(Strip(rows[i].githubLogin))
    decreases |rows|
  {
    var e := NormEmail(rows[i].email);
    var front := rows[..|rows| - 1];
    var last := rows[|rows| - 1];
    assert rows == front + [last];
    LastLoginSnoc(front, last, e);
    if i < |rows| - 1 {
      assert !(Usable(last) && NormEmail(last.email) == e);
      assert front[i] == rows[i];
      forall j | i < j < |front| ensures !(Usable(front[j]) && NormEmail(front[j].email) == e) {
        assert front[j] == rows[j];
      }
      LastLoginLastWins(front, i);
    }
  }

  /** `mapping` holds, for each email, the login the last usable row of `rows` gives it. */
  ghost predicate Loaded(rows: seq<MappingRow>, mapping: map<string, string>) {
    forall e :: LastLogin(rows, e) == if e in mapping then Some(mapping[e]) else None
  }

  /** Keys are non-empty normalised emails; values are non-empty stripped logins. */
  ghost predicate Normalised(mapping: map<string, string>) {
    forall e :: e in mapping ==> e != "" && NormEmail(e) == e && mapping[e] != "" && Strip(mapping[e]) == mapping[e]
  }

  lemma NormalisedStep(mapping: map<string, string>, r: MappingRow)
    requires Normalised(mapping) && Usable(r)
    ensures Normalised(mapping[NormEmail(r.email) := Strip(r.githubLogin)])
  {
    NormalizeIdempotent(r.email);
    StripIdempotent(r.githubLogin);
  }

  /** The map after one more row of the loading loop. */
  function LoadRow(mapping: map<string, string>, r: MappingRow): map<string, string> {
    if Usable(r) then mapping[NormEmail(r.email) := Strip(r.githubLogin)] else mapping
  }

  /** One iteration of the loading loop keeps both loop facts. */
  lemma LoadStep(rows: seq<MappingRow>, i: nat, mapping: map<string, string>)
    requires i < |rows|
    requires Loaded(rows[..i], mapping) && Normalised(mapping)
    ensures Loaded(rows[..i + 1], LoadRow(mapping, rows[i])) && Normalised(LoadRow(mapping, rows[i]))
  {
    assert rows[..i + 1] == rows[..i] + [rows[i]];
    LastLoginStep(rows[..i], rows[i], mapping);
    if Usable(rows[i]) {
      NormalisedStep(mapping, rows[i]);
    }
  }

  /** `load_email_to_login`: `None` stands for no mapping file. Each kept row overwrites an
      earlier row for the same normalised email. */
  method LoadEmailToLogin(mappingCsv: Option<seq<MappingRow>>) returns (mapping: map<string, string>)
    ensures mappingCsv.None? ==> mapping == map[]
    ensures mappingCsv.Some? ==>
              forall e :: LastLogin(mappingCsv.value, e) == if e in mapping then Some(mapping[e]) else None
    ensures forall e :: e in mapping ==> e != "" && NormEmail(e) == e && mapping[e] != "" && Strip(mapping[e]) == mapping[e]
  {
    mapping := map[];
    if mappingCsv.None? {
      return;
    }
    var rows := mappingCsv.value;
    var i := 0;
    while i < |rows|
      invariant 0 <= i <= |rows|
      invariant Loaded(rows[..i], mapping)
      invariant Normalised(mapping)
    {
      var r := rows[i];
      var email := NormEmail(r.email);
      var login := Strip(r.githubLogin);
      LoadStep(rows, i, mapping);
      if email != "" && login != "" {
        mapping := mapping[email := login];
      }
      i := i + 1;
    }
    assert rows[..|rows|] == rows;
  }

  /* ---------- effective_repo_user_permissions.csv, grouped by repository ---------- */

  /** The columns of an effective row that the apply stage reads. */
  datatype Entry = Entry(projectKey: string, repoSlug: string, email: string, permission: string)

  /** The `owner/name` of the GitHub repository an entry is applied to. */
  function RepoOf(org: string, e: Entry): (r: string)
    ensures r == org + "/" + e.projectKey + "-" + e.repoSlug
  {
    FullName(FromProjectRepo(org, e.projectKey, e.repoSlug))
  }

  /** The entries of one repository, in row order. */
  datatype Bucket = Bucket(name: string, entries: seq<Entry>)

  function BucketName(b: Bucket): string {
    b.name
  }

  /** Reference meaning of a bucket: the rows aimed at repository `name`, in row order. */
  function RowsFor(org: string, rows: seq<Entry>, name: string): (r: seq<Entry>)
    ensures forall e :: e in r <==> e in rows && RepoOf(org, e) == name
    ensures |r| <= |rows|
  {
    if |rows| == 0 then []
    else
      var last := rows[|rows| - 1];
      assert rows == rows[..|rows| - 1] + [last];
      RowsFor(org, rows[..|rows| - 1], name) + (if RepoOf(org, last) == name then [last] else [])
  }

  /** `by_repo.get(name)`. */
  function Find(bs: seq<Bucket>, name: string): (r: Option<seq<Entry>>)
    ensures r.Some? <==> exists b :: b in bs && b.name == name
  {
    if |bs| == 0 then None
    else if bs[0].name == name then Some(bs[0].entries)
    else
      assert forall b :: b in bs <==> b == bs[0] || b in bs[1..];
      Find(bs[1..], name)
  }

  /** `by_repo.setdefault(name, []).append(e)`. */
  function AddEntry(bs: seq<Bucket>, name: string, e: Entry): (r: seq<Bucket>)
    requires DistinctKeys(bs, BucketName)
    ensures DistinctKeys(r, BucketName)
    ensures forall n :: Find(r, n) == if n != name then Find(bs, n)
                                      else if Find(bs, n).Some? then Some(Find(bs, n).value + [e])
                                      else Some([e])
  {
    if |bs| == 0 then [Bucket(name, [e])]
    else if bs[0].name == name then
      var r := [Bucket(name, bs[0].entries + [e])] + bs[1..];
      assert forall k :: 0 < k < |r| ==> r[k] == bs[k];
      assert Find(r, name) == Some(bs[0].entries + [e]);
      assert forall n :: n != name ==> Find(r, n) == Find(bs[1..], n) == Find(bs, n);
      r
    else
      DistinctTail(bs, BucketName);
      HeadKeyFresh(bs, bs[1..], BucketName);
      var rest := AddEntry(bs[1..], name, e);
      var r := [bs[0]] + rest;
      assert r[1..] == rest;
      forall j | 0 < j < |r| ensures r[0].name != r[j].name {
        assert r[j] in rest;
        if r[j].name != name {
          assert Find(bs[1..], r[j].name).Some?;
        }
      }
      assert forall n :: Find(r, n) == (if n == bs[0].name then Some(bs[0].entries) else Find(rest, n));
      r
  }

  /** The grouping loop over the effective rows. */
  function GroupByRepo(org: string, rows: seq<Entry>): (bs: seq<Bucket>)
    ensures DistinctKeys(bs, BucketName)
  {
    if |rows| == 0 then []
    else
      var last := rows[|rows| - 1];
      AddEntry(GroupByRepo(org, rows[..|rows| - 1]), RepoOf(org, last), last)
  }

  /** Each repository some row aims at gets exactly one bucket, holding those rows in row order;
      no other repository gets one. */
  lemma {:induction false} GroupByRepoContents(org: string, rows: seq<Entry>, name: string)
    ensures Find(GroupByRepo(org, rows), name) == if RowsFor(org, rows, name) == [] then None else Some(RowsFor(org, rows, name))
    decreases |rows|
  {
    if |rows| > 0 {
      var front := rows[..|rows| - 1];
      var last := rows[|rows| - 1];
      GroupByRepoContents(org, front, name);
      var before := GroupByRepo(org, front);
      var f := RowsFor(org, front, name);
      assert GroupByRepo(org, rows) == AddEntry(before, RepoOf(org, last), last);
      if RepoOf(org, last) == name {
        assert RowsFor(org, rows, name) == f + [last];
        if f == [] {
          assert f + [last] == [last];
        }
      } else {
        assert RowsFor(org, rows, name) == f + [];
        assert f + [] == f;
      }
    }
  }

  /** The repositories in the order `sorted(by_repo.items())` visits them. Names are distinct, so
      the comparison never reaches the entry lists. */
  function Plan(org: string, rows: seq<Entry>): (plan: seq<Bucket>)
    ensures SortedBy(plan, BucketName, StrLt)
    ensures DistinctKeys(plan, BucketName)
    ensures multiset(plan) == multiset(GroupByRepo(org, rows))
  {
    var bs := GroupByRepo(org, rows);
    StrLtIsStrictTotal();
    var plan := Sort(bs, BucketName, StrLt);
    assert DistinctKeys(plan, BucketName) by {
      forall i, j | 0 <= i < j < |plan| ensures plan[i].name != plan[j].name {
        assert StrLt(plan[i].name, plan[j].name);
      }
    }
    plan
  }

  /** A bucket of the plan holds exactly the rows of its repository, in row order, and every
      repository a row aims at has a bucket. */
  lemma PlanContents(org: string, rows: seq<Entry>)
    ensures forall b :: b in Plan(org, rows) ==> b.entries != [] && b.entries == RowsFor(org, rows, b.name)
    ensures forall e :: e in rows ==> exists b :: b in Plan(org, rows) && b.name == RepoOf(org, e)
  {
    var bs := GroupByRepo(org, rows);
    var plan := Plan(org, rows);
    forall b | b in plan ensures b.entries != [] && b.entries == RowsFor(org, rows, b.name) {
      assert b in multiset(bs);
      FindDistinct(bs, b);
      GroupByRepoContents(org, rows, b.name);
    }
    forall e | e in rows ensures exists b :: b in plan && b.name == RepoOf(org, e) {
      var n := RepoOf(org, e);
      GroupByRepoContents(org, rows, n);
      assert e in RowsFor(org, rows, n);
      var b :| b in bs && b.name == n;
      assert b in multiset(plan);
    }
  }

  /** In a sequence with distinct names, `Find` returns the bucket of that name. */
  lemma FindDistinct(bs: seq<Bucket>, b: Bucket)
    requires DistinctKeys(bs, BucketName)
    requires b in bs
    ensures Find(bs, b.name) == Some(b.entries)
  {
    if bs[0] != b {
      var k :| 0 <= k < |bs| && bs[k] == b;
      assert bs[0].name != b.name;
      assert bs[1..][k - 1] == b;
      DistinctTail(bs, BucketName);
      FindDistinct(bs[1..], b);
    }
  }
}
