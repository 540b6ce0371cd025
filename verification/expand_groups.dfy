/** The expand stage: folds direct user grants and then (group grant x group member) pairs into one
    effective grant per (project_key, repo_slug, email), and emits them sorted by that key. */
module ExpandGroups {
  import opened Wrappers
  import opened Strings
  import opened Ordering
  import opened Perms

  /** A row of repo_user_permissions.csv (its principal_type column is not read here). */
  datatype UserGrant = UserGrant(projectKey: string, repoSlug: string, principal: string, email: string, permission: string)

  /** A row of repo_group_permissions.csv; `principal` is the group name. */
  datatype GroupGrant = GroupGrant(projectKey: string, repoSlug: string, principal: string, permission: string)

  /** A row of group_members.csv. */
  datatype Member = Member(group: string, user: string, email: string)

  /** The `source` column: whether the latest contributing row was a direct or a group grant. */
  datatype Source = User | Group

  /** The dictionary key `(project_key, repo_slug, email)`. */
  datatype Key = Key(projectKey: string, repoSlug: string, email: string)

  /** A row of effective_repo_user_permissions.csv. */
  datatype EffectiveGrant = EffectiveGrant(
    projectKey: string, repoSlug: string, email: string,
    permission: string, source: Source, sourcePrincipal: string)

  function KeyOf(g: EffectiveGrant): Key {
    Key(g.projectKey, g.repoSlug, g.email)
  }

  /** The tuple the output is sorted by. */
  function SortKey(g: EffectiveGrant): seq<string> {
    [g.projectKey, g.repoSlug, g.email]
  }

  lemma SortKeyInjective(a: EffectiveGrant, b: EffectiveGrant)
    ensures SortKey(a) == SortKey(b) <==> KeyOf(a) == KeyOf(b)
  {
    if SortKey(a) == SortKey(b) {
      assert SortKey(a)[0] == SortKey(b)[0];
      assert SortKey(a)[1] == SortKey(b)[1];
      assert SortKey(a)[2] == SortKey(b)[2];
    }
  }

  /* ---------- the insertion-ordered dictionary `effective` ---------- */

  ghost predicate UniqueKeys(eff: seq<EffectiveGrant>) {
    DistinctKeys(eff, KeyOf)
  }

  /** `effective.get(key)`. */
  function Get(eff: seq<EffectiveGrant>, k: Key): (r: Option<EffectiveGrant>)
    ensures r.Some? ==> r.value in eff && KeyOf(r.value) == k
    ensures r.None? ==> forall g :: g in eff ==> KeyOf(g) != k
  {
    if |eff| == 0 then None
    else if KeyOf(eff[0]) == k then Some(eff[0])
    else Get(eff[1..], k)
  }

  /** `effective[key] = row`: replaces the entry in place when the key is present, appends otherwise. */
  function Upsert(eff: seq<EffectiveGrant>, g: EffectiveGrant): (r: seq<EffectiveGrant>)
    ensures forall k :: Get(r, k) == if k == KeyOf(g) then Some(g) else Get(eff, k)
    ensures forall x :: x in r ==> x == g || x in eff
    ensures UniqueKeys(eff) ==> UniqueKeys(r)
  {
    if |eff| == 0 then [g]
    else if KeyOf(eff[0]) == KeyOf(g) then
      var r := [g] + eff[1..];
      assert r[1..] == eff[1..];
      assert forall x :: x in r ==> x == g || x in eff by {
        assert forall x :: x in eff[1..] ==> x in eff;
      }
      r
    else
      var rest := Upsert(eff[1..], g);
      var r := [eff[0]] + rest;
      assert r[1..] == rest;
      assert UniqueKeys(eff) ==> UniqueKeys(r) by {
        if UniqueKeys(eff) {
          assert UniqueKeys(eff[1..]) by {
            forall i, j | 0 <= i < j < |eff[1..]| ensures KeyOf(eff[1..][i]) != KeyOf(eff[1..][j]) {
              assert eff[1..][i] == eff[i + 1] && eff[1..][j] == eff[j + 1];
            }
          }
          forall j | 0 < j < |r| ensures KeyOf(r[0]) != KeyOf(r[j]) {
            assert r[j] in rest;
            if r[j] != g {
              var m :| 0 <= m < |eff[1..]| && eff[1..][m] == r[j];
              assert eff[m + 1] == r[j];
            }
          }
        }
      }
      r
  }

  /* ---------- contributions ---------- */

  /** What one contributing row brings to its key: its permission and its attribution. */
  datatype Contribution = Contribution(permission: string, source: Source, principal: string)

  /** `current.get("permission") if current else None`. */
  function PermOf(cur: Option<EffectiveGrant>): Option<string> {
    if cur.Some? then Some(cur.value.permission) else None
  }

  /** The row written for key `k` when contribution `c` meets the stored row `cur`: the merged
      permission, and the attribution of `c` whatever the merge decided. */
  function Combine(cur: Option<EffectiveGrant>, k: Key, c: Contribution): (g: EffectiveGrant)
    ensures KeyOf(g) == k
  {
    EffectiveGrant(k.projectKey, k.repoSlug, k.email, MaxPerm(PermOf(cur), c.permission), c.source, c.principal)
  }

  /** One update of the dictionary at key `k`. */
  function Record(eff: seq<EffectiveGrant>, k: Key, c: Contribution): (r: seq<EffectiveGrant>)
    ensures forall k' :: Get(r, k') == if k' == k then Some(Combine(Get(eff, k), k, c)) else Get(eff, k')
    ensures UniqueKeys(eff) ==> UniqueKeys(r)
  {
    Upsert(eff, Combine(Get(eff, k), k, c))
  }

  /* ---------- direct user grants ---------- */

  /** The key of a direct row, or `None` when its stripped email is empty (the row is skipped). */
  function DirectKey(r: UserGrant): Option<Key> {
    var email := Strip(r.email);
    if email == "" then None else Some(Key(r.projectKey, r.repoSlug, email))
  }

  function DirectContribution(r: UserGrant): Contribution {
    Contribution(r.permission, User, r.principal)
  }

  function DirectStep(eff: seq<EffectiveGrant>, r: UserGrant): seq<EffectiveGrant> {
    match DirectKey(r)
    case None => eff
    case Some(k) => Record(eff, k, DirectContribution(r))
  }

  /** The loop over direct rows, in file order. */
  function ApplyDirect(eff: seq<EffectiveGrant>, rows: seq<UserGrant>): (r: seq<EffectiveGrant>)
    ensures UniqueKeys(eff) ==> UniqueKeys(r)
    decreases |rows|
  {
    if |rows| == 0 then eff else ApplyDirect(DirectStep(eff, rows[0]), rows[1..])
  }

  /* ---------- group membership index ---------- */

  /** The member rows of group `g`, in file order. */
  function MembersOf(rows: seq<Member>, g: string): (r: seq<Member>)
  {
    if |rows| == 0 then []
    else (if rows[0].group == g then [rows[0]] else []) + MembersOf(rows[1..], g)
  }

  /** `members_by_group.get(group, [])`. */
  function Lookup(index: map<string, seq<Member>>, g: string): seq<Member> {
    if g in index then index[g] else []
  }

  lemma IndexStep(acc: map<string, seq<Member>>, acc': map<string, seq<Member>>, m: Member, rows: seq<Member>)
    requires |rows| > 0 && rows[0] == m
    requires acc' == if m.group == "" then acc else acc[m.group := Lookup(acc, m.group) + [m]]
    ensures forall g :: g != "" ==> Lookup(acc', g) + MembersOf(rows[1..], g) == Lookup(acc, g) + MembersOf(rows, g)
  {
    forall g | g != "" ensures Lookup(acc', g) + MembersOf(rows[1..], g) == Lookup(acc, g) + MembersOf(rows, g) {
      IndexStepAt(acc, acc', m, rows, g);
    }
  }

  lemma IndexStepAt(acc: map<string, seq<Member>>, acc': map<string, seq<Member>>, m: Member, rows: seq<Member>, g: string)
    requires |rows| > 0 && rows[0] == m && g != ""
    requires acc' == if m.group == "" then acc else acc[m.group := Lookup(acc, m.group) + [m]]
    ensures Lookup(acc', g) + MembersOf(rows[1..], g) == Lookup(acc, g) + MembersOf(rows, g)
  {
    var tail := MembersOf(rows[1..], g);
    if g == m.group {
      assert acc'[g] == Lookup(acc, g) + [m];
      assert MembersOf(rows, g) == [m] + tail;
      assert Lookup(acc, g) + [m] + tail == Lookup(acc, g) + ([m] + tail);
    } else {
      assert Lookup(acc', g) == Lookup(acc, g);
      assert [] + tail == tail;
      assert MembersOf(rows, g) == tail;
    }
  }

  /** The loop building `members_by_group`, continued from `acc`: rows with an empty group are
      not indexed. */
  function IndexFrom(acc: map<string, seq<Member>>, rows: seq<Member>): (r: map<string, seq<Member>>)
    requires "" !in acc
    ensures "" !in r
    ensures forall g :: g != "" ==> Lookup(r, g) == Lookup(acc, g) + MembersOf(rows, g)
    decreases |rows|
  {
    if |rows| == 0 then acc
    else
      var m := rows[0];
      var acc' := if m.group == "" then acc else acc[m.group := Lookup(acc, m.group) + [m]];
      var r := IndexFrom(acc', rows[1..]);
      IndexStep(acc, acc', m, rows);
      r
  }

  /** `members_by_group`: group name to its member rows. */
  function IndexMembers(rows: seq<Member>): (r: map<string, seq<Member>>)
    ensures "" !in r
    ensures forall g :: g != "" ==> Lookup(r, g) == MembersOf(rows, g)
  {
    IndexFrom(map[], rows)
  }

  /* ---------- group grants ---------- */

  /** The key a member reaches through a group grant, or `None` when its stripped email is empty. */
  function MemberKey(gr: GroupGrant, m: Member): Option<Key> {
    var email := Strip(m.email);
    if email == "" then None else Some(Key(gr.projectKey, gr.repoSlug, email))
  }

  function GroupContribution(gr: GroupGrant): Contribution {
    Contribution(gr.permission, Group, gr.principal)
  }

  function MemberStep(eff: seq<EffectiveGrant>, gr: GroupGrant, m: Member): seq<EffectiveGrant> {
    match MemberKey(gr, m)
    case None => eff
    case Some(k) => Record(eff, k, GroupContribution(gr))
  }

  /** The inner loop over the members of one granted group. */
  function ApplyMembers(eff: seq<EffectiveGrant>, gr: GroupGrant, ms: seq<Member>): (r: seq<EffectiveGrant>)
    ensures UniqueKeys(eff) ==> UniqueKeys(r)
    decreases |ms|
  {
    if |ms| == 0 then eff else ApplyMembers(MemberStep(eff, gr, ms[0]), gr, ms[1..])
  }

  /** One group-permission row: skipped when its group is empty, otherwise folded over the group's
      indexed members (none when the group has no indexed members). */
  function GroupStep(eff: seq<EffectiveGrant>, gr: GroupGrant, index: map<string, seq<Member>>): (r: seq<EffectiveGrant>)
    ensures UniqueKeys(eff) ==> UniqueKeys(r)
  {
    if gr.principal == "" then eff else ApplyMembers(eff, gr, Lookup(index, gr.principal))
  }

  /** The outer loop over group-permission rows, in file order. */
  function ApplyGroups(eff: seq<EffectiveGrant>, grs: seq<GroupGrant>, index: map<string, seq<Member>>): (r: seq<EffectiveGrant>)
    ensures UniqueKeys(eff) ==> UniqueKeys(r)
    decreases |grs|
  {
    if |grs| == 0 then eff else ApplyGroups(GroupStep(eff, grs[0], index), grs[1..], index)
  }

  /** The dictionary `effective` once both loops have run (direct rows first). */
  function EffectiveMap(direct: seq<UserGrant>, groups: seq<GroupGrant>, members: seq<Member>): (r: seq<EffectiveGrant>)
    ensures UniqueKeys(r)
  {
    ApplyGroups(ApplyDirect([], direct), groups, IndexMembers(members))
  }

  lemma UniqueSortKeys(s: seq<EffectiveGrant>)
    requires UniqueKeys(s)
    ensures DistinctKeys(s, SortKey)
  {
    forall i, j | 0 <= i < j < |s| ensures SortKey(s[i]) != SortKey(s[j]) {
      SortKeyInjective(s[i], s[j]);
    }
  }

  /** `expand` without the file I/O: the effective rows sorted by (project_key, repo_slug, email).
      The output is a reordering of the dictionary's rows and is strictly increasing in the key,
      so it holds at most one row per key. */
  function Expand(direct: seq<UserGrant>, groups: seq<GroupGrant>, members: seq<Member>): (out: seq<EffectiveGrant>)
    ensures SortedBy(out, SortKey, TupleLt)
    ensures UniqueKeys(out)
    ensures multiset(out) == multiset(EffectiveMap(direct, groups, members))
  {
    var eff := EffectiveMap(direct, groups, members);
    UniqueSortKeys(eff);
    TupleLtIsStrictTotal();
    var out := Sort(eff, SortKey, TupleLt);
    assert UniqueKeys(out) by {
      forall i, j | 0 <= i < j < |out| ensures KeyOf(out[i]) != KeyOf(out[j]) {
        assert TupleLt(SortKey(out[i]), SortKey(out[j]));
        SortKeyInjective(out[i], out[j]);
      }
    }
    out
  }
}
