/** What the expand stage computes, stated without the dictionary: for every key, the ordered list
    of contributing rows, and the effective row that list determines. */
module ExpandSpec {
  import opened Wrappers
  import opened Strings
  import opened Ordering
  import opened Perms
  import opened ExpandGroups

  /* ---------- reference definition ---------- */

  /** Contributions of direct rows to key `k`, in file order. */
  function DirectContribs(rows: seq<UserGrant>, k: Key): seq<Contribution> {
    if |rows| == 0 then []
    else (if DirectKey(rows[0]) == Some(k) then [DirectContribution(rows[0])] else []) + DirectContribs(rows[1..], k)
  }

  /** Contributions of the members `ms` of the group of `gr` to key `k`. */
  function MemberContribs(gr: GroupGrant, ms: seq<Member>, k: Key): seq<Contribution> {
    if |ms| == 0 then []
    else (if MemberKey(gr, ms[0]) == Some(k) then [GroupContribution(gr)] else []) + MemberContribs(gr, ms[1..], k)
  }

  /** Contributions of one group-permission row: nothing when its group is empty. */
  function GroupRowContribs(gr: GroupGrant, members: seq<Member>, k: Key): seq<Contribution> {
    if gr.principal == "" then [] else MemberContribs(gr, MembersOf(members, gr.principal), k)
  }

  /** Contributions of all group-permission rows to key `k`, in file order. */
  function GroupContribs(grs: seq<GroupGrant>, members: seq<Member>, k: Key): seq<Contribution> {
    if |grs| == 0 then [] else GroupRowContribs(grs[0], members, k) + GroupContribs(grs[1..], members, k)
  }

  /** Everything folded into key `k`: direct rows first, then group-derived ones. */
  function Contribs(d: seq<UserGrant>, g: seq<GroupGrant>, m: seq<Member>, k: Key): seq<Contribution> {
    DirectContribs(d, k) + GroupContribs(g, m, k)
  }

  /** Left fold of `MaxPerm` over the contributed permissions, starting from no stored value. */
  function FoldPerm(cs: seq<Contribution>): string
    requires |cs| > 0
    decreases |cs|
  {
    if |cs| == 1 then cs[0].permission
    else MaxPerm(Some(FoldPerm(cs[..|cs| - 1])), cs[|cs| - 1].permission)
  }

  /** The effective row of key `k`: absent without contributions; otherwise the folded
      permission and the attribution of the LAST contribution. */
  function Summary(k: Key, cs: seq<Contribution>): Option<EffectiveGrant> {
    if |cs| == 0 then None
    else Some(EffectiveGrant(k.projectKey, k.repoSlug, k.email, FoldPerm(cs), cs[|cs| - 1].source, cs[|cs| - 1].principal))
  }

  /** The permissions that occur among the contributions. */
  function PermSet(cs: seq<Contribution>): set<string> {
    set i | 0 <= i < |cs| :: cs[i].permission
  }

  ghost predicate DirectContributes(d: seq<UserGrant>, k: Key, c: Contribution) {
    exists r :: r in d && DirectKey(r) == Some(k) && c == DirectContribution(r)
  }

  ghost predicate GroupContributes(g: seq<GroupGrant>, m: seq<Member>, k: Key, c: Contribution) {
    exists gr, mr :: gr in g && mr in m && gr.principal != "" && mr.group == gr.principal
                     && MemberKey(gr, mr) == Some(k) && c == GroupContribution(gr)
  }

  /** `c` comes from a direct row with non-empty email, or from a (group row, member) pair with
      non-empty group and non-empty member email. */
  ghost predicate Contributes(d: seq<UserGrant>, g: seq<GroupGrant>, m: seq<Member>, k: Key, c: Contribution) {
    DirectContributes(d, k, c) || GroupContributes(g, m, k, c)
  }

  /* ---------- the dictionary fold agrees with the reference ---------- */

  /** Fold of `Combine` over the contributions of one key. */
  function Accumulate(cur: Option<EffectiveGrant>, k: Key, cs: seq<Contribution>): Option<EffectiveGrant>
    decreases |cs|
  {
    if |cs| == 0 then cur else Accumulate(Some(Combine(cur, k, cs[0])), k, cs[1..])
  }

  lemma {:induction false} AccumulateConcat(cur: Option<EffectiveGrant>, k: Key, a: seq<Contribution>, b: seq<Contribution>)
    ensures Accumulate(cur, k, a + b) == Accumulate(Accumulate(cur, k, a), k, b)
    decreases |a|
  {
    if |a| == 0 {
      assert a + b == b;
    } else {
      assert (a + b)[0] == a[0];
      assert (a + b)[1..] == a[1..] + b;
      AccumulateConcat(Some(Combine(cur, k, a[0])), k, a[1..], b);
    }
  }

  lemma {:induction false} ApplyDirectAt(eff: seq<EffectiveGrant>, rows: seq<UserGrant>, k: Key)
    ensures Get(ApplyDirect(eff, rows), k) == Accumulate(Get(eff, k), k, DirectContribs(rows, k))
    decreases |rows|
  {
    if |rows| > 0 {
      var r := rows[0];
      ApplyDirectAt(DirectStep(eff, r), rows[1..], k);
      var rest := DirectContribs(rows[1..], k);
      if DirectKey(r) == Some(k) {
        assert DirectContribs(rows, k) == [DirectContribution(r)] + rest;
        assert ([DirectContribution(r)] + rest)[1..] == rest;
      } else {
        assert DirectContribs(rows, k) == rest;
      }
    }
  }

  lemma {:induction false} ApplyMembersAt(eff: seq<EffectiveGrant>, gr: GroupGrant, ms: seq<Member>, k: Key)
    ensures Get(ApplyMembers(eff, gr, ms), k) == Accumulate(Get(eff, k), k, MemberContribs(gr, ms, k))
    decreases |ms|
  {
    if |ms| > 0 {
      ApplyMembersAt(MemberStep(eff, gr, ms[0]), gr, ms[1..], k);
      var rest := MemberContribs(gr, ms[1..], k);
      if MemberKey(gr, ms[0]) == Some(k) {
        assert MemberContribs(gr, ms, k) == [GroupContribution(gr)] + rest;
        assert ([GroupContribution(gr)] + rest)[1..] == rest;
      } else {
        assert MemberContribs(gr, ms, k) == rest;
      }
    }
  }

  lemma {:induction false} ApplyGroupsAt(eff: seq<EffectiveGrant>, grs: seq<GroupGrant>, index: map<string, seq<Member>>,
                                         members: seq<Member>, k: Key)
    requires forall p :: p != "" ==> Lookup(index, p) == MembersOf(members, p)
    ensures Get(ApplyGroups(eff, grs, index), k) == Accumulate(Get(eff, k), k, GroupContribs(grs, members, k))
    decreases |grs|
  {
    if |grs| > 0 {
      var gr := grs[0];
      var eff' := GroupStep(eff, gr, index);
      if gr.principal != "" {
        ApplyMembersAt(eff, gr, Lookup(index, gr.principal), k);
      }
      assert Get(eff', k) == Accumulate(Get(eff, k), k, GroupRowContribs(gr, members, k));
      ApplyGroupsAt(eff', grs[1..], index, members, k);
      AccumulateConcat(Get(eff, k), k, GroupRowContribs(gr, members, k), GroupContribs(grs[1..], members, k));
    }
  }

  lemma EffectiveAt(d: seq<UserGrant>, g: seq<GroupGrant>, m: seq<Member>, k: Key)
    ensures Get(EffectiveMap(d, g, m), k) == Accumulate(None, k, Contribs(d, g, m, k))
  {
    ApplyDirectAt([], d, k);
    ApplyGroupsAt(ApplyDirect([], d), g, IndexMembers(m), m, k);
    AccumulateConcat(None, k, DirectContribs(d, k), GroupContribs(g, m, k));
  }

  lemma {:induction false} AccumulateIsSummary(k: Key, cs: seq<Contribution>)
    ensures Accumulate(None, k, cs) == Summary(k, cs)
    decreases |cs|
  {
    if |cs| > 0 {
      var init := cs[..|cs| - 1];
      var c := cs[|cs| - 1];
      assert cs == init + [c];
      AccumulateConcat(None, k, init, [c]);
      AccumulateIsSummary(k, init);
      assert [c][1..] == [];
    }
  }

  lemma {:induction false} GetMember(s: seq<EffectiveGrant>, x: EffectiveGrant)
    requires UniqueKeys(s) && x in s
    ensures Get(s, KeyOf(x)) == Some(x)
    decreases |s|
  {
    if s[0] != x {
      var j :| 0 <= j < |s| && s[j] == x;
      assert KeyOf(s[0]) != KeyOf(s[j]);
      assert x in s[1..];
      assert UniqueKeys(s[1..]) by {
        forall i, j | 0 <= i < j < |s[1..]| ensures KeyOf(s[1..][i]) != KeyOf(s[1..][j]) {
          assert s[1..][i] == s[i + 1] && s[1..][j] == s[j + 1];
        }
      }
      GetMember(s[1..], x);
    }
  }

  /** Reordering a dictionary without duplicate keys does not change any lookup. */
  lemma GetPermutation(a: seq<EffectiveGrant>, b: seq<EffectiveGrant>, k: Key)
    requires UniqueKeys(a) && UniqueKeys(b) && multiset(a) == multiset(b)
    ensures Get(a, k) == Get(b, k)
  {
    forall y | y in b ensures y in a {
      assert y in multiset(b);
    }
    forall x | x in a ensures x in b {
      assert x in multiset(a);
    }
    if Get(a, k).Some? {
      GetMember(b, Get(a, k).value);
    }
    if Get(b, k).Some? {
      GetMember(a, Get(b, k).value);
    }
  }

  /** The main theorem: the output row of every key is the one its contributions determine. */
  lemma ExpandMatchesReference(d: seq<UserGrant>, g: seq<GroupGrant>, m: seq<Member>, k: Key)
    ensures Get(Expand(d, g, m), k) == Summary(k, Contribs(d, g, m, k))
  {
    GetPermutation(Expand(d, g, m), EffectiveMap(d, g, m), k);
    EffectiveAt(d, g, m, k);
    AccumulateIsSummary(k, Contribs(d, g, m, k));
  }
}
