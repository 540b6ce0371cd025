/** Properties of the expand stage: uniqueness and order of the output,
    the strongest-permission rule over known values, attribution, provenance and the rows that
    contribute nothing. */
module ExpandProperties {
  import opened Wrappers
  import opened Strings
  import opened Ordering
  import opened Perms
  import opened ExpandGroups
  import opened ExpandSpec

  /* ---------- the permission fold ---------- */

  /** Over known values the fold is the maximum: it is one of the contributed permissions and
      at least as strong as each of them. */
  lemma {:induction false} FoldPermKnownMax(cs: seq<Contribution>)
    requires |cs| > 0
    requires forall i :: 0 <= i < |cs| ==> Known(cs[i].permission)
    ensures Known(FoldPerm(cs))
    ensures FoldPerm(cs) in PermSet(cs)
    ensures forall p :: p in PermSet(cs) ==> Known(p) && Rank(p) <= Rank(FoldPerm(cs))
    decreases |cs|
  {
    var r := FoldPerm(cs);
    if |cs| == 1 {
      assert cs[0].permission in PermSet(cs);
    } else {
      var init := cs[..|cs| - 1];
      var c := cs[|cs| - 1];
      assert forall i :: 0 <= i < |init| ==> init[i] == cs[i];
      FoldPermKnownMax(init);
      var f := FoldPerm(init);
      assert r == MaxPerm(Some(f), c.permission);
      if r == f {
        var i :| 0 <= i < |init| && init[i].permission == f;
        assert cs[i].permission == r;
      } else {
        assert cs[|cs| - 1].permission == r;
      }
      forall p | p in PermSet(cs) ensures Known(p) && Rank(p) <= Rank(r) {
        var i :| 0 <= i < |cs| && cs[i].permission == p;
        if i < |cs| - 1 {
          assert init[i].permission == p;
          assert p in PermSet(init);
        }
      }
    }
  }

  /** An unknown first contribution is absorbing: it is what the key ends up with. */
  lemma {:induction false} FoldPermFirstUnknown(cs: seq<Contribution>)
    requires |cs| > 0 && !Known(cs[0].permission)
    ensures FoldPerm(cs) == cs[0].permission
    decreases |cs|
  {
    if |cs| > 1 {
      var init := cs[..|cs| - 1];
      assert init[0] == cs[0];
      FoldPermFirstUnknown(init);
    }
  }

  /** Over known values the fold depends only on which permissions occur, not on their order or
      multiplicity. */
  lemma FoldPermOrderIndependent(cs: seq<Contribution>, ds: seq<Contribution>)
    requires |cs| > 0 && |ds| > 0
    requires forall i :: 0 <= i < |cs| ==> Known(cs[i].permission)
    requires forall i :: 0 <= i < |ds| ==> Known(ds[i].permission)
    requires PermSet(cs) == PermSet(ds)
    ensures FoldPerm(cs) == FoldPerm(ds)
  {
    FoldPermKnownMax(cs);
    FoldPermKnownMax(ds);
    RankInjective(FoldPerm(cs), FoldPerm(ds));
  }

  /* ---------- which rows contribute ---------- */

  lemma {:induction false} MembersOfMembership(rows: seq<Member>, g: string, x: Member)
    ensures x in MembersOf(rows, g) <==> x in rows && x.group == g
    decreases |rows|
  {
    if |rows| > 0 {
      MembersOfMembership(rows[1..], g, x);
      assert x in rows <==> x == rows[0] || x in rows[1..];
    }
  }

  lemma {:induction false} DirectContribsMembership(rows: seq<UserGrant>, k: Key, c: Contribution)
    ensures c in DirectContribs(rows, k) <==> DirectContributes(rows, k, c)
    decreases |rows|
  {
    if |rows| > 0 {
      DirectContribsMembership(rows[1..], k, c);
      if c in DirectContribs(rows, k) && c !in DirectContribs(rows[1..], k) {
        assert DirectKey(rows[0]) == Some(k) && c == DirectContribution(rows[0]);
      }
      if DirectContributes(rows, k, c) {
        var r :| r in rows && DirectKey(r) == Some(k) && c == DirectContribution(r);
        if r != rows[0] {
          assert r in rows[1..];
        }
      }
    }
  }

  lemma {:induction false} MemberContribsMembership(gr: GroupGrant, ms: seq<Member>, k: Key, c: Contribution)
    ensures c in MemberContribs(gr, ms, k) <==> c == GroupContribution(gr) && exists mr :: mr in ms && MemberKey(gr, mr) == Some(k)
    decreases |ms|
  {
    if |ms| > 0 {
      MemberContribsMembership(gr, ms[1..], k, c);
      if c in MemberContribs(gr, ms, k) && c !in MemberContribs(gr, ms[1..], k) {
        assert ms[0] in ms && MemberKey(gr, ms[0]) == Some(k);
      }
      if c == GroupContribution(gr) && exists mr :: mr in ms && MemberKey(gr, mr) == Some(k) {
        var mr :| mr in ms && MemberKey(gr, mr) == Some(k);
        if mr != ms[0] {
          assert mr in ms[1..];
        }
      }
    }
  }

  lemma {:induction false} GroupContribsMembership(grs: seq<GroupGrant>, m: seq<Member>, k: Key, c: Contribution)
    ensures c in GroupContribs(grs, m, k) <==> GroupContributes(grs, m, k, c)
    decreases |grs|
  {
    if |grs| > 0 {
      var gr := grs[0];
      GroupContribsMembership(grs[1..], m, k, c);
      if c in GroupContribs(grs, m, k) {
        if c in GroupRowContribs(gr, m, k) {
          MemberContribsMembership(gr, MembersOf(m, gr.principal), k, c);
          var mr :| mr in MembersOf(m, gr.principal) && MemberKey(gr, mr) == Some(k);
          MembersOfMembership(m, gr.principal, mr);
          assert gr in grs;
        } else {
          assert c in GroupContribs(grs[1..], m, k);
          var gr', mr :| gr' in grs[1..] && mr in m && gr'.principal != "" && mr.group == gr'.principal
                          && MemberKey(gr', mr) == Some(k) && c == GroupContribution(gr');
          assert gr' in grs;
        }
      }
      if GroupContributes(grs, m, k, c) {
        var gr', mr :| gr' in grs && mr in m && gr'.principal != "" && mr.group == gr'.principal
                        && MemberKey(gr', mr) == Some(k) && c == GroupContribution(gr');
        if gr' == gr {
          MembersOfMembership(m, gr.principal, mr);
          MemberContribsMembership(gr, MembersOf(m, gr.principal), k, c);
        } else {
          assert gr' in grs[1..];
          assert GroupContributes(grs[1..], m, k, c);
        }
      }
    }
  }

  lemma ContribsMembership(d: seq<UserGrant>, g: seq<GroupGrant>, m: seq<Member>, k: Key, c: Contribution)
    ensures c in Contribs(d, g, m, k) <==> Contributes(d, g, m, k, c)
  {
    DirectContribsMembership(d, k, c);
    GroupContribsMembership(g, m, k, c);
  }

  /* ---------- output properties ---------- */

  /** At most one row per key, in strictly increasing (project_key, repo_slug, email) order, and
      each key's row is the one its contributions determine. */
  lemma ExpandShape(d: seq<UserGrant>, g: seq<GroupGrant>, m: seq<Member>)
    ensures forall i, j :: 0 <= i < j < |Expand(d, g, m)| ==>
              TupleLt(SortKey(Expand(d, g, m)[i]), SortKey(Expand(d, g, m)[j]))
    ensures forall i, j :: 0 <= i < j < |Expand(d, g, m)| ==> KeyOf(Expand(d, g, m)[i]) != KeyOf(Expand(d, g, m)[j])
    ensures forall x :: x in Expand(d, g, m) ==> Summary(KeyOf(x), Contribs(d, g, m, KeyOf(x))) == Some(x)
  {
    var out := Expand(d, g, m);
    forall x | x in out ensures Summary(KeyOf(x), Contribs(d, g, m, KeyOf(x))) == Some(x) {
      GetMember(out, x);
      ExpandMatchesReference(d, g, m, KeyOf(x));
    }
  }

  /** When every contribution to a key is a known permission, the key's permission is the
      strongest of them; in particular it is one of them. */
  lemma ExpandPermissionIsMax(d: seq<UserGrant>, g: seq<GroupGrant>, m: seq<Member>, k: Key)
    requires forall c :: Contributes(d, g, m, k, c) ==> Known(c.permission)
    ensures Get(Expand(d, g, m), k).Some? ==>
              var p := Get(Expand(d, g, m), k).value.permission;
              && Known(p)
              && (exists c :: Contributes(d, g, m, k, c) && c.permission == p)
              && (forall c :: Contributes(d, g, m, k, c) ==> Rank(c.permission) <= Rank(p))
  {
    ExpandMatchesReference(d, g, m, k);
    var cs := Contribs(d, g, m, k);
    if |cs| > 0 {
      forall i | 0 <= i < |cs| ensures Known(cs[i].permission) {
        ContribsMembership(d, g, m, k, cs[i]);
      }
      FoldPermKnownMax(cs);
      var p := FoldPerm(cs);
      var i :| 0 <= i < |cs| && cs[i].permission == p;
      ContribsMembership(d, g, m, k, cs[i]);
      forall c | Contributes(d, g, m, k, c) ensures Rank(c.permission) <= Rank(p) {
        ContribsMembership(d, g, m, k, c);
        var j :| 0 <= j < |cs| && cs[j] == c;
        assert c.permission in PermSet(cs);
      }
    }
  }

  /** Inputs holding the same rows have the same contributions for every key. */
  lemma SameRowsSameContributions(d: seq<UserGrant>, g: seq<GroupGrant>, m: seq<Member>,
                                  d': seq<UserGrant>, g': seq<GroupGrant>, m': seq<Member>, k: Key, c: Contribution)
    requires forall r :: r in d <==> r in d'
    requires forall r :: r in g <==> r in g'
    requires forall r :: r in m <==> r in m'
    ensures c in Contribs(d, g, m, k) <==> c in Contribs(d', g', m', k)
  {
    ContribsMembership(d, g, m, k, c);
    ContribsMembership(d', g', m', k, c);
    if DirectContributes(d, k, c) {
      var r :| r in d && DirectKey(r) == Some(k) && c == DirectContribution(r);
      assert r in d';
    }
    if DirectContributes(d', k, c) {
      var r :| r in d' && DirectKey(r) == Some(k) && c == DirectContribution(r);
      assert r in d;
    }
    if GroupContributes(g, m, k, c) {
      var gr, mr :| gr in g && mr in m && gr.principal != "" && mr.group == gr.principal
                     && MemberKey(gr, mr) == Some(k) && c == GroupContribution(gr);
      assert gr in g' && mr in m';
    }
    if GroupContributes(g', m', k, c) {
      var gr, mr :| gr in g' && mr in m' && gr.principal != "" && mr.group == gr.principal
                     && MemberKey(gr, mr) == Some(k) && c == GroupContribution(gr);
      assert gr in g && mr in m;
    }
  }

  /** Contribution lists with the same elements and only known permissions fold alike. */
  lemma SameElementsSamePermission(cs: seq<Contribution>, ds: seq<Contribution>)
    requires |cs| > 0
    requires forall c :: c in cs <==> c in ds
    requires forall i :: 0 <= i < |cs| ==> Known(cs[i].permission)
    ensures |ds| > 0 && FoldPerm(cs) == FoldPerm(ds)
  {
    assert cs[0] in ds;
    forall i | 0 <= i < |ds| ensures Known(ds[i].permission) {
      assert ds[i] in cs;
    }
    forall p | p in PermSet(cs) ensures p in PermSet(ds) {
      var i :| 0 <= i < |cs| && cs[i].permission == p;
      assert cs[i] in ds;
      var j :| 0 <= j < |ds| && ds[j] == cs[i];
    }
    forall p | p in PermSet(ds) ensures p in PermSet(cs) {
      var j :| 0 <= j < |ds| && ds[j].permission == p;
      assert ds[j] in cs;
      var i :| 0 <= i < |cs| && cs[i] == ds[j];
    }
    FoldPermOrderIndependent(cs, ds);
  }

  /** Inputs that hold the same rows, in whatever order and multiplicity, give the same keys,
      whatever the permissions are. */
  lemma ExpandKeysOrderIndependent(d: seq<UserGrant>, g: seq<GroupGrant>, m: seq<Member>,
                                   d': seq<UserGrant>, g': seq<GroupGrant>, m': seq<Member>, k: Key)
    requires forall r :: r in d <==> r in d'
    requires forall r :: r in g <==> r in g'
    requires forall r :: r in m <==> r in m'
    ensures Get(Expand(d, g, m), k).Some? <==> Get(Expand(d', g', m'), k).Some?
  {
    ExpandMatchesReference(d, g, m, k);
    ExpandMatchesReference(d', g', m', k);
    var cs := Contribs(d, g, m, k);
    var ds := Contribs(d', g', m', k);
    if |cs| > 0 {
      assert cs[0] in cs;
      SameRowsSameContributions(d, g, m, d', g', m', k, cs[0]);
    }
    if |ds| > 0 {
      assert ds[0] in ds;
      SameRowsSameContributions(d, g, m, d', g', m', k, ds[0]);
    }
  }

  /** The same rows in another order give the same keys, and when every contribution to a key is
      a known permission, that key gets the same permission. */
  lemma ExpandOrderIndependent(d: seq<UserGrant>, g: seq<GroupGrant>, m: seq<Member>,
                               d': seq<UserGrant>, g': seq<GroupGrant>, m': seq<Member>, k: Key)
    requires forall r :: r in d <==> r in d'
    requires forall r :: r in g <==> r in g'
    requires forall r :: r in m <==> r in m'
    requires forall c :: Contributes(d, g, m, k, c) ==> Known(c.permission)
    ensures Get(Expand(d, g, m), k).Some? <==> Get(Expand(d', g', m'), k).Some?
    ensures Get(Expand(d, g, m), k).Some? ==>
              Get(Expand(d, g, m), k).value.permission == Get(Expand(d', g', m'), k).value.permission
  {
    ExpandMatchesReference(d, g, m, k);
    ExpandMatchesReference(d', g', m', k);
    var cs := Contribs(d, g, m, k);
    var ds := Contribs(d', g', m', k);
    if |ds| > 0 {
      assert ds[0] in ds;
    }
    forall c ensures c in cs <==> c in ds {
      SameRowsSameContributions(d, g, m, d', g', m', k, c);
    }
    if |cs| > 0 {
      forall i | 0 <= i < |cs| ensures Known(cs[i].permission) {
        ContribsMembership(d, g, m, k, cs[i]);
      }
      SameElementsSamePermission(cs, ds);
    }
  }

  /** With direct contributions first and group ones after, the last contribution is a group
      one exactly when there is any, and otherwise the last direct one. */
  lemma LastContribution(dc: seq<Contribution>, gc: seq<Contribution>)
    requires |dc| > 0 ==> dc[|dc| - 1].source == User
    requires |gc| > 0 ==> gc[|gc| - 1].source == Group
    requires |dc + gc| > 0
    ensures (dc + gc)[|dc + gc| - 1].source == Group <==> |gc| > 0
    ensures |gc| > 0 ==> (dc + gc)[|dc + gc| - 1].principal == gc[|gc| - 1].principal
    ensures |gc| == 0 ==> |dc| > 0 && (dc + gc)[|dc + gc| - 1].principal == dc[|dc| - 1].principal
  {
    var cs := dc + gc;
    if |gc| > 0 {
      assert cs[|cs| - 1] == gc[|gc| - 1];
    } else {
      assert cs == dc;
    }
  }

  /** Attribution follows the last contributing row, whether or not it raised the permission:
      a key reached through a group carries `source == group` and the principal of the last
      group row that reached it; otherwise it carries the principal of its last direct row. */
  lemma ExpandAttribution(d: seq<UserGrant>, g: seq<GroupGrant>, m: seq<Member>, k: Key, x: EffectiveGrant)
    requires Get(Expand(d, g, m), k) == Some(x)
    ensures x.source == Group <==> |GroupContribs(g, m, k)| > 0
    ensures |GroupContribs(g, m, k)| > 0 ==> x.sourcePrincipal == GroupContribs(g, m, k)[|GroupContribs(g, m, k)| - 1].principal
    ensures |GroupContribs(g, m, k)| == 0 ==>
              |DirectContribs(d, k)| > 0 && x.sourcePrincipal == DirectContribs(d, k)[|DirectContribs(d, k)| - 1].principal
  {
    ExpandMatchesReference(d, g, m, k);
    var dc, gc := DirectContribs(d, k), GroupContribs(g, m, k);
    assert Contribs(d, g, m, k) == dc + gc;
    ContribsAttribution(d, g, m, k, dc, gc);
  }

  /** The same statement about the last of the direct contributions `dc` followed by the
      group ones `gc`. */
  lemma ContribsAttribution(d: seq<UserGrant>, g: seq<GroupGrant>, m: seq<Member>, k: Key,
                            dc: seq<Contribution>, gc: seq<Contribution>)
    requires dc == DirectContribs(d, k) && gc == GroupContribs(g, m, k)
    requires |dc + gc| > 0
    ensures (dc + gc)[|dc + gc| - 1].source == Group <==> |gc| > 0
    ensures |gc| > 0 ==> (dc + gc)[|dc + gc| - 1].principal == gc[|gc| - 1].principal
    ensures |gc| == 0 ==> |dc| > 0 && (dc + gc)[|dc + gc| - 1].principal == dc[|dc| - 1].principal
  {
    if |dc| > 0 {
      DirectContributionSource(d, k, dc[|dc| - 1]);
    }
    if |gc| > 0 {
      GroupContributionSource(g, m, k, gc[|gc| - 1]);
    }
    LastContribution(dc, gc);
  }

  /** Direct contributions are attributed to users, group-derived ones to groups. */
  lemma SourcesOfContribs(d: seq<UserGrant>, g: seq<GroupGrant>, m: seq<Member>, k: Key)
    ensures forall c :: c in DirectContribs(d, k) ==> c.source == User
    ensures forall c :: c in GroupContribs(g, m, k) ==> c.source == Group
  {
    forall c | c in DirectContribs(d, k) ensures c.source == User {
      DirectContributionSource(d, k, c);
    }
    forall c | c in GroupContribs(g, m, k) ensures c.source == Group {
      GroupContributionSource(g, m, k, c);
    }
  }

  /** Since group rows are folded after every direct row, any key a group reaches ends up
      attributed to a group. */
  lemma ReachedThroughGroup(d: seq<UserGrant>, g: seq<GroupGrant>, m: seq<Member>, k: Key, gr: GroupGrant, mr: Member)
    requires gr in g && mr in m && gr.principal != "" && mr.group == gr.principal && MemberKey(gr, mr) == Some(k)
    ensures Get(Expand(d, g, m), k).Some? && Get(Expand(d, g, m), k).value.source == Group
  {
    GroupContribsMembership(g, m, k, GroupContribution(gr));
    ExpandMatchesReference(d, g, m, k);
    ExpandAttribution(d, g, m, k, Get(Expand(d, g, m), k).value);
  }

  lemma GroupContributionSource(g: seq<GroupGrant>, m: seq<Member>, k: Key, c: Contribution)
    requires c in GroupContribs(g, m, k)
    ensures c.source == Group
  {
    GroupContribsMembership(g, m, k, c);
  }

  lemma DirectContributionSource(d: seq<UserGrant>, k: Key, c: Contribution)
    requires c in DirectContribs(d, k)
    ensures c.source == User
  {
    DirectContribsMembership(d, k, c);
  }

  /** Every output key comes from a direct row with a non-empty stripped email, or from a
      group row with a non-empty group and an indexed member with a non-empty stripped email.
      The key's email is the stripped email, with its case kept. */
  lemma ExpandProvenance(d: seq<UserGrant>, g: seq<GroupGrant>, m: seq<Member>, k: Key)
    ensures Get(Expand(d, g, m), k).Some? ==>
              && k.email != ""
              && (|| (exists r :: r in d && DirectKey(r) == Some(k) && k.email == Strip(r.email))
                  || (exists gr, mr :: gr in g && mr in m && gr.principal != "" && mr.group == gr.principal
                                       && MemberKey(gr, mr) == Some(k) && k.email == Strip(mr.email)))
  {
    ExpandMatchesReference(d, g, m, k);
    var cs := Contribs(d, g, m, k);
    if |cs| > 0 {
      ContribsMembership(d, g, m, k, cs[0]);
    }
  }

  /* ---------- rows that contribute nothing ---------- */

  lemma {:induction false} DirectContribsConcat(a: seq<UserGrant>, b: seq<UserGrant>, k: Key)
    ensures DirectContribs(a + b, k) == DirectContribs(a, k) + DirectContribs(b, k)
    decreases |a|
  {
    if |a| == 0 {
      assert a + b == b;
    } else {
      var h := if DirectKey(a[0]) == Some(k) then [DirectContribution(a[0])] else [];
      assert (a + b)[0] == a[0];
      assert (a + b)[1..] == a[1..] + b;
      assert DirectContribs(a + b, k) == h + DirectContribs(a[1..] + b, k);
      DirectContribsConcat(a[1..], b, k);
      assert h + (DirectContribs(a[1..], k) + DirectContribs(b, k)) == (h + DirectContribs(a[1..], k)) + DirectContribs(b, k);
    }
  }

  lemma {:induction false} MembersOfConcat(a: seq<Member>, b: seq<Member>, g: string)
    ensures MembersOf(a + b, g) == MembersOf(a, g) + MembersOf(b, g)
    decreases |a|
  {
    if |a| == 0 {
      assert a + b == b;
    } else {
      var h := if a[0].group == g then [a[0]] else [];
      assert (a + b)[0] == a[0];
      assert (a + b)[1..] == a[1..] + b;
      assert MembersOf(a + b, g) == h + MembersOf(a[1..] + b, g);
      MembersOfConcat(a[1..], b, g);
      assert h + (MembersOf(a[1..], g) + MembersOf(b, g)) == (h + MembersOf(a[1..], g)) + MembersOf(b, g);
    }
  }

  lemma {:induction false} MemberContribsConcat(gr: GroupGrant, a: seq<Member>, b: seq<Member>, k: Key)
    ensures MemberContribs(gr, a + b, k) == MemberContribs(gr, a, k) + MemberContribs(gr, b, k)
    decreases |a|
  {
    if |a| == 0 {
      assert a + b == b;
    } else {
      var h := if MemberKey(gr, a[0]) == Some(k) then [GroupContribution(gr)] else [];
      assert (a + b)[0] == a[0];
      assert (a + b)[1..] == a[1..] + b;
      assert MemberContribs(gr, a + b, k) == h + MemberContribs(gr, a[1..] + b, k);
      MemberContribsConcat(gr, a[1..], b, k);
      assert h + (MemberContribs(gr, a[1..], k) + MemberContribs(gr, b, k)) == (h + MemberContribs(gr, a[1..], k)) + MemberContribs(gr, b, k);
    }
  }

  lemma {:induction false} GroupContribsConcat(a: seq<GroupGrant>, b: seq<GroupGrant>, m: seq<Member>, k: Key)
    ensures GroupContribs(a + b, m, k) == GroupContribs(a, m, k) + GroupContribs(b, m, k)
    decreases |a|
  {
    if |a| == 0 {
      assert a + b == b;
    } else {
      var h := GroupRowContribs(a[0], m, k);
      assert (a + b)[0] == a[0];
      assert (a + b)[1..] == a[1..] + b;
      assert GroupContribs(a + b, m, k) == h + GroupContribs(a[1..] + b, m, k);
      GroupContribsConcat(a[1..], b, m, k);
      assert h + (GroupContribs(a[1..], m, k) + GroupContribs(b, m, k)) == (h + GroupContribs(a[1..], m, k)) + GroupContribs(b, m, k);
    }
  }

  /** Inputs with the same contributions for every key give the same output. */
  lemma ExpandDetermined(d: seq<UserGrant>, g: seq<GroupGrant>, m: seq<Member>,
                         d': seq<UserGrant>, g': seq<GroupGrant>, m': seq<Member>)
    requires forall k :: Contribs(d, g, m, k) == Contribs(d', g', m', k)
    ensures Expand(d, g, m) == Expand(d', g', m')
  {
    var a := Expand(d, g, m);
    var b := Expand(d', g', m');
    forall x ensures x in a <==> x in b {
      ExpandMatchesReference(d, g, m, KeyOf(x));
      ExpandMatchesReference(d', g', m', KeyOf(x));
      if x in a {
        GetMember(a, x);
      }
      if x in b {
        GetMember(b, x);
      }
    }
    TupleLtIsStrictTotal();
    SortedUnique(a, b, SortKey, TupleLt);
  }

  /** A direct row whose stripped email is empty changes nothing, wherever it sits. */
  lemma DirectRowWithoutEmailIgnored(d1: seq<UserGrant>, r: UserGrant, d2: seq<UserGrant>, g: seq<GroupGrant>, m: seq<Member>)
    requires Strip(r.email) == ""
    ensures Expand(d1 + [r] + d2, g, m) == Expand(d1 + d2, g, m)
  {
    forall k ensures Contribs(d1 + [r] + d2, g, m, k) == Contribs(d1 + d2, g, m, k) {
      DirectContribsConcat(d1 + [r], d2, k);
      DirectContribsConcat(d1, [r], k);
      DirectContribsConcat(d1, d2, k);
      assert [r][1..] == [];
      assert DirectKey(r) == None;
      assert DirectContribs([r], k) == [];
      assert DirectContribs(d1 + [r], k) == DirectContribs(d1, k);
    }
    ExpandDetermined(d1 + [r] + d2, g, m, d1 + d2, g, m);
  }

  lemma {:induction false} MemberContribsNone(gr: GroupGrant, ms: seq<Member>, k: Key)
    requires forall mr :: mr in ms ==> Strip(mr.email) == ""
    ensures MemberContribs(gr, ms, k) == []
    decreases |ms|
  {
    if |ms| > 0 {
      assert ms[0] in ms;
      assert forall mr :: mr in ms[1..] ==> mr in ms;
      MemberContribsNone(gr, ms[1..], k);
    }
  }

  /** A group-permission row with an empty group, or whose group has no indexed member with a
      non-empty email (in particular no indexed member at all), changes nothing. */
  lemma GroupRowIgnored(d: seq<UserGrant>, g1: seq<GroupGrant>, gr: GroupGrant, g2: seq<GroupGrant>, m: seq<Member>)
    requires gr.principal == "" || forall mr :: mr in m && mr.group == gr.principal ==> Strip(mr.email) == ""
    ensures Expand(d, g1 + [gr] + g2, m) == Expand(d, g1 + g2, m)
  {
    forall k ensures Contribs(d, g1 + [gr] + g2, m, k) == Contribs(d, g1 + g2, m, k) {
      GroupContribsConcat(g1 + [gr], g2, m, k);
      GroupContribsConcat(g1, [gr], m, k);
      GroupContribsConcat(g1, g2, m, k);
      if gr.principal != "" {
        forall mr | mr in MembersOf(m, gr.principal) ensures Strip(mr.email) == "" {
          MembersOfMembership(m, gr.principal, mr);
        }
        MemberContribsNone(gr, MembersOf(m, gr.principal), k);
      }
      assert [gr][1..] == [];
      assert GroupRowContribs(gr, m, k) == [];
      assert GroupContribs([gr], m, k) == [];
      assert GroupContribs(g1 + [gr], m, k) == GroupContribs(g1, m, k);
    }
    ExpandDetermined(d, g1 + [gr] + g2, m, d, g1 + g2, m);
  }

  lemma GroupRowContribsMemberIgnored(gr: GroupGrant, m1: seq<Member>, mr: Member, m2: seq<Member>, k: Key)
    requires mr.group == "" || Strip(mr.email) == ""
    ensures GroupRowContribs(gr, m1 + [mr] + m2, k) == GroupRowContribs(gr, m1 + m2, k)
  {
    if gr.principal != "" {
      var p := gr.principal;
      var a, b, c := MembersOf(m1, p), MembersOf([mr], p), MembersOf(m2, p);
      MembersOfConcat(m1 + [mr], m2, p);
      MembersOfConcat(m1, [mr], p);
      MembersOfConcat(m1, m2, p);
      assert MembersOf(m1 + [mr] + m2, p) == a + b + c;
      assert MembersOf(m1 + m2, p) == a + c;
      MemberContribsConcat(gr, a + b, c, k);
      MemberContribsConcat(gr, a, b, k);
      MemberContribsConcat(gr, a, c, k);
      assert MemberContribs(gr, b, k) == [];
      assert MemberContribs(gr, a + b, k) == MemberContribs(gr, a, k);
    }
  }

  lemma {:induction false} GroupContribsMemberIgnored(g: seq<GroupGrant>, m1: seq<Member>, mr: Member, m2: seq<Member>, k: Key)
    requires mr.group == "" || Strip(mr.email) == ""
    ensures GroupContribs(g, m1 + [mr] + m2, k) == GroupContribs(g, m1 + m2, k)
    decreases |g|
  {
    if |g| > 0 {
      GroupRowContribsMemberIgnored(g[0], m1, mr, m2, k);
      GroupContribsMemberIgnored(g[1..], m1, mr, m2, k);
    }
  }

  /** A member row with an empty group or an empty stripped email changes nothing. */
  lemma MemberRowIgnored(d: seq<UserGrant>, g: seq<GroupGrant>, m1: seq<Member>, mr: Member, m2: seq<Member>)
    requires mr.group == "" || Strip(mr.email) == ""
    ensures Expand(d, g, m1 + [mr] + m2) == Expand(d, g, m1 + m2)
  {
    forall k ensures Contribs(d, g, m1 + [mr] + m2, k) == Contribs(d, g, m1 + m2, k) {
      GroupContribsMemberIgnored(g, m1, mr, m2, k);
    }
    ExpandDetermined(d, g, m1 + [mr] + m2, d, g, m1 + m2);
  }

  /* ---------- examples ---------- */

  /** A lower direct permission followed by a higher group one: the key gets the group's
      permission and the group's attribution. */
  lemma ExampleGroupRaises(k: Key)
    ensures Summary(k, [Contribution("REPO_READ", User, "alice"), Contribution("REPO_WRITE", Group, "dev")])
            == Some(EffectiveGrant(k.projectKey, k.repoSlug, k.email, "REPO_WRITE", Group, "dev"))
  {
  }

  /** A weaker later group row keeps the permission but still takes over the attribution. */
  lemma ExampleAttributionWithoutIncrease(k: Key)
    ensures Summary(k, [Contribution("REPO_ADMIN", User, "alice"), Contribution("REPO_READ", Group, "dev")])
            == Some(EffectiveGrant(k.projectKey, k.repoSlug, k.email, "REPO_ADMIN", Group, "dev"))
  {
  }

  /** Inputs that contribute to a single key produce a single row. */
  lemma SingleKeyOutput(d: seq<UserGrant>, g: seq<GroupGrant>, m: seq<Member>, k0: Key, x0: EffectiveGrant)
    requires Summary(k0, Contribs(d, g, m, k0)) == Some(x0)
    requires forall k :: k != k0 ==> Contribs(d, g, m, k) == []
    ensures Expand(d, g, m) == [x0]
  {
    var out := Expand(d, g, m);
    ExpandMatchesReference(d, g, m, k0);
    forall x ensures x in out <==> x in [x0] {
      if x in out {
        GetMember(out, x);
        ExpandMatchesReference(d, g, m, KeyOf(x));
      }
    }
    TupleLtIsStrictTotal();
    SortedUnique(out, [x0], SortKey, TupleLt);
  }

  /** A direct READ grant and a WRITE grant through group `dev`, whose one member is the same
      user: one effective row, with WRITE and group attribution. */
  lemma ExampleDirectPlusGroup()
    ensures Expand([UserGrant("P1", "R1", "alice", "a@x.com", "REPO_READ")],
                   [GroupGrant("P1", "R1", "dev", "REPO_WRITE")],
                   [Member("dev", "alice", "a@x.com")])
            == [EffectiveGrant("P1", "R1", "a@x.com", "REPO_WRITE", Group, "dev")]
  {
    var d := [UserGrant("P1", "R1", "alice", "a@x.com", "REPO_READ")];
    var g := [GroupGrant("P1", "R1", "dev", "REPO_WRITE")];
    var m := [Member("dev", "alice", "a@x.com")];
    var k0 := Key("P1", "R1", "a@x.com");
    var cs := [DirectContribution(d[0]), GroupContribution(g[0])];
    assert Strip("a@x.com") == "a@x.com";
    assert MembersOf(m, "dev") == [m[0]] + [];
    forall k ensures Contribs(d, g, m, k) == if k == k0 then cs else [] {
      assert DirectContribs(d, k) == (if k == k0 then [DirectContribution(d[0])] else []) + [];
      assert MemberContribs(g[0], [m[0]], k) == (if k == k0 then [GroupContribution(g[0])] else []) + [];
      assert GroupContribs(g, m, k) == GroupRowContribs(g[0], m, k) + [];
    }
    assert cs[..1] == [cs[0]];
    assert FoldPerm(cs) == "REPO_WRITE";
    SingleKeyOutput(d, g, m, k0, EffectiveGrant("P1", "R1", "a@x.com", "REPO_WRITE", Group, "dev"));
  }
}
