/** Planning a tenant migration: a mapping file groups orphan workspaces under tenants, and users whose
    workspaces would land in several tenants are reported. A JavaScript Set is a sequence without
    repetitions, in insertion order. */
module TenantMigration {
  import opened JsStrings
  import opened Text

  datatype Tenant = Tenant(slug: string, name: string, workspaceSlugs: seq<string>)

  datatype Orphan = Orphan(id: string, name: string, slug: string)

  datatype Group = Group(slug: string, name: string, workspaceIds: seq<string>)

  datatype Membership = Membership(userId: string, workspaceId: string, email: string)

  // ---- grouping by a mapping

  /** The id of the last orphan with a slug. */
  function LastWith(orphans: seq<Orphan>, slug: string): Option<string> {
    if orphans == [] then None
    else
      var last := orphans[|orphans| - 1];
      if last.slug == slug then Some(last.id) else LastWith(orphans[..|orphans| - 1], slug)
  }

  /** The slugs a mapping lists, tenant by tenant. */
  function Listed(tenants: seq<Tenant>): seq<string> {
    if tenants == [] then [] else Listed(tenants[..|tenants| - 1]) + tenants[|tenants| - 1].workspaceSlugs
  }

  function Assigned(groups: seq<Group>): seq<string> {
    if groups == [] then [] else Assigned(groups[..|groups| - 1]) + groups[|groups| - 1].workspaceIds
  }

  /** A listed slug that no orphan has, or that was listed before. */
  predicate Bad(slugs: seq<string>, orphans: seq<Orphan>, k: nat)
    requires k < |slugs|
  {
    LastWith(orphans, slugs[k]).None? || slugs[k] in slugs[..k]
  }

  predicate Good(slugs: seq<string>, orphans: seq<Orphan>) {
    forall k | 0 <= k < |slugs| :: !Bad(slugs, orphans, k)
  }

  /** The ids of the orphans with the given slugs. */
  ghost predicate Resolves(slugs: seq<string>, ids: seq<string>, orphans: seq<Orphan>) {
    |ids| == |slugs| && forall k | 0 <= k < |ids| :: LastWith(orphans, slugs[k]) == Some(ids[k])
  }

  /** What a mapping asks for: its tenants in order, each with the orphans it lists. */
  ghost predicate Follows(tenants: seq<Tenant>, groups: seq<Group>, orphans: seq<Orphan>) {
    |groups| == |tenants|
    && forall i | 0 <= i < |groups| ::
         groups[i].slug == tenants[i].slug && groups[i].name == tenants[i].name
         && Resolves(tenants[i].workspaceSlugs, groups[i].workspaceIds, orphans)
  }

  const UNKNOWN := "Mapping references unknown workspace slug: "

  /** The map of what is left to assign. */
  ghost predicate Leaves(bySlug: map<string, string>, orphans: seq<Orphan>, used: seq<string>) {
    forall slug :: if slug in bySlug then LastWith(orphans, slug) == Some(bySlug[slug]) && slug !in used
                   else LastWith(orphans, slug).None? || slug in used
  }

  method IndexBySlug(orphans: seq<Orphan>) returns (bySlug: map<string, string>)
    ensures Leaves(bySlug, orphans, [])
  {
    bySlug := map[];
    for i := 0 to |orphans|
      invariant Leaves(bySlug, orphans[..i], [])
    {
      assert orphans[..i + 1][..i] == orphans[..i];
      bySlug := bySlug[orphans[i].slug := orphans[i].id];
    }
    assert orphans[..|orphans|] == orphans;
  }

  lemma {:induction false} ListedPrefix(tenants: seq<Tenant>, i: nat)
    requires i <= |tenants|
    ensures Listed(tenants[..i]) <= Listed(tenants)
  {
    if i < |tenants| {
      ListedPrefix(tenants[..|tenants| - 1], i);
      assert tenants[..|tenants| - 1][..i] == tenants[..i];
    } else {
      assert tenants[..i] == tenants;
    }
  }

  lemma ListedNext(tenants: seq<Tenant>, i: nat)
    requires i < |tenants|
    ensures Listed(tenants[..i + 1]) == Listed(tenants[..i]) + tenants[i].workspaceSlugs
  {
    assert tenants[..i + 1][..i] == tenants[..i];
  }

  lemma PrefixOfSum(a: seq<string>, b: seq<string>, j: nat, whole: seq<string>)
    requires a + b <= whole && j <= |b|
    ensures a + b[..j] <= whole
  {
    assert a + b[..j] == (a + b)[..|a| + j];
  }

  lemma {:induction false} ListedTo(tenants: seq<Tenant>, i: nat, j: nat)
    requires i < |tenants| && j <= |tenants[i].workspaceSlugs|
    ensures Listed(tenants[..i]) + tenants[i].workspaceSlugs[..j] <= Listed(tenants)
    ensures Listed(tenants[..i + 1]) == Listed(tenants[..i]) + tenants[i].workspaceSlugs
  {
    ListedPrefix(tenants, i + 1);
    ListedNext(tenants, i);
    PrefixOfSum(Listed(tenants[..i]), tenants[i].workspaceSlugs, j, Listed(tenants));
  }

  /** Taking one more slug off the map. */
  lemma Take(bySlug: map<string, string>, orphans: seq<Orphan>, used: seq<string>, slug: string)
    requires Leaves(bySlug, orphans, used) && Good(used, orphans)
    ensures slug in bySlug ==> Leaves(bySlug - {slug}, orphans, used + [slug]) && Good(used + [slug], orphans)
    ensures slug !in bySlug ==> Bad(used + [slug], orphans, |used|)
  {
    var more := used + [slug];
    assert more[..|used|] == used;
    if slug in bySlug {
      forall k | 0 <= k < |more| ensures !Bad(more, orphans, k) {
        if k < |used| {
          assert more[..k] == used[..k] && !Bad(used, orphans, k);
        }
      }
    }
  }

  /** A slug is bad for what comes before it. */
  lemma BadInPrefix(slugs: seq<string>, part: seq<string>, orphans: seq<Orphan>, k: nat)
    requires part <= slugs && k < |part|
    ensures Bad(slugs, orphans, k) <==> Bad(part, orphans, k)
  {
    assert slugs[..k] == part[..k];
  }

  /** The first bad slug of a mapping. */
  ghost predicate FirstBad(tenants: seq<Tenant>, orphans: seq<Orphan>, k: nat) {
    var slugs := Listed(tenants);
    k < |slugs| && Bad(slugs, orphans, k) && Good(slugs[..k], orphans)
  }

  lemma {:induction false} FirstBadIs(tenants: seq<Tenant>, orphans: seq<Orphan>, used: seq<string>, slug: string)
    requires used + [slug] <= Listed(tenants) && Good(used, orphans) && Bad(used + [slug], orphans, |used|)
    ensures FirstBad(tenants, orphans, |used|) && Listed(tenants)[|used|] == slug && !Good(Listed(tenants), orphans)
  {
    BadInPrefix(Listed(tenants), used + [slug], orphans, |used|);
    assert Listed(tenants)[..|used|] == used;
    assert Listed(tenants)[|used|] == (used + [slug])[|used|];
  }

  /** The first slug that cannot be taken after those used. */
  ghost predicate StopsAt(slugs: seq<string>, orphans: seq<Orphan>, used: seq<string>, k: nat) {
    k < |slugs| && Good(used + slugs[..k], orphans) && Bad(used + slugs[..k] + [slugs[k]], orphans, |used| + k)
  }

  /** One tenant's ids, taken off the map: all of them, or the first slug the map does not hold. */
  method TakeIds(slugs: seq<string>, bySlug: map<string, string>, ghost orphans: seq<Orphan>, ghost used: seq<string>)
    returns (r: Result<seq<string>, string>, rest: map<string, string>)
    requires Leaves(bySlug, orphans, used) && Good(used, orphans)
    ensures r.Success? ==> Resolves(slugs, r.value, orphans)
                           && Leaves(rest, orphans, used + slugs) && Good(used + slugs, orphans)
    ensures r.Failure? ==> exists k: nat :: StopsAt(slugs, orphans, used, k) && r.error == UNKNOWN + slugs[k]
  {
    var ids: seq<string> := [];
    rest := bySlug;
    assert used + slugs[..0] == used;
    for j := 0 to |slugs|
      invariant Leaves(rest, orphans, used + slugs[..j]) && Good(used + slugs[..j], orphans)
      invariant Resolves(slugs[..j], ids, orphans)
    {
      Take(rest, orphans, used + slugs[..j], slugs[j]);
      assert used + slugs[..j] + [slugs[j]] == used + slugs[..j + 1];
      if slugs[j] !in rest {
        assert StopsAt(slugs, orphans, used, j);
        return Failure(UNKNOWN + slugs[j]), rest;
      }
      ids := ids + [rest[slugs[j]]];
      rest := rest - {slugs[j]};
    }
    assert slugs[..|slugs|] == slugs;
    r := Success(ids);
  }

  /** Succeeds exactly when every listed slug is an orphan's and none is listed twice; otherwise names the first
      that is not. */
  method BuildGroupsFromMapping(tenants: seq<Tenant>, orphans: seq<Orphan>) returns (r: Result<seq<Group>, string>)
    ensures r.Success? <==> Good(Listed(tenants), orphans)
    ensures r.Success? ==> Follows(tenants, r.value, orphans)
    ensures r.Failure? ==>
              exists k: nat :: FirstBad(tenants, orphans, k)
                               && r.error == "Mapping references unknown workspace slug: " + Listed(tenants)[k]
  {
    var bySlug := IndexBySlug(orphans);
    var groups: seq<Group> := [];
    for i := 0 to |tenants|
      invariant Leaves(bySlug, orphans, Listed(tenants[..i])) && Good(Listed(tenants[..i]), orphans)
      invariant Follows(tenants[..i], groups, orphans)
    {
      var slugs := tenants[i].workspaceSlugs;
      var ids, rest := TakeIds(slugs, bySlug, orphans, Listed(tenants[..i]));
      if ids.Failure? {
        ghost var taken: nat :| StopsAt(slugs, orphans, Listed(tenants[..i]), taken)
                                 && ids.error == UNKNOWN + slugs[taken];
        ListedTo(tenants, i, taken + 1);
        assert slugs[..taken + 1] == slugs[..taken] + [slugs[taken]];
        FirstBadIs(tenants, orphans, Listed(tenants[..i]) + slugs[..taken], slugs[taken]);
        return Failure(ids.error);
      }
      ListedTo(tenants, i, |slugs|);
      groups, bySlug := groups + [Group(tenants[i].slug, tenants[i].name, ids.value)], rest;
    }
    assert tenants[..|tenants|] == tenants;
    return Success(groups);
  }

  // ---- every orphan goes to at most one group

  predicate Distinct(s: seq<string>) { forall i, j | 0 <= i < j < |s| :: s[i] != s[j] }

  function Ids(orphans: seq<Orphan>): seq<string> { seq(|orphans|, i requires 0 <= i < |orphans| => orphans[i].id) }

  lemma {:induction false} LastWithIs(orphans: seq<Orphan>, slug: string) returns (i: nat)
    requires LastWith(orphans, slug).Some?
    ensures i < |orphans| && orphans[i].slug == slug && LastWith(orphans, slug) == Some(orphans[i].id)
    ensures forall j :: i < j < |orphans| ==> orphans[j].slug != slug
  {
    var k := |orphans| - 1;
    if orphans[k].slug == slug {
      i := k;
    } else {
      i := LastWithIs(orphans[..k], slug);
    }
  }

  lemma {:induction false} LastWithKnown(orphans: seq<Orphan>, i: nat)
    requires i < |orphans|
    ensures LastWith(orphans, orphans[i].slug).Some?
  {
    if i < |orphans| - 1 {
      LastWithKnown(orphans[..|orphans| - 1], i);
    }
  }

  lemma ResolvesJoined(a: seq<string>, x: seq<string>, b: seq<string>, y: seq<string>, orphans: seq<Orphan>)
    requires Resolves(a, x, orphans) && Resolves(b, y, orphans)
    ensures Resolves(a + b, x + y, orphans)
  {
  }

  lemma {:induction false} AssignedResolves(tenants: seq<Tenant>, groups: seq<Group>, orphans: seq<Orphan>)
    requires Follows(tenants, groups, orphans)
    ensures Resolves(Listed(tenants), Assigned(groups), orphans)
  {
    if groups != [] {
      var k := |groups| - 1;
      AssignedResolves(tenants[..k], groups[..k], orphans);
      ResolvesJoined(Listed(tenants[..k]), Assigned(groups[..k]), tenants[k].workspaceSlugs,
                     groups[k].workspaceIds, orphans);
    }
  }

  /** With unique orphan ids, a successful mapping assigns no workspace twice, within a group or across groups. */
  lemma {:induction false} AssignedOnce(tenants: seq<Tenant>, groups: seq<Group>, orphans: seq<Orphan>)
    requires Good(Listed(tenants), orphans) && Follows(tenants, groups, orphans) && Distinct(Ids(orphans))
    ensures Distinct(Assigned(groups))
  {
    AssignedResolves(tenants, groups, orphans);
    var slugs, ids := Listed(tenants), Assigned(groups);
    forall i, j | 0 <= i < j < |ids| ensures ids[i] != ids[j] {
      assert !Bad(slugs, orphans, j);
      assert slugs[i] == slugs[..j][i];
      var p := LastWithIs(orphans, slugs[i]);
      var q := LastWithIs(orphans, slugs[j]);
      assert Ids(orphans)[p] == ids[i] && Ids(orphans)[q] == ids[j];
    }
  }

  /** With unique slugs and ids, an orphan is assigned exactly when its slug is listed. */
  lemma {:induction false} AssignedExactly(tenants: seq<Tenant>, groups: seq<Group>, orphans: seq<Orphan>, o: nat)
    requires Follows(tenants, groups, orphans) && Distinct(Ids(orphans)) && o < |orphans|
    requires forall i, j | 0 <= i < j < |orphans| :: orphans[i].slug != orphans[j].slug
    ensures orphans[o].id in Assigned(groups) <==> orphans[o].slug in Listed(tenants)
  {
    AssignedResolves(tenants, groups, orphans);
    var slugs, ids := Listed(tenants), Assigned(groups);
    if orphans[o].id in ids {
      var k :| 0 <= k < |ids| && ids[k] == orphans[o].id;
      var p := LastWithIs(orphans, slugs[k]);
      assert Ids(orphans)[p] == Ids(orphans)[o];
    }
    if orphans[o].slug in slugs {
      var k :| 0 <= k < |slugs| && slugs[k] == orphans[o].slug;
      var p := LastWithIs(orphans, slugs[k]);
    }
  }

  // ---- conflicts

  /** The tenant of a workspace: that of the last group listing it. */
  function TenantOf(groups: seq<Group>, workspaceId: string): Option<string> {
    if groups == [] then None
    else if workspaceId in groups[|groups| - 1].workspaceIds then Some(groups[|groups| - 1].slug)
    else TenantOf(groups[..|groups| - 1], workspaceId)
  }

  ghost predicate Maps(m: map<string, string>, groups: seq<Group>) {
    forall id :: TenantOf(groups, id) == if id in m then Some(m[id]) else None
  }

  method BuildWorkspaceTenantMap(groups: seq<Group>) returns (m: map<string, string>)
    ensures Maps(m, groups)
  {
    m := map[];
    for i := 0 to |groups|
      invariant Maps(m, groups[..i])
    {
      var g := groups[i];
      ghost var before := m;
      for j := 0 to |g.workspaceIds|
        invariant forall id :: id in m <==> id in before || id in g.workspaceIds[..j]
        invariant forall id :: id in m ==> m[id] == if id in g.workspaceIds[..j] then g.slug else before[id]
      {
        m := m[g.workspaceIds[j] := g.slug];
      }
      assert g.workspaceIds[..|g.workspaceIds|] == g.workspaceIds;
      assert groups[..i + 1][..i] == groups[..i];
    }
    assert groups[..|groups|] == groups;
  }

  /** A workspace has a tenant exactly when a group lists it: that of the last group that does. */
  lemma {:induction false} TenantIsLastListing(groups: seq<Group>, i: nat, workspaceId: string)
    requires i < |groups| && workspaceId in groups[i].workspaceIds
    requires forall j :: i < j < |groups| ==> workspaceId !in groups[j].workspaceIds
    ensures TenantOf(groups, workspaceId) == Some(groups[i].slug)
  {
    if i < |groups| - 1 {
      TenantIsLastListing(groups[..|groups| - 1], i, workspaceId);
    }
  }

  lemma {:induction false} UnlistedHasNone(groups: seq<Group>, workspaceId: string)
    requires forall j :: 0 <= j < |groups| ==> workspaceId !in groups[j].workspaceIds
    ensures TenantOf(groups, workspaceId).None?
  {
    if groups != [] {
      UnlistedHasNone(groups[..|groups| - 1], workspaceId);
    }
  }

  /** With no workspace assigned twice, a workspace's tenant is that of the one group listing it. */
  lemma {:induction false} TenantIsItsGroup(groups: seq<Group>, i: nat, workspaceId: string)
    requires Distinct(Assigned(groups)) && i < |groups| && workspaceId in groups[i].workspaceIds
    ensures TenantOf(groups, workspaceId) == Some(groups[i].slug)
  {
    var k := |groups| - 1;
    if i < k {
      var before, last := Assigned(groups[..k]), groups[k].workspaceIds;
      Halves(before, last);
      AssignedHolds(groups[..k], i, workspaceId);
      TenantIsItsGroup(groups[..k], i, workspaceId);
    }
  }

  lemma Halves(a: seq<string>, b: seq<string>)
    requires Distinct(a + b)
    ensures Distinct(a) && forall x :: x in a ==> x !in b
  {
    assert forall i :: 0 <= i < |a| ==> (a + b)[i] == a[i];
    assert forall i :: 0 <= i < |b| ==> (a + b)[|a| + i] == b[i];
  }

  lemma {:induction false} AssignedHolds(groups: seq<Group>, i: nat, workspaceId: string)
    requires i < |groups| && workspaceId in groups[i].workspaceIds
    ensures workspaceId in Assigned(groups)
  {
    if i < |groups| - 1 {
      AssignedHolds(groups[..|groups| - 1], i, workspaceId);
    }
  }

  /** A membership's tenant slug, when it has one that is not empty. */
  function SlugOf(groups: seq<Group>, row: Membership): string {
    var t := TenantOf(groups, row.workspaceId);
    if t.Some? then t.value else ""
  }

  function Added(s: seq<string>, x: string): seq<string> { if x in s then s else s + [x] }

  /** The tenants of a user, in order of first membership. */
  function TenantsOf(groups: seq<Group>, rows: seq<Membership>, userId: string): seq<string> {
    if rows == [] then []
    else
      var row := rows[|rows| - 1];
      var rest := TenantsOf(groups, rows[..|rows| - 1], userId);
      if row.userId == userId && SlugOf(groups, row) != "" then Added(rest, SlugOf(groups, row)) else rest
  }

  function Line(email: string, tenants: seq<string>): string {
    email + " would belong to tenants: " + Join(tenants, ", ")
  }

  /** A membership that is reported: mapped, of a user with more than one tenant. */
  predicate Reported(groups: seq<Group>, rows: seq<Membership>, row: Membership) {
    SlugOf(groups, row) != "" && |TenantsOf(groups, rows, row.userId)| > 1
  }

  /** The lines of the first n memberships, without repetition. */
  function Lines(groups: seq<Group>, rows: seq<Membership>, n: nat): seq<string>
    requires n <= |rows|
  {
    if n == 0 then []
    else
      var rest := Lines(groups, rows, n - 1);
      var row := rows[n - 1];
      if Reported(groups, rows, row) then Added(rest, Line(row.email, TenantsOf(groups, rows, row.userId))) else rest
  }

  ghost predicate Collects(m: map<string, seq<string>>, groups: seq<Group>, rows: seq<Membership>) {
    forall u :: TenantsOf(groups, rows, u) == if u in m then m[u] else []
  }

  method CollectTenants(groups: seq<Group>, rows: seq<Membership>, tenantOf: map<string, string>)
    returns (userTenants: map<string, seq<string>>)
    requires Maps(tenantOf, groups)
    ensures Collects(userTenants, groups, rows)
  {
    userTenants := map[];
    for i := 0 to |rows|
      invariant Collects(userTenants, groups, rows[..i])
    {
      var row := rows[i];
      var slug := if row.workspaceId in tenantOf then tenantOf[row.workspaceId] else "";
      assert rows[..i + 1][..i] == rows[..i] && slug == SlugOf(groups, row);
      if slug != "" {
        var tenants := if row.userId in userTenants then userTenants[row.userId] else [];
        assert tenants == TenantsOf(groups, rows[..i], row.userId);
        if slug !in tenants {
          tenants := tenants + [slug];
        }
        userTenants := userTenants[row.userId := tenants];
      }
    }
    assert rows[..|rows|] == rows;
  }

  function Deduped(s: seq<string>): seq<string> {
    if s == [] then [] else Added(Deduped(s[..|s| - 1]), s[|s| - 1])
  }

  lemma {:induction false} DedupedMore(s: seq<string>, x: string)
    ensures Deduped(s + [x]) == Added(Deduped(s), x)
  {
    assert (s + [x])[..|s|] == s;
  }

  /** new Set of a list, spread again. */
  method Dedupe(s: seq<string>) returns (r: seq<string>)
    ensures r == Deduped(s)
  {
    r := [];
    for i := 0 to |s|
      invariant r == Deduped(s[..i])
    {
      assert s[..i + 1][..i] == s[..i];
      if s[i] !in r {
        r := r + [s[i]];
      }
    }
    assert s[..|s|] == s;
  }

  method DetectCrossTenantConflicts(groups: seq<Group>, rows: seq<Membership>) returns (r: seq<string>)
    ensures r == Lines(groups, rows, |rows|)
  {
    var tenantOf := BuildWorkspaceTenantMap(groups);
    var userTenants := CollectTenants(groups, rows, tenantOf);
    var conflicts: seq<string> := [];
    for i := 0 to |rows|
      invariant Deduped(conflicts) == Lines(groups, rows, i)
    {
      var row := rows[i];
      var slug := if row.workspaceId in tenantOf then tenantOf[row.workspaceId] else "";
      assert slug == SlugOf(groups, row);
      if slug != "" && row.userId in userTenants && |userTenants[row.userId]| > 1 {
        assert userTenants[row.userId] == TenantsOf(groups, rows, row.userId);
        DedupedMore(conflicts, Line(row.email, userTenants[row.userId]));
        conflicts := conflicts + [Line(row.email, userTenants[row.userId])];
      }
    }
    r := Dedupe(conflicts);
  }

  // ---- detection is sound and complete

  predicate MemberOf(groups: seq<Group>, row: Membership, userId: string, slug: string) {
    slug != "" && row.userId == userId && SlugOf(groups, row) == slug
  }

  /** A user's tenants are exactly the non-empty slugs of their mapped memberships, each once. */
  lemma {:induction false} TenantsAre(groups: seq<Group>, rows: seq<Membership>, userId: string, slug: string)
    ensures Distinct(TenantsOf(groups, rows, userId))
    ensures slug in TenantsOf(groups, rows, userId)
        <==> exists i :: 0 <= i < |rows| && MemberOf(groups, rows[i], userId, slug)
  {
    if rows != [] {
      var k := |rows| - 1;
      TenantsAre(groups, rows[..k], userId, slug);
      assert forall i :: 0 <= i < k ==> rows[..k][i] == rows[i];
      assert MemberOf(groups, rows[k], userId, slug)
          ==> exists i :: 0 <= i < |rows| && MemberOf(groups, rows[i], userId, slug);
    }
  }

  /** In order of first membership: more memberships only add tenants behind those already there. */
  lemma {:induction false} TenantsInOrder(groups: seq<Group>, rows: seq<Membership>, userId: string, n: nat)
    requires n <= |rows|
    ensures TenantsOf(groups, rows[..n], userId) <= TenantsOf(groups, rows, userId)
  {
    if n < |rows| {
      var k := |rows| - 1;
      TenantsInOrder(groups, rows[..k], userId, n);
      assert rows[..k][..n] == rows[..n];
    } else {
      assert rows[..n] == rows;
    }
  }

  /** So for the lines, in order of the memberships. */
  lemma {:induction false} LinesInOrder(groups: seq<Group>, rows: seq<Membership>, m: nat, n: nat)
    requires m <= n <= |rows|
    ensures Lines(groups, rows, m) <= Lines(groups, rows, n)
  {
    if m < n {
      LinesInOrder(groups, rows, m, n - 1);
    }
  }

  /** Two memberships of one user, mapped to different tenants. */
  predicate Crosses(groups: seq<Group>, a: Membership, b: Membership) {
    a.userId == b.userId && SlugOf(groups, a) != "" && SlugOf(groups, b) != "" && SlugOf(groups, a) != SlugOf(groups, b)
  }

  lemma {:induction false} SeveralExactly(groups: seq<Group>, rows: seq<Membership>, userId: string)
    ensures |TenantsOf(groups, rows, userId)| > 1
        <==> exists i, j :: 0 <= i < |rows| && 0 <= j < |rows| && rows[i].userId == userId
                            && Crosses(groups, rows[i], rows[j])
  {
    var tenants := TenantsOf(groups, rows, userId);
    if |tenants| > 1 {
      TenantsAre(groups, rows, userId, tenants[0]);
      TenantsAre(groups, rows, userId, tenants[1]);
      var i :| 0 <= i < |rows| && MemberOf(groups, rows[i], userId, tenants[0]);
      var j :| 0 <= j < |rows| && MemberOf(groups, rows[j], userId, tenants[1]);
      assert Crosses(groups, rows[i], rows[j]);
    }
    if i, j :| 0 <= i < |rows| && 0 <= j < |rows| && rows[i].userId == userId && Crosses(groups, rows[i], rows[j]) {
      var a, b := SlugOf(groups, rows[i]), SlugOf(groups, rows[j]);
      TenantsAre(groups, rows, userId, a);
      TenantsAre(groups, rows, userId, b);
      assert MemberOf(groups, rows[i], userId, a) && MemberOf(groups, rows[j], userId, b);
      assert a in tenants && b in tenants;
    }
  }

  lemma {:induction false} LinesAre(groups: seq<Group>, rows: seq<Membership>, n: nat, line: string)
    requires n <= |rows|
    ensures Distinct(Lines(groups, rows, n))
    ensures line in Lines(groups, rows, n)
        <==> exists i :: 0 <= i < n && Reported(groups, rows, rows[i])
                         && line == Line(rows[i].email, TenantsOf(groups, rows, rows[i].userId))
  {
    if n > 0 {
      LinesAre(groups, rows, n - 1, line);
    }
  }

  /** Sound: every reported line is that of a user whose mapped memberships span two tenants, and lists exactly the
      tenants of theirs. Complete: every such user's every mapped membership has its line. */
  lemma {:induction false} ConflictsExactly(groups: seq<Group>, rows: seq<Membership>, line: string)
    ensures line in Lines(groups, rows, |rows|)
        <==> exists i, j :: 0 <= i < |rows| && 0 <= j < |rows| && Crosses(groups, rows[i], rows[j])
                            && line == rows[i].email + " would belong to tenants: "
                                       + Join(TenantsOf(groups, rows, rows[i].userId), ", ")
  {
    LinesAre(groups, rows, |rows|, line);
    forall i | 0 <= i < |rows|
      ensures Reported(groups, rows, rows[i])
          <==> exists j :: 0 <= j < |rows| && Crosses(groups, rows[i], rows[j])
    {
      ReportedExactly(groups, rows, i);
    }
  }

  lemma ReportedExactly(groups: seq<Group>, rows: seq<Membership>, i: nat)
    requires i < |rows|
    ensures Reported(groups, rows, rows[i]) <==> exists j :: 0 <= j < |rows| && Crosses(groups, rows[i], rows[j])
  {
    SeveralExactly(groups, rows, rows[i].userId);
    if Reported(groups, rows, rows[i]) {
      var p, q :| 0 <= p < |rows| && 0 <= q < |rows| && rows[p].userId == rows[i].userId
                  && Crosses(groups, rows[p], rows[q]);
      assert Crosses(groups, rows[i], rows[p]) || Crosses(groups, rows[i], rows[q]);
    }
  }

  /** Memberships of one user mapped to different tenants, the empty slug counted as one. */
  predicate Spans(groups: seq<Group>, a: Membership, b: Membership) {
    a.userId == b.userId && TenantOf(groups, a.workspaceId).Some? && TenantOf(groups, b.workspaceId).Some?
    && TenantOf(groups, a.workspaceId) != TenantOf(groups, b.workspaceId)
  }

  lemma CrossesIs(groups: seq<Group>, a: Membership, b: Membership)
    ensures Crosses(groups, a, b) <==> Spans(groups, a, b) && SlugOf(groups, a) != "" && SlugOf(groups, b) != ""
  {
  }

  /** Nothing is reported exactly when no user's mapped memberships span two tenants but for tenants with the empty
      slug. */
  lemma {:induction false} NoConflictsExactly(groups: seq<Group>, rows: seq<Membership>)
    ensures Lines(groups, rows, |rows|) == []
        <==> forall i, j :: 0 <= i < |rows| && 0 <= j < |rows| ==> !Crosses(groups, rows[i], rows[j])
    ensures Lines(groups, rows, |rows|) == []
        <==> forall i, j :: 0 <= i < |rows| && 0 <= j < |rows| && Spans(groups, rows[i], rows[j]) ==>
               SlugOf(groups, rows[i]) == "" || SlugOf(groups, rows[j]) == ""
  {
    var lines := Lines(groups, rows, |rows|);
    if lines != [] {
      ConflictsExactly(groups, rows, lines[0]);
    }
    if i, j :| 0 <= i < |rows| && 0 <= j < |rows| && Crosses(groups, rows[i], rows[j]) {
      ConflictsExactly(groups, rows, Line(rows[i].email, TenantsOf(groups, rows, rows[i].userId)));
    }
    forall i, j | 0 <= i < |rows| && 0 <= j < |rows|
      ensures Crosses(groups, rows[i], rows[j])
          <==> Spans(groups, rows[i], rows[j]) && SlugOf(groups, rows[i]) != "" && SlugOf(groups, rows[j]) != ""
    {
      CrossesIs(groups, rows[i], rows[j]);
    }
  }

  /** A group with an empty slug is overlooked: a user in it and in one other tenant is not reported. */
  lemma EmptySlugOverlooked(userId: string, email: string, w1: string, w2: string, slug: string)
    requires w1 != w2 && slug != ""
    ensures var groups := [Group("", "", [w1]), Group(slug, slug, [w2])];
            var rows := [Membership(userId, w1, email), Membership(userId, w2, email)];
            Spans(groups, rows[0], rows[1]) && Lines(groups, rows, 2) == []
  {
    var groups := [Group("", "", [w1]), Group(slug, slug, [w2])];
    var rows := [Membership(userId, w1, email), Membership(userId, w2, email)];
    assert groups[..1] == [groups[0]];
    assert TenantOf(groups, w2) == Some(slug) && TenantOf(groups, w1) == TenantOf(groups[..1], w1) == Some("");
    NoConflictsExactly(groups, rows);
  }

  /** Otherwise detection sees every span: without empty slugs among the groups, nothing is reported exactly when
      no user's mapped memberships span two tenants at all. */
  lemma {:induction false} NamedTenantsExactly(groups: seq<Group>, rows: seq<Membership>)
    requires forall i | 0 <= i < |groups| :: groups[i].slug != ""
    ensures Lines(groups, rows, |rows|) == []
        <==> forall i, j :: 0 <= i < |rows| && 0 <= j < |rows| ==> !Spans(groups, rows[i], rows[j])
  {
    NoConflictsExactly(groups, rows);
    forall i, j | 0 <= i < |rows| && 0 <= j < |rows|
      ensures Spans(groups, rows[i], rows[j]) <==> Crosses(groups, rows[i], rows[j])
    {
      SpansCross(groups, rows[i], rows[j]);
    }
  }

  lemma SpansCross(groups: seq<Group>, a: Membership, b: Membership)
    requires forall i | 0 <= i < |groups| :: groups[i].slug != ""
    ensures Spans(groups, a, b) <==> Crosses(groups, a, b)
  {
    NeverEmpty(groups, a.workspaceId);
    NeverEmpty(groups, b.workspaceId);
  }

  lemma {:induction false} NeverEmpty(groups: seq<Group>, id: string)
    requires forall i | 0 <= i < |groups| :: groups[i].slug != ""
    ensures TenantOf(groups, id) != Some("")
  {
    if groups != [] {
      NeverEmpty(groups[..|groups| - 1], id);
    }
  }
}
