/** Construction sites on the legacy front end's browser-storage path:
    adding a site with an approval chain of 1 to 10 still unnamed steps, and
    deleting a site, which only head office may do. */
module Sites {
  import opened Common
  import opened Domain
  import opened Roles
  import opened ApprovalRules

  const MinSteps: int := 1
  const MaxSteps: int := 10

  /** `Array(steps).fill('')`. */
  function BlankApprovers(steps: nat): (r: seq<string>)
    ensures |r| == steps && forall k :: 0 <= k < steps ==> r[k] == ""
  {
    seq(steps, k => "")
  }

  /** `addSite`; `id` stands for `Date.now()`. No permission is checked. */
  method AddSite(st: AppState, id: int, name: string, location: string, manager: string, steps: int)
    returns (outcome: Outcome)
    modifies st`sites
    ensures steps < MinSteps || steps > MaxSteps ==> outcome == Refused && st.sites == old(st.sites)
    ensures MinSteps <= steps <= MaxSteps ==>
              outcome == Done && st.sites == old(st.sites) + [Site(id, name, location, manager, steps, BlankApprovers(steps))]
  {
    if steps < MinSteps || steps > MaxSteps {
      return Refused;
    }
    st.sites := st.sites + [Site(id, name, location, manager, steps, BlankApprovers(steps))];
    return Done;
  }

  /** A request filed against a freshly added site starts with one empty
      slot and one unnamed approver per step, which no site manager can fill
      in ahead of time. */
  lemma NewSiteChain(id: int, name: string, location: string, manager: string, steps: nat)
    requires MinSteps <= steps <= MaxSteps
    ensures var w := InitialWorkflow(Site(id, name, location, manager, steps, BlankApprovers(steps)));
            && 1 <= w.totalSteps <= 10 && |w.approvers| == w.totalSteps && |w.approvals| == w.totalSteps
            && (forall k :: 0 <= k < w.totalSteps ==> w.approvers[k] == "" && w.approvals[k].None?)
            && Consistent(w)
  {
    InitialWorkflowFresh(Site(id, name, location, manager, steps, BlankApprovers(steps)));
  }

  /** `sites.filter(s => s.id !== siteId)`. */
  function WithoutSite(sites: seq<Site>, siteId: int): (r: seq<Site>)
    ensures forall s :: s in r <==> s in sites && s.id != siteId
    ensures IsSubsequence(r, sites)
  {
    Filter(sites, (s: Site) => s.id != siteId)
  }

  /** `deleteSite(siteId)`; `confirmed` is the answer to its `confirm`. */
  method DeleteSite(st: AppState, siteId: int, confirmed: bool) returns (outcome: Outcome)
    modifies st`sites
    ensures !HasPermission(st.currentUser, "manage_sites") ==> outcome == Refused
    ensures HasPermission(st.currentUser, "manage_sites") && (forall k :: 0 <= k < |old(st.sites)| ==> old(st.sites)[k].id != siteId) ==>
              outcome == NotFound
    ensures outcome != Done ==> st.sites == old(st.sites)
    ensures outcome == Done <==>
              HasPermission(st.currentUser, "manage_sites") && confirmed &&
              exists k :: 0 <= k < |old(st.sites)| && old(st.sites)[k].id == siteId
    ensures outcome == Done ==> st.sites == WithoutSite(old(st.sites), siteId)
  {
    if !HasPermission(st.currentUser, "manage_sites") {
      return Refused;
    }
    var found := FindIndex(st.sites, (s: Site) => s.id == siteId);
    if found.None? {
      return NotFound;
    }
    if !confirmed {
      return Dismissed;
    }
    st.sites := WithoutSite(st.sites, siteId);
    return Done;
  }

  /** `manage_sites` is not in any listed tier's table, so only head office may delete a site. */
  lemma OnlyHeadOfficeManagesSites(user: Option<Session>)
    ensures HasPermission(user, "manage_sites") <==> user.Some? && IsTopTier(user.value.role)
  {
    if user.Some? && !IsTopTier(user.value.role) {
      assert "manage_sites" !in ManagerPermissions;
      assert "manage_sites" !in ReadOnlyPermissions;
    }
  }
}
