/** Role tiers and the permission table of the legacy front end.
    Two role names map to each tier: `ceo`/`headquarters` (head office),
    `manager`/`site` (site managers), `admin_dept`/`other` (read-only). */
module Roles {
  import opened Common
  import opened Domain

  predicate IsTopTier(role: string)
  {
    role == "ceo" || role == "headquarters"
  }

  predicate IsSiteTier(role: string)
  {
    role == "manager" || role == "site"
  }

  predicate IsReadOnlyTier(role: string)
  {
    role == "admin_dept" || role == "other"
  }

  datatype Tier = TopTier | SiteTier | ReadOnlyTier | NoTier

  function TierOf(role: string): (t: Tier)
    ensures t == TopTier <==> IsTopTier(role)
    ensures t == SiteTier <==> IsSiteTier(role)
    ensures t == ReadOnlyTier <==> IsReadOnlyTier(role)
  {
    if IsTopTier(role) then TopTier
    else if IsSiteTier(role) then SiteTier
    else if IsReadOnlyTier(role) then ReadOnlyTier
    else NoTier
  }

  const ManagerPermissions: seq<string> :=
    ["view_dashboard", "create_approval", "view_own_approvals", "approve_own_site", "reject_own_site"]

  const ReadOnlyPermissions: seq<string> := ["view_dashboard", "view_own_approvals"]

  /** `hasPermission(action)`, in the order the source decides it. */
  function HasPermission(user: Option<Session>, action: string): bool
  {
    if user.None? then false
    else if IsTopTier(user.value.role) then true
    else if IsSiteTier(user.value.role) then action in ManagerPermissions
    else if IsReadOnlyTier(user.value.role) then action in ReadOnlyPermissions
    else false
  }

  /** The permission table written per tier, independently of the code's branch order. */
  predicate Grants(t: Tier, action: string)
  {
    match t
    case TopTier => true
    case SiteTier =>
      action == "view_dashboard" || action == "create_approval" || action == "view_own_approvals" ||
      action == "approve_own_site" || action == "reject_own_site"
    case ReadOnlyTier => action == "view_dashboard" || action == "view_own_approvals"
    case NoTier => false
  }

  /** Nobody logged in: nothing is permitted; otherwise the decision depends
      only on the role's tier and agrees with the table. */
  lemma HasPermissionMatchesTable(user: Option<Session>, action: string)
    ensures user.None? ==> !HasPermission(user, action)
    ensures user.Some? ==> HasPermission(user, action) == Grants(TierOf(user.value.role), action)
  {
  }

  lemma TopTierGrantedEverything(user: Option<Session>, action: string)
    requires user.Some? && IsTopTier(user.value.role)
    ensures HasPermission(user, action)
  {
  }

  lemma UnknownRoleDeniedEverything(user: Option<Session>, action: string)
    requires user.Some? && TierOf(user.value.role) == NoTier
    ensures !HasPermission(user, action)
  {
  }

  /** Whatever a read-only user may do, a site manager may do too. */
  lemma ReadOnlySubsetOfManager(action: string)
    ensures Grants(ReadOnlyTier, action) ==> Grants(SiteTier, action)
    ensures forall a :: a in ReadOnlyPermissions ==> a in ManagerPermissions
  {
  }

  /** `isSiteManager(siteId)`: the user is site tier and the first site with
      that id names them as its manager. */
  function IsSiteManager(user: Option<Session>, sites: seq<Site>, siteId: int): (r: bool)
    ensures r <==> user.Some? && IsSiteTier(user.value.role) &&
                   exists k :: 0 <= k < |sites| && sites[k].id == siteId &&
                     sites[k].manager == user.value.username &&
                     forall j :: 0 <= j < k ==> sites[j].id != siteId
  {
    if user.None? || !IsSiteTier(user.value.role) then false
    else
      match FindIndex(sites, (s: Site) => s.id == siteId)
      case None => false
      case Some(k) => sites[k].manager == user.value.username
  }

  /** The approver name the code records for a user: the `name` of the first
      approved user with that username when it is not empty, else the username. */
  function DisplayName(users: seq<User>, username: string): (r: string)
    ensures (forall k :: 0 <= k < |users| ==> users[k].username != username) ==> r == username
    ensures forall k :: 0 <= k < |users| && users[k].username == username &&
                        (forall j :: 0 <= j < k ==> users[j].username != username) ==>
                        r == if Truthy(users[k].name) then users[k].name else username
  {
    match FindIndex(users, (u: User) => u.username == username)
    case Some(i) => if Truthy(users[i].name) then users[i].name else username
    case None => username
  }
}
