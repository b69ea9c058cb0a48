/** The request actions of the canonical front end, each performed on the
    request object found by id among the global requests: submit, approve,
    reject, cancel an approval, cancel a rejection, delete, resubmit after an
    edit, and the list filter. What each action does to the workflow fields
    is the corresponding function of `ApprovalRules`; the methods here tie
    the object's new state to it. `alert` becomes the `Outcome` returned. */
module Approvals {
  import opened Common
  import opened Text
  import opened Domain
  import opened Roles
  import opened Utils
  import opened ApprovalRules
  import opened Notifications

  /** `approvals.find(a => a.id === approvalId)`. */
  function RequestWithId(xs: seq<ApprovalRequest>, id: int): (r: Option<ApprovalRequest>)
    ensures r.Some? ==> r.value in xs && r.value.id == id
    ensures r.None? ==> forall k :: 0 <= k < |xs| ==> xs[k].id != id
    ensures r.Some? ==> exists k :: 0 <= k < |xs| && r.value == xs[k] &&
                                    forall j :: 0 <= j < k ==> xs[j].id != id
  {
    match FindIndex(xs, (a: ApprovalRequest) => a.id == id)
    case Some(i) => Some(xs[i])
    case None => None
  }

  /** The one object an action on `id` may change. */
  function Target(xs: seq<ApprovalRequest>, id: int): set<ApprovalRequest>
  {
    match RequestWithId(xs, id)
    case Some(r) => {r}
    case None => {}
  }

  /** `sites.find(s => s.id === siteId)`. */
  function SiteWithId(sites: seq<Site>, id: int): (r: Option<Site>)
    ensures r.Some? ==> r.value in sites && r.value.id == id
    ensures r.None? ==> forall k :: 0 <= k < |sites| ==> sites[k].id != id
    ensures r.Some? ==> exists k :: 0 <= k < |sites| && r.value == sites[k] &&
                                    forall j :: 0 <= j < k ==> sites[j].id != id
  {
    match FindIndex(sites, (s: Site) => s.id == id)
    case Some(i) => Some(sites[i])
    case None => None
  }

  // ---- The in-place updates of a request ----

  /** `approval.approvals[currentStep] = {…}`, `currentStep++` and the status update of `approveStep`. */
  method RecordApproval(approval: ApprovalRequest, approver: string, now: string)
    modifies approval`approvals, approval`currentStep, approval`status
    ensures approval.Flow() == ApproveStepped(old(approval.Flow()), approver, now)
  {
    approval.approvals := SetSlot(approval.approvals, approval.currentStep, Some(Approval(approver, now, false)));
    approval.currentStep := approval.currentStep + 1;
    if approval.currentStep >= approval.totalSteps {
      approval.status := Approved;
    } else {
      approval.status := Processing;
    }
  }

  /** The field assignments of `rejectApproval`. */
  method RecordRejection(approval: ApprovalRequest, approver: string, reason: string, now: string)
    modifies approval`status, approval`rejectedAt, approval`rejectionReason, approval`approvals
    ensures approval.Flow() == RejectedWith(old(approval.Flow()), approver, reason, now)
  {
    approval.status := Rejected;
    approval.rejectedAt := Some(now);
    approval.rejectionReason := Some(reason);
    approval.approvals := SetSlot(approval.approvals, approval.currentStep, Some(Rejection(approver, now, reason)));
  }

  /** The field assignments of `cancelApproval`. */
  method RemoveLastApproval(approval: ApprovalRequest)
    requires approval.currentStep > 0
    modifies approval`approvals, approval`currentStep, approval`status
    ensures approval.Flow() == Cancelled(old(approval.Flow()))
  {
    var previousStep := approval.currentStep - 1;
    approval.approvals := SetSlot(approval.approvals, previousStep, None);
    approval.currentStep := previousStep;
    if approval.currentStep == 0 {
      approval.status := Pending;
    } else {
      approval.status := Processing;
    }
  }

  /** The field assignments of `cancelRejection`. */
  method RestartAfterRejection(approval: ApprovalRequest)
    modifies approval`rejectedAt, approval`rejectionReason, approval`approvals, approval`currentStep, approval`status
    ensures approval.Flow() == CancelRejected(old(approval.Flow()))
  {
    approval.rejectedAt := None;
    approval.rejectionReason := None;
    if Slot(approval.approvals, approval.currentStep).Some? {
      approval.approvals := SetSlot(approval.approvals, approval.currentStep, None);
    }
    approval.currentStep := 0;
    approval.status := Pending;
  }

  /** The form fields `submitEditedApproval` copies onto the request. */
  method CopyFormFields(approval: ApprovalRequest, site: Site, title: string, content: string, author: string)
    modifies approval`title, approval`content, approval`siteId, approval`siteName, approval`author
    ensures approval.title == title && approval.content == content && approval.author == author
    ensures approval.siteId == site.id && approval.siteName == site.name
  {
    approval.title := title;
    approval.content := content;
    approval.siteId := site.id;
    approval.siteName := site.name;
    approval.author := author;
  }

  /** The restart of a rejected request in `submitEditedApproval`. */
  method ResetIfRejected(approval: ApprovalRequest, site: Site)
    modifies approval`status, approval`currentStep, approval`totalSteps, approval`approvers, approval`approvals,
             approval`rejectedAt, approval`rejectionReason
    ensures approval.Flow() == EditedWorkflow(old(approval.Flow()), site)
  {
    if approval.status == Rejected {
      approval.status := Pending;
      approval.currentStep := 0;
      approval.totalSteps := site.steps;
      approval.approvers := site.approvers;
      approval.approvals := Nones(site.steps);
      approval.rejectedAt := None;
      approval.rejectionReason := None;
    }
  }

  /** The edit time, the preserved creation time and the attachment handling of `submitEditedApproval`. */
  method StampAndAttach(approval: ApprovalRequest, now: string, upload: Option<Attachment>, attachmentShown: bool)
    modifies approval`updatedAt, approval`originalCreatedAt, approval`attachmentFileName, approval`attachmentData
    ensures approval.updatedAt == Some(now) && approval.originalCreatedAt == Some(approval.createdAt)
    ensures upload.Some? ==>
              approval.attachmentFileName == Some(upload.value.fileName) && approval.attachmentData == Some(upload.value.data)
    ensures upload.None? && !attachmentShown ==> approval.attachmentFileName.None? && approval.attachmentData.None?
    ensures upload.None? && attachmentShown ==>
              approval.attachmentFileName == old(approval.attachmentFileName) &&
              approval.attachmentData == old(approval.attachmentData)
  {
    approval.updatedAt := Some(now);
    approval.originalCreatedAt := Some(approval.createdAt);
    if upload.Some? {
      approval.attachmentFileName := Some(upload.value.fileName);
      approval.attachmentData := Some(upload.value.data);
    } else if !attachmentShown {
      approval.attachmentFileName := None;
      approval.attachmentData := None;
    }
  }

  // ---- submitApproval ----

  /** The descriptive fields of a new request. */
  function SubmittedDocument(title: string, content: string, site: Site, formAuthor: string,
                             user: Option<Session>, upload: Option<Attachment>): (d: Document)
    ensures d.title == title && d.content == content && d.siteId == site.id && d.siteName == site.name
    ensures d.author == SubmittedAuthor(formAuthor, user)
    ensures d.attachmentFileName == (if upload.Some? then Some(upload.value.fileName) else None)
    ensures d.attachmentData == (if upload.Some? then Some(upload.value.data) else None)
    ensures d.updatedAt.None? && d.originalCreatedAt.None?
  {
    Document(title, content, site.id, site.name, SubmittedAuthor(formAuthor, user),
             if upload.Some? then Some(upload.value.fileName) else None,
             if upload.Some? then Some(upload.value.data) else None,
             None, None)
  }

  /** `submitApproval`, local-storage branch. `id` is `Date.now()`, `createdAt`
      the ISO time of submission and `currentYear` its calendar year. */
  method SubmitApproval(st: AppState, nc: NotificationCenter, siteId: int, title: string, content: string,
                        formAuthor: string, upload: Option<Attachment>,
                        id: int, createdAt: string, currentYear: int, stamp: Stamp)
    returns (outcome: Outcome, created: Option<ApprovalRequest>)
    modifies st`approvals, nc
    ensures SiteWithId(st.sites, siteId).None? ==>
              && outcome == Refused && created.None?
              && st.approvals == old(st.approvals) && nc.notifications == old(nc.notifications)
    ensures SiteWithId(st.sites, siteId).Some? ==>
              var site := SiteWithId(st.sites, siteId).value;
              && outcome == Done && created.Some? && fresh(created.value)
              && st.approvals == old(st.approvals) + [created.value]
              && created.value.id == id && created.value.createdAt == createdAt
              && created.value.createdYear == currentYear
              && created.value.approvalNumber == NextApprovalNumber(old(st.approvals), currentYear)
              && created.value.Flow() == InitialWorkflow(site)
              && created.value.Doc() == SubmittedDocument(title, content, site, formAuthor, st.currentUser, upload)
              && nc.notifications ==
                   AfterNotifyPending(old(nc.notifications), created.value.Info(), st.approvedUsers, st.sites, stamp)
  {
    var site := SiteWithId(st.sites, siteId);
    if site.None? {
      return Refused, None;
    }
    var number := GenerateApprovalNumber(st.approvals, currentYear);
    var doc := SubmittedDocument(title, content, site.value, formAuthor, st.currentUser, upload);
    var approval := new ApprovalRequest(id, number, createdAt, currentYear, doc, InitialWorkflow(site.value));
    st.approvals := st.approvals + [approval];
    nc.NotifyPendingApproval(approval.Info(), st.approvedUsers, st.sites, stamp);
    return Done, Some(approval);
  }

  // ---- approveStep ----

  /** `approveStep(approvalId)`. No status guard: the list only offers the
      button for pending or in-progress requests. `now` is the approval time. */
  method ApproveStep(st: AppState, nc: NotificationCenter, approvalId: int, now: string, stamp: Stamp)
    returns (outcome: Outcome)
    modifies Target(st.approvals, approvalId), nc
    ensures RequestWithId(st.approvals, approvalId).None? ==>
              outcome == NotFound && nc.notifications == old(nc.notifications)
    ensures RequestWithId(st.approvals, approvalId).Some? ==>
              var r := RequestWithId(st.approvals, approvalId).value;
              && r.Doc() == old(r.Doc())
              && if MayApprove(st.currentUser, st.sites, old(r.siteId), old(r.Flow())) then
                   && outcome == Done
                   && r.Flow() == ApproveStepped(old(r.Flow()), ApproverName(st.currentUser.value, st.approvedUsers), now)
                   && nc.notifications == if r.status == Approved
                                          then AfterNotifyApproved(old(nc.notifications), r.Info(), stamp)
                                          else old(nc.notifications)
                 else
                   outcome == Refused && r.Flow() == old(r.Flow()) && nc.notifications == old(nc.notifications)
  {
    var found := RequestWithId(st.approvals, approvalId);
    if found.None? {
      return NotFound;
    }
    var approval := found.value;
    if !CanUserApprove(st.currentUser, st.sites, approval.siteId) {
      return Refused;
    }
    var user := st.currentUser.value;
    if NamedForAnotherApprover(user, approval.Flow()) {
      return Refused;
    }
    RecordApproval(approval, ApproverName(user, st.approvedUsers), now);
    if approval.status == Approved {
      nc.NotifyApprovalApproved(approval.Info(), stamp);
    }
    return Done;
  }

  // ---- rejectApproval ----

  /** `rejectApproval(approvalId)`; `reason` is what `prompt` returned (`None`
      when the dialog was cancelled). */
  method RejectApproval(st: AppState, nc: NotificationCenter, approvalId: int, reason: Option<string>,
                        now: string, stamp: Stamp)
    returns (outcome: Outcome)
    modifies Target(st.approvals, approvalId), nc
    ensures RequestWithId(st.approvals, approvalId).None? ==>
              outcome == NotFound && nc.notifications == old(nc.notifications)
    ensures RequestWithId(st.approvals, approvalId).Some? ==>
              var r := RequestWithId(st.approvals, approvalId).value;
              && r.Doc() == old(r.Doc())
              && if CanUserApprove(st.currentUser, st.sites, old(r.siteId)) && ReasonAccepted(reason) then
                   && outcome == Done
                   && r.Flow() == RejectedWith(old(r.Flow()), st.currentUser.value.username, reason.value, now)
                   && nc.notifications == AfterNotifyRejected(old(nc.notifications), r.Info(), stamp)
                 else
                   && outcome == (if !CanUserApprove(st.currentUser, st.sites, old(r.siteId)) then Refused
                                  else if reason.None? then Dismissed else Refused)
                   && r.Flow() == old(r.Flow()) && nc.notifications == old(nc.notifications)
  {
    var found := RequestWithId(st.approvals, approvalId);
    if found.None? {
      return NotFound;
    }
    var approval := found.value;
    if !CanUserApprove(st.currentUser, st.sites, approval.siteId) {
      return Refused;
    }
    if reason.None? {
      return Dismissed;
    }
    if !ReasonAccepted(reason) {
      return Refused;
    }
    RecordRejection(approval, st.currentUser.value.username, reason.value, now);
    nc.NotifyApprovalRejected(approval.Info(), stamp);
    return Done;
  }

  // ---- cancelApproval ----

  /** `cancelApproval(approvalId)`; `confirmed` is the answer to its `confirm`. */
  method CancelApproval(st: AppState, approvalId: int, confirmed: bool) returns (outcome: Outcome)
    modifies Target(st.approvals, approvalId)
    ensures RequestWithId(st.approvals, approvalId).None? ==> outcome == NotFound
    ensures RequestWithId(st.approvals, approvalId).Some? ==>
              var r := RequestWithId(st.approvals, approvalId).value;
              && r.Doc() == old(r.Doc())
              && if !CanCancelApproval(st.currentUser, old(r.Flow())) then outcome == Refused && r.Flow() == old(r.Flow())
                 else if !confirmed then outcome == Dismissed && r.Flow() == old(r.Flow())
                 else outcome == Done && r.Flow() == Cancelled(old(r.Flow()))
  {
    var found := RequestWithId(st.approvals, approvalId);
    if found.None? {
      return NotFound;
    }
    var approval := found.value;
    if !CanCancelApproval(st.currentUser, approval.Flow()) {
      return Refused;
    }
    if !confirmed {
      return Dismissed;
    }
    RemoveLastApproval(approval);
    return Done;
  }

  // ---- cancelRejection ----

  /** `cancelRejection(approvalId)`; afterwards the approvers are asked again
      through `notifyPendingApproval`, which stays silent when any pending
      notice for the request is still in the list. */
  method CancelRejection(st: AppState, nc: NotificationCenter, approvalId: int, confirmed: bool, stamp: Stamp)
    returns (outcome: Outcome)
    modifies Target(st.approvals, approvalId), nc
    ensures RequestWithId(st.approvals, approvalId).None? ==>
              outcome == NotFound && nc.notifications == old(nc.notifications)
    ensures RequestWithId(st.approvals, approvalId).Some? ==>
              var r := RequestWithId(st.approvals, approvalId).value;
              && r.Doc() == old(r.Doc())
              && if !MayCancelRejection(st.currentUser, old(r.Flow())) then
                   outcome == Refused && r.Flow() == old(r.Flow()) && nc.notifications == old(nc.notifications)
                 else if !confirmed then
                   outcome == Dismissed && r.Flow() == old(r.Flow()) && nc.notifications == old(nc.notifications)
                 else
                   && outcome == Done && r.Flow() == CancelRejected(old(r.Flow()))
                   && nc.notifications ==
                        AfterNotifyPending(old(nc.notifications), r.Info(), st.approvedUsers, st.sites, stamp)
  {
    var found := RequestWithId(st.approvals, approvalId);
    if found.None? {
      return NotFound;
    }
    var approval := found.value;
    if st.currentUser.None? || !IsTopTier(st.currentUser.value.role) {
      return Refused;
    }
    if approval.status != Rejected {
      return Refused;
    }
    if !confirmed {
      return Dismissed;
    }
    RestartAfterRejection(approval);
    nc.NotifyPendingApproval(approval.Info(), st.approvedUsers, st.sites, stamp);
    return Done;
  }

  /** The re-notification after a cancelled rejection adds nothing when a
      pending notice for the request survived from its first submission. */
  lemma RenotifyAfterCancelledRejectionSilent(ns: seq<Notification>, a: ApprovalInfo, users: seq<User>,
                                              sites: seq<Site>, stamp: Stamp, k: nat)
    requires k < |ns| && ns[k].approvalId == Some(a.id) && ns[k].kind == "pending"
    ensures AfterNotifyPending(ns, a, users, sites, stamp) == ns
  {
    assert IsPendingFor(ns[k], a.id);
  }

  // ---- deleteApproval ----

  /** The requests left after deleting `id`. */
  function WithoutRequest(xs: seq<ApprovalRequest>, id: int): (r: seq<ApprovalRequest>)
    ensures forall k :: 0 <= k < |r| ==> r[k].id != id && r[k] in xs
    ensures forall k :: 0 <= k < |xs| && xs[k].id != id ==> xs[k] in r
    ensures IsSubsequence(r, xs)
  {
    var r := Filter(xs, (a: ApprovalRequest) => a.id != id);
    assert forall k :: 0 <= k < |r| ==> r[k] in r;
    r
  }

  /** `deleteApproval(approvalId)`, local-storage branch. */
  method DeleteApproval(st: AppState, approvalId: int, confirmed: bool) returns (outcome: Outcome)
    modifies st`approvals
    ensures RequestWithId(old(st.approvals), approvalId).None? ==> outcome == NotFound && st.approvals == old(st.approvals)
    ensures RequestWithId(old(st.approvals), approvalId).Some? ==>
              var r := RequestWithId(old(st.approvals), approvalId).value;
              if !CanDeleteApproval(st.currentUser, r.author, r.status) then
                outcome == Refused && st.approvals == old(st.approvals)
              else if !confirmed then outcome == Dismissed && st.approvals == old(st.approvals)
              else outcome == Done && st.approvals == WithoutRequest(old(st.approvals), approvalId)
  {
    var found := RequestWithId(st.approvals, approvalId);
    if found.None? {
      return NotFound;
    }
    if !CanDeleteApproval(st.currentUser, found.value.author, found.value.status) {
      return Refused;
    }
    if confirmed {
      st.approvals := WithoutRequest(st.approvals, approvalId);
      return Done;
    }
    return Dismissed;
  }

  // ---- submitEditedApproval ----

  /** The descriptive fields after an edit. A newly chosen file replaces the
      attachment; without one, the attachment is dropped when the form no
      longer shows it (`attachmentShown` false) and kept otherwise. */
  function EditedDocument(d: Document, title: string, content: string, site: Site, author: string,
                          upload: Option<Attachment>, attachmentShown: bool,
                          now: string, createdAt: string): (e: Document)
    ensures e.title == title && e.content == content && e.siteId == site.id && e.siteName == site.name
    ensures e.author == author
    ensures e.updatedAt == Some(now) && e.originalCreatedAt == Some(createdAt)
    ensures upload.Some? ==> e.attachmentFileName == Some(upload.value.fileName) && e.attachmentData == Some(upload.value.data)
    ensures upload.None? && !attachmentShown ==> e.attachmentFileName.None? && e.attachmentData.None?
    ensures upload.None? && attachmentShown ==>
              e.attachmentFileName == d.attachmentFileName && e.attachmentData == d.attachmentData
  {
    var e := d.(title := title, content := content, siteId := site.id, siteName := site.name, author := author,
                updatedAt := Some(now), originalCreatedAt := Some(createdAt));
    if upload.Some? then e.(attachmentFileName := Some(upload.value.fileName), attachmentData := Some(upload.value.data))
    else if !attachmentShown then e.(attachmentFileName := None, attachmentData := None)
    else e
  }

  /** `submitEditedApproval`, local-storage branch; `now` is the edit time.
      The source also has a branch that resizes the chain of a pending or
      in-progress request when its site changed; it compares the request's
      site id only after overwriting it with the new one, so it never runs
      and is not modelled. The permission `canEditApproval` is not checked
      here: the edit form is only offered when it holds. */
  method SubmitEditedApproval(st: AppState, nc: NotificationCenter, approvalId: int, siteId: int,
                              title: string, content: string, author: string,
                              upload: Option<Attachment>, attachmentShown: bool, now: string, stamp: Stamp)
    returns (outcome: Outcome)
    modifies Target(st.approvals, approvalId), nc
    ensures RequestWithId(st.approvals, approvalId).None? ==>
              outcome == NotFound && nc.notifications == old(nc.notifications)
    ensures RequestWithId(st.approvals, approvalId).Some? ==>
              var r := RequestWithId(st.approvals, approvalId).value;
              if SiteWithId(st.sites, siteId).None? then
                outcome == Refused && r.Doc() == old(r.Doc()) && r.Flow() == old(r.Flow()) &&
                nc.notifications == old(nc.notifications)
              else
                var site := SiteWithId(st.sites, siteId).value;
                && outcome == Done
                && r.Flow() == EditedWorkflow(old(r.Flow()), site)
                && r.Doc() == EditedDocument(old(r.Doc()), title, content, site, author, upload, attachmentShown, now, r.createdAt)
                && nc.notifications ==
                     AfterNotifyPending(old(nc.notifications), r.Info(), st.approvedUsers, st.sites, stamp)
  {
    var found := RequestWithId(st.approvals, approvalId);
    if found.None? {
      return NotFound;
    }
    var approval := found.value;
    var site := SiteWithId(st.sites, siteId);
    if site.None? {
      return Refused;
    }
    CopyFormFields(approval, site.value, title, content, author);
    ResetIfRejected(approval, site.value);
    StampAndAttach(approval, now, upload, attachmentShown);
    nc.NotifyPendingApproval(approval.Info(), st.approvedUsers, st.sites, stamp);
    return Done;
  }

  // ---- getFilteredApprovals ----

  /** The search box, status and site filters of the list. `siteFilter` is
      `None` when no site is selected. */
  predicate MatchesListFilters(a: ApprovalRequest, search: string, statusFilter: string, siteFilter: Option<int>)
    reads a
  {
    var query := ToLower(search);
    && (query == "" || Contains(ToLower(a.title), query))
    && (statusFilter == "" || StatusName(a.status) == statusFilter)
    && (siteFilter.None? || a.siteId == siteFilter.value)
  }

  function ListFiltered(xs: seq<ApprovalRequest>, search: string, statusFilter: string, siteFilter: Option<int>)
    : (r: seq<ApprovalRequest>)
    reads xs
    ensures forall k :: 0 <= k < |r| ==> r[k] in xs && MatchesListFilters(r[k], search, statusFilter, siteFilter)
    ensures forall k :: 0 <= k < |xs| && MatchesListFilters(xs[k], search, statusFilter, siteFilter) ==> xs[k] in r
    ensures IsSubsequence(r, xs)
  {
    if xs == [] then []
    else
      var rest := ListFiltered(xs[1..], search, statusFilter, siteFilter);
      assert forall k :: 0 < k < |xs| ==> xs[k] == xs[1..][k - 1];
      if MatchesListFilters(xs[0], search, statusFilter, siteFilter) then [xs[0]] + rest else rest
  }

  /** A site manager sees only requests whose author field is their username
      or their name as an approved user. */
  predicate AuthoredBy(a: ApprovalRequest, username: string, name: Option<string>)
    reads a
  {
    a.author == username || (TruthyOpt(name) && a.author == name.value)
  }

  function OwnRequests(xs: seq<ApprovalRequest>, username: string, name: Option<string>): (r: seq<ApprovalRequest>)
    reads xs
    ensures forall k :: 0 <= k < |r| ==> r[k] in xs && AuthoredBy(r[k], username, name)
    ensures forall k :: 0 <= k < |xs| && AuthoredBy(xs[k], username, name) ==> xs[k] in r
    ensures IsSubsequence(r, xs)
  {
    if xs == [] then []
    else
      var rest := OwnRequests(xs[1..], username, name);
      assert forall k :: 0 < k < |xs| ==> xs[k] == xs[1..][k - 1];
      if AuthoredBy(xs[0], username, name) then [xs[0]] + rest else rest
  }

  /** The `name` of the first approved user with that username, `null` when there is none. */
  function NameOf(users: seq<User>, username: string): (r: Option<string>)
    ensures r.Some? <==> exists k :: 0 <= k < |users| && users[k].username == username
    ensures forall k :: 0 <= k < |users| && users[k].username == username &&
                        (forall j :: 0 <= j < k ==> users[j].username != username) ==>
                        r == Some(users[k].name)
  {
    match FindIndex(users, (u: User) => u.username == username)
    case Some(i) => Some(users[i].name)
    case None => None
  }

  /** `getFilteredApprovals()`. */
  function GetFilteredApprovals(xs: seq<ApprovalRequest>, user: Option<Session>, users: seq<User>,
                                search: string, statusFilter: string, siteFilter: Option<int>): seq<ApprovalRequest>
    reads xs
  {
    var filtered := ListFiltered(xs, search, statusFilter, siteFilter);
    if user.Some? && IsSiteTier(user.value.role)
    then OwnRequests(filtered, user.value.username, NameOf(users, user.value.username))
    else filtered
  }

  /** The list shows the requests that pass every filter, in stored order; a
      site manager only their own among them, everybody else all of them. */
  lemma FilteredApprovalsShown(xs: seq<ApprovalRequest>, user: Option<Session>, users: seq<User>,
                               search: string, statusFilter: string, siteFilter: Option<int>)
    ensures var r := GetFilteredApprovals(xs, user, users, search, statusFilter, siteFilter);
            && IsSubsequence(r, xs)
            && (forall k :: 0 <= k < |r| ==> MatchesListFilters(r[k], search, statusFilter, siteFilter))
            && (user.Some? && IsSiteTier(user.value.role) ==>
                  forall k :: 0 <= k < |r| ==> AuthoredBy(r[k], user.value.username, NameOf(users, user.value.username)))
            && (forall k :: 0 <= k < |xs| && MatchesListFilters(xs[k], search, statusFilter, siteFilter) &&
                  (user.Some? && IsSiteTier(user.value.role) ==>
                     AuthoredBy(xs[k], user.value.username, NameOf(users, user.value.username)))
                  ==> xs[k] in r)
  {
    var filtered := ListFiltered(xs, search, statusFilter, siteFilter);
    if user.Some? && IsSiteTier(user.value.role) {
      var name := NameOf(users, user.value.username);
      var r := OwnRequests(filtered, user.value.username, name);
      SubsequenceTransitive(r, filtered, xs);
      assert forall k :: 0 <= k < |r| ==> r[k] in filtered;
      forall k | 0 <= k < |r|
        ensures MatchesListFilters(r[k], search, statusFilter, siteFilter)
      {
        var j :| 0 <= j < |filtered| && filtered[j] == r[k];
      }
      forall k | 0 <= k < |xs| && MatchesListFilters(xs[k], search, statusFilter, siteFilter) &&
                 AuthoredBy(xs[k], user.value.username, name)
        ensures xs[k] in r
      {
        var j :| 0 <= j < |filtered| && filtered[j] == xs[k];
      }
    }
  }
}
