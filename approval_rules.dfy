/** The decision logic of the canonical workflow: who may approve, reject,
    cancel, edit or delete a request, and what each action does to the
    workflow fields, stated as functions on `Workflow` values. */
module ApprovalRules {
  import opened Common
  import opened Text
  import opened Domain
  import opened Roles

  // ---- Permission predicates ----

  /** `canUserApprove(approval)`, in the order the source decides it. */
  function CanUserApprove(user: Option<Session>, sites: seq<Site>, siteId: int): bool
  {
    if user.None? then false
    else if IsTopTier(user.value.role) then true
    else if IsReadOnlyTier(user.value.role) then false
    else if IsSiteTier(user.value.role) then IsSiteManager(user, sites, siteId)
    else false
  }

  /** Head office may approve anything, site managers only their own sites,
      every other role (and nobody logged in) nothing. */
  lemma CanUserApproveByTier(user: Option<Session>, sites: seq<Site>, siteId: int)
    ensures user.None? ==> !CanUserApprove(user, sites, siteId)
    ensures user.Some? && IsTopTier(user.value.role) ==> CanUserApprove(user, sites, siteId)
    ensures user.Some? && IsReadOnlyTier(user.value.role) ==> !CanUserApprove(user, sites, siteId)
    ensures user.Some? && IsSiteTier(user.value.role) ==>
              CanUserApprove(user, sites, siteId) == IsSiteManager(user, sites, siteId)
    ensures user.Some? && TierOf(user.value.role) == NoTier ==> !CanUserApprove(user, sites, siteId)
  {
  }

  /** Whoever may approve a request also holds the permission table's
      approve and reject rights. */
  lemma ApproverHoldsApprovePermission(user: Option<Session>, sites: seq<Site>, siteId: int)
    requires CanUserApprove(user, sites, siteId)
    ensures HasPermission(user, "approve_own_site") && HasPermission(user, "reject_own_site")
  {
  }

  /** `canCancelApproval(approval)`. */
  function CanCancelApproval(user: Option<Session>, w: Workflow): bool
  {
    if user.None? then false
    else if w.status != Approved && w.status != Processing then false
    else if w.currentStep == 0 then false
    else
      var previous := Slot(w.approvals, w.currentStep - 1);
      if !IsApproval(previous) then false
      else if IsTopTier(user.value.role) then true
      else previous.value.approver == user.value.username
  }

  /** The four conditions of cancelling, stated together. */
  lemma CanCancelApprovalConditions(user: Option<Session>, w: Workflow)
    ensures CanCancelApproval(user, w) <==>
              user.Some? && (w.status == Approved || w.status == Processing) && w.currentStep > 0 &&
              w.currentStep - 1 < |w.approvals| && IsApproval(w.approvals[w.currentStep - 1]) &&
              (IsTopTier(user.value.role) || w.approvals[w.currentStep - 1].value.approver == user.value.username)
  {
  }

  /** `canEditApproval(approval)`: only the author, and not once approved;
      head office has no edit right of its own. */
  function CanEditApproval(user: Option<Session>, author: string, status: Status): bool
  {
    user.Some? && author == user.value.username &&
    (status == Pending || status == Processing || status == Rejected)
  }

  /** `canDeleteApproval(approval)`. */
  function CanDeleteApproval(user: Option<Session>, author: string, status: Status): bool
  {
    if user.None? then false
    else if IsTopTier(user.value.role) then true
    else author == user.value.username && (status == Pending || status == Processing)
  }

  /** Only the author edits, and only requests that are not yet approved. */
  lemma EditPermission(user: Option<Session>, author: string, status: Status)
    ensures CanEditApproval(user, author, status) <==>
              user.Some? && author == user.value.username && status != Approved
  {
  }

  /** Head office deletes anything; anyone else only their own open requests,
      which they may also edit. */
  lemma DeletePermission(user: Option<Session>, author: string, status: Status)
    ensures CanDeleteApproval(user, author, status) <==>
              user.Some? && (IsTopTier(user.value.role) ||
                             (author == user.value.username && status != Approved && status != Rejected))
    ensures user.Some? && !IsTopTier(user.value.role) && CanDeleteApproval(user, author, status) ==>
              CanEditApproval(user, author, status)
  {
  }

  // ---- Transitions ----

  /** The workflow a new request starts with: the site's chain, nothing done yet. */
  function InitialWorkflow(site: Site): Workflow
  {
    Workflow(Pending, 0, site.steps, site.approvers, Nones(site.steps), None, None)
  }

  /** A new request is pending at step 0 with one empty slot per step of its
      site's chain, a copy of the site's approvers, and no rejection; that
      state is consistent. */
  lemma InitialWorkflowFresh(site: Site)
    ensures var w := InitialWorkflow(site);
            && Consistent(w) && w.status == Pending && w.currentStep == 0
            && w.totalSteps == site.steps && w.approvers == site.approvers
            && |w.approvals| == site.steps && (forall k :: 0 <= k < site.steps ==> w.approvals[k].None?)
            && w.rejectedAt.None? && w.rejectionReason.None?
  {
  }

  /** The author stored on submission: the trimmed form value, or the
      username when that is empty and somebody is logged in. */
  function SubmittedAuthor(formAuthor: string, user: Option<Session>): (a: string)
    ensures Trim(formAuthor) != "" ==> a == Trim(formAuthor)
    ensures Trim(formAuthor) == "" && user.Some? ==> a == user.value.username
    ensures Trim(formAuthor) == "" && user.None? ==> a == ""
  {
    var author := Trim(formAuthor);
    if !Truthy(author) && user.Some? then user.value.username else author
  }

  /** The name written into the approval record: head office and site
      managers sign with their display name. */
  function ApproverName(user: Session, users: seq<User>): string
  {
    if IsTopTier(user.role) || IsSiteTier(user.role) then DisplayName(users, user.username)
    else user.username
  }

  /** The site-tier check of `approveStep`: refused when the current step
      names somebody else and the user is named at no step. */
  predicate NamedForAnotherApprover(user: Session, w: Workflow)
  {
    var current := if w.currentStep < |w.approvers| then w.approvers[w.currentStep] else "";
    IsSiteTier(user.role) && Truthy(current) && current != user.username && user.username !in w.approvers
  }

  predicate MayApprove(user: Option<Session>, sites: seq<Site>, siteId: int, w: Workflow)
  {
    CanUserApprove(user, sites, siteId) && !NamedForAnotherApprover(user.value, w)
  }

  /** What a permitted approval does to the workflow. */
  function ApproveStepped(w: Workflow, approver: string, now: string): (v: Workflow)
    ensures v.approvals == SetSlot(w.approvals, w.currentStep, Some(Approval(approver, now, false)))
    ensures v.currentStep == w.currentStep + 1
    ensures v.status == if w.currentStep + 1 >= w.totalSteps then Approved else Processing
    ensures v.totalSteps == w.totalSteps && v.approvers == w.approvers
    ensures v.rejectedAt == w.rejectedAt && v.rejectionReason == w.rejectionReason
  {
    var approvals := SetSlot(w.approvals, w.currentStep, Some(Approval(approver, now, false)));
    var step := w.currentStep + 1;
    w.(approvals := approvals, currentStep := step,
       status := if step >= w.totalSteps then Approved else Processing)
  }

  /** Approving a request the interface offers for approval (pending or in
      progress) keeps the workflow consistent. */
  lemma {:induction false} ApprovePreservesConsistency(w: Workflow, approver: string, now: string)
    requires Consistent(w) && (w.status == Pending || w.status == Processing) && w.totalSteps > 0
    ensures Consistent(ApproveStepped(w, approver, now))
  {
    var v := ApproveStepped(w, approver, now);
    assert w.currentStep < w.totalSteps;
    forall k | 0 <= k < v.currentStep
      ensures IsApproval(v.approvals[k])
    {
      if k < w.currentStep {
        assert v.approvals[k] == w.approvals[k];
      }
    }
  }

  /** Approving every remaining step of a fresh chain finishes it. */
  function ApproveAll(w: Workflow, approver: string, now: string, n: nat): Workflow
    decreases n
  {
    if n == 0 then w else ApproveAll(ApproveStepped(w, approver, now), approver, now, n - 1)
  }

  lemma {:induction false} ApproveAllCompletes(w: Workflow, approver: string, now: string)
    requires Consistent(w) && (w.status == Pending || w.status == Processing) && w.totalSteps > 0
    ensures var v := ApproveAll(w, approver, now, w.totalSteps - w.currentStep);
            Consistent(v) && v.status == Approved && v.currentStep == v.totalSteps
    decreases w.totalSteps - w.currentStep
  {
    ApprovePreservesConsistency(w, approver, now);
    var v := ApproveStepped(w, approver, now);
    if v.status == Processing {
      ApproveAllCompletes(v, approver, now);
      assert w.totalSteps - w.currentStep == (v.totalSteps - v.currentStep) + 1;
    } else {
      assert w.totalSteps - w.currentStep == 1;
    }
  }

  /** A rejection reason is accepted when given and not blank, which is what
      `!reason.trim()` rejects (see `ReasonAcceptedIffTrimmedNonEmpty`). */
  predicate ReasonAccepted(reason: Option<string>)
  {
    reason.Some? && !IsBlank(reason.value)
  }

  lemma ReasonAcceptedIffTrimmedNonEmpty(reason: Option<string>)
    ensures ReasonAccepted(reason) <==> reason.Some? && Trim(reason.value) != ""
  {
    if reason.Some? {
      TrimEmptyIffBlank(reason.value);
    }
  }

  /** What a permitted rejection does: the step counter stays where it was. */
  function RejectedWith(w: Workflow, approver: string, reason: string, now: string): (v: Workflow)
    ensures v.status == Rejected && v.currentStep == w.currentStep
    ensures v.rejectedAt == Some(now) && v.rejectionReason == Some(reason)
    ensures v.approvals == SetSlot(w.approvals, w.currentStep, Some(Rejection(approver, now, reason)))
    ensures v.totalSteps == w.totalSteps && v.approvers == w.approvers
  {
    w.(status := Rejected, rejectedAt := Some(now), rejectionReason := Some(reason),
       approvals := SetSlot(w.approvals, w.currentStep, Some(Rejection(approver, now, reason))))
  }

  lemma RejectPreservesConsistency(w: Workflow, approver: string, reason: string, now: string)
    requires Consistent(w) && (w.status == Pending || w.status == Processing) && w.totalSteps > 0
    requires ReasonAccepted(Some(reason))
    ensures Consistent(RejectedWith(w, approver, reason, now))
  {
    var v := RejectedWith(w, approver, reason, now);
    assert reason != "";
    forall k | 0 <= k < v.currentStep
      ensures IsApproval(v.approvals[k])
    {
      assert v.approvals[k] == w.approvals[k];
    }
  }

  /** What a permitted cancellation does: the last approval is removed and
      the counter steps back. */
  function Cancelled(w: Workflow): (v: Workflow)
    requires w.currentStep > 0
    ensures v.currentStep == w.currentStep - 1
    ensures v.approvals == SetSlot(w.approvals, w.currentStep - 1, None)
    ensures v.status == if v.currentStep == 0 then Pending else Processing
    ensures v.totalSteps == w.totalSteps && v.approvers == w.approvers
    ensures v.rejectedAt == w.rejectedAt && v.rejectionReason == w.rejectionReason
  {
    var previous := w.currentStep - 1;
    w.(approvals := SetSlot(w.approvals, previous, None), currentStep := previous,
       status := if previous == 0 then Pending else Processing)
  }

  lemma CancelPreservesConsistency(user: Option<Session>, w: Workflow)
    requires Consistent(w) && CanCancelApproval(user, w)
    ensures Consistent(Cancelled(w))
  {
    var v := Cancelled(w);
    forall k | 0 <= k < v.currentStep
      ensures IsApproval(v.approvals[k])
    {
      assert v.approvals[k] == w.approvals[k];
    }
  }

  /** Cancelling right after an approval restores the request exactly, and
      head office, or a signer whose recorded name is their username, may
      do so. */
  lemma {:induction false} CancelUndoesApprove(w: Workflow, user: Session, now: string)
    requires Consistent(w) && (w.status == Pending || w.status == Processing) && w.totalSteps > 0
    requires w.approvals[w.currentStep].None?
    ensures CanCancelApproval(Some(user), ApproveStepped(w, user.username, now))
    ensures Cancelled(ApproveStepped(w, user.username, now)) == w
  {
    var v := ApproveStepped(w, user.username, now);
    var u := Cancelled(v);
    assert u.approvals == w.approvals;
    if w.currentStep == 0 {
      assert u.status == w.status;
    }
  }

  /** The signature recorded for a site manager is their display name, but
      cancelling compares it with the username: a site manager with a
      non-empty name can never cancel their own approval. */
  lemma SiteManagerCannotCancelOwnApproval(w: Workflow, user: Session, users: seq<User>, now: string)
    requires IsSiteTier(user.role) && DisplayName(users, user.username) != user.username
    ensures !CanCancelApproval(Some(user), ApproveStepped(w, ApproverName(user, users), now))
  {
  }

  predicate MayCancelRejection(user: Option<Session>, w: Workflow)
  {
    user.Some? && IsTopTier(user.value.role) && w.status == Rejected
  }

  /** What a permitted cancellation of a rejection does: the process starts
      over at step 0, whatever step was rejected. */
  function CancelRejected(w: Workflow): (v: Workflow)
    ensures v.status == Pending && v.currentStep == 0
    ensures v.rejectedAt.None? && v.rejectionReason.None?
    ensures v.approvals == if Slot(w.approvals, w.currentStep).Some?
                           then w.approvals[w.currentStep := None] else w.approvals
    ensures v.totalSteps == w.totalSteps && v.approvers == w.approvers
  {
    var approvals := if Slot(w.approvals, w.currentStep).Some?
                     then SetSlot(w.approvals, w.currentStep, None) else w.approvals;
    w.(rejectedAt := None, rejectionReason := None, approvals := approvals,
       currentStep := 0, status := Pending)
  }

  /** Restarting a rejected request keeps it consistent, and the approvals
      given before the rejection stay recorded. */
  lemma CancelRejectionRestarts(w: Workflow)
    requires Consistent(w) && w.status == Rejected
    ensures Consistent(CancelRejected(w))
    ensures forall k :: 0 <= k < w.currentStep ==> CancelRejected(w).approvals[k] == w.approvals[k]
    ensures CancelRejected(w).approvals[w.currentStep].None?
  {
  }

  /** The workflow fields after `submitEditedApproval` picked `site`: a
      rejected request restarts on the new site's chain; any other keeps its
      progress untouched. */
  function EditedWorkflow(w: Workflow, site: Site): Workflow
  {
    if w.status == Rejected then InitialWorkflow(site) else w
  }

  lemma EditKeepsConsistency(w: Workflow, site: Site)
    requires Consistent(w)
    ensures Consistent(EditedWorkflow(w, site))
    ensures w.status == Rejected ==>
              var v := EditedWorkflow(w, site);
              && v.status == Pending && v.currentStep == 0
              && v.totalSteps == site.steps && v.approvers == site.approvers
              && (forall k :: 0 <= k < |v.approvals| ==> v.approvals[k].None?) && |v.approvals| == site.steps
              && v.rejectedAt.None? && v.rejectionReason.None?
    ensures w.status != Rejected ==> EditedWorkflow(w, site) == w
  {
    InitialWorkflowFresh(site);
  }
}
