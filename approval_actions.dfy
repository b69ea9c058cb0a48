/** The React revision of the request actions (the list's action buttons).
    It is a second policy over the same workflow fields, and it differs from
    the canonical one in `ApprovalRules`: the CEO may skip the head-office
    step, cancelling picks its slot by role, and cancelling a rejection
    clears only a rejected slot. The handlers perform no permission check
    of their own; the buttons are shown according to the canonical
    predicates. Storage calls are left out: the handlers' effects are given
    as the new workflow and the notification handed to storage. */
module ApprovalActions {
  import opened Common
  import opened Text
  import opened Domain
  import opened Roles
  import opened ApprovalRules
  import opened Notifications

  /** A notification object handed to storage (always unread). */
  datatype NoticeDraft = NoticeDraft(kind: string, title: string, message: string, approvalId: int, userId: string)

  /** The record written into slot 0 when the CEO skips the head-office step. */
  function SkipRecord(now: string): ApprovalRecord
  {
    Approval("본사 (건너뜀)", now, true)
  }

  /** The CEO acting at step 0 first fills slot 0 with the skip record and moves to step 1. */
  function SkipHeadOffice(w: Workflow, role: string, now: string): Workflow
  {
    if role == "ceo" && w.currentStep == 0 then
      w.(approvals := SetSlot(w.approvals, 0, Some(SkipRecord(now))), currentStep := 1)
    else w
  }

  /** The workflow after `handleApprove`: the possible skip, then an ordinary
      approval signed with the user's display name. */
  function ReactApproved(w: Workflow, user: Session, users: seq<User>, now: string): Workflow
  {
    ApproveStepped(SkipHeadOffice(w, user.role, now), DisplayName(users, user.username), now)
  }

  /** The approved notice is saved only when the approval completed the chain. */
  function ApprovedDraft(status: Status, id: int, title: string, author: string): (r: Option<NoticeDraft>)
    ensures r.Some? <==> status == Approved
    ensures r.Some? ==> r.value.kind == "approved" && r.value.approvalId == id && r.value.userId == author
  {
    if status == Approved then Some(NoticeDraft("approved", ApprovedTitle, ApprovedMessage(title), id, author))
    else None
  }

  /** `handleApprove`, which assigns the fields of the request in place;
      `confirmed` is the answer to its `confirm`. */
  method HandleApprove(approval: ApprovalRequest, user: Session, users: seq<User>, confirmed: bool, now: string)
    returns (notice: Option<NoticeDraft>)
    modifies approval`approvals, approval`currentStep, approval`status
    ensures !confirmed ==> approval.Flow() == old(approval.Flow()) && notice.None?
    ensures confirmed ==> approval.Flow() == ReactApproved(old(approval.Flow()), user, users, now)
    ensures confirmed ==> notice == ApprovedDraft(approval.status, approval.id, approval.title, approval.author)
  {
    if !confirmed {
      return None;
    }
    var approver := DisplayName(users, user.username);
    if user.role == "ceo" && approval.currentStep == 0 {
      approval.approvals := SetSlot(approval.approvals, 0, Some(SkipRecord(now)));
      approval.currentStep := 1;
    }
    approval.approvals := SetSlot(approval.approvals, approval.currentStep, Some(Approval(approver, now, false)));
    approval.currentStep := approval.currentStep + 1;
    if approval.currentStep >= approval.totalSteps {
      approval.status := Approved;
    } else {
      approval.status := Processing;
    }
    notice := ApprovedDraft(approval.status, approval.id, approval.title, approval.author);
  }

  /** The CEO at step 0: slot 0 holds the skip record, slot 1 the CEO's own
      approval, the counter ends at 2, and every later slot is as it was. */
  lemma CeoSkipsHeadOffice(w: Workflow, user: Session, users: seq<User>, now: string)
    requires user.role == "ceo" && w.currentStep == 0
    ensures var v := ReactApproved(w, user, users, now);
            && v.approvals[0] == Some(Approval("본사 (건너뜀)", now, true))
            && v.approvals[1] == Some(Approval(DisplayName(users, user.username), now, false))
            && v.currentStep == 2
            && v.status == (if 2 >= w.totalSteps then Approved else Processing)
            && |v.approvals| == (if |w.approvals| < 2 then 2 else |w.approvals|)
            && (forall k :: 2 <= k < |v.approvals| ==> v.approvals[k] == w.approvals[k])
            && v.totalSteps == w.totalSteps && v.approvers == w.approvers
  {
    var u := SkipHeadOffice(w, user.role, now);
    var v := ReactApproved(w, user, users, now);
    assert u.approvals[0] == Some(SkipRecord(now));
    assert v.approvals[0] == u.approvals[0];
    forall k | 2 <= k < |v.approvals|
      ensures v.approvals[k] == w.approvals[k]
    {
      assert v.approvals[k] == Slot(u.approvals, k);
    }
  }

  /** Anyone else, and the CEO past step 0, approves as the canonical code
      does, except that the signature is always the display name; for head
      office and site managers the two revisions coincide. */
  lemma ReactApproveOtherwiseCanonical(w: Workflow, user: Session, users: seq<User>, now: string)
    requires !(user.role == "ceo" && w.currentStep == 0)
    ensures ReactApproved(w, user, users, now) == ApproveStepped(w, DisplayName(users, user.username), now)
    ensures IsTopTier(user.role) || IsSiteTier(user.role) ==>
              ReactApproved(w, user, users, now) == ApproveStepped(w, ApproverName(user, users), now)
  {
  }

  /** On a consistent pending chain of at least two steps the skip keeps the
      workflow consistent; a two-step chain is then complete. */
  lemma CeoSkipKeepsLongChainConsistent(w: Workflow, user: Session, users: seq<User>, now: string)
    requires Consistent(w) && w.status == Pending && w.totalSteps >= 2 && user.role == "ceo"
    ensures Consistent(ReactApproved(w, user, users, now))
    ensures w.totalSteps == 2 ==> ReactApproved(w, user, users, now).status == Approved
  {
    var v := ReactApproved(w, user, users, now);
    CeoSkipsHeadOffice(w, user, users, now);
    assert |v.approvals| == w.totalSteps;
    forall k | 0 <= k < v.currentStep
      ensures IsApproval(v.approvals[k])
    {
    }
  }

  /** On a one-step chain the skip writes past the end: the request shows as
      approved with two slots and a counter beyond its step count. */
  lemma CeoSkipOverrunsOneStepChain(w: Workflow, user: Session, users: seq<User>, now: string)
    requires Consistent(w) && w.status == Pending && w.totalSteps == 1 && user.role == "ceo"
    ensures var v := ReactApproved(w, user, users, now);
            v.status == Approved && |v.approvals| == 2 && v.currentStep == 2 > v.totalSteps && !Consistent(v)
  {
    CeoSkipsHeadOffice(w, user, users, now);
  }

  /** Without the skip, the approved notice is saved exactly when the last
      step of a consistent, open chain is approved. */
  lemma ApprovedNoticeOnLastStep(w: Workflow, user: Session, users: seq<User>, now: string,
                                 id: int, title: string, author: string)
    requires Consistent(w) && (w.status == Pending || w.status == Processing) && w.totalSteps > 0
    requires !(user.role == "ceo" && w.currentStep == 0)
    ensures ApprovedDraft(ReactApproved(w, user, users, now).status, id, title, author).Some? <==>
            w.currentStep + 1 == w.totalSteps
  {
    ReactApproveOtherwiseCanonical(w, user, users, now);
  }

  /** `handleReject`; `reason` is the answer to its `prompt` (`None` when
      dismissed). The rejected notice is saved on every rejection, without
      any de-duplication. */
  method HandleReject(approval: ApprovalRequest, user: Session, reason: Option<string>, now: string)
    returns (outcome: Outcome, notice: Option<NoticeDraft>)
    modifies approval`status, approval`rejectedAt, approval`rejectionReason, approval`approvals
    ensures reason.None? ==> outcome == Dismissed && approval.Flow() == old(approval.Flow()) && notice.None?
    ensures reason.Some? && !ReasonAccepted(reason) ==>
              outcome == Refused && approval.Flow() == old(approval.Flow()) && notice.None?
    ensures ReasonAccepted(reason) ==>
              && outcome == Done
              && approval.Flow() == RejectedWith(old(approval.Flow()), user.username, reason.value, now)
              && notice == Some(NoticeDraft("rejected", RejectedTitle, RejectedMessage(approval.title),
                                            approval.id, approval.author))
  {
    if reason.None? {
      return Dismissed, None;
    }
    if !ReasonAccepted(reason) {
      return Refused, None;
    }
    approval.status := Rejected;
    approval.rejectedAt := Some(now);
    approval.rejectionReason := Some(reason.value);
    approval.approvals := SetSlot(approval.approvals, approval.currentStep,
                                  Some(Rejection(user.username, now, reason.value)));
    outcome := Done;
    notice := Some(NoticeDraft("rejected", RejectedTitle, RejectedMessage(approval.title), approval.id, approval.author));
  }

  // ---- handleCancelRejection ----

  /** The `updates` of `handleCancelRejection` applied to the workflow: back
      to step 0, pending, and the slot at the current step emptied only when
      it holds a rejection. */
  function ReactCancelRejected(w: Workflow): (v: Workflow)
    ensures v.status == Pending && v.currentStep == 0
    ensures v.rejectedAt.None? && v.rejectionReason.None?
    ensures v.totalSteps == w.totalSteps && v.approvers == w.approvers
    ensures |v.approvals| == |w.approvals|
    ensures forall k :: 0 <= k < |w.approvals| && k != w.currentStep ==> v.approvals[k] == w.approvals[k]
    ensures w.currentStep < |w.approvals| ==>
              v.approvals[w.currentStep] == if IsRejection(w.approvals[w.currentStep]) then None
                                            else w.approvals[w.currentStep]
  {
    var approvals := seq(|w.approvals|, i requires 0 <= i < |w.approvals| =>
                           if i == w.currentStep && IsRejection(w.approvals[i]) then None else w.approvals[i]);
    w.(status := Pending, currentStep := 0, rejectedAt := None, rejectionReason := None, approvals := approvals)
  }

  /** On a consistent rejected request the React revision restarts it exactly
      as the canonical `cancelRejection` does. */
  lemma ReactCancelRejectionAgrees(w: Workflow)
    requires Consistent(w) && w.status == Rejected
    ensures ReactCancelRejected(w) == CancelRejected(w)
  {
    var v := ReactCancelRejected(w);
    var u := CancelRejected(w);
    assert v.approvals == u.approvals;
  }

  /** Where the current slot holds an approval, the canonical code clears it
      but the React revision keeps it. */
  lemma ReactCancelRejectionKeepsApproval(w: Workflow)
    requires w.currentStep < |w.approvals| && IsApproval(w.approvals[w.currentStep])
    ensures ReactCancelRejected(w).approvals[w.currentStep] == w.approvals[w.currentStep]
    ensures CancelRejected(w).approvals[w.currentStep].None?
  {
  }

  // ---- handleCancelApproval ----

  /** The step whose approval `handleCancelApproval` withdraws, chosen by
      role: head office withdraws step 0; the CEO withdraws step 1, or else a
      skipped step 0; nobody else withdraws anything. */
  function CancelStepFor(role: string, approvals: seq<Option<ApprovalRecord>>): Option<nat>
  {
    if role == "headquarters" then
      if IsApproval(Slot(approvals, 0)) then Some(0) else None
    else if role == "ceo" then
      if IsApproval(Slot(approvals, 1)) then Some(1)
      else if IsApproval(Slot(approvals, 0)) && Slot(approvals, 0).value.skipped then Some(0)
      else None
    else None
  }

  /** The chosen slot always holds an approval, and only head office and the
      CEO are offered one; the CEO withdraws step 0 only when it was skipped
      and step 1 holds no approval; head office never withdraws step 1. */
  lemma CancelStepChoice(role: string, approvals: seq<Option<ApprovalRecord>>)
    ensures var s := CancelStepFor(role, approvals);
            && (s.Some? ==> s.value < |approvals| && IsApproval(approvals[s.value]))
            && (s.Some? ==> role == "headquarters" || role == "ceo")
            && (role == "headquarters" ==> (s.Some? <==> IsApproval(Slot(approvals, 0))) && s != Some(1))
            && (role == "ceo" && s == Some(0) ==> approvals[0].value.skipped && !IsApproval(Slot(approvals, 1)))
            && (role == "ceo" && IsApproval(Slot(approvals, 1)) ==> s == Some(1))
  {
  }

  predicate AnyApproval(s: seq<Option<ApprovalRecord>>)
  {
    exists k :: 0 <= k < |s| && IsApproval(s[k])
  }

  /** The label of a withdrawn step in the confirmation and the notice. */
  function StepName(step: nat): string
  {
    if step == 0 then "1단계(본사)" else "2단계(대표님)"
  }

  /** The workflow after withdrawing the approval at `step`. */
  function ReactCancelledAt(w: Workflow, step: nat): Workflow
  {
    var approvals := SetSlot(w.approvals, step, None);
    w.(approvals := approvals, currentStep := step,
       status := if step == 0 && !AnyApproval(approvals) then Pending else Processing)
  }

  datatype CancelResult = NoApprovalToCancel | NotConfirmed | Withdrawn(flow: Workflow, notice: NoticeDraft)

  /** `handleCancelApproval`; `confirmed` is the answer to its `confirm`. */
  function ReactCancelApproval(user: Session, w: Workflow, confirmed: bool,
                               id: int, title: string, author: string): (r: CancelResult)
    ensures r.NoApprovalToCancel? <==> CancelStepFor(user.role, w.approvals).None?
    ensures r.NotConfirmed? <==> CancelStepFor(user.role, w.approvals).Some? && !confirmed
    ensures r.Withdrawn? ==>
              var s := CancelStepFor(user.role, w.approvals).value;
              && r.flow.currentStep == s
              && |r.flow.approvals| == |w.approvals|
              && r.flow.approvals[s].None?
              && (forall k :: 0 <= k < |w.approvals| && k != s ==> r.flow.approvals[k] == w.approvals[k])
              && (r.flow.status == Pending <==>
                    s == 0 && forall k :: 0 <= k < |w.approvals| && k != s ==> !IsApproval(w.approvals[k]))
              && (r.flow.status == Pending || r.flow.status == Processing)
              && r.flow.totalSteps == w.totalSteps && r.flow.approvers == w.approvers
              && r.flow.rejectedAt == w.rejectedAt && r.flow.rejectionReason == w.rejectionReason
              && r.notice.kind == "approval_cancelled" && r.notice.approvalId == id && r.notice.userId == author
  {
    match CancelStepFor(user.role, w.approvals)
    case None => NoApprovalToCancel
    case Some(step) =>
      if !confirmed then NotConfirmed
      else
        CancelStepChoice(user.role, w.approvals);
        var v := ReactCancelledAt(w, step);
        assert AnyApproval(v.approvals) <==>
               exists k :: 0 <= k < |w.approvals| && k != step && IsApproval(w.approvals[k]) by {
          if AnyApproval(v.approvals) {
            var k :| 0 <= k < |v.approvals| && IsApproval(v.approvals[k]);
            assert k != step && v.approvals[k] == w.approvals[k];
          }
          if exists k :: 0 <= k < |w.approvals| && k != step && IsApproval(w.approvals[k]) {
            var k :| 0 <= k < |w.approvals| && k != step && IsApproval(w.approvals[k]);
            assert v.approvals[k] == w.approvals[k];
          }
        }
        Withdrawn(v, NoticeDraft("approval_cancelled", "결재 승인 취소",
                                 "\"" + title + "\" 결재의 " + StepName(step) + " 승인이 취소되었습니다.",
                                 id, author))
  }

  /** No approval recorded at or after the current step. */
  predicate NoApprovalAhead(w: Workflow)
  {
    forall k :: w.currentStep <= k < |w.approvals| ==> !IsApproval(w.approvals[k])
  }

  /** When the role picks the last completed step of a consistent chain with
      nothing approved ahead of it, the React revision withdraws exactly as
      the canonical `cancelApproval` does. */
  lemma ReactCancelAgreesWithCanonical(w: Workflow, role: string)
    requires Consistent(w) && NoApprovalAhead(w) && w.currentStep > 0
    requires CancelStepFor(role, w.approvals) == Some(w.currentStep - 1)
    ensures ReactCancelledAt(w, w.currentStep - 1) == Cancelled(w)
  {
    var s := w.currentStep - 1;
    var v := ReactCancelledAt(w, s);
    if s == 0 {
      forall k | 0 <= k < |v.approvals|
        ensures !IsApproval(v.approvals[k])
      {
        assert k != 0 ==> v.approvals[k] == w.approvals[k];
      }
    }
  }

  /** Head office withdrawing step 0 of a chain whose step 1 is also
      approved leaves a request "in progress" at step 0 with step 1 still
      signed: a state the canonical workflow never reaches. */
  lemma HeadOfficeCancelBreaksCompletedChain(w: Workflow, user: Session, id: int, title: string, author: string)
    requires user.role == "headquarters" && |w.approvals| >= 2
    requires IsApproval(w.approvals[0]) && IsApproval(w.approvals[1])
    ensures var r := ReactCancelApproval(user, w, true, id, title, author);
            r.Withdrawn? && r.flow.currentStep == 0 && r.flow.status == Processing &&
            IsApproval(r.flow.approvals[1]) && !Consistent(r.flow)
  {
    var r := ReactCancelApproval(user, w, true, id, title, author);
    assert r.flow.approvals[1] == w.approvals[1];
  }

  /** A fresh two-step request skipped and approved by the CEO returns to
      its exact starting state after the CEO withdraws twice (step 1, then
      the skipped step 0). */
  lemma CeoSkipUndoneByTwoCancels(w: Workflow, user: Session, users: seq<User>, now: string)
    requires user.role == "ceo" && w.status == Pending && w.currentStep == 0
    requires w.totalSteps == 2 && w.approvals == [None, None]
    ensures var v := ReactApproved(w, user, users, now);
            && CancelStepFor(user.role, v.approvals) == Some(1)
            && CancelStepFor(user.role, ReactCancelledAt(v, 1).approvals) == Some(0)
            && ReactCancelledAt(ReactCancelledAt(v, 1), 0) == w
  {
    var v := ReactApproved(w, user, users, now);
    CeoSkipsHeadOffice(w, user, users, now);
    var u := ReactCancelledAt(v, 1);
    assert u.approvals == [Some(SkipRecord(now)), None];
    var t := ReactCancelledAt(u, 0);
    assert t.approvals == [None, None];
  }

  /** Head office approving and then withdrawing step 0 of a fresh two-step
      request restores it exactly. */
  lemma HeadOfficeApproveThenCancel(w: Workflow, user: Session, users: seq<User>, now: string)
    requires user.role == "headquarters" && w.status == Pending && w.currentStep == 0
    requires w.totalSteps == 2 && w.approvals == [None, None]
    ensures var v := ReactApproved(w, user, users, now);
            CancelStepFor(user.role, v.approvals) == Some(0) && ReactCancelledAt(v, 0) == w
  {
    var v := ReactApproved(w, user, users, now);
    assert v.approvals == [Some(Approval(DisplayName(users, user.username), now, false)), None];
    var t := ReactCancelledAt(v, 0);
    assert t.approvals == [None, None];
  }
}
