# Construction-site approval workflow — a Dafny model

This project models the core of a construction-site approval application
(결재 시스템). A site's request (결재) travels through the site's ordered
chain of approvers. Each step has one slot in the request's `approvals`
array. Role tiers decide who may approve, reject, withdraw an approval,
undo a rejection, edit or delete:

- head office: `ceo`, `headquarters`;
- site managers: `manager`, `site`;
- read-only staff: `admin_dept`, `other`.

Around that state machine sit these parts:

- an in-memory notification list: capped at 100, de-duplicated, fanned out on submission, and polled;
- the permission table;
- the per-year `AP-<year>-NNN` request numbers;
- phone-number and label formatting;
- the account, registration, sign-in and site lifecycles of the browser-storage front end;
- the advanced search filter;
- the React revision of the request actions, which follows a different policy.

That React policy differs in four ways:

- the CEO may skip head office's step;
- an approval is withdrawn by role;
- undoing a rejection clears only the rejected slot;
- editing a rejected request restarts it on a fixed two-step chain.

## How the model is built

The model follows the program's shape module by module:

- **`Domain`** holds the entities.
  - A request is a `class ApprovalRequest`. Its workflow and document fields are reassigned in place, as the source does.
  - `Workflow` and `Document` are value snapshots of those fields, read by the functions `Flow()` and `Doc()`.
  - `AppState` holds the global lists: sites, requests, the logged-in user, registration requests, approved users and deleted users.
- **`ApprovalRules`** states the canonical transitions as functions on `Workflow`: `ApproveStepped`, `RejectedWith`, `Cancelled`, `CancelRejected`, `EditedWorkflow`. It also holds the permission predicates.
- **`Approvals`** holds the in-place methods. Each method's `ensures` ties the request's new `Flow()` to the matching function of its old `Flow()`.
- **`ApprovalActions`** and **`EditApproval`** give the React revision as functions over the same `Workflow`, so the two policies can be compared. The exceptions are `handleApprove` and `handleReject`, which mutate the request and are methods.
- **`Notifications`** is a class over the notification list. Its `forEach` loops are `while` loops with invariants, proved against list functions.
- **`Users`**, **`Auth`**, **`Sites`** and **`AdvancedSearch`** are methods over `AppState` or the search state. Each says what the lists become, with lemmas about the invariants they keep (unique usernames, unique pending requests).
- **Browser inputs.** Every `confirm()` answer is a `bool` parameter. Every `prompt()` answer is an `Option<string>` (`None` for cancel).
- **Environment values.** Current times, `Date.now()` ids and the current year are parameters.

JavaScript semantics that matter are written out:

- **Array writes.** Writing past the end of a JavaScript array extends it. `SetSlot` models this, so `approveStep` needs no precondition, just as the source has no guard.
- **Truthiness.** Strings and `null` follow JavaScript's rules (`Truthy`, `TruthyOpt`).
- **Numbering.** `padStart` pads and never truncates.

Three behaviours of the code are modelled as written:

- `approveStep` has no guard on `currentStep < totalSteps`. The model gives it no precondition and lets the array grow. The consistency lemmas assume the list's gate (pending or processing) instead.
- A new pending notice for a request is refused as a duplicate when a pending notice for that request already exists and either the new notice has no user (`!userId ||`) or the two users match (js/notifications.js:20-31). So a notice without a user is blocked by any pending notice for the request.
- `submitEditedApproval` overwrites `siteId` before comparing it to the form's site. So its resize branch never runs, and a pending or processing request keeps its progress (`EditKeepsConsistency`).

## Model

| member | source | states |
|---|---|---|
| Roles.TierOf | legacy/js/main.js:7-33 | a role lies in exactly one tier: ceo/headquarters is the top tier, manager/site the site tier, admin_dept/other the read-only tier, anything else none |
| Roles.HasPermissionMatchesTable | legacy/js/main.js:4-34 | nobody logged in is refused everything; otherwise `hasPermission` equals the per-tier table, written independently of the code's branch order |
| Roles.TopTierGrantedEverything | legacy/js/main.js:8-10 | ceo and headquarters are granted every action |
| Roles.UnknownRoleDeniedEverything | legacy/js/main.js:33 | a role outside the three tiers is denied every action |
| Roles.ReadOnlySubsetOfManager | legacy/js/main.js:13-31 | everything granted to the read-only tier is granted to site managers, and the two-entry list is contained in the five-entry list |
| Roles.IsSiteManager | legacy/js/main.js:37-41 | true iff the user is site tier and the first site with that id exists and names the user as its manager |
| Roles.DisplayName | src/components/Approvals/ApprovalActions.jsx:16-17 | the name of the first approved user with that username when truthy, otherwise the username; the username when there is no such user |
| ApprovalRules.CanUserApproveByTier | js/approvals.js:505-524 | no user: false; top tier: true; read-only or unknown tier: false; site tier: exactly `isSiteManager(siteId)` |
| ApprovalRules.ApproverHoldsApprovePermission | js/approvals.js:505-524 | whoever `canUserApprove` admits also holds `approve_own_site` and `reject_own_site` in the permission table |
| ApprovalRules.CanCancelApprovalConditions | js/approvals.js:527-559 | cancelling is allowed iff a user is logged in, the status is approved or processing, `currentStep > 0`, the previous slot holds an approval, and the user is top tier or that slot's approver equals the username |
| ApprovalRules.EditPermission | js/approvals.js:1019-1030 | edit iff a user is logged in, is the author, and the status is pending, processing or rejected (not approved) |
| ApprovalRules.DeletePermission | js/approvals.js:915-930 | delete iff top tier, or the author of a pending or processing request; a non-top-tier deleter may also edit the request |
| ApprovalRules.InitialWorkflowFresh | js/approvals.js:192-223 | a new request is pending at step 0, `totalSteps` is the site's step count, `approvers` is the site's list, every slot is empty, and the workflow is consistent |
| ApprovalRules.SubmittedAuthor | js/approvals.js:192-223 | the stored author is the trimmed form value, or the username when that is empty |
| ApprovalRules.ApproveStepped | js/approvals.js:658-670 | an approval writes an approved record at `currentStep`, advances the counter by one, sets approved iff the new counter reaches `totalSteps` (else processing), and changes no other workflow field |
| ApprovalRules.ApprovePreservesConsistency | js/approvals.js:620-689 | approving a consistent pending or processing workflow with at least one step (every site has 1 to 10, legacy/js/sites.js:76) keeps it consistent: counter within bounds, one slot per step, the completed prefix approved, approved iff complete |
| ApprovalRules.ApproveAllCompletes | js/approvals.js:620-689 | approving every remaining step of a consistent open chain ends approved with every slot holding an approval |
| ApprovalRules.ReasonAcceptedIffTrimmedNonEmpty | js/approvals.js:701-706 | a rejection reason is accepted iff one was given and its trimmed text is non-empty |
| ApprovalRules.RejectedWith | js/approvals.js:710-718 | a rejection sets status rejected, `rejectedAt` and `rejectionReason`, writes a rejection record carrying the reason at `currentStep`, and leaves the counter where it was |
| ApprovalRules.RejectPreservesConsistency | js/approvals.js:692-736 | rejecting an open consistent workflow keeps the approved prefix and the step count intact |
| ApprovalRules.Cancelled | js/approvals.js:748-767 | withdrawing clears slot `currentStep - 1`, decrements the counter, and sets pending iff the counter is now 0 (else processing) |
| ApprovalRules.CancelPreservesConsistency | js/approvals.js:739-780 | a permitted withdrawal from a consistent workflow leaves it consistent |
| ApprovalRules.CancelUndoesApprove | js/approvals.js:527-559 | right after a user approves an open consistent workflow under their own username, they may cancel, and cancelling restores the workflow exactly, provided the slot at `currentStep` was empty before the approval (after an undone rejection at a later step, slot 0 may still hold an approval, and approve-then-cancel then empties it) |
| ApprovalRules.SiteManagerCannotCancelOwnApproval | js/approvals.js:554 | a site manager whose display name differs from their username signs approvals with the display name, so `canCancelApproval` refuses them on their own approval |
| ApprovalRules.CancelRejected | js/approvals.js:806-817 | undoing a rejection clears `rejectedAt` and `rejectionReason`, clears the slot at `currentStep`, and restarts at step 0 as pending whatever step was rejected |
| ApprovalRules.CancelRejectionRestarts | js/approvals.js:783-836 | on a consistent rejected workflow the restart is consistent, keeps the earlier approvals and empties the rejected slot |
| ApprovalRules.EditKeepsConsistency | js/approvals.js:1168-1209 | an edit of a rejected request resets it to pending, step 0 and the chosen site's chain with empty slots; any other request keeps its workflow exactly, because the resize branch cannot run |
| Approvals.RequestWithId | js/approvals.js:693 | `approvals.find`: a found request is the first in the list with that id; none is returned only when no request has it |
| Approvals.SiteWithId | js/approvals.js:193-198 | `sites.find`: the found site is the first in the list with that id; none only when no site has it |
| Approvals.RecordApproval | js/approvals.js:658-670 | the in-place field assignments give exactly `ApproveStepped` of the old workflow and touch nothing else |
| Approvals.RecordRejection | js/approvals.js:710-718 | the in-place assignments give exactly `RejectedWith` of the old workflow |
| Approvals.RemoveLastApproval | js/approvals.js:756-767 | the in-place assignments give exactly `Cancelled` of the old workflow |
| Approvals.RestartAfterRejection | js/approvals.js:806-817 | the in-place assignments give exactly `CancelRejected` of the old workflow |
| Approvals.CopyFormFields | js/approvals.js:1168-1172 | the edit copies title, content, site id, site name and author onto the request |
| Approvals.ResetIfRejected | js/approvals.js:1174-1205 | the workflow fields after the edit are `EditedWorkflow` of the old ones |
| Approvals.StampAndAttach | js/approvals.js:1207-1268 | the edit sets `updatedAt` and `originalCreatedAt := createdAt`, replaces the attachment with a new file, clears it when removed, and keeps it otherwise |
| Approvals.SubmittedDocument | js/approvals.js:192-223 | the new request's title, content, site, author (default the username) and attachment fields |
| Approvals.SubmitApproval | js/approvals.js:190-338 | no matching site: refused and nothing saved; otherwise one fresh request is appended with the next number, the site's chain, no progress, and the pending notices are sent |
| Approvals.ApproveStep | js/approvals.js:620-689 | request not found or permission denied: the request is unchanged; a site-tier user for whom the current step names another approver, and who is not in `approvers`, is refused; otherwise exactly `ApproveStepped`, with the approved notice on completion |
| Approvals.RejectApproval | js/approvals.js:692-736 | no permission, cancelled prompt or blank reason: unchanged; otherwise exactly `RejectedWith` with the trimmed-checked reason, and the author notified |
| Approvals.CancelApproval | js/approvals.js:739-780 | refused unless `canCancelApproval`; not confirmed: unchanged; otherwise exactly `Cancelled` |
| Approvals.CancelRejection | js/approvals.js:783-836 | refused unless top tier and rejected; not confirmed: unchanged; otherwise exactly `CancelRejected`, followed by `notifyPendingApproval` |
| Approvals.RenotifyAfterCancelledRejectionSilent | js/notifications.js:71-79 | the re-notification after undoing a rejection adds nothing when any pending notice for the request is still in the list |
| Approvals.WithoutRequest | js/approvals.js:951 | the list after deleting an id: exactly the requests with another id, in order |
| Approvals.DeleteApproval | js/approvals.js:933-959 | not found: unchanged; refused unless `canDeleteApproval`; not confirmed: unchanged; otherwise exactly the requests with that id are removed |
| Approvals.EditedDocument | js/approvals.js:1168-1209 | the descriptive fields after an edit, including `updatedAt` and `originalCreatedAt` |
| Approvals.SubmitEditedApproval | js/approvals.js:1148-1311 | not found or no matching site: unchanged; otherwise the document becomes `EditedDocument` and the workflow `EditedWorkflow`, and after every edit the notices are those `notifyPendingApproval` leaves for the edited request |
| Approvals.ListFiltered | js/approvals.js:474-502 | the list keeps exactly the requests matching the search box, the status filter and the site filter, in order |
| Approvals.OwnRequests | js/approvals.js:474-502 | a site manager's list keeps exactly the requests whose author is their username or their display name, in order |
| Approvals.NameOf | js/approvals.js:491-492 | a value iff some approved user has that username, and then the `name` of the first such user |
| Approvals.FilteredApprovalsShown | js/approvals.js:474-502 | `getFilteredApprovals` returns a subsequence of the requests; each shown request passes every filter (and, for a site manager, is their own); every request passing them is shown |
| Utils.StatusLookups | src/utils/index.js:3-21 | each of the four statuses gets its own class and label, and any other string falls back to the pending class and label |
| Utils.RoleTextByTier | src/utils/index.js:28-37 | the two role names of a tier share one label; the three tiers' labels differ; an unknown role shows itself, and the empty role shows `미지정` |
| Utils.FormatPhoneNumber | src/utils/index.js:40-60 | every output character is a digit or a hyphen; the output's digits are the input's digits in order, cut to eleven; up to 3 digits are unhyphenated, 4 to 7 become `3-rest`, 8 to 11 become `3-4-rest` |
| Utils.FirstDigits | src/utils/index.js:42-47 | only digits, at most `n` of them, a prefix of the input's digits in order, and all of them when fewer than `n` |
| Utils.MatchedNumberIsLeftmostMatch | src/utils/index.js:70-77 | the number read from an approval number comes from the leftmost match of `AP-\d{4}-(\d+)`, taking all of its digits |
| Utils.YearApprovals | src/utils/index.js:65-68 | exactly the requests created in the given year (membership both ways) |
| Utils.YearApprovalsInOrder | src/utils/index.js:65-68 | the year's requests appear in the order of the full list (a subsequence) |
| Utils.MaxMatched | src/utils/index.js:70-80 | the largest matched number among the requests, or 0 |
| Utils.GenerateApprovalNumber | src/utils/index.js:63-85 | the loop's result is `AP-<year>-` followed by one more than the year's largest matched number, padded to three digits |
| Utils.NextNumberExceedsEveryNumberOfTheYear | src/utils/index.js:63-85 | the new number is larger than the number of every request created that year, so sequential numbering does not reuse one |
| Utils.ApprovalNumberRoundTrip | src/utils/index.js:82-84 | for a four-digit year, the generated number is matched by the pattern and reads back as the value it was made from, with every digit kept past 999 |
| Utils.FirstOfTheYear | src/utils/index.js:63-85 | with no request in the year the number is `AP-<year>-001` |
| Utils.NumberingAdvancesByOne | src/utils/index.js:63-85 | recording a freshly generated number for that year raises the year's maximum by exactly one |
| Notifications.Capped | js/notifications.js:47-49 | the list keeps its first hundred entries, never more |
| Notifications.CreateNewestFirst | js/notifications.js:18-65 | a duplicate pending notice leaves the list unchanged; otherwise a fresh unread notice is put at the front and the list is cut to its first hundred |
| Notifications.NullUserMatchesAnyPending | js/notifications.js:20-31 | a pending notice without a user is refused as soon as any pending notice for that request exists |
| Notifications.CreatePendingLeavesPending | js/notifications.js:18-65 | after trying to create a pending notice for a request, a pending notice for it exists |
| Notifications.CreateKeepsTail | js/notifications.js:33-49 | below the cap nothing is lost: the old list is the tail of the new one |
| Notifications.CeoRecipients | js/notifications.js:86-100 | the head-office loop addresses exactly the top-tier users other than the author, in order |
| Notifications.ManagerRecipient | js/notifications.js:102-115 | the site's manager is addressed iff that account is site tier and is not the author |
| Notifications.CeoFanOutExact | js/notifications.js:86-100 | with distinct, truthy recipients and no earlier pending notice, the loop adds exactly one pending notice per recipient, newest first |
| Notifications.NotifyPendingFanOut | js/notifications.js:68-116 | on the first call, exactly one pending notice per head-office recipient and one for the eligible site manager |
| Notifications.NotifyPendingIdempotent | js/notifications.js:71-79 | once any pending notice for the request exists, `notifyPendingApproval` adds nothing |
| Notifications.OutcomeNoticesOnce | js/notifications.js:119-166 | approved and rejected notices are de-duplicated on request, kind and author: a second call adds nothing |
| Notifications.UnreadCount | js/notifications.js:174-187 | the badge count is at most the list's length, and is zero exactly when every notice the current user sees is read |
| Notifications.BadgeText | js/notifications.js:174-187 | the badge is hidden at zero, shows the count up to 99, and shows `99+` above |
| Notifications.MarkRelated | js/notifications.js:258-281 | marks read exactly the unread notices with the same request and kind, other than the chosen one |
| Notifications.ViewMarksChosenAndRelated | js/notifications.js:258-288 | viewing changes read flags only: the chosen notice and the related ones become read, every other notice is unchanged |
| Notifications.AfterMarkAll | js/notifications.js:291-300 | mark-all sets read exactly on the notices the current user sees |
| Notifications.MarkAllClearsBadge | js/notifications.js:291-300 | after mark-all the badge count is zero |
| Notifications.WithoutId | js/notifications.js:303-310 | delete removes exactly the notices with that id, keeping the rest in order |
| Notifications.KeepOthers | js/notifications.js:313-333 | delete-all keeps each notice addressed to another user as often as it occurred, and nothing else |
| Notifications.DeleteAllRemovesExactlyVisible | js/notifications.js:313-334 | delete-all removes exactly the notices the current user sees and keeps the others, with multiplicity and order |
| Notifications.PendingApprovals | js/notifications.js:364-368 | a tick looks at exactly the requests that are pending or processing, not authored by the user and approvable by them, in the list's order (a subsequence) |
| Notifications.PollLoopAddsInFront | js/notifications.js:364-389 | below the cap a tick only puts unread pending notices for eligible requests, addressed to the user, in front of the old list |
| Notifications.PollLoopCovers | js/notifications.js:370-389 | below the cap, after the loop over any list of eligible requests, each of them has a pending notice |
| Notifications.PollTickCovers | js/notifications.js:362-389 | below the cap, after a real tick every request in the list that is eligible for the signed-in user has a pending notice; with nobody signed in the tick changes nothing |
| Notifications.PollLoopQuietWhenCovered | js/notifications.js:364-389 | a tick adds nothing when every eligible request already has a pending notice |
| Notifications.PollTickIdempotent | js/notifications.js:354-392 | below the cap a second tick adds nothing |
| Notifications.NotificationCenter.Create | js/notifications.js:18-65 | the list becomes `AfterCreate` of the old list, and a created notice is returned exactly when it was not a duplicate |
| Notifications.NotificationCenter.NotifyPendingApproval | js/notifications.js:68-116 | the list becomes the fan-out of the old list |
| Notifications.NotificationCenter.NotifyHeadOffice | js/notifications.js:86-100 | the loop over head-office users equals the fan-out function |
| Notifications.NotificationCenter.NotifySiteManager | js/notifications.js:102-115 | the site manager's notice, when one is due |
| Notifications.NotificationCenter.NotifyApprovalApproved | js/notifications.js:119-141 | the author's approved notice, de-duplicated |
| Notifications.NotificationCenter.NotifyApprovalRejected | js/notifications.js:144-166 | the author's rejected notice, de-duplicated |
| Notifications.NotificationCenter.CountUnread | js/notifications.js:174-187 | the loop's count equals `UnreadCount` |
| Notifications.NotificationCenter.ViewNotification | js/notifications.js:258-288 | the list becomes `AfterView` of the old list |
| Notifications.NotificationCenter.MarkAllAsRead | js/notifications.js:291-300 | the list becomes `AfterMarkAll` of the old list |
| Notifications.NotificationCenter.DeleteNotification | js/notifications.js:303-310 | confirmed: the list becomes `WithoutId`; otherwise unchanged |
| Notifications.NotificationCenter.DeleteAll | js/notifications.js:313-334 | the list becomes `AfterDeleteAll`: unchanged when nobody is logged in, nothing is visible or it was not confirmed |
| Notifications.NotificationCenter.PollTick | js/notifications.js:354-392 | one tick's list is `AfterPollTick` of the old list |
| ApprovalActions.ApprovedDraft | src/components/Approvals/ApprovalActions.jsx:54-63 | an approved notice for the author is produced iff the final status is approved |
| ApprovalActions.HandleApprove | src/components/Approvals/ApprovalActions.jsx:11-74 | not confirmed: unchanged; otherwise the request's workflow becomes `ReactApproved` (the CEO's skip, then an approval signed with the display name), and only its approvals, counter and status change |
| ApprovalActions.CeoSkipsHeadOffice | src/components/Approvals/ApprovalActions.jsx:20-39 | the CEO at step 0: slot 0 holds an approved record marked skipped, slot 1 the CEO's approval, the counter is 2, later slots are unchanged |
| ApprovalActions.ReactApproveOtherwiseCanonical | src/components/Approvals/ApprovalActions.jsx:16-45 | anyone else, or the CEO past step 0, approves exactly as `ApproveStepped`, signed with the display name |
| ApprovalActions.CeoSkipKeepsLongChainConsistent | src/components/Approvals/ApprovalActions.jsx:20-39 | on a fresh consistent chain of at least two steps the skip keeps the workflow consistent; a two-step chain ends approved |
| ApprovalActions.CeoSkipOverrunsOneStepChain | src/components/Approvals/ApprovalActions.jsx:20-39 | on a one-step chain the skip writes past the end: approved with two slots and a counter of 2 |
| ApprovalActions.ApprovedNoticeOnLastStep | src/components/Approvals/ApprovalActions.jsx:40-63 | without the skip, the approved notice is saved exactly when the last step of a consistent open chain is approved |
| ApprovalActions.HandleReject | src/components/Approvals/ApprovalActions.jsx:76-124 | a cancelled prompt or a blank reason changes nothing; otherwise exactly `RejectedWith` at `currentStep`, with a rejected notice for the author |
| ApprovalActions.ReactCancelRejected | src/components/Approvals/ApprovalActions.jsx:151-163 | pending, step 0, no rejection; only the slot at `currentStep` is cleared, and only when it holds a rejection; every other slot is unchanged |
| ApprovalActions.ReactCancelRejectionAgrees | src/components/Approvals/ApprovalActions.jsx:145-175 | on a consistent rejected request the React undo equals the canonical `cancelRejection` |
| ApprovalActions.ReactCancelRejectionKeepsApproval | src/components/Approvals/ApprovalActions.jsx:151-163 | where the current slot holds an approval, the canonical undo clears it but the React undo keeps it |
| ApprovalActions.CancelStepChoice | src/components/Approvals/ApprovalActions.jsx:182-213 | the chosen slot holds an approval; only head office and the CEO get one; head office takes step 0 iff it is approved; the CEO takes step 1 when approved, else step 0 only when skipped |
| ApprovalActions.ReactCancelApproval | src/components/Approvals/ApprovalActions.jsx:177-261 | refused when no slot qualifies, unchanged when not confirmed; otherwise the chosen slot is emptied, the counter set to it, other slots kept, and the status pending iff the step is 0 and no other approval remains; a cancellation notice goes to the author |
| ApprovalActions.ReactCancelAgreesWithCanonical | src/components/Approvals/ApprovalActions.jsx:220-238 | when the role picks the last completed step of a consistent chain with nothing approved ahead, the React withdrawal equals the canonical `Cancelled` |
| ApprovalActions.HeadOfficeCancelBreaksCompletedChain | src/components/Approvals/ApprovalActions.jsx:182-238 | head office withdrawing step 0 while step 1 is signed leaves step 1's approval behind a reset counter, a state canonical transitions never reach |
| ApprovalActions.CeoSkipUndoneByTwoCancels | src/components/Approvals/ApprovalActions.jsx:182-238 | after the CEO skips and approves a fresh two-step request, two withdrawals by the CEO return it to pending at step 0 with empty slots |
| ApprovalActions.HeadOfficeApproveThenCancel | src/components/Approvals/ApprovalActions.jsx:11-74 | head office approving and then withdrawing step 0 of a fresh two-step request restores it exactly |
| EditApproval.NameForRole | src/components/Approvals/EditApprovalModal.jsx:142-146 | the first approved user with the role gives its name, else its username, else the fallback; the fallback when nobody has the role |
| EditApproval.EditUpdatesFor | src/components/Approvals/EditApprovalModal.jsx:74-169 | refused iff no site has the chosen id; the record always carries the form's title, content, site, the name of the first site with that id, and author; the attachment is replaced, cleared or left out; the workflow fields appear iff the request is rejected, as a fresh two-step chain with truthy names |
| EditApproval.EditKeepsProgressUnlessRejected | src/components/Approvals/EditApprovalModal.jsx:138-157 | a request that is not rejected keeps its workflow, as the canonical edit does |
| EditApproval.EditRestartOfRejected | src/components/Approvals/EditApprovalModal.jsx:138-155 | a rejected request restarts consistently on the two-step head office / CEO chain, which equals the canonical reset iff the site's chain is that two-step chain |
| EditApproval.EditAttachmentOutcome | src/components/Approvals/EditApprovalModal.jsx:95-136 | after the merge: a chosen file replaces the attachment; removed without a replacement it is cleared; otherwise unchanged; the form fields are always written and `updatedAt` is left as it was |
| Users.UserIndex | legacy/js/users.js:458 | index of the first approved user with the username, none iff there is none |
| Users.RequestIndex | legacy/js/users.js:206 | `userRequests.find` by id: the index of the first request with that id, none iff there is none |
| Users.WithoutUser | legacy/js/users.js:310 | exactly the users with another username, each with its multiplicity |
| Users.WithoutDeleted | legacy/js/users.js:360 | exactly the deleted records with another username |
| Users.ApproveUserRequest | legacy/js/users.js:205-245 | missing or unconfirmed: unchanged; nobody signed in: stops (the `TypeError` at `currentUser.username`) with nothing changed; otherwise a user with the request's username, password, role, name and the approver is appended, and the request becomes approved |
| Users.RejectUserRequest | legacy/js/users.js:248-280 | missing request: unchanged; nobody signed in: stops (the `TypeError` at `currentUser.username`) with nothing changed; otherwise the request becomes `RejectedRequest` |
| Users.RejectedRequest | legacy/js/users.js:269-274 | status rejected, rejection time and signer set, and the reason stored only when a non-empty one was given |
| Users.RemoveApprovedUser | legacy/js/users.js:283-318 | `admin` is always refused; otherwise a copy stamped with the time and the deleting username (or `system`) is appended to the deleted list, and exactly that username leaves the approved list |
| Users.Restored | legacy/js/users.js:337-346 | the restored user drops the deletion stamp, and an empty `approvedBy` becomes `system` |
| Users.RestoreDeletedUser | legacy/js/users.js:321-367 | refused when the username is not deleted or is already approved; otherwise the user is appended to the approved list and removed from the deleted list |
| Users.PermanentlyDeleteUser | legacy/js/users.js:370-384 | confirmed: every deleted record with that username is removed; otherwise unchanged |
| Users.ReplacingKeepsUniqueUsernames | legacy/js/users.js:21-117 | replacing a user by a record with the same username keeps usernames unique |
| Users.UpdateMyInfo | legacy/js/users.js:21-67 | a blank name is refused; otherwise only the logged-in user's name, phone and email change, trimmed |
| Users.ChangePassword | legacy/js/users.js:70-117 | refused on a wrong current password, a confirmation that differs or a password shorter than four; otherwise only the password changes |
| Users.AdminEdited | legacy/js/users.js:490-496 | the edited user: the new name, role, phone and email; the password only when a new one was typed |
| Users.UpdateApprovedUserInfo | legacy/js/users.js:432-502 | refused unless top tier, for a blank name, or for a new password shorter than four; otherwise the user becomes `AdminEdited` |
| Users.RestoreFindsLastDeletion | legacy/js/users.js:321-361 | after a deletion record is appended, restoring finds it and the deleted list returns to what it was |
| Users.RemoveThenAppendSameUsers | legacy/js/users.js:283-361 | putting back a removed unique user gives the same users, counted with multiplicity |
| Users.RemoveThenRestore | legacy/js/users.js:283-367 | removing and then restoring a unique user: gone in between, found again, the deleted list as before, and the same approved users afterwards |
| Auth.AuthenticateSoundAndComplete | js/auth.js:30-48 | sign-in succeeds only for an approved user with that trimmed username and exactly that password; with unique usernames every approved user gets in with their own password |
| Auth.HandleLogin | js/auth.js:17-56 | empty fields refused; unknown username not found; otherwise success iff the password matches, and the session copies the user's role |
| Auth.ChangedPasswordSignsIn | legacy/js/users.js:84-113 | after a password change the new password signs in and a different old one does not |
| Auth.RegistrationVerdict | js/auth.js:82-157 | a registration succeeds iff every field is filled, the confirmation matches, the password has at least four characters, and the username is neither approved nor pending; it is approved on the spot iff it is a CEO and no CEO exists |
| Auth.HandleRegister | js/auth.js:72-180 | the first CEO is appended to the approved users with `approvedBy = system`; anyone else admitted files a pending request; a refusal changes nothing |
| Auth.RegistrationKeepsUniqueness | js/auth.js:97-177 | registration keeps approved usernames unique and pending requests unique per username |
| Auth.SecondCeoOnlyRequests | js/auth.js:123-157 | once a CEO exists, a CEO registration only files a request |
| Auth.HandleLogout | js/auth.js:183-198 | confirmed: no user is logged in; otherwise unchanged |
| Sites.BlankApprovers | legacy/js/sites.js:82 | the new site's approver list has one empty name per step |
| Sites.AddSite | legacy/js/sites.js:69-141 | a step count outside 1..10 is refused with the sites unchanged; otherwise exactly one site is appended with its blank chain |
| Sites.NewSiteChain | legacy/js/sites.js:82-91 | a request filed against a new site starts consistent, with one empty slot and one unnamed approver per step |
| Sites.WithoutSite | legacy/js/sites.js:160 | exactly the sites with another id, in order |
| Sites.DeleteSite | legacy/js/sites.js:143-169 | refused without `manage_sites`; not found when no site has the id; unconfirmed: unchanged; otherwise exactly that id is removed |
| Sites.OnlyHeadOfficeManagesSites | legacy/js/main.js:4-34 | `manage_sites` is granted exactly to the top tier |
| AdvancedSearch.KeepMeetingExactly | js/advancedSearch.js:64-121 | one filter keeps exactly the requests meeting its criterion, in order |
| AdvancedSearch.ChainExactly | js/advancedSearch.js:62-121 | filters applied one after another keep exactly the requests meeting every applicable criterion, in order |
| AdvancedSearch.SearchedUnrolled | js/advancedSearch.js:62-121 | the search is the keyword, author, site, status, date and site-tier filters, in that order |
| AdvancedSearch.PassesAllIsStages | js/advancedSearch.js:64-121 | passing the six stages is passing every criterion that was filled in |
| AdvancedSearch.SearchedExactly | js/advancedSearch.js:62-121 | the results are a subsequence of the requests, and a request is a result iff it meets every criterion that was filled in: keyword in the lower-cased title or content, author substring, equal site, equal status, the date range; a site-tier user's results are their own |
| AdvancedSearch.BlankTextFieldsIgnored | js/advancedSearch.js:48-59 | a keyword or author holding only white space counts as empty, so the form is refused exactly when every field is empty after trimming |
| AdvancedSearch.SearchState.PerformAdvancedSearch | js/advancedSearch.js:45-125 | every field empty: refused and the search state unchanged; otherwise the search is active and its results are the filter chain applied to the requests as they were |
| AdvancedSearch.SearchState.ClearAdvancedSearch | js/advancedSearch.js:203-205 | the search is inactive and its results empty |

## Left out

- Persistence: Supabase calls, `localStorage` JSON, and the React handlers' storage writes (`dataService.saveNotification`, `updateApproval`) are left out. The browser-storage branch is modelled as in-memory lists. The React handlers' effects are given as the new workflow and the notice handed to storage.
- DOM and dialogs: HTML rendering, modals, `alert` and toasts are left out. The answers to `confirm` and `prompt` are parameters.
- Attachments: `FileReader`, base64 and object URLs are left out. A chosen file is a name and a data string. The 5 MB / PDF check happens before submission and is not modelled.
- Timers: the polling interval itself is left out. One tick's body is modelled (`PollTick`).
- Clocks: `Date.now()` ids and ISO timestamps are parameters. The two `new Date()` calls inside one approval or rejection are modelled as one time.
- Local time: the calendar year of `createdAt` is a field computed outside the model (`createdYear`), because it depends on the local time zone. The advanced search's date range is a predicate on `createdAt`, given as a parameter, because it works with local-time `setHours`.
- Notification ids: the ids of the notices made within one fan-out come from one stamp parameter, so they share one value.
- `parseInt` and `NaN`: `addSite` takes the step count as an integer, and a non-numeric field, which gives `NaN` in the source, is not modelled. The search's site field is an optional integer.
- Text: strings are sequences of characters. `toLowerCase` is modelled on ASCII letters only. The white space `trim` removes is ECMAScript's WhiteSpace and LineTerminator set (`IsWhitespace`), including U+00A0, U+1680, U+2000 to U+200A, U+2028, U+2029, U+202F, U+205F, U+3000 and U+FEFF. Lengths count characters, not UTF-16 code units.
- Concurrency: async ordering and races are left out. Every action is one sequential step.
- `Approvals.SubmitEditedApproval`: the resize branch guarded by a comparison of the overwritten `siteId` is not modelled, because it cannot run.
- `Approvals.ApproveStep`: the list's status gate (the approve button appears only for pending or processing requests) is outside the method. The consistency lemmas take it as a precondition instead.
- `Users`, `Auth`: user records are values replaced in the lists. The Supabase path's `null` phone and email are not modelled.
- `Auth.HandleRegister`: the first CEO's request record is built but never stored in the source, so the model does not build it.
- `EditApproval.EditAttachmentOutcome`: the React edit does not set `updatedAt`, so the merge leaves it as it was. This differs from the canonical edit, and the model follows the React revision's code.
- `ApprovalActions`: `handleDelete` (src/components/Approvals/ApprovalActions.jsx:126-143) is left out. It only confirms and hands the id and the deleting user's display name (`Roles.DisplayName`) to the storage layer, so it changes no state the model holds.
- `Utils.StatusLookups`, `Utils.GetStatusClass`, `Utils.GetStatusText`: the source looks the status up in an object literal (`map[status] || 'pending'`), so a key inherited from `Object.prototype` (`"toString"`, `"constructor"`, `"__proto__"`) returns a function or object instead of falling back. The model treats every string outside the four statuses as unknown, so it does not capture those keys.
- `Utils.GenerateApprovalNumber`, `Utils.MaxMatched`, `Approvals.SubmitApproval`: numbers are unbounded integers. The source's `parseInt` and `maxNumber + 1` are doubles, so above 2^53 the next number can equal the maximum, and `String(n)` switches to exponent form at 1e21. The model does not capture that.
