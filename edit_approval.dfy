/** The React edit dialog's submission (`handleSubmit` of the edit modal).
    It does not touch the request: it builds an `updates` record that
    storage merges into the request. The record always carries the form's
    descriptive fields; the attachment fields appear only when a file was
    chosen or the stored one was removed; the workflow fields appear only
    for a rejected request, which restarts on a fixed two-step chain
    (head office, then the CEO) whatever its site's chain is. */
module EditApproval {
  import opened Common
  import opened Domain
  import opened ApprovalRules

  /** The form's fields; `siteId` is the selected site's id. */
  datatype EditForm = EditForm(title: string, siteId: int, author: string, content: string,
                               attachment: Option<Attachment>)

  /** What `updates` says about the two attachment fields. */
  datatype AttachmentUpdate =
    | KeepAttachment                        // neither field present
    | ClearAttachment                       // both fields set to null
    | ReplaceAttachment(file: Attachment)   // both fields set from the chosen file

  datatype EditUpdates = EditUpdates(
    title: string, content: string, siteId: int, siteName: string, author: string,
    attachment: AttachmentUpdate,
    /** Present only for a rejected request. */
    workflow: Option<Workflow>)

  /** `u?.name || u?.username || fallback` for the first approved user with `role`. */
  function NameForRole(users: seq<User>, role: string, fallback: string): (r: string)
    ensures (forall k :: 0 <= k < |users| ==> users[k].role != role) ==> r == fallback
    ensures forall k :: 0 <= k < |users| && users[k].role == role &&
                        (forall j :: 0 <= j < k ==> users[j].role != role) ==>
                        r == if Truthy(users[k].name) then users[k].name
                             else if Truthy(users[k].username) then users[k].username else fallback
    ensures Truthy(fallback) ==> Truthy(r)
  {
    match FindIndex(users, (u: User) => u.role == role)
    case None => fallback
    case Some(i) =>
      if Truthy(users[i].name) then users[i].name
      else if Truthy(users[i].username) then users[i].username
      else fallback
  }

  /** The workflow fields written for a rejected request. */
  function TwoStepRestart(users: seq<User>): Workflow
  {
    Workflow(Pending, 0, 2, [NameForRole(users, "headquarters", "본사"), NameForRole(users, "ceo", "대표님")],
             [None, None], None, None)
  }

  /** `handleSubmit`: refused (`None`) when no site has the selected id;
      `existingKept` is whether the stored attachment is still shown in the
      dialog, and `users` the approved users storage returns. */
  function EditUpdatesFor(status: Status, form: EditForm, existingKept: bool,
                          sites: seq<Site>, users: seq<User>): (r: Option<EditUpdates>)
    ensures r.None? <==> forall k :: 0 <= k < |sites| ==> sites[k].id != form.siteId
    ensures r.Some? ==>
              && r.value.title == form.title && r.value.content == form.content
              && r.value.siteId == form.siteId && r.value.author == form.author
              && (exists k :: 0 <= k < |sites| && sites[k].id == form.siteId && sites[k].name == r.value.siteName &&
                             forall j :: 0 <= j < k ==> sites[j].id != form.siteId)
    ensures r.Some? ==>
              r.value.attachment == if form.attachment.Some? then ReplaceAttachment(form.attachment.value)
                                    else if existingKept then KeepAttachment else ClearAttachment
    ensures r.Some? ==> (r.value.workflow.Some? <==> status == Rejected)
    ensures r.Some? && r.value.workflow.Some? ==>
              var v := r.value.workflow.value;
              && v.status == Pending && v.currentStep == 0 && v.totalSteps == 2
              && v.approvals == [None, None] && v.rejectedAt.None? && v.rejectionReason.None?
              && |v.approvers| == 2 && Truthy(v.approvers[0]) && Truthy(v.approvers[1])
  {
    match Find(sites, (s: Site) => s.id == form.siteId)
    case None => None
    case Some(site) =>
      var attachment := if form.attachment.Some? then ReplaceAttachment(form.attachment.value)
                        else if existingKept then KeepAttachment else ClearAttachment;
      var workflow := if status == Rejected then Some(TwoStepRestart(users)) else None;
      Some(EditUpdates(form.title, form.content, form.siteId, site.name, form.author, attachment, workflow))
  }

  /** Storage merging `updates` into a request's descriptive fields. */
  function UpdatedDocument(d: Document, u: EditUpdates): Document
  {
    var d2 := d.(title := u.title, content := u.content, siteId := u.siteId, siteName := u.siteName,
                 author := u.author);
    match u.attachment
    case KeepAttachment => d2
    case ClearAttachment => d2.(attachmentFileName := None, attachmentData := None)
    case ReplaceAttachment(f) => d2.(attachmentFileName := Some(f.fileName), attachmentData := Some(f.data))
  }

  /** Storage merging `updates` into a request's workflow fields. */
  function UpdatedWorkflow(w: Workflow, u: EditUpdates): Workflow
  {
    if u.workflow.Some? then u.workflow.value else w
  }

  /** A request that is not rejected keeps its progress, as in the canonical
      `submitEditedApproval`. */
  lemma EditKeepsProgressUnlessRejected(w: Workflow, status: Status, form: EditForm,
                                        existingKept: bool, sites: seq<Site>, users: seq<User>, site: Site)
    requires w.status == status && status != Rejected
    requires EditUpdatesFor(status, form, existingKept, sites, users).Some?
    ensures UpdatedWorkflow(w, EditUpdatesFor(status, form, existingKept, sites, users).value) == w
    ensures UpdatedWorkflow(w, EditUpdatesFor(status, form, existingKept, sites, users).value) == EditedWorkflow(w, site)
  {
  }

  /** A rejected request restarts consistently; it agrees with the canonical
      reset to the site's chain exactly when that chain is the two-step
      head office / CEO chain with the same names. */
  lemma EditRestartOfRejected(w: Workflow, form: EditForm, existingKept: bool,
                              sites: seq<Site>, users: seq<User>, site: Site)
    requires w.status == Rejected
    requires EditUpdatesFor(Rejected, form, existingKept, sites, users).Some?
    ensures var v := UpdatedWorkflow(w, EditUpdatesFor(Rejected, form, existingKept, sites, users).value);
            && Consistent(v) && v == TwoStepRestart(users)
            && (v == EditedWorkflow(w, site) <==> site.steps == 2 && site.approvers == v.approvers)
  {
    var v := TwoStepRestart(users);
    assert Nones(2) == [None, None] by {
      assert Nones(1) == [None];
    }
  }

  /** The attachment after the merge: replaced by a chosen file, cleared when
      the stored one was removed without a replacement, otherwise untouched;
      the five form fields are always written. */
  lemma EditAttachmentOutcome(d: Document, status: Status, form: EditForm, existingKept: bool,
                              sites: seq<Site>, users: seq<User>)
    requires EditUpdatesFor(status, form, existingKept, sites, users).Some?
    ensures var e := UpdatedDocument(d, EditUpdatesFor(status, form, existingKept, sites, users).value);
            && e.title == form.title && e.content == form.content && e.siteId == form.siteId
            && e.author == form.author
            && (form.attachment.Some? ==>
                  e.attachmentFileName == Some(form.attachment.value.fileName) &&
                  e.attachmentData == Some(form.attachment.value.data))
            && (form.attachment.None? && existingKept ==>
                  e.attachmentFileName == d.attachmentFileName && e.attachmentData == d.attachmentData)
            && (form.attachment.None? && !existingKept ==> e.attachmentFileName.None? && e.attachmentData.None?)
            && e.updatedAt == d.updatedAt && e.originalCreatedAt == d.originalCreatedAt
  {
  }
}
