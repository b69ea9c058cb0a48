/** The entities the application keeps in memory: approval requests with
    their multi-step workflow, sites, user accounts, registration requests,
    the logged-in session, and the global stores that hold them. */
module Domain {
  import opened Common

  /** JavaScript truthiness of a string: only the empty string is falsy. */
  predicate Truthy(s: string)
  {
    s != ""
  }

  /** Truthiness of a string that may also be `null`. */
  predicate TruthyOpt(s: Option<string>)
  {
    s.Some? && s.value != ""
  }

  datatype Status = Pending | Processing | Approved | Rejected

  /** The string stored in a request's `status` field. */
  function StatusName(s: Status): (r: string)
    ensures Truthy(r)
  {
    match s
    case Pending => "pending"
    case Processing => "processing"
    case Approved => "approved"
    case Rejected => "rejected"
  }

  lemma StatusNameInjective(a: Status, b: Status)
    ensures StatusName(a) == StatusName(b) <==> a == b
  {
  }

  /** One filled slot of a request's `approvals` array: an approval
      (`skipped` is set only by the CEO's skip of step 0) or a rejection. */
  datatype ApprovalRecord =
    | Approval(approver: string, approvedAt: string, skipped: bool)
    | Rejection(approver: string, rejectedAt: string, reason: string)

  /** The workflow fields of a request, as one value. */
  datatype Workflow = Workflow(
    status: Status,
    currentStep: nat,
    totalSteps: nat,
    approvers: seq<string>,
    approvals: seq<Option<ApprovalRecord>>,
    rejectedAt: Option<string>,
    rejectionReason: Option<string>)

  /** The descriptive fields of a request, as one value. */
  datatype Document = Document(
    title: string,
    content: string,
    siteId: int,
    siteName: string,
    author: string,
    attachmentFileName: Option<string>,
    attachmentData: Option<string>,
    updatedAt: Option<string>,
    originalCreatedAt: Option<string>)

  /** How an action ended: the record was not found, an alert refused it,
      the user dismissed a `confirm` or `prompt`, it stopped on a JavaScript
      `TypeError` (reading a field of a `null` session) before changing
      anything, or it took effect. */
  datatype Outcome = NotFound | Refused | Dismissed | Threw | Done

  /** A file chosen in a form: its name and its contents as a data URL. */
  datatype Attachment = Attachment(fileName: string, data: string)

  /** What the notification layer reads of a request. */
  datatype ApprovalInfo = ApprovalInfo(
    id: int, title: string, author: string, siteId: int, siteName: string, status: Status)

  /** A JavaScript array of slots read at index `i`; reading past the end gives `undefined`. */
  function Slot(s: seq<Option<ApprovalRecord>>, i: nat): (r: Option<ApprovalRecord>)
    ensures i >= |s| ==> r.None?
    ensures i < |s| ==> r == s[i]
  {
    if i < |s| then s[i] else None
  }

  function Nones(n: nat): (r: seq<Option<ApprovalRecord>>)
    ensures |r| == n && forall k :: 0 <= k < n ==> r[k].None?
  {
    if n == 0 then [] else Nones(n - 1) + [None]
  }

  /** `a[i] = v` on a JavaScript array: in range it replaces the slot; past the
      end it grows the array, the gap reading as empty slots. */
  function SetSlot(s: seq<Option<ApprovalRecord>>, i: nat, v: Option<ApprovalRecord>): (r: seq<Option<ApprovalRecord>>)
    ensures |r| == if i < |s| then |s| else i + 1
    ensures r[i] == v
    ensures forall k :: 0 <= k < |r| && k != i ==> r[k] == Slot(s, k)
  {
    if i < |s| then s[i := v] else s + Nones(i - |s|) + [v]
  }

  predicate IsApproval(o: Option<ApprovalRecord>)
  {
    o.Some? && o.value.Approval?
  }

  predicate IsRejection(o: Option<ApprovalRecord>)
  {
    o.Some? && o.value.Rejection?
  }

  /** The shape every workflow keeps while it is driven only through the
      actions the user interface offers:
      one slot per step, the completed steps are exactly the approved prefix,
      and the status agrees with the step counter. */
  predicate Consistent(w: Workflow)
  {
    && |w.approvals| == w.totalSteps
    && w.currentStep <= w.totalSteps
    && (forall k :: 0 <= k < w.currentStep ==> IsApproval(w.approvals[k]))
    && (w.status == Pending ==> w.currentStep == 0)
    && (w.status == Processing ==> 0 < w.currentStep < w.totalSteps)
    && (w.status == Approved <==> 0 < w.totalSteps && w.currentStep == w.totalSteps)
    && (w.status == Rejected ==>
          w.currentStep < w.totalSteps && IsRejection(w.approvals[w.currentStep]) &&
          w.rejectionReason.Some? && w.rejectionReason.value != "")
  }

  datatype Site = Site(id: int, name: string, location: string, manager: string, steps: nat, approvers: seq<string>)

  /** The `currentUser` object written at login. */
  datatype Session = Session(username: string, role: string, loginTime: string)

  datatype User = User(
    username: string, password: string, role: string, name: string,
    phone: string, email: string, approvedAt: string, approvedBy: string)

  datatype DeletedUser = DeletedUser(user: User, deletedAt: string, deletedBy: string)

  datatype RequestStatus = RequestPending | RequestApproved | RequestRejected

  datatype UserRequest = UserRequest(
    id: int, username: string, password: string, role: string, name: string,
    phone: string, email: string, status: RequestStatus, requestedAt: string,
    approvedAt: Option<string>, approvedBy: Option<string>,
    rejectedAt: Option<string>, rejectedBy: Option<string>, rejectionReason: Option<string>)

  /** An approval request. Its identity, number and creation time never
      change; everything else is reassigned by the workflow actions. */
  class ApprovalRequest {
    const id: int
    const approvalNumber: string
    const createdAt: string
    /** The local calendar year of `createdAt`. */
    const createdYear: int

    var title: string
    var content: string
    var siteId: int
    var siteName: string
    var author: string
    var attachmentFileName: Option<string>
    var attachmentData: Option<string>
    var updatedAt: Option<string>
    var originalCreatedAt: Option<string>

    var status: Status
    var currentStep: nat
    var totalSteps: nat
    var approvers: seq<string>
    var approvals: seq<Option<ApprovalRecord>>
    var rejectedAt: Option<string>
    var rejectionReason: Option<string>

    function Flow(): Workflow
      reads this`status, this`currentStep, this`totalSteps, this`approvers, this`approvals,
            this`rejectedAt, this`rejectionReason
    {
      Workflow(status, currentStep, totalSteps, approvers, approvals, rejectedAt, rejectionReason)
    }

    function Doc(): Document
      reads this`title, this`content, this`siteId, this`siteName, this`author,
            this`attachmentFileName, this`attachmentData, this`updatedAt, this`originalCreatedAt
    {
      Document(title, content, siteId, siteName, author, attachmentFileName, attachmentData,
               updatedAt, originalCreatedAt)
    }

    function Info(): ApprovalInfo
      reads this`title, this`author, this`siteId, this`siteName, this`status
    {
      ApprovalInfo(id, title, author, siteId, siteName, status)
    }

    constructor (id: int, approvalNumber: string, createdAt: string, createdYear: int, d: Document, w: Workflow)
      ensures this.id == id && this.approvalNumber == approvalNumber
      ensures this.createdAt == createdAt && this.createdYear == createdYear
      ensures Doc() == d && Flow() == w
    {
      this.id := id;
      this.approvalNumber := approvalNumber;
      this.createdAt := createdAt;
      this.createdYear := createdYear;
      title, content, siteId, siteName, author := d.title, d.content, d.siteId, d.siteName, d.author;
      attachmentFileName, attachmentData := d.attachmentFileName, d.attachmentData;
      updatedAt, originalCreatedAt := d.updatedAt, d.originalCreatedAt;
      status, currentStep, totalSteps := w.status, w.currentStep, w.totalSteps;
      approvers, approvals := w.approvers, w.approvals;
      rejectedAt, rejectionReason := w.rejectedAt, w.rejectionReason;
    }
  }

  /** The global stores: sites, requests, the logged-in user, and the three user lists. */
  class AppState {
    var sites: seq<Site>
    var approvals: seq<ApprovalRequest>
    var currentUser: Option<Session>
    var userRequests: seq<UserRequest>
    var approvedUsers: seq<User>
    var deletedUsers: seq<DeletedUser>

    constructor ()
      ensures sites == [] && approvals == [] && currentUser == None
      ensures userRequests == [] && approvedUsers == [] && deletedUsers == []
    {
      sites, approvals, currentUser := [], [], None;
      userRequests, approvedUsers, deletedUsers := [], [], [];
    }
  }
}
