/** The in-memory notification list: creation with de-duplication and a
    cap of 100 entries, the fan-out when a request awaits approval, the
    outcome notices for authors, per-user reading and deleting, and one
    tick of the periodic check for requests awaiting approval. */
module Notifications {
  import opened Common
  import opened Text
  import opened Domain
  import opened Roles
  import opened ApprovalRules

  datatype Notification = Notification(
    id: int, kind: string, title: string, message: string,
    approvalId: Option<int>, userId: Option<string>, read: bool, createdAt: string)

  /** `Date.now()` and `new Date().toISOString()` at the moment of creation. */
  datatype Stamp = Stamp(id: int, at: string)

  const MaxKept: nat := 100

  const PendingTitle: string := "결재 승인 대기"
  const ApprovedTitle: string := "결재 승인 완료"
  const RejectedTitle: string := "결재 반려"

  function PendingMessage(title: string): string
  {
    "\"" + title + "\" 결재가 승인을 기다리고 있습니다."
  }

  function ApprovedMessage(title: string): string
  {
    "\"" + title + "\" 결재가 승인되었습니다."
  }

  function RejectedMessage(title: string): string
  {
    "\"" + title + "\" 결재가 반려되었습니다."
  }

  /** JavaScript truthiness of a request id that may be `null`. */
  predicate TruthyId(id: Option<int>)
  {
    id.Some? && id.value != 0
  }

  // ---- createNotification ----

  predicate BlocksPending(n: Notification, approvalId: Option<int>, userId: Option<string>)
  {
    n.approvalId == approvalId && n.kind == "pending" && (!TruthyOpt(userId) || n.userId == userId)
  }

  /** The de-duplication test of `createNotification`: a pending notice for
      the same request already exists for the same user, or for anybody when
      no user is given. */
  predicate DuplicatePending(ns: seq<Notification>, kind: string, approvalId: Option<int>, userId: Option<string>)
  {
    kind == "pending" && TruthyId(approvalId) &&
    exists k :: 0 <= k < |ns| && BlocksPending(ns[k], approvalId, userId)
  }

  function NewNotification(kind: string, title: string, message: string,
                           approvalId: Option<int>, userId: Option<string>, stamp: Stamp): Notification
  {
    Notification(stamp.id, kind, title, message, approvalId, userId, false, stamp.at)
  }

  /** Keep the first hundred entries. */
  function Capped(s: seq<Notification>): (r: seq<Notification>)
    ensures |r| == if |s| > MaxKept then MaxKept else |s|
    ensures r == s[..|r|]
  {
    if |s| > MaxKept then s[..MaxKept] else s
  }

  /** The list after `createNotification`. */
  function AfterCreate(ns: seq<Notification>, kind: string, title: string, message: string,
                       approvalId: Option<int>, userId: Option<string>, stamp: Stamp): seq<Notification>
  {
    if DuplicatePending(ns, kind, approvalId, userId) then ns
    else Capped([NewNotification(kind, title, message, approvalId, userId, stamp)] + ns)
  }

  /** A refused duplicate leaves the list alone; otherwise the new notice is
      unread, comes first, and the oldest entries beyond a hundred are dropped. */
  lemma CreateNewestFirst(ns: seq<Notification>, kind: string, title: string, message: string,
                          approvalId: Option<int>, userId: Option<string>, stamp: Stamp)
    ensures var r := AfterCreate(ns, kind, title, message, approvalId, userId, stamp);
            if DuplicatePending(ns, kind, approvalId, userId) then r == ns
            else
              && |r| == (if |ns| + 1 > MaxKept then MaxKept else |ns| + 1)
              && r[0] == NewNotification(kind, title, message, approvalId, userId, stamp) && !r[0].read
              && r[1..] == ns[..|r| - 1]
  {
  }

  /** A pending notice without a user is refused as soon as any pending
      notice for the same request exists, whoever it was for. */
  lemma NullUserMatchesAnyPending(ns: seq<Notification>, approvalId: Option<int>, k: nat)
    requires TruthyId(approvalId) && k < |ns| && ns[k].approvalId == approvalId && ns[k].kind == "pending"
    ensures DuplicatePending(ns, "pending", approvalId, None)
    ensures DuplicatePending(ns, "pending", approvalId, Some(""))
  {
    assert BlocksPending(ns[k], approvalId, None);
    assert BlocksPending(ns[k], approvalId, Some(""));
  }

  predicate IsPendingFor(n: Notification, id: int)
  {
    n.approvalId == Some(id) && n.kind == "pending"
  }

  predicate HasPendingFor(ns: seq<Notification>, id: int)
  {
    exists k :: 0 <= k < |ns| && IsPendingFor(ns[k], id)
  }

  /** After an attempt to create a pending notice for a request, one exists. */
  lemma CreatePendingLeavesPending(ns: seq<Notification>, title: string, message: string,
                                   id: int, userId: Option<string>, stamp: Stamp)
    ensures HasPendingFor(AfterCreate(ns, "pending", title, message, Some(id), userId, stamp), id)
  {
    var r := AfterCreate(ns, "pending", title, message, Some(id), userId, stamp);
    if DuplicatePending(ns, "pending", Some(id), userId) {
      var k :| 0 <= k < |ns| && BlocksPending(ns[k], Some(id), userId);
      assert IsPendingFor(r[k], id);
    } else {
      assert IsPendingFor(r[0], id);
    }
  }

  /** Below the cap, creating never removes anything: the old list is the tail. */
  lemma CreateKeepsTail(ns: seq<Notification>, kind: string, title: string, message: string,
                        approvalId: Option<int>, userId: Option<string>, stamp: Stamp)
    requires |ns| < MaxKept
    ensures var r := AfterCreate(ns, kind, title, message, approvalId, userId, stamp);
            |ns| <= |r| <= |ns| + 1 && r[|r| - |ns|..] == ns
  {
  }

  lemma HasPendingForTail(r: seq<Notification>, ns: seq<Notification>, id: int)
    requires |ns| <= |r| && r[|r| - |ns|..] == ns && HasPendingFor(ns, id)
    ensures HasPendingFor(r, id)
  {
    var k :| 0 <= k < |ns| && IsPendingFor(ns[k], id);
    assert r[|r| - |ns| + k] == ns[k];
  }

  // ---- notifyPendingApproval ----

  predicate IsTopTierUser(u: User)
  {
    IsTopTier(u.role)
  }

  /** The site a notice is about: the first with the request's site id or its site name. */
  function NoticeSite(sites: seq<Site>, a: ApprovalInfo): Option<Site>
  {
    Find(sites, (s: Site) => s.id == a.siteId || s.name == a.siteName)
  }

  function UserNamed(users: seq<User>, username: string): (r: Option<User>)
    ensures r.Some? ==> r.value.username == username && r.value in users
  {
    Find(users, (u: User) => u.username == username)
  }

  function PendingNotice(a: ApprovalInfo, username: string, stamp: Stamp): Notification
  {
    NewNotification("pending", PendingTitle, PendingMessage(a.title), Some(a.id), Some(username), stamp)
  }

  /** The notices of the head-office loop, one `createNotification` per user. */
  function CeoFanOut(ns: seq<Notification>, a: ApprovalInfo, ceos: seq<User>, stamp: Stamp): seq<Notification>
    decreases |ceos|
  {
    if ceos == [] then ns
    else
      var before := CeoFanOut(ns, a, ceos[..|ceos| - 1], stamp);
      var ceo := ceos[|ceos| - 1];
      if ceo.username != a.author
      then AfterCreate(before, "pending", PendingTitle, PendingMessage(a.title), Some(a.id), Some(ceo.username), stamp)
      else before
  }

  /** The site's manager, when that account is site tier and is not the author. */
  function ManagerRecipient(a: ApprovalInfo, users: seq<User>, sites: seq<Site>): (r: seq<string>)
    ensures |r| <= 1
    ensures forall i :: 0 <= i < |r| ==> r[i] != a.author
  {
    match NoticeSite(sites, a)
    case None => []
    case Some(site) =>
      if !Truthy(site.manager) then []
      else match UserNamed(users, site.manager)
        case None => []
        case Some(m) => if IsSiteTier(m.role) && m.username != a.author then [m.username] else []
  }

  function ManagerNotice(ns: seq<Notification>, a: ApprovalInfo, users: seq<User>, sites: seq<Site>, stamp: Stamp): seq<Notification>
  {
    var r := ManagerRecipient(a, users, sites);
    if r == [] then ns
    else AfterCreate(ns, "pending", PendingTitle, PendingMessage(a.title), Some(a.id), Some(r[0]), stamp)
  }

  /** The list after `notifyPendingApproval(a)`. */
  function AfterNotifyPending(ns: seq<Notification>, a: ApprovalInfo, users: seq<User>, sites: seq<Site>, stamp: Stamp): seq<Notification>
  {
    if HasPendingFor(ns, a.id) then ns
    else ManagerNotice(CeoFanOut(ns, a, Filter(users, IsTopTierUser), stamp), a, users, sites, stamp)
  }

  /** Who the head-office loop notifies: every such user except the author, in order. */
  function CeoRecipients(ceos: seq<User>, author: string): (r: seq<string>)
    ensures forall i :: 0 <= i < |r| ==> r[i] != author
    ensures forall i :: 0 <= i < |r| ==> exists j :: 0 <= j < |ceos| && ceos[j].username == r[i]
    ensures forall j :: 0 <= j < |ceos| && ceos[j].username != author ==> ceos[j].username in r
    decreases |ceos|
  {
    if ceos == [] then []
    else
      var last := ceos[|ceos| - 1];
      var rest := CeoRecipients(ceos[..|ceos| - 1], author);
      assert forall j :: 0 <= j < |ceos| - 1 ==> ceos[..|ceos| - 1][j] == ceos[j];
      rest + (if last.username != author then [last.username] else [])
  }

  /** Everybody `notifyPendingApproval` addresses, in the order it creates the notices. */
  function PendingRecipients(a: ApprovalInfo, users: seq<User>, sites: seq<Site>): seq<string>
  {
    CeoRecipients(Filter(users, IsTopTierUser), a.author) + ManagerRecipient(a, users, sites)
  }

  /** One pending notice per recipient, newest (last addressed) first. */
  function Announcements(a: ApprovalInfo, recipients: seq<string>, stamp: Stamp): (r: seq<Notification>)
    ensures |r| == |recipients|
    ensures forall i :: 0 <= i < |r| ==> r[i] == PendingNotice(a, recipients[|recipients| - 1 - i], stamp)
    decreases |recipients|
  {
    if recipients == [] then []
    else
      var rest := Announcements(a, recipients[..|recipients| - 1], stamp);
      [PendingNotice(a, recipients[|recipients| - 1], stamp)] + rest
  }

  predicate Distinct(s: seq<string>)
  {
    forall i, j :: 0 <= i < j < |s| ==> s[i] != s[j]
  }

  predicate AllTruthy(s: seq<string>)
  {
    forall i :: 0 <= i < |s| ==> Truthy(s[i])
  }

  lemma DistinctSplit(p: seq<string>, q: seq<string>)
    requires Distinct(p + q) && AllTruthy(p + q)
    ensures Distinct(p) && AllTruthy(p) && AllTruthy(q)
    ensures forall j :: 0 <= j < |q| ==> q[j] !in p
  {
    var s := p + q;
    assert forall i :: 0 <= i < |p| ==> s[i] == p[i];
    assert forall j :: 0 <= j < |q| ==> s[|p| + j] == q[j];
  }

  lemma AnnouncementsSnoc(a: ApprovalInfo, rs: seq<string>, u: string, stamp: Stamp)
    ensures Announcements(a, rs + [u], stamp) == [PendingNotice(a, u, stamp)] + Announcements(a, rs, stamp)
  {
    assert (rs + [u])[..|rs|] == rs;
  }

  /** A recipient not yet announced is not blocked by the earlier announcements,
      so the next `createNotification` puts their notice in front. */
  lemma AnnounceOneMore(ns: seq<Notification>, a: ApprovalInfo, rs: seq<string>, u: string, stamp: Stamp)
    requires !HasPendingFor(ns, a.id)
    requires Truthy(u) && u !in rs && |ns| + |rs| < MaxKept
    ensures AfterCreate(Announcements(a, rs, stamp) + ns, "pending", PendingTitle, PendingMessage(a.title),
                        Some(a.id), Some(u), stamp)
            == Announcements(a, rs + [u], stamp) + ns
  {
    var before := Announcements(a, rs, stamp) + ns;
    forall k | 0 <= k < |before|
      ensures !BlocksPending(before[k], Some(a.id), Some(u))
    {
      if k < |rs| {
        assert before[k].userId == Some(rs[|rs| - 1 - k]);
        assert rs[|rs| - 1 - k] in rs;
      } else {
        assert before[k] == ns[k - |rs|];
        assert !IsPendingFor(ns[k - |rs|], a.id);
      }
    }
    AnnouncementsSnoc(a, rs, u, stamp);
  }

  lemma {:induction false} CeoFanOutExact(ns: seq<Notification>, a: ApprovalInfo, ceos: seq<User>, stamp: Stamp)
    requires !HasPendingFor(ns, a.id)
    requires var r := CeoRecipients(ceos, a.author); Distinct(r) && AllTruthy(r) && |ns| + |r| <= MaxKept
    ensures CeoFanOut(ns, a, ceos, stamp) == Announcements(a, CeoRecipients(ceos, a.author), stamp) + ns
    decreases |ceos|
  {
    if ceos != [] {
      var pre := ceos[..|ceos| - 1];
      var last := ceos[|ceos| - 1];
      var rPre := CeoRecipients(pre, a.author);
      var added := if last.username != a.author then [last.username] else [];
      assert CeoRecipients(ceos, a.author) == rPre + added;
      DistinctSplit(rPre, added);
      CeoFanOutExact(ns, a, pre, stamp);
      if last.username != a.author {
        assert added[0] == last.username;
        AnnounceOneMore(ns, a, rPre, last.username, stamp);
      } else {
        assert rPre + added == rPre;
      }
    }
  }

  lemma {:induction false} CeoFanOutUntouchedWithoutRecipients(ns: seq<Notification>, a: ApprovalInfo, ceos: seq<User>, stamp: Stamp)
    requires CeoRecipients(ceos, a.author) == []
    ensures CeoFanOut(ns, a, ceos, stamp) == ns
    decreases |ceos|
  {
    if ceos != [] {
      CeoFanOutUntouchedWithoutRecipients(ns, a, ceos[..|ceos| - 1], stamp);
    }
  }

  lemma {:induction false} CeoFanOutMarks(ns: seq<Notification>, a: ApprovalInfo, ceos: seq<User>, stamp: Stamp)
    requires CeoRecipients(ceos, a.author) != []
    ensures HasPendingFor(CeoFanOut(ns, a, ceos, stamp), a.id)
    decreases |ceos|
  {
    var pre := ceos[..|ceos| - 1];
    var last := ceos[|ceos| - 1];
    var before := CeoFanOut(ns, a, pre, stamp);
    if last.username != a.author {
      CreatePendingLeavesPending(before, PendingTitle, PendingMessage(a.title), a.id, Some(last.username), stamp);
    } else {
      CeoFanOutMarks(ns, a, pre, stamp);
    }
  }

  /** The first call notifies exactly: one pending notice for each head-office
      user other than the author, then one for the site's manager when that
      account is site tier and not the author, newest first in front of the
      old list. (Stated for distinct, non-empty usernames and below the cap.) */
  lemma NotifyPendingFanOut(ns: seq<Notification>, a: ApprovalInfo, users: seq<User>, sites: seq<Site>, stamp: Stamp)
    requires !HasPendingFor(ns, a.id)
    requires var r := PendingRecipients(a, users, sites); Distinct(r) && AllTruthy(r) && |ns| + |r| <= MaxKept
    ensures AfterNotifyPending(ns, a, users, sites, stamp) == Announcements(a, PendingRecipients(a, users, sites), stamp) + ns
  {
    var ceos := Filter(users, IsTopTierUser);
    var rc := CeoRecipients(ceos, a.author);
    var rm := ManagerRecipient(a, users, sites);
    DistinctSplit(rc, rm);
    CeoFanOutExact(ns, a, ceos, stamp);
    if rm != [] {
      assert rm == [rm[0]];
      AnnounceOneMore(ns, a, rc, rm[0], stamp);
    } else {
      assert rc + rm == rc;
    }
  }

  /** Calling `notifyPendingApproval` again, at any later moment, adds nothing. */
  lemma NotifyPendingIdempotent(ns: seq<Notification>, a: ApprovalInfo, users: seq<User>, sites: seq<Site>,
                                first: Stamp, again: Stamp)
    ensures var once := AfterNotifyPending(ns, a, users, sites, first);
            AfterNotifyPending(once, a, users, sites, again) == once
  {
    var once := AfterNotifyPending(ns, a, users, sites, first);
    if !HasPendingFor(ns, a.id) {
      var ceos := Filter(users, IsTopTierUser);
      var rm := ManagerRecipient(a, users, sites);
      var before := CeoFanOut(ns, a, ceos, first);
      if rm != [] {
        CreatePendingLeavesPending(before, PendingTitle, PendingMessage(a.title), a.id, Some(rm[0]), first);
      } else if CeoRecipients(ceos, a.author) != [] {
        CeoFanOutMarks(ns, a, ceos, first);
      } else {
        CeoFanOutUntouchedWithoutRecipients(ns, a, ceos, first);
        CeoFanOutUntouchedWithoutRecipients(ns, a, ceos, again);
      }
    }
  }

  // ---- notifyApprovalApproved / notifyApprovalRejected ----

  predicate HasOutcomeNotice(ns: seq<Notification>, a: ApprovalInfo, kind: string)
  {
    exists k :: 0 <= k < |ns| && ns[k].approvalId == Some(a.id) && ns[k].kind == kind && ns[k].userId == Some(a.author)
  }

  function AfterNotifyApproved(ns: seq<Notification>, a: ApprovalInfo, stamp: Stamp): seq<Notification>
  {
    if HasOutcomeNotice(ns, a, "approved") then ns
    else AfterCreate(ns, "approved", ApprovedTitle, ApprovedMessage(a.title), Some(a.id), Some(a.author), stamp)
  }

  function AfterNotifyRejected(ns: seq<Notification>, a: ApprovalInfo, stamp: Stamp): seq<Notification>
  {
    if HasOutcomeNotice(ns, a, "rejected") then ns
    else AfterCreate(ns, "rejected", RejectedTitle, RejectedMessage(a.title), Some(a.id), Some(a.author), stamp)
  }

  /** The author is told once per request and outcome: the first call puts
      one unread notice in front, a second call adds nothing. */
  lemma OutcomeNoticesOnce(ns: seq<Notification>, a: ApprovalInfo, s1: Stamp, s2: Stamp)
    ensures !HasOutcomeNotice(ns, a, "approved") ==>
              AfterNotifyApproved(ns, a, s1)[0] ==
                NewNotification("approved", ApprovedTitle, ApprovedMessage(a.title), Some(a.id), Some(a.author), s1)
    ensures !HasOutcomeNotice(ns, a, "rejected") ==>
              AfterNotifyRejected(ns, a, s1)[0] ==
                NewNotification("rejected", RejectedTitle, RejectedMessage(a.title), Some(a.id), Some(a.author), s1)
    ensures AfterNotifyApproved(AfterNotifyApproved(ns, a, s1), a, s2) == AfterNotifyApproved(ns, a, s1)
    ensures AfterNotifyRejected(AfterNotifyRejected(ns, a, s1), a, s2) == AfterNotifyRejected(ns, a, s1)
  {
    var r1 := AfterNotifyApproved(ns, a, s1);
    assert HasOutcomeNotice(r1, a, "approved") by {
      if !HasOutcomeNotice(ns, a, "approved") { assert r1[0].userId == Some(a.author); }
    }
    var r2 := AfterNotifyRejected(ns, a, s1);
    assert HasOutcomeNotice(r2, a, "rejected") by {
      if !HasOutcomeNotice(ns, a, "rejected") { assert r2[0].userId == Some(a.author); }
    }
  }

  // ---- Reading and deleting ----

  /** A notice is shown to the current user when it names nobody or names them. */
  predicate Visible(n: Notification, user: Option<Session>)
  {
    !TruthyOpt(n.userId) || (user.Some? && n.userId == Some(user.value.username))
  }

  /** The unread count on the badge. */
  function UnreadCount(ns: seq<Notification>, user: Option<Session>): (c: nat)
    ensures c <= |ns|
    ensures c == 0 <==> forall i :: 0 <= i < |ns| && Visible(ns[i], user) ==> ns[i].read
  {
    if ns == [] then 0
    else (if !ns[0].read && Visible(ns[0], user) then 1 else 0) + UnreadCount(ns[1..], user)
  }

  /** The badge text: hidden at zero, capped at `99+`. */
  function BadgeText(count: nat): (r: Option<string>)
    ensures r.None? <==> count == 0
    ensures count > 99 ==> r == Some("99+")
    ensures 0 < count <= 99 ==> r == Some(NatToString(count))
  {
    if count == 0 then None else if count > 99 then Some("99+") else Some(NatToString(count))
  }

  function IndexOfId(ns: seq<Notification>, id: int): Option<nat>
  {
    FindIndex(ns, (n: Notification) => n.id == id)
  }

  predicate Related(n: Notification, approvalId: Option<int>, kind: string, notificationId: int)
  {
    n.approvalId == approvalId && n.kind == kind && !n.read && n.id != notificationId
  }

  function MarkRelated(ns: seq<Notification>, approvalId: Option<int>, kind: string, notificationId: int): (r: seq<Notification>)
    ensures |r| == |ns|
  {
    seq(|ns|, i requires 0 <= i < |ns| =>
      if Related(ns[i], approvalId, kind, notificationId) then ns[i].(read := true) else ns[i])
  }

  /** The list after `viewNotification(notificationId, approvalId)`. */
  function AfterView(ns: seq<Notification>, notificationId: int, approvalId: Option<int>): seq<Notification>
  {
    match IndexOfId(ns, notificationId)
    case None => ns
    case Some(k) =>
      var marked := ns[k := ns[k].(read := true)];
      if TruthyId(approvalId) then MarkRelated(marked, approvalId, ns[k].kind, notificationId) else marked
  }

  /** Viewing changes read flags only: the chosen notice and every other
      notice for the same request and of the same type become read; nothing
      else changes. An unknown id changes nothing. */
  lemma ViewMarksChosenAndRelated(ns: seq<Notification>, notificationId: int, approvalId: Option<int>)
    ensures IndexOfId(ns, notificationId).None? ==> AfterView(ns, notificationId, approvalId) == ns
    ensures IndexOfId(ns, notificationId).Some? ==>
              var k := IndexOfId(ns, notificationId).value;
              var r := AfterView(ns, notificationId, approvalId);
              && |r| == |ns| && ns[k].id == notificationId
              && (forall i :: 0 <= i < |ns| ==> r[i] == ns[i].(read := r[i].read))
              && (forall i :: 0 <= i < |ns| ==>
                    (r[i].read <==>
                       (ns[i].read || i == k ||
                        (TruthyId(approvalId) && ns[i].approvalId == approvalId &&
                         ns[i].kind == ns[k].kind && ns[i].id != notificationId))))
  {
  }

  function AfterMarkAll(ns: seq<Notification>, user: Option<Session>): (r: seq<Notification>)
    ensures |r| == |ns|
  {
    seq(|ns|, i requires 0 <= i < |ns| => if Visible(ns[i], user) then ns[i].(read := true) else ns[i])
  }

  /** Mark-all reads exactly the current user's notices: the badge drops to zero. */
  lemma MarkAllClearsBadge(ns: seq<Notification>, user: Option<Session>)
    ensures UnreadCount(AfterMarkAll(ns, user), user) == 0
    ensures forall i :: 0 <= i < |ns| && !Visible(ns[i], user) ==> AfterMarkAll(ns, user)[i] == ns[i]
    ensures forall i :: 0 <= i < |ns| ==> AfterMarkAll(ns, user)[i] == ns[i].(read := AfterMarkAll(ns, user)[i].read)
  {
  }

  /** The list after `deleteNotification` is confirmed. */
  function WithoutId(ns: seq<Notification>, id: int): (r: seq<Notification>)
    ensures forall n :: n in r ==> n.id != id
    ensures forall n :: n in ns && n.id != id ==> n in r
    ensures IsSubsequence(r, ns)
  {
    Filter(ns, (n: Notification) => n.id != id)
  }

  /** The list after `deleteAllNotifications` is confirmed: what the current user does not see. */
  function KeepOthers(ns: seq<Notification>, username: string): (r: seq<Notification>)
    ensures forall x :: multiset(r)[x] ==
                        if TruthyOpt(x.userId) && x.userId.value != username then multiset(ns)[x] else 0
    ensures IsSubsequence(r, ns)
  {
    var p := (n: Notification) => TruthyOpt(n.userId) && n.userId.value != username;
    FilterMultisetAll(ns, p);
    Filter(ns, p)
  }

  function AfterDeleteAll(ns: seq<Notification>, user: Option<Session>, confirmed: bool): seq<Notification>
  {
    if user.None? then ns
    else if forall i :: 0 <= i < |ns| ==> !Visible(ns[i], user) then ns
    else if confirmed then KeepOthers(ns, user.value.username)
    else ns
  }

  /** Delete-all removes exactly the notices the current user sees, keeps
      every other one (as often as it occurred) and their order. */
  lemma DeleteAllRemovesExactlyVisible(ns: seq<Notification>, user: Session, x: Notification)
    ensures var r := AfterDeleteAll(ns, Some(user), true);
            && (forall n :: n in r ==> !Visible(n, Some(user)))
            && multiset(r)[x] == (if Visible(x, Some(user)) then 0 else multiset(ns)[x])
            && IsSubsequence(r, ns)
  {
    var r := AfterDeleteAll(ns, Some(user), true);
    if forall i :: 0 <= i < |ns| ==> !Visible(ns[i], Some(user)) {
      SubsequenceReflexive(ns);
      if Visible(x, Some(user)) {
        assert x !in ns;
      }
    } else {
      forall n | n in r
        ensures !Visible(n, Some(user))
      {
        assert multiset(r)[n] > 0;
      }
    }
  }

  // ---- One tick of the periodic check ----

  predicate Eligible(user: Session, sites: seq<Site>, a: ApprovalInfo)
  {
    (a.status == Pending || a.status == Processing) && a.author != user.username &&
    CanUserApprove(Some(user), sites, a.siteId)
  }

  /** The requests one tick looks at: exactly the eligible ones, in order. */
  function PendingApprovals(user: Session, sites: seq<Site>, xs: seq<ApprovalInfo>): (r: seq<ApprovalInfo>)
    ensures |r| <= |xs|
    ensures forall i :: 0 <= i < |r| ==> Eligible(user, sites, r[i])
    ensures forall a :: a in r <==> a in xs && Eligible(user, sites, a)
    ensures IsSubsequence(r, xs)
    decreases |xs|
  {
    if xs == [] then []
    else
      var init := xs[..|xs| - 1];
      var last := xs[|xs| - 1];
      assert xs == init + [last];
      var rest := PendingApprovals(user, sites, init);
      SubsequenceSnoc(rest, init, last);
      if Eligible(user, sites, last) then rest + [last] else rest
  }

  function PollLoop(ns: seq<Notification>, user: Session, sites: seq<Site>, pending: seq<ApprovalInfo>, stamp: Stamp): seq<Notification>
    decreases |pending|
  {
    if pending == [] then ns
    else
      var before := PollLoop(ns, user, sites, pending[..|pending| - 1], stamp);
      var a := pending[|pending| - 1];
      if CanUserApprove(Some(user), sites, a.siteId) && !HasPendingFor(before, a.id)
      then AfterCreate(before, "pending", PendingTitle, PendingMessage(a.title), Some(a.id), Some(user.username), stamp)
      else before
  }

  /** The list after one tick of the check. */
  function AfterPollTick(ns: seq<Notification>, user: Option<Session>, xs: seq<ApprovalInfo>, sites: seq<Site>, stamp: Stamp): seq<Notification>
  {
    if user.None? then ns else PollLoop(ns, user.value, sites, PendingApprovals(user.value, sites, xs), stamp)
  }

  /** The request ids of a list of requests, in order. */
  function IdsOf(xs: seq<ApprovalInfo>): (r: seq<Option<int>>)
    ensures |r| == |xs|
    decreases |xs|
  {
    if xs == [] then [] else IdsOf(xs[..|xs| - 1]) + [Some(xs[|xs| - 1].id)]
  }

  /** Below the cap a tick only puts unread pending notices, addressed to the
      current user and about requests it looked at, in front of the old list. */
  lemma {:induction false} PollLoopAddsInFront(ns: seq<Notification>, user: Session, sites: seq<Site>,
                                               pending: seq<ApprovalInfo>, stamp: Stamp)
    requires |ns| + |pending| <= MaxKept
    ensures var r := PollLoop(ns, user, sites, pending, stamp);
            && |ns| <= |r| <= |ns| + |pending| && r[|r| - |ns|..] == ns
            && (forall i :: 0 <= i < |r| - |ns| ==>
                  r[i].kind == "pending" && r[i].userId == Some(user.username) && !r[i].read &&
                  r[i].approvalId in IdsOf(pending))
    decreases |pending|
  {
    if pending != [] {
      var pre := pending[..|pending| - 1];
      var a := pending[|pending| - 1];
      PollLoopAddsInFront(ns, user, sites, pre, stamp);
      var before := PollLoop(ns, user, sites, pre, stamp);
      var r := PollLoop(ns, user, sites, pending, stamp);
      assert IdsOf(pending) == IdsOf(pre) + [Some(a.id)];
      if CanUserApprove(Some(user), sites, a.siteId) && !HasPendingFor(before, a.id) {
        CreateKeepsTail(before, "pending", PendingTitle, PendingMessage(a.title), Some(a.id), Some(user.username), stamp);
        var d := |r| - |before|;
        assert r[d..] == before;
        forall i | 0 <= i < |r| - |ns|
          ensures r[i].kind == "pending" && r[i].userId == Some(user.username) && !r[i].read &&
                  r[i].approvalId in IdsOf(pending)
        {
          if i < d {
            assert r[0] == PendingNotice(a, user.username, stamp);
          } else {
            assert r[i] == before[i - d];
          }
        }
        assert r[|r| - |ns|..] == before[|before| - |ns|..];
      }
    }
  }

  /** After a tick every eligible request has a pending notice (below the cap). */
  lemma {:induction false} PollLoopCovers(ns: seq<Notification>, user: Session, sites: seq<Site>,
                                          pending: seq<ApprovalInfo>, stamp: Stamp)
    requires |ns| + |pending| <= MaxKept
    requires forall i :: 0 <= i < |pending| ==> Eligible(user, sites, pending[i])
    ensures forall j :: 0 <= j < |pending| ==> HasPendingFor(PollLoop(ns, user, sites, pending, stamp), pending[j].id)
    decreases |pending|
  {
    if pending != [] {
      var pre := pending[..|pending| - 1];
      var a := pending[|pending| - 1];
      assert forall j :: 0 <= j < |pre| ==> pre[j] == pending[j];
      PollLoopCovers(ns, user, sites, pre, stamp);
      PollLoopAddsInFront(ns, user, sites, pre, stamp);
      var before := PollLoop(ns, user, sites, pre, stamp);
      var r := PollLoop(ns, user, sites, pending, stamp);
      if !HasPendingFor(before, a.id) {
        assert CanUserApprove(Some(user), sites, a.siteId);
        CreatePendingLeavesPending(before, PendingTitle, PendingMessage(a.title), a.id, Some(user.username), stamp);
        CreateKeepsTail(before, "pending", PendingTitle, PendingMessage(a.title), Some(a.id), Some(user.username), stamp);
        forall j | 0 <= j < |pre|
          ensures HasPendingFor(r, pending[j].id)
        {
          HasPendingForTail(r, before, pending[j].id);
        }
      }
    }
  }

  /** After a real tick below the cap, every request the signed-in user may
      act on, that is open and that they did not write, has a pending notice;
      with nobody signed in the tick does nothing. */
  lemma PollTickCovers(ns: seq<Notification>, user: Option<Session>, xs: seq<ApprovalInfo>, sites: seq<Site>,
                       stamp: Stamp)
    requires |ns| + |xs| <= MaxKept
    ensures user.None? ==> AfterPollTick(ns, user, xs, sites, stamp) == ns
    ensures user.Some? ==>
              forall a :: a in xs && Eligible(user.value, sites, a) ==>
                HasPendingFor(AfterPollTick(ns, user, xs, sites, stamp), a.id)
  {
    if user.Some? {
      var pending := PendingApprovals(user.value, sites, xs);
      PollLoopCovers(ns, user.value, sites, pending, stamp);
      forall a | a in xs && Eligible(user.value, sites, a)
        ensures HasPendingFor(AfterPollTick(ns, user, xs, sites, stamp), a.id)
      {
        assert a in pending;
        var j :| 0 <= j < |pending| && pending[j] == a;
      }
    }
  }

  lemma {:induction false} PollLoopQuietWhenCovered(ns: seq<Notification>, user: Session, sites: seq<Site>,
                                                    pending: seq<ApprovalInfo>, stamp: Stamp)
    requires forall j :: 0 <= j < |pending| ==> HasPendingFor(ns, pending[j].id)
    ensures PollLoop(ns, user, sites, pending, stamp) == ns
    decreases |pending|
  {
    if pending != [] {
      var pre := pending[..|pending| - 1];
      assert forall j :: 0 <= j < |pre| ==> pre[j] == pending[j];
      PollLoopQuietWhenCovered(ns, user, sites, pre, stamp);
    }
  }

  /** A second tick adds nothing (below the cap, which could otherwise evict
      the notices the first tick relied on). */
  lemma PollTickIdempotent(ns: seq<Notification>, user: Option<Session>, xs: seq<ApprovalInfo>, sites: seq<Site>,
                           first: Stamp, again: Stamp)
    requires |ns| + |xs| <= MaxKept
    ensures var once := AfterPollTick(ns, user, xs, sites, first);
            AfterPollTick(once, user, xs, sites, again) == once
  {
    if user.Some? {
      var pending := PendingApprovals(user.value, sites, xs);
      PollLoopCovers(ns, user.value, sites, pending, first);
      var once := PollLoop(ns, user.value, sites, pending, first);
      PollLoopQuietWhenCovered(once, user.value, sites, pending, again);
    }
  }

  // ---- The mutable list ----

  class NotificationCenter {
    var notifications: seq<Notification>

    constructor ()
      ensures notifications == []
    {
      notifications := [];
    }

    /** `createNotification(type, title, message, approvalId, userId)`. */
    method Create(kind: string, title: string, message: string, approvalId: Option<int>,
                  userId: Option<string>, stamp: Stamp) returns (created: Option<Notification>)
      modifies this
      ensures notifications == AfterCreate(old(notifications), kind, title, message, approvalId, userId, stamp)
      ensures created == if DuplicatePending(old(notifications), kind, approvalId, userId) then None
                         else Some(NewNotification(kind, title, message, approvalId, userId, stamp))
    {
      if kind == "pending" && TruthyId(approvalId) {
        var existing := FindIndex(notifications, (n: Notification) => BlocksPending(n, approvalId, userId));
        if existing.Some? {
          return None;
        }
      }
      var notification := NewNotification(kind, title, message, approvalId, userId, stamp);
      notifications := [notification] + notifications;
      if |notifications| > MaxKept {
        notifications := notifications[..MaxKept];
      }
      return Some(notification);
    }

    /** `notifyPendingApproval(approval)`. */
    method NotifyPendingApproval(a: ApprovalInfo, users: seq<User>, sites: seq<Site>, stamp: Stamp)
      modifies this
      ensures notifications == AfterNotifyPending(old(notifications), a, users, sites, stamp)
    {
      var existing := FindIndex(notifications, (n: Notification) => IsPendingFor(n, a.id));
      if existing.Some? {
        return;
      }
      var ceoUsers := Filter(users, IsTopTierUser);
      NotifyHeadOffice(a, ceoUsers, stamp);
      NotifySiteManager(a, users, sites, stamp);
    }

    /** The head-office loop of `notifyPendingApproval`. */
    method NotifyHeadOffice(a: ApprovalInfo, ceoUsers: seq<User>, stamp: Stamp)
      modifies this
      ensures notifications == CeoFanOut(old(notifications), a, ceoUsers, stamp)
    {
      var i := 0;
      while i < |ceoUsers|
        invariant 0 <= i <= |ceoUsers|
        invariant notifications == CeoFanOut(old(notifications), a, ceoUsers[..i], stamp)
      {
        var ceo := ceoUsers[i];
        assert ceoUsers[..i + 1][..i] == ceoUsers[..i];
        if ceo.username != a.author {
          var _ := Create("pending", PendingTitle, PendingMessage(a.title), Some(a.id), Some(ceo.username), stamp);
        }
        i := i + 1;
      }
      assert ceoUsers[..i] == ceoUsers;
    }

    /** The second half of `notifyPendingApproval`: the manager of the request's site. */
    method NotifySiteManager(a: ApprovalInfo, users: seq<User>, sites: seq<Site>, stamp: Stamp)
      modifies this
      ensures notifications == ManagerNotice(old(notifications), a, users, sites, stamp)
    {
      var site := NoticeSite(sites, a);
      if site.Some? && Truthy(site.value.manager) {
        var managerUser := UserNamed(users, site.value.manager);
        if managerUser.Some? && IsSiteTier(managerUser.value.role) && managerUser.value.username != a.author {
          var _ := Create("pending", PendingTitle, PendingMessage(a.title), Some(a.id), Some(managerUser.value.username), stamp);
        }
      }
    }

    /** `notifyApprovalApproved(approval)`. */
    method NotifyApprovalApproved(a: ApprovalInfo, stamp: Stamp)
      modifies this
      ensures notifications == AfterNotifyApproved(old(notifications), a, stamp)
    {
      var existing := FindIndex(notifications, (n: Notification) =>
        n.approvalId == Some(a.id) && n.kind == "approved" && n.userId == Some(a.author));
      if existing.Some? {
        return;
      }
      var _ := Create("approved", ApprovedTitle, ApprovedMessage(a.title), Some(a.id), Some(a.author), stamp);
    }

    /** `notifyApprovalRejected(approval)`. */
    method NotifyApprovalRejected(a: ApprovalInfo, stamp: Stamp)
      modifies this
      ensures notifications == AfterNotifyRejected(old(notifications), a, stamp)
    {
      var existing := FindIndex(notifications, (n: Notification) =>
        n.approvalId == Some(a.id) && n.kind == "rejected" && n.userId == Some(a.author));
      if existing.Some? {
        return;
      }
      var _ := Create("rejected", RejectedTitle, RejectedMessage(a.title), Some(a.id), Some(a.author), stamp);
    }

    /** The count shown on the badge by `updateNotificationBadge`. */
    method CountUnread(user: Option<Session>) returns (count: nat)
      ensures count == UnreadCount(notifications, user)
    {
      count := 0;
      var i := |notifications|;
      while i > 0
        invariant 0 <= i <= |notifications|
        invariant count == UnreadCount(notifications[i..], user)
      {
        i := i - 1;
        assert notifications[i..][1..] == notifications[i + 1..];
        if !notifications[i].read && Visible(notifications[i], user) {
          count := count + 1;
        }
      }
    }

    /** `viewNotification(notificationId, approvalId)`. */
    method ViewNotification(notificationId: int, approvalId: Option<int>)
      modifies this
      ensures notifications == AfterView(old(notifications), notificationId, approvalId)
    {
      var found := IndexOfId(notifications, notificationId);
      if found.None? {
        return;
      }
      var notification := notifications[found.value];
      notifications := notifications[found.value := notification.(read := true)];
      if TruthyId(approvalId) {
        ghost var marked := notifications;
        var i := 0;
        while i < |notifications|
          invariant 0 <= i <= |notifications| == |marked|
          invariant forall j :: 0 <= j < |marked| ==>
                      notifications[j] == if j < i then MarkRelated(marked, approvalId, notification.kind, notificationId)[j]
                                          else marked[j]
        {
          var n := notifications[i];
          if n.approvalId == approvalId && n.kind == notification.kind && !n.read && n.id != notificationId {
            notifications := notifications[i := n.(read := true)];
          }
          i := i + 1;
        }
      }
    }

    /** `markAllNotificationsAsRead()`. */
    method MarkAllAsRead(user: Option<Session>)
      modifies this
      ensures notifications == AfterMarkAll(old(notifications), user)
    {
      var i := 0;
      while i < |notifications|
        invariant 0 <= i <= |notifications| == |old(notifications)|
        invariant forall j :: 0 <= j < |notifications| ==>
                    notifications[j] == if j < i then AfterMarkAll(old(notifications), user)[j] else old(notifications)[j]
      {
        if Visible(notifications[i], user) {
          notifications := notifications[i := notifications[i].(read := true)];
        }
        i := i + 1;
      }
    }

    /** `deleteNotification(notificationId)`, with the answer to its confirmation. */
    method DeleteNotification(notificationId: int, confirmed: bool)
      modifies this
      ensures notifications == if confirmed then WithoutId(old(notifications), notificationId) else old(notifications)
    {
      if confirmed {
        notifications := WithoutId(notifications, notificationId);
      }
    }

    /** `deleteAllNotifications()`, with the answer to its confirmation. */
    method DeleteAll(user: Option<Session>, confirmed: bool)
      modifies this
      ensures notifications == AfterDeleteAll(old(notifications), user, confirmed)
    {
      if user.None? {
        return;
      }
      var count := 0;
      var i := 0;
      while i < |notifications|
        invariant 0 <= i <= |notifications|
        invariant count == 0 <==> forall j :: 0 <= j < i ==> !Visible(notifications[j], user)
      {
        if Visible(notifications[i], user) {
          count := count + 1;
        }
        i := i + 1;
      }
      if count == 0 {
        return;
      }
      if confirmed {
        notifications := KeepOthers(notifications, user.value.username);
      }
    }

    /** One tick of `startNotificationCheck`'s timer. */
    method PollTick(user: Option<Session>, approvals: seq<ApprovalInfo>, sites: seq<Site>, stamp: Stamp)
      modifies this
      ensures notifications == AfterPollTick(old(notifications), user, approvals, sites, stamp)
    {
      if user.None? {
        return;
      }
      var pendingApprovals := PendingApprovals(user.value, sites, approvals);
      var i := 0;
      while i < |pendingApprovals|
        invariant 0 <= i <= |pendingApprovals|
        invariant notifications == PollLoop(old(notifications), user.value, sites, pendingApprovals[..i], stamp)
      {
        var approval := pendingApprovals[i];
        assert pendingApprovals[..i + 1][..i] == pendingApprovals[..i];
        if CanUserApprove(user, sites, approval.siteId) {
          var existing := FindIndex(notifications, (n: Notification) => IsPendingFor(n, approval.id));
          if existing.None? {
            var _ := Create("pending", PendingTitle, PendingMessage(approval.title), Some(approval.id),
                            Some(user.value.username), stamp);
          }
        }
        i := i + 1;
      }
      assert pendingApprovals[..i] == pendingApprovals;
    }
  }
}
