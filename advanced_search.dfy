/** The advanced search over the request list: a chain of filters, one per
    criterion the user filled in, followed by the site-tier restriction to
    one's own requests. The outcome is kept as module-level state: whether
    a search is active and its results. */
module AdvancedSearch {
  import opened Common
  import opened Text
  import opened Domain
  import opened Roles

  /** One filter of the chain. The date-range test is given as a predicate
      on the creation time, since it works in the local time zone. */
  datatype Criterion =
    | Keyword(keyword: string)
    | AuthorLike(author: string)
    | AtSite(siteId: int)
    | WithStatus(status: string)
    | CreatedWithin(inRange: string -> bool)
    | OwnedBy(username: string)

  predicate Meets(a: ApprovalRequest, c: Criterion)
    reads a
  {
    match c
    case Keyword(k) => Contains(ToLower(a.title), k) || (Truthy(a.content) && Contains(ToLower(a.content), k))
    case AuthorLike(s) => Contains(ToLower(a.author), s)
    case AtSite(id) => a.siteId == id
    case WithStatus(s) => StatusName(a.status) == s
    case CreatedWithin(inRange) => inRange(a.createdAt)
    case OwnedBy(u) => a.author == u
  }

  /** `filtered.filter(...)` for one criterion. */
  function KeepMeeting(xs: seq<ApprovalRequest>, c: Criterion): (r: seq<ApprovalRequest>)
    reads xs
    ensures forall k :: 0 <= k < |r| ==> r[k] in xs
  {
    if xs == [] then []
    else
      var rest := KeepMeeting(xs[1..], c);
      if Meets(xs[0], c) then [xs[0]] + rest else rest
  }

  /** The filter keeps exactly the requests meeting the criterion, in order. */
  lemma {:induction false} KeepMeetingExactly(xs: seq<ApprovalRequest>, c: Criterion)
    ensures forall x :: x in KeepMeeting(xs, c) <==> x in xs && Meets(x, c)
    ensures IsSubsequence(KeepMeeting(xs, c), xs)
    decreases |xs|
  {
    if xs == [] {
    } else {
      KeepMeetingExactly(xs[1..], c);
      assert xs == [xs[0]] + xs[1..];
    }
  }

  /** One step of the chain: the filter applies only when its field was filled in. */
  function Stage(xs: seq<ApprovalRequest>, applies: bool, c: Criterion): (r: seq<ApprovalRequest>)
    reads xs
    ensures forall k :: 0 <= k < |r| ==> r[k] in xs
  {
    if applies then KeepMeeting(xs, c) else xs
  }

  /** The stages applied one after another. */
  function Chain(xs: seq<ApprovalRequest>, stages: seq<(bool, Criterion)>): (r: seq<ApprovalRequest>)
    reads xs
    ensures forall k :: 0 <= k < |r| ==> r[k] in xs
    decreases |stages|
  {
    if stages == [] then xs else Chain(Stage(xs, stages[0].0, stages[0].1), stages[1..])
  }

  /** `a` meets the criterion of every stage that applies. */
  predicate PassesStages(a: ApprovalRequest, stages: seq<(bool, Criterion)>)
    reads a
  {
    forall k :: 0 <= k < |stages| && stages[k].0 ==> Meets(a, stages[k].1)
  }

  /** The chain keeps exactly the requests meeting every applicable
      criterion, in their order. */
  lemma {:induction false} ChainExactly(xs: seq<ApprovalRequest>, stages: seq<(bool, Criterion)>)
    ensures forall x :: x in Chain(xs, stages) <==> x in xs && PassesStages(x, stages)
    ensures IsSubsequence(Chain(xs, stages), xs)
    decreases |stages|
  {
    if stages == [] {
      SubsequenceReflexive(xs);
    } else {
      var s1 := Stage(xs, stages[0].0, stages[0].1);
      if stages[0].0 {
        KeepMeetingExactly(xs, stages[0].1);
      } else {
        SubsequenceReflexive(xs);
      }
      ChainExactly(s1, stages[1..]);
      SubsequenceTransitive(Chain(s1, stages[1..]), s1, xs);
      forall x
        ensures PassesStages(x, stages) <==> (!stages[0].0 || Meets(x, stages[0].1)) && PassesStages(x, stages[1..])
      {
        if PassesStages(x, stages[1..]) {
          forall k | 0 < k < |stages| && stages[k].0
            ensures Meets(x, stages[k].1)
          {
            assert stages[1..][k - 1] == stages[k];
          }
        }
      }
    }
  }

  /** The search form's fields, the two texts already trimmed and lower-cased. */
  datatype Query = Query(keyword: string, author: string, siteId: Option<int>, status: string,
                         startDate: string, endDate: string, inRange: string -> bool)

  /** `trim().toLowerCase()` of the two text fields. */
  function NormalizedQuery(keywordInput: string, authorInput: string, siteId: Option<int>, status: string,
                           startDate: string, endDate: string, inRange: string -> bool): Query
  {
    Query(ToLower(Trim(keywordInput)), ToLower(Trim(authorInput)), siteId, status, startDate, endDate, inRange)
  }

  /** Every field of the form is empty, which the search refuses. */
  predicate NoCriteria(q: Query)
  {
    q.keyword == "" && q.author == "" && q.siteId.None? && q.status == "" && q.startDate == "" && q.endDate == ""
  }

  predicate SiteTierUser(user: Option<Session>)
  {
    user.Some? && IsSiteTier(user.value.role)
  }

  /** The stages of the chain in their order: whether each applies, and its criterion. */
  function Stages(q: Query, user: Option<Session>): seq<(bool, Criterion)>
  {
    [(q.keyword != "", Keyword(q.keyword)),
     (q.author != "", AuthorLike(q.author)),
     (q.siteId.Some?, AtSite(if q.siteId.Some? then q.siteId.value else 0)),
     (q.status != "", WithStatus(q.status)),
     (q.startDate != "" || q.endDate != "", CreatedWithin(q.inRange)),
     (SiteTierUser(user), OwnedBy(if user.Some? then user.value.username else ""))]
  }

  /** A request passes every criterion that was filled in, and a site
      manager's search also requires authorship. */
  predicate PassesAll(a: ApprovalRequest, q: Query, user: Option<Session>)
    reads a
  {
    && (q.keyword != "" ==> Meets(a, Keyword(q.keyword)))
    && (q.author != "" ==> Meets(a, AuthorLike(q.author)))
    && (q.siteId.Some? ==> Meets(a, AtSite(q.siteId.value)))
    && (q.status != "" ==> Meets(a, WithStatus(q.status)))
    && (q.startDate != "" || q.endDate != "" ==> Meets(a, CreatedWithin(q.inRange)))
    && (SiteTierUser(user) ==> Meets(a, OwnedBy(user.value.username)))
  }

  /** The filter chain of `performAdvancedSearch`, in its order. */
  function Searched(xs: seq<ApprovalRequest>, q: Query, user: Option<Session>): seq<ApprovalRequest>
    reads xs
  {
    Chain(xs, Stages(q, user))
  }

  /** The results are exactly the requests passing every criterion that
      was filled in (and, for a site manager, their own), in their stored
      order. */
  lemma SearchedExactly(xs: seq<ApprovalRequest>, q: Query, user: Option<Session>)
    ensures IsSubsequence(Searched(xs, q, user), xs)
    ensures forall x :: x in Searched(xs, q, user) <==> x in xs && PassesAll(x, q, user)
  {
    ChainExactly(xs, Stages(q, user));
    forall x
      ensures PassesStages(x, Stages(q, user)) <==> PassesAll(x, q, user)
    {
      PassesAllIsStages(x, q, user);
    }
  }

  /** `Searched` is the six filters of the chain applied in order. */
  lemma SearchedUnrolled(xs: seq<ApprovalRequest>, q: Query, user: Option<Session>)
    ensures Searched(xs, q, user) ==
            var s1 := Stage(xs, q.keyword != "", Keyword(q.keyword));
            var s2 := Stage(s1, q.author != "", AuthorLike(q.author));
            var s3 := Stage(s2, q.siteId.Some?, AtSite(if q.siteId.Some? then q.siteId.value else 0));
            var s4 := Stage(s3, q.status != "", WithStatus(q.status));
            var s5 := Stage(s4, q.startDate != "" || q.endDate != "", CreatedWithin(q.inRange));
            Stage(s5, SiteTierUser(user), OwnedBy(if user.Some? then user.value.username else ""))
  {
    var st := Stages(q, user);
    var s1 := Stage(xs, st[0].0, st[0].1);
    var s2 := Stage(s1, st[1].0, st[1].1);
    var s3 := Stage(s2, st[2].0, st[2].1);
    var s4 := Stage(s3, st[3].0, st[3].1);
    var s5 := Stage(s4, st[4].0, st[4].1);
    var s6 := Stage(s5, st[5].0, st[5].1);
    assert Chain(s6, st[6..]) == s6;
    assert Chain(s5, st[5..]) == s6 by { assert st[5..][1..] == st[6..]; }
    assert Chain(s4, st[4..]) == s6 by { assert st[4..][1..] == st[5..]; }
    assert Chain(s3, st[3..]) == s6 by { assert st[3..][1..] == st[4..]; }
    assert Chain(s2, st[2..]) == s6 by { assert st[2..][1..] == st[3..]; }
    assert Chain(s1, st[1..]) == s6 by { assert st[1..][1..] == st[2..]; }
    assert Chain(xs, st) == s6;
  }

  lemma PassesAllIsStages(a: ApprovalRequest, q: Query, user: Option<Session>)
    ensures PassesStages(a, Stages(q, user)) <==> PassesAll(a, q, user)
  {
    var stages := Stages(q, user);
    assert stages[0] == (q.keyword != "", Keyword(q.keyword));
    assert stages[1] == (q.author != "", AuthorLike(q.author));
    assert stages[2] == (q.siteId.Some?, AtSite(if q.siteId.Some? then q.siteId.value else 0));
    assert stages[3] == (q.status != "", WithStatus(q.status));
    assert stages[4] == (q.startDate != "" || q.endDate != "", CreatedWithin(q.inRange));
    assert stages[5] == (SiteTierUser(user), OwnedBy(if user.Some? then user.value.username else ""));
  }

  /** A text field holding only white space counts as not filled in, and
      any other text as filled in; so a form whose text fields are blank
      and whose other fields are empty is refused. */
  lemma BlankTextFieldsIgnored(keywordInput: string, authorInput: string, siteId: Option<int>, status: string,
                               startDate: string, endDate: string, inRange: string -> bool)
    ensures var q := NormalizedQuery(keywordInput, authorInput, siteId, status, startDate, endDate, inRange);
            && (q.keyword == "" <==> IsBlank(keywordInput))
            && (q.author == "" <==> IsBlank(authorInput))
            && (NoCriteria(q) <==> IsBlank(keywordInput) && IsBlank(authorInput) && siteId.None? &&
                                   status == "" && startDate == "" && endDate == "")
  {
    TrimEmptyIffBlank(keywordInput);
    TrimEmptyIffBlank(authorInput);
  }

  /** `advancedSearchActive` and `advancedSearchResults`. */
  class SearchState {
    var active: bool
    var results: seq<ApprovalRequest>

    constructor ()
      ensures !active && results == []
    {
      active, results := false, [];
    }

    /** `performAdvancedSearch`. */
    method PerformAdvancedSearch(approvals: seq<ApprovalRequest>, user: Option<Session>,
                                 keywordInput: string, authorInput: string, siteId: Option<int>, status: string,
                                 startDate: string, endDate: string, inRange: string -> bool)
      returns (outcome: Outcome)
      modifies this
      ensures var q := NormalizedQuery(keywordInput, authorInput, siteId, status, startDate, endDate, inRange);
              && (NoCriteria(q) ==> outcome == Refused && active == old(active) && results == old(results))
              && (!NoCriteria(q) ==> outcome == Done && active && results == old(Searched(approvals, q, user)))
    {
      var q := NormalizedQuery(keywordInput, authorInput, siteId, status, startDate, endDate, inRange);
      if NoCriteria(q) {
        return Refused;
      }
      var filtered := approvals;
      filtered := Stage(filtered, q.keyword != "", Keyword(q.keyword));
      filtered := Stage(filtered, q.author != "", AuthorLike(q.author));
      filtered := Stage(filtered, q.siteId.Some?, AtSite(if q.siteId.Some? then q.siteId.value else 0));
      filtered := Stage(filtered, q.status != "", WithStatus(q.status));
      filtered := Stage(filtered, q.startDate != "" || q.endDate != "", CreatedWithin(q.inRange));
      filtered := Stage(filtered, SiteTierUser(user), OwnedBy(if user.Some? then user.value.username else ""));
      SearchedUnrolled(approvals, q, user);
      results := filtered;
      active := true;
      return Done;
    }

    /** `clearAdvancedSearch`. */
    method ClearAdvancedSearch()
      modifies this
      ensures !active && results == []
    {
      active, results := false, [];
    }
  }
}
