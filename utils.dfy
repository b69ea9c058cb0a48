/** Display and numbering helpers: status and role labels, phone-number
    formatting, and the per-year `AP-<year>-NNN` request numbers. */
module Utils {
  import opened Common
  import opened Text
  import opened Domain
  import opened Roles

  /** `getStatusClass(status)`: the CSS class for a status string; unknown
      values fall back to the pending class. */
  function GetStatusClass(status: string): string
  {
    if status == "pending" then "pending"
    else if status == "processing" then "processing"
    else if status == "approved" then "approved"
    else if status == "rejected" then "rejected"
    else "pending"
  }

  /** `getStatusText(status)`: the Korean label for a status string. */
  function GetStatusText(status: string): string
  {
    if status == "pending" then "대기 중"
    else if status == "processing" then "진행 중"
    else if status == "approved" then "승인 완료"
    else if status == "rejected" then "반려"
    else "대기 중"
  }

  predicate IsKnownStatus(status: string)
  {
    exists s: Status :: StatusName(s) == status
  }

  /** Each of the four statuses gets its own class, equal to its name, and
      its own label; any other string reads as pending. */
  lemma StatusLookups(s: Status, t: Status, other: string)
    requires !IsKnownStatus(other)
    ensures GetStatusClass(StatusName(s)) == StatusName(s)
    ensures s != t ==> GetStatusText(StatusName(s)) != GetStatusText(StatusName(t))
    ensures GetStatusClass(other) == GetStatusClass(StatusName(Pending))
    ensures GetStatusText(other) == GetStatusText(StatusName(Pending))
  {
    assert StatusName(Pending) == "pending" && StatusName(Processing) == "processing";
    assert StatusName(Approved) == "approved" && StatusName(Rejected) == "rejected";
  }

  /** `getRoleText(role)`. */
  function GetRoleText(role: string): string
  {
    if role == "ceo" || role == "headquarters" then "본사"
    else if role == "manager" || role == "site" then "현장"
    else if role == "admin_dept" || role == "other" then "기타"
    else if Truthy(role) then role
    else "미지정"
  }

  /** The two role names of a tier share one label, the three tiers have
      different labels, and any other role is shown as itself, or as
      "unassigned" when empty. */
  lemma RoleTextByTier(a: string, b: string)
    ensures TierOf(a) == TierOf(b) && TierOf(a) != NoTier ==> GetRoleText(a) == GetRoleText(b)
    ensures TierOf(a) != NoTier && TierOf(b) != NoTier && TierOf(a) != TierOf(b) ==> GetRoleText(a) != GetRoleText(b)
    ensures TierOf(a) == NoTier ==> GetRoleText(a) == if a == "" then "미지정" else a
  {
  }

  /** `formatPhoneNumber(value)`: keep at most the first eleven digits and
      lay them out as `3`, `3-4` or `3-4-4` groups. */
  method FormatPhoneNumber(value: string) returns (formatted: string)
    ensures DigitsOnly(formatted) == FirstDigits(value, 11)
    ensures var n := |FirstDigits(value, 11)|;
            forall i :: 0 <= i < |formatted| ==>
              (formatted[i] == '-' <==> (3 < n && i == 3) || (7 < n && i == 8))
    ensures forall i :: 0 <= i < |formatted| ==> IsDigit(formatted[i]) || formatted[i] == '-'
  {
    var numbers := DigitsOnly(value);
    if |numbers| > 11 {
      numbers := numbers[..11];
    }
    formatted := "";
    if |numbers| <= 3 {
      formatted := numbers;
      DigitsOnlyOfDigits(numbers);
    } else if |numbers| <= 7 {
      formatted := numbers[..3] + "-" + numbers[3..];
      TwoGroups(numbers);
    } else if |numbers| <= 11 {
      formatted := numbers[..3] + "-" + numbers[3..7] + "-" + numbers[7..];
      ThreeGroups(numbers);
    }
  }

  lemma TwoGroups(d: string)
    requires AllDigits(d) && 3 < |d|
    ensures var f := d[..3] + "-" + d[3..];
            DigitsOnly(f) == d && forall i :: 0 <= i < |f| ==> (f[i] == '-' <==> i == 3)
  {
    var f := d[..3] + "-" + d[3..];
    assert f == d[..3] + ("-" + d[3..]);
    DigitsOnlyConcat(d[..3], "-" + d[3..]);
    DigitsOnlyConcat("-", d[3..]);
    DigitsOnlyOfDigits(d[..3]);
    DigitsOnlyOfDigits(d[3..]);
    assert d[..3] + d[3..] == d;
    forall i | 0 <= i < |f|
      ensures f[i] == '-' <==> i == 3
    {
      if i < 3 {
        assert f[i] == d[i];
      } else if i > 3 {
        assert f[i] == d[i - 1];
      }
    }
  }

  lemma ThreeGroups(d: string)
    requires AllDigits(d) && 7 < |d|
    ensures var f := d[..3] + "-" + d[3..7] + "-" + d[7..];
            DigitsOnly(f) == d && forall i :: 0 <= i < |f| ==> (f[i] == '-' <==> i == 3 || i == 8)
  {
    ThreeGroupsDigits(d);
    var f := d[..3] + "-" + d[3..7] + "-" + d[7..];
    forall i | 0 <= i < |f|
      ensures f[i] == '-' <==> i == 3 || i == 8
    {
      if i < 3 {
        assert f[i] == d[i];
      } else if 3 < i < 8 {
        assert f[i] == d[i - 1];
      } else if i > 8 {
        assert f[i] == d[i - 2];
      }
    }
  }

  lemma ThreeGroupsDigits(d: string)
    requires AllDigits(d) && 7 < |d|
    ensures DigitsOnly(d[..3] + "-" + d[3..7] + "-" + d[7..]) == d
  {
    DropHyphen(d[..3], d[3..7]);
    DropHyphen(d[..3] + "-" + d[3..7], d[7..]);
    DigitsOnlyOfDigits(d[..3]);
    DigitsOnlyOfDigits(d[3..7]);
    DigitsOnlyOfDigits(d[7..]);
    assert d[..3] + d[3..7] + d[7..] == d;
  }

  lemma DropHyphen(x: string, y: string)
    ensures DigitsOnly(x + "-" + y) == DigitsOnly(x) + DigitsOnly(y)
  {
    assert x + "-" + y == x + ("-" + y);
    DigitsOnlyConcat(x, "-" + y);
    DigitsOnlyConcat("-", y);
  }

  /** The digits of `value`, in order, cut to at most `n`. */
  function FirstDigits(value: string, n: nat): (r: string)
    ensures AllDigits(r) && |r| <= n
    ensures r <= DigitsOnly(value)
    ensures |r| < n ==> r == DigitsOnly(value)
  {
    var d := DigitsOnly(value);
    if |d| > n then d[..n] else d
  }

  // ---- Request numbers ----

  /** `AP-` then four digits then `-` then at least one digit, starting at `i`. */
  predicate MatchesAt(s: string, i: nat)
  {
    i + 9 <= |s| && s[i..i + 3] == "AP-" && AllDigits(s[i + 3..i + 7]) && s[i + 7] == '-' && IsDigit(s[i + 8])
  }

  function SearchFrom(s: string, i: nat): Option<nat>
    decreases |s| - i
  {
    if i + 9 > |s| then None
    else if MatchesAt(s, i) then Some(DecimalValue(LeadingDigits(s[i + 8..])))
    else SearchFrom(s, i + 1)
  }

  /** `parseInt(s.match(/AP-\d{4}-(\d+)/)[1])`, or `None` when nothing matches. */
  function MatchedNumber(s: string): Option<nat>
  {
    SearchFrom(s, 0)
  }

  lemma {:induction false} SearchFromFindsLeftmost(s: string, i: nat)
    ensures SearchFrom(s, i).Some? <==> exists j: nat :: i <= j && MatchesAt(s, j)
    ensures SearchFrom(s, i).Some? ==>
              exists j: nat :: i <= j && MatchesAt(s, j) && (forall k: nat :: i <= k < j ==> !MatchesAt(s, k)) &&
                SearchFrom(s, i).value == DecimalValue(LeadingDigits(s[j + 8..]))
    decreases |s| - i
  {
    if i + 9 > |s| {
    } else if MatchesAt(s, i) {
    } else {
      SearchFromFindsLeftmost(s, i + 1);
      if SearchFrom(s, i + 1).Some? {
        var j: nat :| i + 1 <= j && MatchesAt(s, j) && (forall k: nat :: i + 1 <= k < j ==> !MatchesAt(s, k)) &&
                      SearchFrom(s, i + 1).value == DecimalValue(LeadingDigits(s[j + 8..]));
        assert forall k: nat :: i <= k < j ==> !MatchesAt(s, k);
      }
    }
  }

  /** The number is read from the leftmost match of the pattern, taking every
      digit that follows it; there is a number exactly when the pattern occurs. */
  lemma MatchedNumberIsLeftmostMatch(s: string)
    ensures MatchedNumber(s).Some? <==> exists j: nat :: MatchesAt(s, j)
    ensures MatchedNumber(s).Some? ==>
              exists j: nat :: MatchesAt(s, j) && (forall k: nat :: k < j ==> !MatchesAt(s, k)) &&
                MatchedNumber(s).value == DecimalValue(LeadingDigits(s[j + 8..]))
  {
    SearchFromFindsLeftmost(s, 0);
  }

  /** The requests created in `year`, in order. */
  function YearApprovals(approvals: seq<ApprovalRequest>, year: int): (r: seq<ApprovalRequest>)
    ensures forall k :: 0 <= k < |r| ==> r[k] in approvals && r[k].createdYear == year
    ensures forall k :: 0 <= k < |approvals| && approvals[k].createdYear == year ==> approvals[k] in r
  {
    if approvals == [] then []
    else
      var last := approvals[|approvals| - 1];
      var rest := approvals[..|approvals| - 1];
      assert approvals == rest + [last];
      YearApprovals(rest, year) + (if last.createdYear == year then [last] else [])
  }

  /** The year's requests keep their order in the full list. */
  lemma {:induction false} YearApprovalsInOrder(approvals: seq<ApprovalRequest>, year: int)
    ensures IsSubsequence(YearApprovals(approvals, year), approvals)
    decreases |approvals|
  {
    if approvals != [] {
      var last := approvals[|approvals| - 1];
      var rest := approvals[..|approvals| - 1];
      assert approvals == rest + [last];
      YearApprovalsInOrder(rest, year);
      SubsequenceSnoc(YearApprovals(rest, year), rest, last);
      if last.createdYear != year {
        assert YearApprovals(approvals, year) == YearApprovals(rest, year);
      }
    }
  }

  /** The number a request contributes to the maximum scan (0 when it has none). */
  function NumberOf(a: ApprovalRequest): nat
  {
    if !Truthy(a.approvalNumber) then 0
    else match MatchedNumber(a.approvalNumber)
      case Some(n) => n
      case None => 0
  }

  /** The largest number matched among `xs`, or 0. */
  function MaxMatched(xs: seq<ApprovalRequest>): (r: nat)
    ensures forall k :: 0 <= k < |xs| ==> NumberOf(xs[k]) <= r
    ensures r == 0 || exists k :: 0 <= k < |xs| && NumberOf(xs[k]) == r
  {
    if xs == [] then 0
    else
      var last := xs[|xs| - 1];
      var m := MaxMatched(xs[..|xs| - 1]);
      assert forall k :: 0 <= k < |xs| - 1 ==> xs[k] == xs[..|xs| - 1][k];
      if NumberOf(last) > m then NumberOf(last)
      else
        assert m != 0 ==> exists k :: 0 <= k < |xs| - 1 && NumberOf(xs[k]) == m;
        m
  }

  /** One step of the maximum scan. */
  lemma MaxMatchedStep(xs: seq<ApprovalRequest>, i: nat)
    requires i < |xs|
    ensures MaxMatched(xs[..i + 1]) ==
              if NumberOf(xs[i]) > MaxMatched(xs[..i]) then NumberOf(xs[i]) else MaxMatched(xs[..i])
  {
    assert xs[..i + 1][..i] == xs[..i];
  }

  function ApprovalNumberFor(year: int, n: nat): string
  {
    "AP-" + IntToString(year) + "-" + PadZeros(NatToString(n), 3)
  }

  /** The number the next request of `year` gets: one more than the largest
      number already given out that year. */
  function NextApprovalNumber(approvals: seq<ApprovalRequest>, year: int): string
  {
    ApprovalNumberFor(year, MaxMatched(YearApprovals(approvals, year)) + 1)
  }

  /** `generateApprovalNumber()`. */
  method GenerateApprovalNumber(approvals: seq<ApprovalRequest>, currentYear: int) returns (number: string)
    ensures number == NextApprovalNumber(approvals, currentYear)
  {
    var yearApprovals := YearApprovals(approvals, currentYear);
    var maxNumber: nat := 0;
    var i := 0;
    while i < |yearApprovals|
      invariant 0 <= i <= |yearApprovals|
      invariant maxNumber == MaxMatched(yearApprovals[..i])
    {
      var a := yearApprovals[i];
      MaxMatchedStep(yearApprovals, i);
      ghost var before := maxNumber;
      if Truthy(a.approvalNumber) {
        var m := MatchedNumber(a.approvalNumber);
        if m.Some? {
          var num := m.value;
          if num > maxNumber {
            maxNumber := num;
          }
        }
      }
      assert maxNumber == if NumberOf(a) > before then NumberOf(a) else before;
      i := i + 1;
    }
    assert yearApprovals[..i] == yearApprovals;
    var nextNumber := maxNumber + 1;
    number := ApprovalNumberFor(currentYear, nextNumber);
  }

  /** The new number is larger than every number already matched that year,
      so sequential numbering never reuses one. */
  lemma NextNumberExceedsEveryNumberOfTheYear(approvals: seq<ApprovalRequest>, year: int, a: ApprovalRequest)
    requires a in approvals && a.createdYear == year
    ensures NumberOf(a) < MaxMatched(YearApprovals(approvals, year)) + 1
  {
  }

  lemma {:induction false} FourDigitYear(y: int)
    requires 1000 <= y <= 9999
    ensures |NatToString(y)| == 4
  {
    assert Pow10(3) == 1000 by {
      assert Pow10(0) == 1 && Pow10(1) == 10 && Pow10(2) == 100;
    }
    NatToStringLength(y, 3);
  }

  /** A generated number is read back, by the same pattern, as the value it
      was made from, whatever its width: padding never truncates. */
  lemma {:induction false} ApprovalNumberRoundTrip(year: int, n: nat)
    requires 1000 <= year <= 9999
    ensures MatchedNumber(ApprovalNumberFor(year, n)) == Some(n)
  {
    var ys := NatToString(year);
    var p := PadZeros(NatToString(n), 3);
    var s := ApprovalNumberFor(year, n);
    FourDigitYear(year);
    assert s == "AP-" + ys + "-" + p;
    var zeros := p[..|p| - |NatToString(n)|];
    assert p == zeros + NatToString(n);
    assert AllDigits(p);
    assert s[0..3] == "AP-" && s[3..7] == ys && s[7] == '-' && s[8..] == p;
    assert MatchesAt(s, 0);
    LeadingDigitsOfDigits(p, []);
    assert p + [] == p;
    LeadingZerosIgnored(zeros, NatToString(n));
    NatToStringRoundTrip(n);
  }

  /** The first request of a year is numbered `AP-<year>-001`. */
  lemma FirstOfTheYear(approvals: seq<ApprovalRequest>, year: int)
    requires forall k :: 0 <= k < |approvals| ==> approvals[k].createdYear != year
    ensures ApprovalNumberFor(year, MaxMatched(YearApprovals(approvals, year)) + 1) == "AP-" + IntToString(year) + "-001"
  {
    assert YearApprovals(approvals, year) == [];
    assert NatToString(1) == "1";
  }

  /** Recording a freshly generated number advances the year's maximum by exactly one. */
  lemma {:induction false} NumberingAdvancesByOne(approvals: seq<ApprovalRequest>, r: ApprovalRequest, year: int)
    requires 1000 <= year <= 9999 && r.createdYear == year
    requires r.approvalNumber == ApprovalNumberFor(year, MaxMatched(YearApprovals(approvals, year)) + 1)
    ensures MaxMatched(YearApprovals(approvals + [r], year)) == MaxMatched(YearApprovals(approvals, year)) + 1
  {
    var all := approvals + [r];
    assert all[..|all| - 1] == approvals;
    assert YearApprovals(all, year) == YearApprovals(approvals, year) + [r];
    var ys := YearApprovals(all, year);
    assert ys[..|ys| - 1] == YearApprovals(approvals, year);
    ApprovalNumberRoundTrip(year, MaxMatched(YearApprovals(approvals, year)) + 1);
  }
}
