/** The display rules of the leave admin (leaves/admin.py): text previews, the status colours
    and the utilisation colour bands. */
module LeaveAdmin {
  import opened LeaveModels

  /** `comment_preview` and `reason_preview`: text of at most 50 characters unchanged, else its
      first 50 characters followed by "...". */
  function Preview(text: string): (r: string)
    ensures |text| <= 50 ==> r == text
    ensures |text| > 50 ==> |r| == 53 && r[..50] == text[..50] && r[50..] == "..."
  {
    if |text| > 50 then text[..50] + "..." else text
  }

  /** A preview of a preview is the same preview. */
  lemma PreviewIdempotent(text: string)
    ensures Preview(Preview(text)) == Preview(text)
  {
    if |text| > 50 {
      var p := Preview(text);
      assert p[..50] == text[..50];
      assert Preview(p) == p[..50] + "...";
    }
  }

  /** The stored code of a status. */
  function StatusCode(s: Status): string {
    match s
    case Pending => "PENDING"
    case Approved => "APPROVED"
    case Rejected => "REJECTED"
    case Cancelled => "CANCELLED"
  }

  /** `status_display`'s colour for a stored status code; an unknown code is black. */
  function StatusColour(code: string): (c: string)
    ensures code !in ["PENDING", "APPROVED", "REJECTED", "CANCELLED"] ==> c == "black"
  {
    if code == "PENDING" then "orange"
    else if code == "APPROVED" then "green"
    else if code == "REJECTED" then "red"
    else if code == "CANCELLED" then "gray"
    else "black"
  }

  /** Every status has a colour of its own, and none of them is the fallback black. */
  lemma StatusColoursDistinct(a: Status, b: Status)
    ensures StatusColour(StatusCode(a)) != "black"
    ensures a != b ==> StatusColour(StatusCode(a)) != StatusColour(StatusCode(b))
  {
  }

  datatype Band = Green | Orange | Red

  /** The colour of a utilisation percentage `p.num / p.den` (with `p.den > 0`): under 70 green,
      under 90 orange, otherwise red. */
  function UtilisationBand(p: Percent): (b: Band)
    requires p.den > 0
    ensures b == Green <==> p.num < 70 * p.den
    ensures b == Red <==> p.num >= 90 * p.den
  {
    if p.num < 70 * p.den then Green else if p.num < 90 * p.den then Orange else Red
  }

  /** `LeaveBalance.utilization_percentage`: used over allocated days, in percent, or 0 when
      nothing is allocated. */
  function BalanceUtilisation(b: LeaveBalance): (p: Percent)
    ensures p.den > 0
    ensures b.allocatedDays <= 0 ==> p.num == 0
    ensures b.allocatedDays > 0 ==> p.num * b.allocatedDays == 100 * b.usedDays * p.den
  {
    if b.allocatedDays > 0 then Percent(100 * b.usedDays, b.allocatedDays) else Percent(0, 1)
  }

  /** The bands rise with utilisation. */
  lemma BandsMonotone(p: Percent, q: Percent)
    requires p.den > 0 && q.den > 0
    requires p.num * q.den <= q.num * p.den
    ensures UtilisationBand(p) == Red ==> UtilisationBand(q) == Red
    ensures UtilisationBand(q) == Green ==> UtilisationBand(p) == Green
  {
    if UtilisationBand(p) == Red {
      assert p.num * q.den >= 90 * p.den * q.den;
      assert q.num * p.den >= 90 * q.den * p.den;
    }
    if UtilisationBand(q) == Green {
      assert q.num * p.den < 70 * q.den * p.den;
      assert p.num * q.den < 70 * p.den * q.den;
    }
  }

  /** An entitlement with nothing available, and a balance with nothing allocated, show green. */
  lemma EmptyShowsGreen(e: Entitlement, rs: seq<LeaveRequest>, b: LeaveBalance)
    requires TotalAvailableDays(e) <= 0 && b.allocatedDays <= 0
    ensures UtilisationBand(UtilizationRate(e, rs)) == Green
    ensures UtilisationBand(BalanceUtilisation(b)) == Green
  {
  }

  /** A balance fully used (or more) shows red. */
  lemma FullBalanceShowsRed(b: LeaveBalance)
    requires b.allocatedDays > 0 && b.usedDays >= b.allocatedDays
    ensures UtilisationBand(BalanceUtilisation(b)) == Red
  {
    assert 100 * b.usedDays >= 90 * b.allocatedDays;
  }
}
