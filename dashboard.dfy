/** The dashboard figures: project counts by status, the estimated hours summed over the
    projects with an effort size, and the revenue and sales derived from them. */
module Dashboard {
  import opened Results
  import opened Text
  import opened ProjectModels

  /** What the dashboard reads of a project. */
  datatype ProjectSummary = ProjectSummary(status: string, effortSize: Option<string>)

  const HourlyRate := 100

  /** `project.estimated_hours or 0`. */
  function Hours(p: ProjectSummary): (r: nat)
    ensures r > 0 <==> p.effortSize.Some? && p.effortSize.value in EffortSizes
  {
    var h := EstimatedHours(p.effortSize);
    if h.Some? then h.value else 0
  }

  /** The projects whose effort size is not null, in order. */
  function WithEffort(ps: seq<ProjectSummary>): (r: seq<ProjectSummary>)
    ensures |r| <= |ps|
    ensures forall i :: 0 <= i < |r| ==> r[i].effortSize.Some? && r[i] in ps
  {
    if ps == [] then []
    else
      var rest := WithEffort(ps[..|ps| - 1]);
      if ps[|ps| - 1].effortSize.Some? then rest + [ps[|ps| - 1]] else rest
  }

  /** The hours of all projects in `ps`. */
  function TotalHours(ps: seq<ProjectSummary>): nat {
    if ps == [] then 0 else TotalHours(ps[..|ps| - 1]) + Hours(ps[|ps| - 1])
  }

  /** The hours of the complete projects in `ps`. */
  function CompletedHours(ps: seq<ProjectSummary>): nat {
    if ps == [] then 0
    else CompletedHours(ps[..|ps| - 1]) + (if ps[|ps| - 1].status == "COMPLETE" then Hours(ps[|ps| - 1]) else 0)
  }

  /** The completed hours never exceed the total. */
  lemma {:induction false} CompletedWithinTotal(ps: seq<ProjectSummary>)
    ensures CompletedHours(ps) <= TotalHours(ps)
  {
    if ps != [] {
      CompletedWithinTotal(ps[..|ps| - 1]);
    }
  }

  /** Leaving out the projects without an effort size changes neither sum: they count 0 hours. */
  lemma {:induction false} EffortFilterImmaterial(ps: seq<ProjectSummary>)
    ensures TotalHours(WithEffort(ps)) == TotalHours(ps)
    ensures CompletedHours(WithEffort(ps)) == CompletedHours(ps)
  {
    if ps != [] {
      var init := ps[..|ps| - 1];
      var last := ps[|ps| - 1];
      EffortFilterImmaterial(init);
      var rest := WithEffort(init);
      assert TotalHours(ps) == TotalHours(init) + Hours(last);
      if last.effortSize.Some? {
        var r := rest + [last];
        assert WithEffort(ps) == r;
        assert r[..|r| - 1] == rest && r[|r| - 1] == last;
        assert TotalHours(r) == TotalHours(rest) + Hours(last);
      } else {
        assert WithEffort(ps) == rest;
        assert Hours(last) == 0;
      }
    }
  }

  /** Each project adds 0, 40, 80 or 160 hours, so the total is at most 160 per project. */
  lemma {:induction false} TotalHoursBound(ps: seq<ProjectSummary>)
    ensures TotalHours(ps) <= 160 * |ps|
  {
    if ps != [] {
      TotalHoursBound(ps[..|ps| - 1]);
    }
  }

  /** The estimated-hours loop over the projects with an effort size. */
  method EstimatedHoursTotals(projects: seq<ProjectSummary>) returns (total: nat, completed: nat)
    ensures total == TotalHours(WithEffort(projects)) == TotalHours(projects)
    ensures completed == CompletedHours(WithEffort(projects)) == CompletedHours(projects)
    ensures completed <= total
  {
    var withEffort := WithEffort(projects);
    total, completed := 0, 0;
    var i := 0;
    while i < |withEffort|
      invariant 0 <= i <= |withEffort|
      invariant total == TotalHours(withEffort[..i])
      invariant completed == CompletedHours(withEffort[..i])
    {
      var p := withEffort[i];
      assert withEffort[..i + 1][..i] == withEffort[..i];
      var hours := Hours(p);
      total := total + hours;
      if p.status == "COMPLETE" {
        completed := completed + hours;
      }
      i := i + 1;
    }
    assert withEffort[..i] == withEffort;
    EffortFilterImmaterial(projects);
    CompletedWithinTotal(projects);
  }

  /** The number of projects with status `s`. */
  function StatusCount(ps: seq<ProjectSummary>, s: string): (r: nat)
    ensures r <= |ps|
  {
    if ps == [] then 0
    else StatusCount(ps[..|ps| - 1], s) + (if ps[|ps| - 1].status == s then 1 else 0)
  }

  /** Projects of distinct statuses are distinct projects: the four status counts shown on the
      dashboard add up to at most the number of projects. */
  lemma {:induction false} StatusCountsWithinTotal(ps: seq<ProjectSummary>)
    ensures StatusCount(ps, "NEW") + StatusCount(ps, "COMPLETE") + StatusCount(ps, "IN_PROGRESS")
            + StatusCount(ps, "ON_HOLD") <= |ps|
  {
    if ps != [] {
      StatusCountsWithinTotal(ps[..|ps| - 1]);
    }
  }

  /** Digits grouped by thousands with commas, as the `,` format option writes a whole number. */
  function Grouped(d: string): (r: string)
    ensures |r| >= |d|
  {
    if |d| <= 3 then d else Grouped(d[..|d| - 3]) + "," + d[|d| - 3..]
  }

  /** Grouping adds one comma for every full three digits after the first group. */
  lemma {:induction false} GroupedLength(d: string)
    requires d != []
    ensures |Grouped(d)| == |d| + (|d| - 1) / 3 && |Grouped(d)| % 4 != 0
  {
    if |d| > 3 {
      var hi := d[..|d| - 3];
      GroupedLength(hi);
      var g := |Grouped(hi)|;
      assert |Grouped(d)| == g + 4;
      assert (|d| - 1) / 3 == (|hi| - 1) / 3 + 1;
      assert (g + 4) % 4 == g % 4;
    }
  }

  /** Where the commas go: every fourth character counted from the right, so the first group
      holds one to three digits and every comma is followed by exactly three digits. */
  lemma {:induction false} GroupedCommas(d: string)
    requires forall i :: 0 <= i < |d| ==> d[i] != ','
    ensures forall i :: 0 <= i < |Grouped(d)| ==> (Grouped(d)[i] == ',' <==> (|Grouped(d)| - i) % 4 == 0)
  {
    var r := Grouped(d);
    if |d| > 3 {
      var hi := d[..|d| - 3];
      var lo := d[|d| - 3..];
      GroupedCommas(hi);
      var g := Grouped(hi);
      assert r == g + "," + lo;
      forall i | 0 <= i < |r| ensures r[i] == ',' <==> (|r| - i) % 4 == 0 {
        var back := |g| - i;
        assert |r| - i == back + 4;
        if i < |g| {
          assert r[i] == g[i];
        } else if i > |g| {
          assert r[i] == lo[i - |g| - 1];
        }
      }
    } else {
      forall i | 0 <= i < |r| ensures r[i] == ',' <==> (|r| - i) % 4 == 0 {
        assert r[i] == d[i];
      }
    }
  }

  /** The text with its commas taken out. */
  function Ungroup(s: string): string {
    if s == [] then [] else Ungroup(s[..|s| - 1]) + (if s[|s| - 1] == ',' then "" else [s[|s| - 1]])
  }

  lemma {:induction false} UngroupAppend(a: string, b: string)
    ensures Ungroup(a + b) == Ungroup(a) + Ungroup(b)
  {
    if b != [] {
      var b' := b[..|b| - 1];
      assert (a + b)[..|a + b| - 1] == a + b';
      UngroupAppend(a, b');
    } else {
      assert a + b == a;
    }
  }

  lemma {:induction false} UngroupNoCommas(d: string)
    requires forall i :: 0 <= i < |d| ==> d[i] != ','
    ensures Ungroup(d) == d
  {
    if d != [] {
      UngroupNoCommas(d[..|d| - 1]);
      assert d == d[..|d| - 1] + [d[|d| - 1]];
    }
  }

  /** Taking the commas out of the grouped digits gives the digits back. */
  lemma {:induction false} GroupedRoundTrip(d: string)
    requires forall i :: 0 <= i < |d| ==> d[i] != ','
    ensures Ungroup(Grouped(d)) == d
  {
    if |d| <= 3 {
      UngroupNoCommas(d);
    } else {
      var hi := d[..|d| - 3];
      var lo := d[|d| - 3..];
      GroupedRoundTrip(hi);
      UngroupAppend(Grouped(hi) + ",", lo);
      UngroupAppend(Grouped(hi), ",");
      UngroupNoCommas(lo);
      assert Ungroup(",") == "" by {
        assert ","[..0] == "";
      }
      assert hi + lo == d;
    }
  }

  /** The revenue as the dashboard shows it: grouped digits, or "0" when it is zero. */
  function RevenueDisplay(revenue: nat): string {
    if revenue != 0 then Grouped(ShowNat(revenue)) else "0"
  }

  /** The shown revenue always reads back as the revenue's digits; the zero case agrees with
      what the grouping format would have written for zero. */
  lemma RevenueDisplayReadsBack(revenue: nat)
    ensures Ungroup(RevenueDisplay(revenue)) == ShowNat(revenue)
    ensures RevenueDisplay(0) == Grouped(ShowNat(0))
  {
    var d := ShowNat(revenue);
    assert forall i :: 0 <= i < |d| ==> d[i] != ',' by {
      forall i | 0 <= i < |d| ensures d[i] != ',' {
        assert IsAsciiDigit(d[i]);
      }
    }
    GroupedRoundTrip(d);
  }

  /** The figures the dashboard puts in its context. */
  datatype Figures = Figures(
    totalProjects: nat,
    newProjects: nat,
    completedProjects: nat,
    ongoingProjects: nat,
    pendingProjects: nat,
    totalRevenue: string,
    totalSales: nat)

  /** The dashboard's figures over all projects. */
  method DashboardFigures(projects: seq<ProjectSummary>) returns (fig: Figures)
    ensures fig.totalProjects == |projects|
    ensures fig.newProjects == StatusCount(projects, "NEW")
    ensures fig.completedProjects == StatusCount(projects, "COMPLETE")
    ensures fig.ongoingProjects == StatusCount(projects, "IN_PROGRESS")
    ensures fig.pendingProjects == StatusCount(projects, "ON_HOLD")
    ensures fig.totalRevenue == RevenueDisplay(HourlyRate * TotalHours(projects))
    ensures fig.totalSales == HourlyRate * CompletedHours(projects)
    ensures fig.totalSales <= HourlyRate * TotalHours(projects)
  {
    var total, completed := EstimatedHoursTotals(projects);
    var revenue := total * HourlyRate;
    var sales := completed * HourlyRate;
    fig := Figures(|projects|, StatusCount(projects, "NEW"), StatusCount(projects, "COMPLETE"),
                   StatusCount(projects, "IN_PROGRESS"), StatusCount(projects, "ON_HOLD"),
                   RevenueDisplay(revenue), sales);
  }
}
