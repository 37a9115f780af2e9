/**
 * The home page (app/page.tsx): it shows the one profile's level and XP
 * against a fixed per-level threshold, and reports a completed task by adding
 * the task's xp to the profile and levelling up at most once.
 */
module Home {
  import opened Wrappers

  /** `xpToNextLevel`: 500 when the page mounts, and never set again. */
  const XpToNextLevel: int := 500

  /** A task as the home page selects it: id, title, xp. */
  datatype Task = Task(id: string, title: string, xp: int)

  /** The row of the `profiles` table. */
  datatype Profile = Profile(id: string, level: int, xp: int)

  /** A level and the xp carried within it. */
  datatype Standing = Standing(level: int, xp: int)

  /** All the xp a standing stands for, at `threshold` xp per level. */
  function Total(s: Standing, threshold: int): int
  {
    s.level * threshold + s.xp
  }

  // ---------------------------------------------------------------------
  // Level-up arithmetic
  // ---------------------------------------------------------------------

  /** The arithmetic of reportTask: add the task's xp; if the sum reaches the
      threshold, take the threshold off once and go up one level. No xp is
      lost or made up, and the level moves by at most one. */
  function ApplyReport(level: int, xp: int, taskXp: int, threshold: int): (r: Standing)
    ensures Total(r, threshold) == Total(Standing(level, xp), threshold) + taskXp
    ensures r.level == level + 1 <==> xp + taskXp >= threshold
    ensures r.level == level || r.level == level + 1
  {
    var sum := xp + taskXp;
    if sum >= threshold then
      assert (level + 1) * threshold == level * threshold + threshold;
      Standing(level + 1, sum - threshold)
    else
      Standing(level, sum)
  }

  /** From an xp inside the level, a task worth at most one level keeps the
      xp inside the level and never lowers the level. */
  lemma ReportStaysInRange(level: int, xp: int, taskXp: int, threshold: int)
    requires 0 <= xp < threshold && 0 <= taskXp <= threshold
    ensures 0 <= ApplyReport(level, xp, taskXp, threshold).xp < threshold
    ensures ApplyReport(level, xp, taskXp, threshold).level >= level
  {
  }

  /** At the page's threshold: 480 xp and a 50 xp task give level 2 with 30 xp. */
  lemma ReportAtPageThreshold()
    ensures ApplyReport(1, 480, 50, XpToNextLevel) == Standing(2, 30)
    ensures ApplyReport(1, 400, 50, XpToNextLevel) == Standing(1, 450)
  {
  }

  /** There is only one level-up per report: a sum of two thresholds or more
      leaves an xp of at least one whole threshold. */
  lemma ReportLevelsUpOnce(level: int, xp: int, taskXp: int, threshold: int)
    requires threshold >= 0 && xp + taskXp >= 2 * threshold
    ensures ApplyReport(level, xp, taskXp, threshold) == Standing(level + 1, xp + taskXp - threshold)
    ensures ApplyReport(level, xp, taskXp, threshold).xp >= threshold
  {
  }

  /** A positive multiple of a positive number is at least that number. */
  lemma {:induction false} MultipleAtLeast(k: int, d: int)
    requires k >= 1 && d > 0
    ensures k * d >= d
    decreases k
  {
    if k > 1 {
      MultipleAtLeast(k - 1, d);
      assert k * d == (k - 1) * d + d;
    }
  }

  lemma SubtractionDistributes(a: int, b: int, c: int)
    ensures (a - b) * c == a * c - b * c
  {
  }

  /** Euclidean division is unique: a quotient and a remainder in range are
      the ones `/` and `%` give. */
  lemma DivisionUnique(n: int, d: int, q: int, m: int)
    requires d > 0 && 0 <= m < d && q * d + m == n
    ensures q == n / d && m == n % d
  {
    var q0, m0 := n / d, n % d;
    assert q0 * d + m0 == n;
    if q > q0 {
      MultipleAtLeast(q - q0, d);
    } else if q < q0 {
      MultipleAtLeast(q0 - q, d);
    }
  }

  /** Inside the range, one report agrees with the reference reading of a
      standing: the total xp divided by the threshold. */
  lemma ReportIsDivision(level: int, xp: int, taskXp: int, threshold: int)
    requires 0 <= xp < threshold && 0 <= taskXp <= threshold
    ensures ApplyReport(level, xp, taskXp, threshold)
         == Standing(level + (xp + taskXp) / threshold, (xp + taskXp) % threshold)
  {
    var r := ApplyReport(level, xp, taskXp, threshold);
    DivisionUnique(xp + taskXp, threshold, r.level - level, r.xp);
  }

  /** Reporting tasks of the given xp values one after another. */
  function ReportAll(s: Standing, xps: seq<int>, threshold: int): (r: Standing)
    ensures xps == [] ==> r == s
    ensures |xps| == 1 ==> r == ApplyReport(s.level, s.xp, xps[0], threshold)
    decreases |xps|
  {
    if xps == [] then s
    else ReportAll(ApplyReport(s.level, s.xp, xps[0], threshold), xps[1..], threshold)
  }

  function Sum(xps: seq<int>): int
  {
    if xps == [] then 0 else xps[0] + Sum(xps[1..])
  }

  /** Conservation over any number of reports: the total grows by exactly the
      xp reported. */
  lemma {:induction false} ReportAllConserves(s: Standing, xps: seq<int>, threshold: int)
    ensures Total(ReportAll(s, xps, threshold), threshold) == Total(s, threshold) + Sum(xps)
    decreases |xps|
  {
    if xps != [] {
      ReportAllConserves(ApplyReport(s.level, s.xp, xps[0], threshold), xps[1..], threshold);
    }
  }

  /** Reports of at most one threshold each, starting inside the range, keep
      the xp inside it and never lower the level. */
  lemma {:induction false} ReportAllStaysInRange(s: Standing, xps: seq<int>, threshold: int)
    requires 0 <= s.xp < threshold
    requires forall k :: 0 <= k < |xps| ==> 0 <= xps[k] <= threshold
    ensures 0 <= ReportAll(s, xps, threshold).xp < threshold
    ensures ReportAll(s, xps, threshold).level >= s.level
    decreases |xps|
  {
    if xps != [] {
      ReportStaysInRange(s.level, s.xp, xps[0], threshold);
      ReportAllStaysInRange(ApplyReport(s.level, s.xp, xps[0], threshold), xps[1..], threshold);
    }
  }

  /** Under the same bounds, the standing after any number of reports is the
      reference reading of the total: levels gained and xp left are the
      quotient and remainder of the xp by the threshold. */
  lemma ReportAllIsDivision(s: Standing, xps: seq<int>, threshold: int)
    requires 0 <= s.xp < threshold
    requires forall k :: 0 <= k < |xps| ==> 0 <= xps[k] <= threshold
    ensures ReportAll(s, xps, threshold)
         == Standing(s.level + (s.xp + Sum(xps)) / threshold, (s.xp + Sum(xps)) % threshold)
  {
    var r := ReportAll(s, xps, threshold);
    var n, q := s.xp + Sum(xps), r.level - s.level;
    ReportAllStaysInRange(s, xps, threshold);
    ReportAllConserves(s, xps, threshold);
    assert r.level * threshold + r.xp == s.level * threshold + n;
    SubtractionDistributes(r.level, s.level, threshold);
    DivisionUnique(n, threshold, q, r.xp);
  }

  // ---------------------------------------------------------------------
  // reportTask
  // ---------------------------------------------------------------------

  /** The index of the first task with the id, or |tasks| if none has it. */
  function FirstIndex(tasks: seq<Task>, id: string): (k: nat)
    ensures k <= |tasks|
    ensures forall j :: 0 <= j < k ==> tasks[j].id != id
    ensures k < |tasks| ==> tasks[k].id == id
  {
    if tasks == [] then 0
    else if tasks[0].id == id then 0
    else 1 + FirstIndex(tasks[1..], id)
  }

  /** `tasks.find((t) => t.id === id)`: the first task with the id. */
  function FindTask(tasks: seq<Task>, id: string): (r: Option<Task>)
    ensures r.None? <==> forall t :: t in tasks ==> t.id != id
    ensures r.Some? ==> r.value in tasks && r.value.id == id
    ensures r.Some? ==> r.value == tasks[FirstIndex(tasks, id)]
  {
    var k := FirstIndex(tasks, id);
    if k < |tasks| then Some(tasks[k]) else None
  }

  /** How a report ends: an alert asking to select a task, a silent return,
      an alert that the update failed, or the new profile taken in. */
  datatype Outcome = NoTaskSelected | Skipped | UpdateFailed | Reported

  datatype ReportResult = ReportResult(outcome: Outcome, profile: Option<Profile>)

  /** `!selectedTask`: nothing selected, or the empty value. */
  predicate NoSelection(selected: Option<string>): (r: bool)
    ensures r <==> selected == None || selected == Some("")
  {
    selected.None? || selected.value == ""
  }

  /** What reportTask leaves behind, given whether the profile update
      succeeds. Only a successful update changes the profile, and then only
      its xp and level. */
  function Report(tasks: seq<Task>, profile: Option<Profile>, selected: Option<string>,
                  threshold: int, updated: bool): (r: ReportResult)
    ensures NoSelection(selected) ==> r == ReportResult(NoTaskSelected, profile)
    ensures !NoSelection(selected) && (FindTask(tasks, selected.value).None? || profile.None?)
            ==> r == ReportResult(Skipped, profile)
    ensures r.outcome != Reported ==> r.profile == profile
    ensures r.outcome == UpdateFailed <==>
            !NoSelection(selected) && FindTask(tasks, selected.value).Some? && profile.Some? && !updated
    ensures r.outcome == Reported <==>
            !NoSelection(selected) && FindTask(tasks, selected.value).Some? && profile.Some? && updated
    ensures r.outcome == Reported ==>
            r.profile.Some? && r.profile.value.id == profile.value.id &&
            Standing(r.profile.value.level, r.profile.value.xp)
            == ApplyReport(profile.value.level, profile.value.xp, FindTask(tasks, selected.value).value.xp, threshold)
  {
    if NoSelection(selected) then ReportResult(NoTaskSelected, profile)
    else
      var task := FindTask(tasks, selected.value);
      if task.None? || profile.None? then ReportResult(Skipped, profile)
      else if !updated then ReportResult(UpdateFailed, profile)
      else
        var p := profile.value;
        var st := ApplyReport(p.level, p.xp, task.value.xp, threshold);
        ReportResult(Reported, Some(p.(level := st.level, xp := st.xp)))
  }

  // ---------------------------------------------------------------------
  // Derived display values
  // ---------------------------------------------------------------------

  /** `profile?.xp || 0`: the profile's xp, or 0 before it is fetched (an xp
      of 0 gives 0 either way). */
  function CurrentXp(profile: Option<Profile>): (r: int)
    ensures profile.None? ==> r == 0
    ensures profile.Some? ==> r == profile.value.xp
  {
    if profile.None? then 0 else profile.value.xp
  }

  /** `profile?.level || 1`: no profile, and a level of 0, both show as 1;
      the page never shows level 0. */
  function DisplayLevel(profile: Option<Profile>): (r: int)
    ensures r != 0
    ensures r == 1 || (profile.Some? && r == profile.value.level)
    ensures profile.Some? && profile.value.level != 0 ==> r == profile.value.level
  {
    if profile.None? || profile.value.level == 0 then 1 else profile.value.level
  }

  /** The "Remaining" slice of the chart: the two slices add up to the
      threshold. */
  function Remaining(profile: Option<Profile>, threshold: int): (r: int)
    ensures CurrentXp(profile) + r == threshold
  {
    threshold - CurrentXp(profile)
  }

  /** Without a profile the page shows level 1 and 0 xp with the whole
      threshold remaining; the two slices of the chart always add up to the
      threshold, and both are non-negative while the xp is inside the level. */
  lemma DisplayValues(profile: Option<Profile>, threshold: int)
    ensures profile.None? ==> CurrentXp(profile) == 0 && DisplayLevel(profile) == 1
    ensures profile.None? ==> Remaining(profile, threshold) == threshold
    ensures CurrentXp(profile) + Remaining(profile, threshold) == threshold
    ensures profile.Some? && 0 <= profile.value.xp < threshold ==> 0 < Remaining(profile, threshold) <= threshold
    ensures profile.Some? && profile.value.level >= 1 ==> DisplayLevel(profile) == profile.value.level
  {
  }

  // ---------------------------------------------------------------------
  // The page
  // ---------------------------------------------------------------------

  /** The page's state: the task list, the profile (absent until fetched),
      the threshold and the selected task id. */
  class HomePage {
    var tasks: seq<Task>
    var profile: Option<Profile>
    var xpToNextLevel: int
    var selectedTask: Option<string>

    constructor ()
      ensures tasks == [] && profile == None && selectedTask == None
      ensures xpToNextLevel == XpToNextLevel
    {
      tasks, profile, selectedTask := [], None, None;
      xpToNextLevel := XpToNextLevel;
    }

    /** fetchTasks on mount: on success the list is the rows the table
        returns, in order_index order; on error the list stays as it was. */
    method FetchTasks(rows: seq<Task>, ok: bool)
      modifies this`tasks
      ensures tasks == if ok then rows else old(tasks)
    {
      if ok {
        tasks := rows;
      }
    }

    /** fetchProfile on mount: on success the profile is the one row
        `.single()` returns; on error it stays as it was. */
    method FetchProfile(row: Profile, ok: bool)
      modifies this`profile
      ensures profile == if ok then Some(row) else old(profile)
    {
      if ok {
        profile := Some(row);
      }
    }

    /** The select's onChange. */
    method SelectTask(id: string)
      modifies this`selectedTask
      ensures selectedTask == Some(id)
    {
      selectedTask := Some(id);
    }

    /** reportTask; `updated` is whether the profile update succeeds. It
        changes nothing but the profile, and that only as Report says. */
    method ReportTask(updated: bool) returns (outcome: Outcome)
      modifies this`profile
      ensures ReportResult(outcome, profile) == Report(tasks, old(profile), selectedTask, xpToNextLevel, updated)
    {
      if selectedTask.None? || selectedTask.value == "" {
        return NoTaskSelected;
      }
      var task := FindTask(tasks, selectedTask.value);
      if task.None? || profile.None? {
        return Skipped;
      }
      var p := profile.value;
      var newXp := p.xp + task.value.xp;
      var newLevel := p.level;
      if newXp >= xpToNextLevel {
        newXp := newXp - xpToNextLevel;
        newLevel := newLevel + 1;
      }
      if !updated {
        return UpdateFailed;
      }
      profile := Some(p.(xp := newXp, level := newLevel));
      return Reported;
    }
  }
}
