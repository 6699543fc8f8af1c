/** The selection logic of the weekly sheet (lib/plansheet/sheet/weekly.rb):
    packing projects into a minute budget, the due-date windows, the tag
    title transform and the per-namespace candidates. The LaTeX layout
    around them is not modelled. */
module WeeklySheet {
  import opened Wrappers
  import opened TimeUtils
  import opened Collections
  import opened Projects

  /** `DEFAULT_PROJECT_TIME_ESTIMATE_MIN`: the minutes charged for a project
      without a time estimate. */
  const DefaultProjectTimeEstimateMin: nat := 120

  /** The minutes a project costs: its parsed estimate, or the default. */
  function Estimate(p: Project): (r: Result<nat, ParseError>)
    ensures p.timeEstimate.None? ==> r == Ok(DefaultProjectTimeEstimateMin)
    ensures p.timeEstimate.Some? ==> r == ParseTimeDuration(p.timeEstimate.value)
  {
    match p.timeEstimate
    case None => Ok(DefaultProjectTimeEstimateMin)
    case Some(e) => ParseTimeDuration(e)
  }

  /** The costs of all projects, in order, or the error of the first
      estimate that does not parse. */
  function Costs(ps: seq<Project>): (r: Result<seq<nat>, ParseError>)
    ensures r.Ok? <==> forall i :: 0 <= i < |ps| ==> Estimate(ps[i]).Ok?
    ensures r.Ok? ==> |r.value| == |ps|
    ensures r.Ok? ==> forall i :: 0 <= i < |ps| ==> Estimate(ps[i]) == Ok(r.value[i])
    ensures r.Err? ==> exists i :: 0 <= i < |ps| && (forall j :: 0 <= j < i ==> Estimate(ps[j]).Ok?) && Estimate(ps[i]) == Err(r.error)
  {
    if ps == [] then Ok([])
    else
      var init := ps[..|ps| - 1];
      assert forall i :: 0 <= i < |ps| - 1 ==> init[i] == ps[i];
      match Costs(init)
      case Err(e) =>
        FirstErrorShifts(ps, init, e);
        Err(e)
      case Ok(cs) =>
        match Estimate(ps[|ps| - 1])
        case Err(e) =>
          FirstErrorLast(ps, init, e);
          Err(e)
        case Ok(c) => Ok(cs + [c])
  }

  /** The first failing estimate of all but the last project is the first
      failing estimate of them all. */
  lemma FirstErrorShifts(ps: seq<Project>, init: seq<Project>, e: ParseError)
    requires |ps| > 0 && init == ps[..|ps| - 1]
    requires exists i :: 0 <= i < |init| && (forall j :: 0 <= j < i ==> Estimate(init[j]).Ok?) && Estimate(init[i]) == Err(e)
    ensures exists i :: 0 <= i < |ps| && (forall j :: 0 <= j < i ==> Estimate(ps[j]).Ok?) && Estimate(ps[i]) == Err(e)
  {
    var i :| 0 <= i < |init| && (forall j :: 0 <= j < i ==> Estimate(init[j]).Ok?) && Estimate(init[i]) == Err(e);
    assert forall j :: 0 <= j <= i ==> init[j] == ps[j];
  }

  /** When all the others parse, the last project's failing estimate is
      the first one. */
  lemma FirstErrorLast(ps: seq<Project>, init: seq<Project>, e: ParseError)
    requires |ps| > 0 && init == ps[..|ps| - 1]
    requires forall j :: 0 <= j < |init| ==> Estimate(init[j]).Ok?
    requires Estimate(ps[|ps| - 1]) == Err(e)
    ensures exists i :: 0 <= i < |ps| && (forall j :: 0 <= j < i ==> Estimate(ps[j]).Ok?) && Estimate(ps[i]) == Err(e)
  {
    assert forall j :: 0 <= j < |init| ==> init[j] == ps[j];
  }

  function Sum(xs: seq<nat>): nat {
    if xs == [] then 0 else Sum(xs[..|xs| - 1]) + xs[|xs| - 1]
  }

  /** The decisions of the greedy pass and the budget left after it. */
  datatype Packing = Packing(mask: seq<bool>, remaining: nat)

  /** Walk the costs in order; take each one that fits in what is left of
      the budget, and charge it. */
  function Pack(costs: seq<nat>, budget: nat): (r: Packing)
    ensures |r.mask| == |costs|
    ensures r.remaining <= budget
  {
    if costs == [] then Packing([], budget)
    else
      var before := Pack(costs[..|costs| - 1], budget);
      var c := costs[|costs| - 1];
      if c <= before.remaining then
        Packing(before.mask + [true], before.remaining - c)
      else
        Packing(before.mask + [false], before.remaining)
  }

  /** `projects_in_time(projects, time)` on a list: the projects the greedy
      pass takes, or the first parse error (the budget is parsed first). */
  function InTime(projects: seq<Project>, time: string): (r: Result<seq<Project>, ParseError>)
    ensures ParseTimeDuration(time).Err? ==> r == Err(ParseTimeDuration(time).error)
    ensures r.Ok? ==> |r.value| <= |projects| && forall p :: p in r.value ==> p in projects
  {
    var budget :- ParseTimeDuration(time);
    InBudget(projects, budget)
  }

  /** The greedy selection for a budget already parsed. */
  function InBudget(projects: seq<Project>, budget: nat): (r: Result<seq<Project>, ParseError>)
    ensures r.Ok? <==> forall i :: 0 <= i < |projects| ==> Estimate(projects[i]).Ok?
    ensures r.Ok? ==> |r.value| <= |projects| && forall p :: p in r.value ==> p in projects
  {
    var costs :- Costs(projects);
    Ok(Picked(projects, Pack(costs, budget).mask))
  }

  /** The costs of one more project: those before it, then its own. */
  lemma CostsStep(ps: seq<Project>, i: nat)
    requires i < |ps|
    ensures Costs(ps[..i + 1]) ==
      match Costs(ps[..i])
      case Err(e) => Err(e)
      case Ok(cs) => (match Estimate(ps[i]) case Err(e) => Err(e) case Ok(c) => Ok(cs + [c]))
  {
    assert ps[..i + 1][..i] == ps[..i];
  }

  /** One more cost: the pass decides on it with what is left. */
  lemma PackSnoc(costs: seq<nat>, c: nat, budget: nat)
    ensures var before := Pack(costs, budget);
      Pack(costs + [c], budget) ==
        if c <= before.remaining then Packing(before.mask + [true], before.remaining - c)
        else Packing(before.mask + [false], before.remaining)
  {
    assert (costs + [c])[..|costs|] == costs;
  }

  /** Once an estimate fails to parse, the costs of any longer list fail
      with the same error. */
  lemma {:induction false} CostsErrorStays(ps: seq<Project>, j: nat)
    requires j <= |ps| && Costs(ps[..j]).Err?
    ensures Costs(ps) == Costs(ps[..j])
    decreases |ps| - j
  {
    if j < |ps| {
      CostsStep(ps, j);
      CostsErrorStays(ps, j + 1);
    } else {
      assert ps[..j] == ps;
    }
  }

  /** `projects_in_time`: `projects ||= []`, parse the budget, then the
      greedy pass. */
  method ProjectsInTime(projects: Option<seq<Project>>, time: string) returns (r: Result<seq<Project>, ParseError>)
    ensures r == InTime(projects.GetOr([]), time)
  {
    var ps := projects.GetOr([]);
    var parsed := ParseTimeDuration(time);
    if parsed.Err? {
      return Err(parsed.error);
    }
    r := PackInTime(ps, parsed.value);
  }

  /** The loop of `projects_in_time`: one pass that appends each project
      whose cost fits and lowers the budget by that cost. */
  method PackInTime(ps: seq<Project>, budget: nat) returns (r: Result<seq<Project>, ParseError>)
    ensures r == InBudget(ps, budget)
  {
    var t := budget;
    var p: seq<Project> := [];
    ghost var costs: seq<nat> := [];
    ghost var mask: seq<bool> := [];
    var i := 0;
    while i < |ps|
      invariant 0 <= i <= |ps|
      invariant Costs(ps[..i]) == Ok(costs)
      invariant Pack(costs, budget) == Packing(mask, t)
      invariant p == Picked(ps[..i], mask)
    {
      var e := Estimate(ps[i]);
      if e.Err? {
        PackErrorStep(ps, i, costs, budget);
        return Err(e.error);
      }
      var fits := e.value <= t;
      PackFitStep(ps, i, costs, mask, t, budget, e.value);
      if fits {
        p := p + [ps[i]];
        t := t - e.value;
      }
      mask := mask + [fits];
      costs := costs + [e.value];
      i := i + 1;
    }
    PackDone(ps, costs, mask, t, budget);
    r := Ok(p);
  }

  /** A cost that fails to parse ends the pass with its error. */
  lemma PackErrorStep(ps: seq<Project>, i: nat, costs: seq<nat>, budget: nat)
    requires i < |ps| && Costs(ps[..i]) == Ok(costs) && Estimate(ps[i]).Err?
    ensures InBudget(ps, budget) == Err(Estimate(ps[i]).error)
  {
    CostsStep(ps, i);
    CostsErrorStays(ps, i + 1);
  }

  /** One project more: its cost joins the costs, the pass decides on it
      with the budget left, and the pick grows by it exactly when it fits. */
  lemma PackFitStep(ps: seq<Project>, i: nat, costs: seq<nat>, mask: seq<bool>, t: nat, budget: nat, c: nat)
    requires i < |ps| && Costs(ps[..i]) == Ok(costs) && Pack(costs, budget) == Packing(mask, t)
    requires Estimate(ps[i]) == Ok(c)
    ensures Costs(ps[..i + 1]) == Ok(costs + [c])
    ensures Pack(costs + [c], budget) == Packing(mask + [c <= t], if c <= t then t - c else t)
    ensures Picked(ps[..i + 1], mask + [c <= t]) == Picked(ps[..i], mask) + (if c <= t then [ps[i]] else [])
  {
    CostsStep(ps, i);
    PackSnoc(costs, c, budget);
    PickedSnoc(ps[..i], mask, ps[i], c <= t);
    SliceSnoc(ps, i);
  }

  /** After the whole list the pick is the greedy selection. */
  lemma PackDone(ps: seq<Project>, costs: seq<nat>, mask: seq<bool>, t: nat, budget: nat)
    requires Costs(ps[..|ps|]) == Ok(costs) && Pack(costs, budget) == Packing(mask, t)
    ensures InBudget(ps, budget) == Ok(Picked(ps[..|ps|], mask))
  {
    assert ps[..|ps|] == ps;
  }

  /** A missing project list selects nothing. */
  lemma NilSelectsNothing(time: string)
    requires ParseTimeDuration(time).Ok?
    ensures InTime([], time) == Ok([])
  {
  }

  /** The selection keeps the input's order: it is a subsequence of it. */
  lemma InTimeSubsequence(projects: seq<Project>, time: string)
    requires InTime(projects, time).Ok?
    ensures IsSubsequence(InTime(projects, time).value, projects)
  {
    var costs := Costs(projects).value;
    var mask := Pack(costs, ParseTimeDuration(time).value).mask;
    assert |mask| == |projects| && Picked(projects, mask) == InTime(projects, time).value;
  }

  /** Budget bound: the chosen costs and the remaining budget add up to the
      whole budget, so the chosen costs never exceed it. */
  lemma {:induction false} InTimeBudget(costs: seq<nat>, budget: nat)
    ensures Sum(Picked(costs, Pack(costs, budget).mask)) <= budget
    ensures Sum(Picked(costs, Pack(costs, budget).mask)) == budget - Pack(costs, budget).remaining
    decreases |costs|
  {
    if costs != [] {
      var pre := costs[..|costs| - 1];
      var c := costs[|costs| - 1];
      InTimeBudget(pre, budget);
      var before := Pack(pre, budget);
      assert costs == pre + [c];
      PackSnoc(pre, c, budget);
      PickedSnoc(pre, before.mask, c, c <= before.remaining);
      var chosen := Picked(pre, before.mask);
      if c <= before.remaining {
        assert (chosen + [c])[..|chosen|] == chosen;
      }
    }
  }

  /** The greedy pass over a prefix makes the same decisions as the pass
      over the whole list makes on that prefix. */
  lemma {:induction false} PackPrefix(costs: seq<nat>, budget: nat, i: nat)
    requires i <= |costs|
    ensures Pack(costs[..i], budget).mask == Pack(costs, budget).mask[..i]
    ensures Pack(costs[..i], budget).remaining >= Pack(costs, budget).remaining
    decreases |costs|
  {
    if i == |costs| {
      assert costs[..i] == costs;
    } else {
      var pre := costs[..|costs| - 1];
      PackPrefix(pre, budget, i);
      PackStep(costs, budget);
      var whole := Pack(costs, budget);
      var before := Pack(pre, budget);
      assert pre[..i] == costs[..i];
      var prefix := Pack(costs[..i], budget);
      assert before.mask == whole.mask[..|costs| - 1];
      assert prefix.mask == before.mask[..i];
      assert before.mask[..i] == whole.mask[..i];
      assert prefix.remaining >= before.remaining >= whole.remaining;
    }
  }

  /** One step of the pass: the decisions on all but the last cost stay, and
      the remaining budget does not grow. */
  lemma PackStep(costs: seq<nat>, budget: nat)
    requires costs != []
    ensures var pre := Pack(costs[..|costs| - 1], budget);
      && Pack(costs, budget).mask[..|costs| - 1] == pre.mask
      && Pack(costs, budget).remaining <= pre.remaining
  {
  }

  /** The greedy rule: project i is taken exactly when its cost fits in the
      budget left by the projects before it, and taking it lowers that
      budget by exactly its cost. */
  lemma PackRule(costs: seq<nat>, budget: nat, i: nat)
    requires i < |costs|
    ensures var left := Pack(costs[..i], budget).remaining;
      && (Pack(costs, budget).mask[i] <==> costs[i] <= left)
      && Pack(costs[..i + 1], budget).remaining == left - (if costs[i] <= left then costs[i] else 0)
  {
    PackPrefix(costs, budget, i + 1);
    assert costs[..i + 1][..i] == costs[..i];
    assert Pack(costs[..i + 1], budget).mask[i] == Pack(costs, budget).mask[i];
  }

  /** Nothing skipped fits in the budget that is left at the end. */
  lemma PackSkippedDoNotFit(costs: seq<nat>, budget: nat, i: nat)
    requires i < |costs| && !Pack(costs, budget).mask[i]
    ensures costs[i] > Pack(costs, budget).remaining
  {
    PackRule(costs, budget, i);
    PackPrefix(costs, budget, i);
  }

  // ----- the due-date windows -----

  predicate IsPastDue(today: int, p: Project) {
    p.due.Some? && p.due.value < today
  }

  predicate IsUpcomingDue(today: int, p: Project) {
    p.due.Some? && today <= p.due.value < today + 8
  }

  /** `past_due`: the projects due before today, in order. */
  function PastDue(projects: seq<Project>, today: int): (r: seq<Project>)
    ensures forall p :: p in r <==> p in projects && p.due.Some? && p.due.value < today
  {
    Select(projects, p => IsPastDue(today, p))
  }

  /** `upcoming_due`: the projects due today or in the next seven days. */
  function UpcomingDue(projects: seq<Project>, today: int): (r: seq<Project>)
    ensures forall p :: p in r <==> p in projects && p.due.Some? && today <= p.due.value < today + 8
  {
    Select(projects, p => IsUpcomingDue(today, p))
  }

  /** The two windows never share a project, projects without a due date
      are in neither, and both keep the input's order. */
  lemma DueWindowsDisjoint(projects: seq<Project>, today: int)
    ensures forall p :: !(p in PastDue(projects, today) && p in UpcomingDue(projects, today))
    ensures forall p :: p in projects && p.due.None? ==> p !in PastDue(projects, today) + UpcomingDue(projects, today)
    ensures IsSubsequence(PastDue(projects, today), projects)
    ensures IsSubsequence(UpcomingDue(projects, today), projects)
  {
    SelectIsPicked(projects, p => IsPastDue(today, p));
    SelectIsPicked(projects, p => IsUpcomingDue(today, p));
  }

  // ----- pretty_tag_name -----

  /** ASCII `upcase` and `downcase` of one character. */
  function Upcase(c: char): char {
    if 'a' <= c <= 'z' then (c as int - 32) as char else c
  }

  function Downcase(c: char): char {
    if 'A' <= c <= 'Z' then (c as int + 32) as char else c
  }

  function DowncaseAll(s: string): (r: string)
    ensures |r| == |s| && forall i :: 0 <= i < |s| ==> r[i] == Downcase(s[i])
  {
    if s == [] then [] else [Downcase(s[0])] + DowncaseAll(s[1..])
  }

  /** `String#capitalize`: the first character upper case, the rest lower. */
  function Capitalize(s: string): (r: string)
    ensures |r| == |s|
    ensures |s| > 0 ==> r[0] == Upcase(s[0])
    ensures forall i :: 0 < i < |s| ==> r[i] == Downcase(s[i])
  {
    if s == [] then [] else [Upcase(s[0])] + DowncaseAll(s[1..])
  }

  /** `gsub(from, to)` for single characters. */
  function ReplaceChar(s: string, from: char, to: char): (r: string)
    ensures |r| == |s|
    ensures forall i :: 0 <= i < |s| ==> r[i] == if s[i] == from then to else s[i]
  {
    if s == [] then [] else [if s[0] == from then to else s[0]] + ReplaceChar(s[1..], from, to)
  }

  /** `pretty_tag_name`: "home_chores" becomes "Home chores". */
  function PrettyTagName(tag: string): (r: string)
    ensures |r| == |tag|
    ensures |tag| > 0 ==> r[0] == if tag[0] == '_' then ' ' else Upcase(tag[0])
    ensures forall i :: 0 < i < |tag| ==> r[i] == if tag[i] == '_' then ' ' else Downcase(tag[i])
    ensures forall i :: 0 <= i < |tag| ==> r[i] != '_'
  {
    ReplaceChar(Capitalize(tag), '_', ' ')
  }

  // ----- namespace_minipages -----

  predicate InNamespace(ns: string, p: Project) {
    p.namespace == Some(ns)
  }

  /** What `namespace_minipages` hands to `projects_in_time` for one
      configured namespace: the projects of that namespace, in order. */
  function NamespaceCandidates(projects: seq<Project>, ns: string): (r: seq<Project>)
    ensures forall p :: p in r <==> p in projects && p.namespace == Some(ns)
  {
    Select(projects, p => InNamespace(ns, p))
  }

  /** The selection of one namespace minipage. */
  function NamespaceSelection(projects: seq<Project>, ns: string, limit: string): Result<seq<Project>, ParseError> {
    InTime(NamespaceCandidates(projects, ns), limit)
  }

  /** A namespace minipage lists only projects of its namespace. */
  lemma NamespaceSelectionOnly(projects: seq<Project>, ns: string, limit: string)
    requires NamespaceSelection(projects, ns, limit).Ok?
    ensures forall p :: p in NamespaceSelection(projects, ns, limit).value ==> p in projects && p.namespace == Some(ns)
  {
    var candidates := NamespaceCandidates(projects, ns);
    var costs := Costs(candidates).value;
    var mask := Pack(costs, ParseTimeDuration(limit).value).mask;
    assert NamespaceSelection(projects, ns, limit).value == Picked(candidates, mask);
  }
}
