/** A project record (lib/plansheet/project.rb): the fields a project file
    entry carries, the defaults the constructor fills in, the status derived
    from the task lists, and the fixed status ranks. */
module Projects {
  import opened Wrappers

  /** A value in a parsed project entry: a string, a list of strings, or a
      date (as a day number). */
  datatype Value = Text(text: string) | Texts(items: seq<string>) | Day(day: int)

  /** One parsed project entry, the hash `Project.new` receives. */
  type Record = map<string, Value>

  /** The statuses the schema in project.rb admits, in its order. */
  const SchemaStatuses: seq<string> := ["wip", "ready", "blocked", "planning", "idea", "dropped", "done"]

  /** `PROJECT_STATUS_PRIORITY`: the rank of each status. */
  const ProjectStatusPriority: map<string, nat> :=
    map["wip" := 1, "ready" := 2, "blocked" := 3, "planning" := 4, "idea" := 5, "dropped" := 6, "done" := 7]

  datatype Project = Project(
    name: Option<string>,
    tasks: seq<string>,
    done: seq<string>,
    desc: Option<string>,
    location: Option<string>,
    status: Option<string>,
    namespace: Option<string>,
    due: Option<int>,
    timeEstimate: Option<string>)

  /** `options[key]` when it holds a string; absent otherwise. */
  function TextAt(options: Record, key: string): (r: Option<string>)
    ensures r.Some? <==> key in options && options[key].Text?
    ensures r.Some? ==> options[key] == Text(r.value)
  {
    if key in options && options[key].Text? then Some(options[key].text) else None
  }

  /** `options[key] || []` for a list of strings. */
  function TextsAt(options: Record, key: string): (r: seq<string>)
    ensures key !in options ==> r == []
    ensures key in options && options[key].Texts? ==> r == options[key].items
  {
    if key in options && options[key].Texts? then options[key].items else []
  }

  function DayAt(options: Record, key: string): (r: Option<int>)
    ensures r.Some? <==> key in options && options[key].Day?
    ensures r.Some? ==> options[key] == Day(r.value)
  {
    if key in options && options[key].Day? then Some(options[key].day) else None
  }

  /** The keys a project reads from its entry. */
  const ReadKeys: set<string> := {"project", "tasks", "done", "desc", "location", "status", "namespace", "due", "time_estimate"}

  /** `Project.new(options)`: the name is the "project" entry, the task
      lists default to empty, and the optional fields stay unset when the
      entry lacks them. */
  function FromRecord(options: Record): (p: Project)
    ensures p.name == TextAt(options, "project")
    ensures "tasks" !in options ==> p.tasks == []
    ensures "done" !in options ==> p.done == []
    ensures "desc" !in options ==> p.desc.None?
    ensures "location" !in options ==> p.location.None?
    ensures "status" !in options ==> p.status.None?
    ensures p.status.Some? ==> options["status"] == Text(p.status.value)
    ensures "tasks" in options && options["tasks"].Texts? ==> p.tasks == options["tasks"].items
    ensures "done" in options && options["done"].Texts? ==> p.done == options["done"].items
    ensures p.desc == TextAt(options, "desc") && p.location == TextAt(options, "location")
    ensures p.status == TextAt(options, "status")
    ensures p.namespace == TextAt(options, "namespace") && p.due == DayAt(options, "due")
    ensures p.timeEstimate == TextAt(options, "time_estimate")
  {
    Project(
      TextAt(options, "project"),
      TextsAt(options, "tasks"),
      TextsAt(options, "done"),
      TextAt(options, "desc"),
      TextAt(options, "location"),
      TextAt(options, "status"),
      TextAt(options, "namespace"),
      DayAt(options, "due"),
      TextAt(options, "time_estimate"))
  }

  /** A project depends only on the keys it reads: changing any other entry
      gives the same project. */
  lemma FromRecordFrame(options: Record, key: string, v: Value)
    requires key !in ReadKeys
    ensures FromRecord(options[key := v]) == FromRecord(options)
  {
    var o := options[key := v];
    forall k | k in ReadKeys ensures (k in o <==> k in options) && (k in o ==> o[k] == options[k]) {
    }
    assert TextAt(o, "project") == TextAt(options, "project");
    assert TextsAt(o, "tasks") == TextsAt(options, "tasks");
    assert TextsAt(o, "done") == TextsAt(options, "done");
    assert TextAt(o, "desc") == TextAt(options, "desc");
    assert TextAt(o, "location") == TextAt(options, "location");
    assert TextAt(o, "status") == TextAt(options, "status");
    assert TextAt(o, "namespace") == TextAt(options, "namespace");
    assert DayAt(o, "due") == DayAt(options, "due");
    assert TextAt(o, "time_estimate") == TextAt(options, "time_estimate");
  }

  /** The status a project without an explicit one gets from its lists. */
  function DerivedStatus(tasks: seq<string>, done: seq<string>): (r: string)
    ensures r in {"wip", "planning", "idea"}
    ensures r == "wip" <==> |tasks| > 0 && |done| > 0
    ensures r == "planning" <==> |tasks| > 0 && |done| == 0
    ensures r == "idea" <==> |tasks| == 0
  {
    if |tasks| > 0 then
      if |done| > 0 then "wip" else "planning"
    else
      "idea"
  }

  /** `Project#status`: the explicit status when set, else the derived one. */
  function Status(p: Project): (r: string)
    ensures p.status.Some? ==> r == p.status.value
    ensures p.status.None? ==> r == DerivedStatus(p.tasks, p.done)
  {
    match p.status
    case Some(s) => s
    case None => DerivedStatus(p.tasks, p.done)
  }

  /** Every status of project.rb's schema has a rank, and so does every
      derived status. */
  lemma StatusRanked(p: Project)
    requires p.status.Some? ==> p.status.value in SchemaStatuses
    ensures Status(p) in ProjectStatusPriority
    ensures p.status.None? ==> ProjectStatusPriority[Status(p)] in {1, 4, 5}
  {
  }

  /** The rank table covers exactly the schema's statuses and ranks them
      1..7 in the schema's order, so no two statuses share a rank. */
  lemma StatusPriorityOrder()
    ensures ProjectStatusPriority.Keys == set s | s in SchemaStatuses
    ensures forall i :: 0 <= i < |SchemaStatuses| ==> ProjectStatusPriority[SchemaStatuses[i]] == i + 1
    ensures forall s, t :: s in ProjectStatusPriority && t in ProjectStatusPriority && s != t ==>
      ProjectStatusPriority[s] != ProjectStatusPriority[t]
  {
    forall i | 0 <= i < |SchemaStatuses| ensures ProjectStatusPriority[SchemaStatuses[i]] == i + 1 {
      if i == 0 {} else if i == 1 {} else if i == 2 {} else if i == 3 {} else if i == 4 {} else if i == 5 {} else {}
    }
  }

  /** "waiting", which the schema of project/yaml.rb admits, is reported
      as it is but has no rank. */
  lemma WaitingUnranked(p: Project)
    requires p.status == Some("waiting")
    ensures Status(p) == "waiting"
    ensures "waiting" !in ProjectStatusPriority
    ensures "waiting" !in SchemaStatuses
  {
  }
}
