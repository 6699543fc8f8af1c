/** A project file (lib/plansheet/project/yaml.rb): the namespace a file
    name gives, loading with the namespace stamped into every entry, the
    noise filter applied before dumping, and the decision to write only
    when the dump changed.

    A file's content is modelled as the entries YAML parsing yields, not as
    YAML text; writing stores the entries that were dumped. */
module ProjectYaml {
  import opened Wrappers
  import opened Projects

  // ----- namespace from the path -----

  /** The index just past the last '/' before `end`, or 0. */
  function AfterLastSlash(s: string, end: nat): (k: nat)
    requires end <= |s|
    ensures k <= end
    ensures forall j :: k <= j < end ==> s[j] != '/'
    ensures k > 0 ==> s[k - 1] == '/'
  {
    if end == 0 then 0 else if s[end - 1] == '/' then end else AfterLastSlash(s, end - 1)
  }

  /** The length of `s` without its trailing '/' characters. */
  function TrimSlashes(s: string, end: nat): (k: nat)
    requires end <= |s|
    ensures k <= end
    ensures forall j :: k <= j < end ==> s[j] == '/'
    ensures k == 0 || s[k - 1] != '/'
  {
    if end > 0 && s[end - 1] == '/' then TrimSlashes(s, end - 1) else end
  }

  /** `Pathname#basename`: the last component, ignoring trailing slashes;
      "/" for a path made of slashes only. */
  function Basename(path: string): (r: string)
    ensures '/' !in path ==> r == path
    ensures |r| <= |path|
  {
    var e := TrimSlashes(path, |path|);
    if e == 0 then (if path == [] then [] else "/")
    else path[AfterLastSlash(path, e)..e]
  }

  /** `gsub(/\.yml$/, "")`: remove every ".yml" that ends the string or is
      followed by a line break (Ruby's `$` is the end of any line). */
  function StripYml(s: string): (r: string)
    ensures |r| <= |s|
    ensures '.' !in s ==> r == s
    decreases |s|
  {
    if |s| >= 4 && s[..4] == ".yml" && (|s| == 4 || s[4] == '\n') then StripYml(s[4..])
    else if s == [] then []
    else [s[0]] + StripYml(s[1..])
  }

  /** `ProjectYAMLFile#namespace`. */
  function Namespace(path: string): (r: string)
    ensures |r| <= |path|
    ensures '/' !in path && '.' !in path ==> r == path
  {
    StripYml(Basename(path))
  }

  /** Text without ".yml" at a line end is left alone; the suffix is
      removed. */
  lemma {:induction false} StripYmlSuffix(ns: string)
    requires '\n' !in ns
    ensures StripYml(ns + ".yml") == ns
    decreases |ns|
  {
    var s := ns + ".yml";
    if ns == [] {
      assert s[..4] == ".yml";
      assert s[4..] == [];
    } else {
      assert s[1..] == ns[1..] + ".yml";
      assert s[4] != '\n' by {
        if 4 < |ns| { assert s[4] == ns[4]; }
      }
      StripYmlSuffix(ns[1..]);
      assert s == [ns[0]] + s[1..];
      assert ns == [ns[0]] + ns[1..];
    }
  }

  /** The basename of "<dir>/<base>" is `base` when `base` is a single
      non-empty component. */
  lemma BasenameAfterSlash(dir: string, base: string)
    requires base != [] && '/' !in base
    ensures Basename(dir + "/" + base) == base
  {
    var path := dir + "/" + base;
    var n := |path|;
    assert path[n - 1] == base[|base| - 1];
    assert TrimSlashes(path, n) == n;
    assert path[|dir|] == '/';
    forall j | |dir| + 1 <= j < n ensures path[j] != '/' {
      assert path[j] == base[j - |dir| - 1];
    }
    AfterLastSlashIs(path, n, |dir| + 1);
    assert path[|dir| + 1..n] == base;
  }

  /** The path `Pool#write_projects` writes a namespace to gives that
      namespace back. */
  lemma NamespaceOfWritePath(dir: string, ns: string)
    requires '/' !in ns && '\n' !in ns
    ensures Namespace(dir + "/" + ns + ".yml") == ns
  {
    var base := ns + ".yml";
    forall j | 0 <= j < |base| ensures base[j] != '/' {
      if j < |ns| { assert base[j] == ns[j]; }
    }
    assert dir + "/" + ns + ".yml" == dir + "/" + base;
    BasenameAfterSlash(dir, base);
    StripYmlSuffix(ns);
  }

  lemma {:induction false} AfterLastSlashIs(s: string, end: nat, k: nat)
    requires 0 < k <= end <= |s| && s[k - 1] == '/'
    requires forall j :: k <= j < end ==> s[j] != '/'
    ensures AfterLastSlash(s, end) == k
    decreases end
  {
    if end > k {
      AfterLastSlashIs(s, end - 1, k);
    }
  }

  // ----- the noise filter of yaml_dump -----

  /** The entries `yaml_dump` drops as low-value default noise. */
  predicate IsNoise(key: string, v: Value) {
    key == "namespace" || (key == "priority" && v == Text("low")) || (key == "status" && v == Text("idea"))
  }

  /** The `delete_if` applied to each project hash before dumping. */
  function DumpFilter(r: Record): (d: Record)
    ensures "namespace" !in d
    ensures "priority" in d <==> "priority" in r && r["priority"] != Text("low")
    ensures "status" in d <==> "status" in r && r["status"] != Text("idea")
    ensures forall k :: k in d ==> k in r && d[k] == r[k]
    ensures forall k :: k in r && k !in {"namespace", "priority", "status"} ==> k in d
  {
    map k | k in r && !IsNoise(k, r[k]) :: r[k]
  }

  /** Filtering twice is filtering once. */
  lemma DumpFilterIdempotent(r: Record)
    ensures DumpFilter(DumpFilter(r)) == DumpFilter(r)
  {
  }

  /** Stamping a namespace into an entry never shows in its dump. */
  lemma StampIsNoise(r: Record, ns: string)
    ensures DumpFilter(r["namespace" := Text(ns)]) == DumpFilter(r)
  {
  }

  /** Reloading a dumped entry keeps its status except in one case: a
      status "idea" is dropped as noise, but a project with tasks derives
      "planning" or "wip" without it. */
  lemma ReloadedStatus(r: Record)
    ensures Status(FromRecord(DumpFilter(r))) == Status(FromRecord(r)) <==>
      !("status" in r && r["status"] == Text("idea") && |TextsAt(r, "tasks")| > 0)
  {
    var d := DumpFilter(r);
    assert TextsAt(d, "tasks") == TextsAt(r, "tasks");
    assert TextsAt(d, "done") == TextsAt(r, "done");
  }

  /** `yaml_dump(projects)` before the YAML text: each project's hash, as
      `toH` gives it, with the noise removed. */
  function Dump(projects: seq<Project>, toH: Project -> Record): (r: seq<Record>)
    ensures |r| == |projects|
    ensures forall i :: 0 <= i < |projects| ==> r[i] == DumpFilter(toH(projects[i]))
  {
    seq(|projects|, i requires 0 <= i < |projects| => DumpFilter(toH(projects[i])))
  }

  /** The decision of `compare_and_write`: write when the new dump differs
      from the dump of what the file holds. */
  predicate ShouldWrite(loaded: seq<Project>, updated: seq<Project>, toH: Project -> Record)
    ensures ShouldWrite(loaded, updated, toH) <==>
      |loaded| != |updated| || exists i :: 0 <= i < |loaded| && DumpFilter(toH(loaded[i])) != DumpFilter(toH(updated[i]))
  {
    Dump(updated, toH) != Dump(loaded, toH)
  }

  /** Changes in noise alone never cause a write. */
  lemma NoiseOnlyNoWrite(loaded: seq<Project>, updated: seq<Project>, toH: Project -> Record)
    requires |loaded| == |updated|
    requires forall i :: 0 <= i < |loaded| ==> DumpFilter(toH(loaded[i])) == DumpFilter(toH(updated[i]))
    ensures !ShouldWrite(loaded, updated, toH)
  {
  }

  /** Appending a project always changes the dump, so it always writes. */
  lemma AppendWrites(loaded: seq<Project>, p: Project, toH: Project -> Record)
    ensures ShouldWrite(loaded, loaded + [p], toH)
  {
    assert |Dump(loaded + [p], toH)| != |Dump(loaded, toH)|;
  }

  // ----- load_file -----

  /** What the file system holds at a project file's path. */
  datatype Stored = Missing | Blank | Entries(records: seq<Record>)

  /** The entries loaded from a file: a missing file is first stubbed with
      an empty list, and a file that parses to nothing gives `[]` through
      `@raw ||= []`. */
  function StoredRecords(file: Stored): seq<Record> {
    if file.Entries? then file.records else []
  }

  /** Every entry with the namespace stamped in. */
  function Stamped(records: seq<Record>, ns: string): (r: seq<Record>)
    ensures |r| == |records|
    ensures forall i :: 0 <= i < |r| ==> "namespace" in r[i] && r[i]["namespace"] == Text(ns)
    ensures forall i, k :: 0 <= i < |r| && k in records[i] && k != "namespace" ==> k in r[i] && r[i][k] == records[i][k]
    ensures forall i :: 0 <= i < |r| ==> r[i].Keys == records[i].Keys + {"namespace"}
  {
    seq(|records|, i requires 0 <= i < |records| => records[i]["namespace" := Text(ns)])
  }

  /** The projects `load_file` returns for a file at `path`. */
  function Loaded(path: string, file: Stored): (ps: seq<Project>)
    ensures |ps| == |StoredRecords(file)|
    ensures forall i :: 0 <= i < |ps| ==> ps[i].namespace == Some(Namespace(path))
  {
    var rs := Stamped(StoredRecords(file), Namespace(path));
    seq(|rs|, i requires 0 <= i < |rs| => FromRecord(rs[i]))
  }

  class ProjectYamlFile {
    const path: string
    var file: Stored
    var raw: seq<Record>
    var projects: seq<Project>

    /** `ProjectYAMLFile.new(path)`. Ruby leaves `@raw` and `@projects`
        nil here; they start empty instead, which no caller can see,
        because every method that reads them calls `load_file` first. */
    constructor (path: string, file: Stored)
      ensures this.path == path && this.file == file && raw == [] && projects == []
    {
      this.path := path;
      this.file := file;
      raw := [];
      projects := [];
    }

    /** `stub_file`: an empty list is written to the path. */
    method StubFile()
      modifies this`file
      ensures file == Entries([])
    {
      file := Entries([]);
    }

    /** `load_file`: stub a missing file, read the entries, stamp the
      file's namespace into each one in place and build the projects. */
    method LoadFile() returns (ps: seq<Project>)
      modifies this
      ensures file == if old(file).Missing? then Entries([]) else old(file)
      ensures raw == Stamped(StoredRecords(old(file)), Namespace(path))
      ensures projects == Loaded(path, old(file)) && ps == projects
    {
      if file.Missing? {
        StubFile();
      }
      var rs := if file.Entries? then file.records else [];
      ghost var entries := rs;
      var ns := Namespace(path);
      ps := [];
      var i := 0;
      while i < |rs|
        invariant 0 <= i <= |rs| == |entries|
        invariant forall j :: 0 <= j < i ==> rs[j] == entries[j]["namespace" := Text(ns)]
        invariant forall j :: i <= j < |rs| ==> rs[j] == entries[j]
        invariant |ps| == i && forall j :: 0 <= j < i ==> ps[j] == FromRecord(rs[j])
      {
        rs := rs[i := rs[i]["namespace" := Text(ns)]];
        ps := ps + [FromRecord(rs[i])];
        i := i + 1;
      }
      assert entries == StoredRecords(old(file));
      assert rs == Stamped(entries, ns);
      assert ps == Loaded(path, old(file));
      raw := rs;
      projects := ps;
    }

    /** `sort!`: the comparison of projects is not part of this model, so
      the result is some rearrangement of the projects. */
    method Sort()
      modifies this`projects
      ensures multiset(projects) == multiset(old(projects))
    {
      var sorted :| multiset(sorted) == multiset(projects);
      projects := sorted;
    }

    /** `compare_and_write(updated)`: reload the file, then write the dump
      of `updated` when it differs from the dump of what was loaded. */
    method CompareAndWrite(updated: seq<Project>, toH: Project -> Record) returns (wrote: bool)
      modifies this
      ensures raw == Stamped(StoredRecords(old(file)), Namespace(path))
      ensures projects == Loaded(path, old(file))
      ensures wrote == ShouldWrite(projects, updated, toH)
      ensures file == if wrote then Entries(Dump(updated, toH))
                      else if old(file).Missing? then Entries([]) else old(file)
    {
      var loaded := LoadFile();
      wrote := Dump(updated, toH) != Dump(loaded, toH);
      if wrote {
        file := Entries(Dump(updated, toH));
      }
    }

    /** `append_project(p)`: load, then compare and write the loaded
      projects with `p` appended. The write always happens, and afterwards
      `projects` holds the reloaded list, without `p`. */
    method AppendProject(p: Project, toH: Project -> Record)
      modifies this
      ensures raw == Stamped(StoredRecords(old(file)), Namespace(path))
      ensures projects == Loaded(path, old(file))
      ensures file == Entries(Dump(Loaded(path, old(file)) + [p], toH))
    {
      var loaded := LoadFile();
      var wrote := CompareAndWrite(loaded + [p], toH);
      AppendWrites(loaded, p, toH);
    }
  }
}
