/** The pool (lib/plansheet/pool.rb): all projects of the projects
    directory, loaded file by file, grouped by namespace and written back
    one file per namespace. */
module Pools {
  import opened Wrappers
  import opened Collections
  import opened Projects
  import opened ProjectYaml

  /** `DEFAULT_COMPARISON_ORDER`. */
  const DefaultComparisonOrder: seq<string> := ["completeness", "dependency", "priority", "defer", "due", "status"]

  /** The value `initialize` gives `POOL_COMPARISON_ORDER`: the configured
      sort order when there is one, else the default. */
  function ComparisonOrder(sortOrder: Option<seq<string>>): (r: seq<string>)
    ensures sortOrder.Some? ==> r == sortOrder.value
    ensures sortOrder.None? ==> r == DefaultComparisonOrder
    ensures |r| == if sortOrder.Some? then |sortOrder.value| else 6
  {
    match sortOrder
    case Some(order) => order
    case None => DefaultComparisonOrder
  }

  // ----- the projects directory -----

  /** An entry of the projects directory: its name and what it holds. */
  datatype DirEntry = DirEntry(name: string, stored: Stored)

  /** `Dir.glob("*yml")`: names ending in "yml" that do not start with a
      dot (a leading `*` does not match hidden files). */
  predicate GlobMatch(name: string) {
    |name| >= 3 && name[|name| - 3..] == "yml" && name[0] != '.'
  }

  function Glob(listing: seq<DirEntry>): (r: seq<DirEntry>)
    ensures forall e :: e in r <==> e in listing && GlobMatch(e.name)
    ensures IsSubsequence(r, listing)
  {
    SelectIsPicked(listing, (e: DirEntry) => GlobMatch(e.name));
    Select(listing, (e: DirEntry) => GlobMatch(e.name))
  }

  /** `File.join(dir, name)` for a name without a leading '/'. */
  function Join(dir: string, name: string): (r: string)
    ensures |dir| > 0 && dir[|dir| - 1] == '/' ==> r == dir + name
    ensures (|dir| == 0 || dir[|dir| - 1] != '/') ==> r == dir + "/" + name
  {
    if |dir| > 0 && dir[|dir| - 1] == '/' then dir + name else dir + "/" + name
  }

  /** A file name without '/' is the basename of the joined path. */
  lemma JoinBasename(dir: string, name: string)
    requires name != [] && '/' !in name
    ensures Basename(Join(dir, name)) == name
  {
    if |dir| > 0 && dir[|dir| - 1] == '/' {
      var d := dir[..|dir| - 1];
      assert dir == d + "/";
      assert Join(dir, name) == d + "/" + name;
      BasenameAfterSlash(d, name);
    } else {
      BasenameAfterSlash(dir, name);
    }
  }

  /** What `load_file` returns for the directory entry `e`. */
  function LoadedEntry(dir: string, e: DirEntry): (ps: seq<Project>)
    ensures forall p :: p in ps ==> p.namespace == Some(Namespace(Join(dir, e.name)))
  {
    Loaded(Join(dir, e.name), e.stored)
  }

  /** What `load_file` returns for each matching file, in glob order. */
  function FileProjects(dir: string, files: seq<DirEntry>): (r: seq<seq<Project>>)
    ensures |r| == |files|
  {
    if files == [] then [] else FileProjects(dir, files[..|files| - 1]) + [LoadedEntry(dir, files[|files| - 1])]
  }

  lemma FileProjectsSnoc(dir: string, files: seq<DirEntry>, k: nat)
    requires k < |files|
    ensures FileProjects(dir, files[..k + 1]) ==
      FileProjects(dir, files[..k]) + [LoadedEntry(dir, files[k])]
  {
    assert files[..k + 1][..k] == files[..k];
  }

  /** `flatten!` on a list whose elements are all lists: it returns nil
      exactly when it changed nothing, which here means the list is empty. */
  function FlattenBang(xss: seq<seq<Project>>): (r: Option<seq<Project>>)
    ensures r.None? <==> xss == []
    ensures r.Some? ==> r.value == Concat(xss)
  {
    if xss == [] then None else Some(Concat(xss))
  }

  /** `load_projects_dir` as written: `@projects` is the value of
      `flatten!`. */
  function LoadProjectsDirAsWritten(dir: string, listing: seq<DirEntry>): (r: Option<seq<Project>>)
    ensures r.None? <==> Glob(listing) == []
    ensures r.Some? ==> r.value == Concat(FileProjects(dir, Glob(listing)))
  {
    FlattenBang(FileProjects(dir, Glob(listing)))
  }

  /** `@projects` is left nil exactly when the directory holds no "*yml"
      file; the `sort_projects` that follows then calls `sort!` on nil. */
  lemma EmptyDirectoryLeavesNil(dir: string, listing: seq<DirEntry>)
    ensures LoadProjectsDirAsWritten(dir, listing).None? <==> forall e :: e in listing ==> !GlobMatch(e.name)
  {
    var files := Glob(listing);
    if files != [] {
      assert files[0] in files;
    }
  }

  /** Every project loaded from `files` carries the namespace of the file
      it came from. */
  lemma {:induction false} FileProjectsNamespaces(dir: string, files: seq<DirEntry>)
    ensures forall p :: p in Concat(FileProjects(dir, files)) ==>
      exists e :: e in files && p.namespace == Some(Namespace(Join(dir, e.name)))
  {
    if files != [] {
      var init := files[..|files| - 1];
      var last := files[|files| - 1];
      FileProjectsNamespaces(dir, init);
      ConcatSnoc(FileProjects(dir, init), LoadedEntry(dir, last));
      forall p | p in Concat(FileProjects(dir, files))
        ensures exists e :: e in files && p.namespace == Some(Namespace(Join(dir, e.name)))
      {
        if p in LoadedEntry(dir, last) {
          assert last in files;
        } else {
          var e :| e in init && p.namespace == Some(Namespace(Join(dir, e.name)));
          assert e in files;
        }
      }
    }
  }

  /** The projects the directory holds: every loaded file's projects, one
      file after the other (`flatten`, the projects of no file at all being
      the empty list). Each carries the namespace of a matching file. */
  function DirProjects(dir: string, listing: seq<DirEntry>): (r: seq<Project>)
    ensures forall p :: p in r ==> p.namespace.Some?
    ensures forall p :: p in r ==>
      exists e :: e in listing && GlobMatch(e.name) && p.namespace == Some(Namespace(Join(dir, e.name)))
  {
    FileProjectsNamespaces(dir, Glob(listing));
    Concat(FileProjects(dir, Glob(listing)))
  }

  /** The corrected load agrees with the written one whenever a file
      matches, and yields no projects for a directory without one. */
  lemma DirProjectsAgrees(dir: string, listing: seq<DirEntry>)
    ensures Glob(listing) != [] ==> LoadProjectsDirAsWritten(dir, listing) == Some(DirProjects(dir, listing))
    ensures Glob(listing) == [] ==> DirProjects(dir, listing) == []
  {
  }

  /** The file "<dir>/<ns>.yml" gives its projects the namespace `ns`. */
  lemma LoadedNamespace(dir: string, ns: string)
    requires '/' !in ns && '\n' !in ns
    ensures Namespace(Join(dir, ns + ".yml")) == ns
  {
    var base := ns + ".yml";
    forall j | 0 <= j < |base| ensures base[j] != '/' {
      if j < |ns| { assert base[j] == ns[j]; }
    }
    JoinBasename(dir, base);
    StripYmlSuffix(ns);
  }

  // ----- namespaces and grouping -----

  /** Every project has a namespace, as every loaded project does. */
  predicate AllNamespaced(projects: seq<Project>) {
    forall p :: p in projects ==> p.namespace.Some?
  }

  /** `@projects.collect(&:namespace)`. */
  function NamespacesOf(projects: seq<Project>): (r: seq<string>)
    requires AllNamespaced(projects)
    ensures |r| == |projects|
    ensures forall i :: 0 <= i < |projects| ==> projects[i].namespace == Some(r[i])
  {
    seq(|projects|, i requires 0 <= i < |projects| => projects[i].namespace.value)
  }

  /** `project_namespaces`: each namespace once, in ascending order, and
      exactly the namespaces the projects carry. */
  function ProjectNamespaces(projects: seq<Project>): (r: seq<string>)
    requires AllNamespaced(projects)
    ensures StrictlyAscending(r)
    ensures forall ns :: ns in r <==> Some(ns) in set p | p in projects :: p.namespace
  {
    var all := NamespacesOf(projects);
    SortDistinct(Uniq(all));
    var r := Sort(Uniq(all));
    assert forall ns :: ns in r <==> Some(ns) in set p | p in projects :: p.namespace by {
      forall ns ensures ns in r <==> Some(ns) in set p | p in projects :: p.namespace {
        if ns in r {
          var i :| 0 <= i < |all| && all[i] == ns;
          assert projects[i] in projects;
        }
        if Some(ns) in set p | p in projects :: p.namespace {
          var p :| p in projects && p.namespace == Some(ns);
          var i :| 0 <= i < |projects| && projects[i] == p;
          assert all[i] == ns;
        }
      }
    }
    r
  }

  /** `projects_in_namespace(ns)`: the projects of that namespace, all of
      them, in their order in `projects`. */
  function ProjectsInNamespace(projects: seq<Project>, ns: Option<string>): (r: seq<Project>)
    ensures forall p :: p in r <==> p in projects && p.namespace == ns
    ensures IsSubsequence(r, projects)
    ensures forall p :: multiset(r)[p] == if p.namespace == ns then multiset(projects)[p] else 0
  {
    SelectIsPicked(projects, (p: Project) => p.namespace == ns);
    forall p
      ensures multiset(Select(projects, (p: Project) => p.namespace == ns))[p] ==
        if p.namespace == ns then multiset(projects)[p] else 0
    {
      SelectCount(projects, (p: Project) => p.namespace == ns, p);
    }
    Select(projects, (p: Project) => p.namespace == ns)
  }

  /** The groups `write_projects` writes, one per namespace of `nss`. */
  function Groups(projects: seq<Project>, nss: seq<string>): (r: seq<seq<Project>>)
    ensures |r| == |nss|
    ensures forall i :: 0 <= i < |nss| ==> r[i] == ProjectsInNamespace(projects, Some(nss[i]))
  {
    seq(|nss|, i requires 0 <= i < |nss| => ProjectsInNamespace(projects, Some(nss[i])))
  }

  /** Over the first `k` namespaces of a list without repeats, a project
      occurs as often as in `projects` when its namespace is among them,
      and not at all otherwise. */
  lemma {:induction false} GroupsCount(projects: seq<Project>, nss: seq<string>, k: nat, x: Project)
    requires Distinct(nss) && k <= |nss|
    ensures multiset(Concat(Groups(projects, nss)[..k]))[x] ==
      if x.namespace.Some? && x.namespace.value in nss[..k] then multiset(projects)[x] else 0
  {
    var gs := Groups(projects, nss);
    if k == 0 {
      assert gs[..0] == [];
    } else {
      GroupsCount(projects, nss, k - 1, x);
      ConcatPrefix(gs, k);
      var here := multiset(gs[k - 1])[x];
      assert here == if x.namespace == Some(nss[k - 1]) then multiset(projects)[x] else 0;
      assert multiset(Concat(gs[..k]))[x] == multiset(Concat(gs[..k - 1]))[x] + here;
      SliceSnoc(nss, k - 1);
      if x.namespace == Some(nss[k - 1]) {
        assert nss[k - 1] !in nss[..k - 1];
      }
    }
  }

  /** Writing the group of each namespace of a list without repeats that
      covers every project's namespace writes every project exactly as often
      as it occurs. */
  lemma GroupsPermutation(projects: seq<Project>, nss: seq<string>)
    requires Distinct(nss)
    requires forall p :: p in projects ==> p.namespace.Some? && p.namespace.value in nss
    ensures multiset(Concat(Groups(projects, nss))) == multiset(projects)
  {
    var gs := Groups(projects, nss);
    assert gs[..|nss|] == gs;
    assert nss[..|nss|] == nss;
    forall x ensures multiset(Concat(gs))[x] == multiset(projects)[x] {
      GroupsCount(projects, nss, |nss|, x);
    }
  }

  /** `write_projects`: for each namespace, the path it writes and the
      projects it assigns to that file. */
  function WritePlan(projectsDir: string, projects: seq<Project>): (plan: seq<(string, seq<Project>)>)
    requires AllNamespaced(projects)
    ensures |plan| == |ProjectNamespaces(projects)|
    ensures forall i :: 0 <= i < |plan| ==>
      plan[i].0 == projectsDir + "/" + ProjectNamespaces(projects)[i] + ".yml" &&
      plan[i].1 == ProjectsInNamespace(projects, Some(ProjectNamespaces(projects)[i]))
  {
    var nss := ProjectNamespaces(projects);
    seq(|nss|, i requires 0 <= i < |nss| => (projectsDir + "/" + nss[i] + ".yml", ProjectsInNamespace(projects, Some(nss[i]))))
  }

  /** The projects of all the written files. */
  function Written(plan: seq<(string, seq<Project>)>): (r: seq<seq<Project>>)
    ensures |r| == |plan| && forall i :: 0 <= i < |plan| ==> r[i] == plan[i].1
  {
    seq(|plan|, i requires 0 <= i < |plan| => plan[i].1)
  }

  /** `write_projects` writes every project exactly once overall: the files
      together hold a permutation of the pool. */
  lemma WritePlanCovers(projectsDir: string, projects: seq<Project>)
    requires AllNamespaced(projects)
    ensures multiset(Concat(Written(WritePlan(projectsDir, projects)))) == multiset(projects)
  {
    var nss := ProjectNamespaces(projects);
    SortDistinct(Uniq(NamespacesOf(projects)));
    assert Written(WritePlan(projectsDir, projects)) == Groups(projects, nss);
    forall p | p in projects ensures p.namespace.Some? && p.namespace.value in nss {
      assert Some(p.namespace.value) in set q | q in projects :: q.namespace;
    }
    GroupsPermutation(projects, nss);
  }

  /** The file each group goes to gives its projects back their namespace
      when reloaded. */
  lemma WritePlanPaths(projectsDir: string, projects: seq<Project>, i: nat)
    requires AllNamespaced(projects) && i < |ProjectNamespaces(projects)|
    requires '/' !in ProjectNamespaces(projects)[i] && '\n' !in ProjectNamespaces(projects)[i]
    ensures Namespace(WritePlan(projectsDir, projects)[i].0) == ProjectNamespaces(projects)[i]
    ensures forall p :: p in WritePlan(projectsDir, projects)[i].1 ==> p.namespace == Some(ProjectNamespaces(projects)[i])
  {
    NamespaceOfWritePath(projectsDir, ProjectNamespaces(projects)[i]);
  }

  // ----- the pool object -----

  class Pool {
    const projectsDir: string
    const sortOrder: Option<seq<string>>
    /** `POOL_COMPARISON_ORDER`, set once by the constructor. */
    const comparisonOrder: seq<string>
    var projects: seq<Project>

    /** Every project in the pool has a namespace. */
    predicate Valid()
      reads this
    {
      AllNamespaced(projects)
    }

    /** `Pool.new(config)`: choose the comparison order, load the projects
        directory, then sort. */
    constructor (projectsDir: string, sortOrder: Option<seq<string>>, listing: seq<DirEntry>)
      ensures this.projectsDir == projectsDir && this.sortOrder == sortOrder
      ensures comparisonOrder == ComparisonOrder(sortOrder)
      ensures multiset(projects) == multiset(DirProjects(projectsDir, listing))
      ensures Valid()
    {
      this.projectsDir := projectsDir;
      this.sortOrder := sortOrder;
      comparisonOrder := ComparisonOrder(sortOrder);
      projects := [];
      new;
      LoadProjectsDir(projectsDir, listing);
      SortProjects();
    }

    /** `load_projects_dir(dir)`: load every matching file, in listing
        order, and flatten the lists of projects. */
    method LoadProjectsDir(dir: string, listing: seq<DirEntry>)
      modifies this`projects
      ensures projects == DirProjects(dir, listing)
      ensures Valid()
    {
      var files := Glob(listing);
      var arr: seq<seq<Project>> := [];
      for k := 0 to |files|
        invariant arr == FileProjects(dir, files[..k])
      {
        var pyf := new ProjectYamlFile(Join(dir, files[k].name), files[k].stored);
        var ps := pyf.LoadFile();
        FileProjectsSnoc(dir, files, k);
        arr := arr + [ps];
      }
      assert files[..|files|] == files;
      projects := Concat(arr);
    }

    /** `sort_projects`: the comparison of projects is not part of this
        model, so the result is some rearrangement of the projects. */
    method SortProjects()
      requires Valid()
      modifies this`projects
      ensures multiset(projects) == multiset(old(projects))
      ensures Valid()
    {
      var sorted :| multiset(sorted) == multiset(projects);
      assert forall p :: p in sorted ==> p in multiset(projects);
      projects := sorted;
    }
  }
}
