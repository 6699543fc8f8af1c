# plansheet core in Dafny

plansheet keeps projects in YAML files, one file per namespace. It prints weekly planning sheets from them as LaTeX. This project models the logic at the centre of that program:

- **Durations** (`TimeUtils`, time.dfy).
  - "<n>d" and "<n>w" become day counts.
  - "<n>m", "<x>h" and "<a>h <b>m" become minute counts.
  - Minute counts are rendered canonically as text.
  - Each regular expression the source uses is a hand-written scanner. `MatchAt(p, s, i)` is what the engine finds at start position `i`, and `FirstMatch` takes the leftmost success.
- **Project records** (`Projects`, project.dfy).
  - The constructor's defaults.
  - The status derived from the task lists.
  - The fixed status ranks.
- **Weekly sheet selection** (`WeeklySheet`, weekly.dfy).
  - The greedy packing of projects into a minute budget, an imperative loop proved against the function `InBudget`.
  - The past-due and upcoming-due windows.
  - The tag title transform.
  - The namespace filter that feeds the packing.
- **Project files** (`ProjectYaml`, yaml.dfy).
  - The namespace taken from a file's path.
  - The class `ProjectYamlFile`. Its `LoadFile` stamps that namespace into every entry in place.
  - The noise filter of `yaml_dump`, on maps from key to value.
  - The write-only-if-changed decision of `compare_and_write`, and `append_project`.
- **The pool** (`Pools`, pool.dfy).
  - The class `Pool`: the choice of comparison order, loading of the projects directory, and sorting.
  - The sorted distinct namespaces, filtering by namespace, and the per-namespace write plan, which covers every project exactly once.
- **LaTeX helpers** (`LatexMixins`, latex_utils.dfy).
  - The fixed wrappers, with a block's body as a string argument.
  - The escaping of underscores, with its inverse.

`Wrappers` (Option, Result) and `Collections` (order-keeping selection, concatenation, distinctness, lexicographic order, insertion sort) are general helpers.

Values the program reads from its environment are parameters of the model:

- today's date is a day number, `today`;
- the file system is a `Stored` value per path (`Missing`, `Blank`, `Entries`);
- a directory is a list of `DirEntry`;
- `Project#to_h` is a function parameter `toH`.

## Model

| member | source | states |
|---|---|---|
| TimeUtils.FirstMatch | lib/plansheet/time.rb:6-18 | `String#match`: None exactly when no start position matches; otherwise the groups of the leftmost match |
| TimeUtils.Strip | lib/plansheet/time.rb:6-7 | `String#strip`: exactly the input with its leading and trailing whitespace removed, so no whitespace at either end; a string without edge whitespace is unchanged |
| TimeUtils.MatchAt | lib/plansheet/time.rb:6-18 | a match at position i starts inside the string and has one capture per group of the pattern, each shorter than the string |
| TimeUtils.FirstMatchIs | lib/plansheet/time.rb:6-18 | when position i matches and no earlier one does, `String#match` returns the match at i |
| TimeUtils.ParseDateDuration | lib/plansheet/time.rb:5-10 | raises exactly when neither `(\d+)[dD]` nor `(\d+)[wW]` matches anywhere in the stripped input, and the error names the input |
| TimeUtils.DateViaDays | lib/plansheet/time.rb:6 | when the days pattern matches, the result is its number |
| TimeUtils.DateViaWeeks | lib/plansheet/time.rb:7 | with no days match, a weeks match gives seven times its number |
| TimeUtils.ParseDays | lib/plansheet/time.rb:6 | "<n>d" and "<n>D" parse to n |
| TimeUtils.ParseWeeks | lib/plansheet/time.rb:7 | "<n>w" and "<n>W" parse to 7·n |
| TimeUtils.DaysBeforeWeeks | lib/plansheet/time.rb:6-7 | in "<a>w <b>d" the days branch wins because it is tried first: the result is b, not 7·a |
| TimeUtils.ParseDateDurationError | lib/plansheet/time.rb:9 | a string with no digit raises, naming the input |
| TimeUtils.TimeViaComposite | lib/plansheet/time.rb:13-15 | when "<a>h <b>m" matches, the result is the sum of parsing the two captures (the first error wins) |
| TimeUtils.TimeViaMinutes | lib/plansheet/time.rb:17 | with no composite match, a minutes match gives its number |
| TimeUtils.TimeViaHours | lib/plansheet/time.rb:18 | with neither earlier match, an hours match gives its value in minutes |
| TimeUtils.TimeViaNone | lib/plansheet/time.rb:20 | with no match at all, the call raises and names the input |
| TimeUtils.ParseTimeDuration | lib/plansheet/time.rb:12-21 | a duration that parses contains a digit |
| TimeUtils.ParseTimeDurationErrors | lib/plansheet/time.rb:12-21 | raises exactly when none of the three patterns matches, and the error names the input |
| TimeUtils.ParseTimeDurationError | lib/plansheet/time.rb:20 | a string with no digit raises |
| TimeUtils.ParseComposite | lib/plansheet/time.rb:13-15 | a composite match "<a>h <b>m" parses to 60·a + b |
| TimeUtils.ParseMinutesNumeral | lib/plansheet/time.rb:17 | "<n>m" parses to n |
| TimeUtils.ParseHoursNumeral | lib/plansheet/time.rb:18 | "<n>h" parses to 60·n |
| TimeUtils.ParseDecimalHours | lib/plansheet/time.rb:18 | "<a>.<f>h" parses to 60·a plus the truncated minutes of the fraction |
| TimeUtils.ParseHalfHours | test/test_time.rb:38-39 | "<a>.5h" parses to 60·a + 30, as "1.5h"→90 and "2.5h"→150 |
| TimeUtils.MinutesBeforeHours | lib/plansheet/time.rb:13-17 | "<a>h<b>m" (no space) is no composite, and the minutes branch wins: the result is b |
| TimeUtils.BuildTimeDuration | lib/plansheet/time.rb:23-33 | every rendering ends in "m" or "h" and starts with a digit, or with "-" for a negative count |
| TimeUtils.BuildForms | lib/plansheet/time.rb:23-33 | the three renderings: "<m>m" up to 59, "<m/60>h" for whole hours, "<m/60>h <m%60>m" otherwise |
| TimeUtils.BuildExamples | test/test_time.rb:20-29 | 30→"30m", 60→"1h", 120→"2h", 150→"2h 30m" |
| TimeUtils.BuildParseRoundTrip | lib/plansheet/time.rb:12-33 | for every m ≥ 0, parsing the rendering of m gives m back |
| TimeUtils.BuildInjective | lib/plansheet/time.rb:23-33 | different non-negative counts render differently |
| TimeUtils.NegativeNotRecovered | lib/plansheet/time.rb:31 | a negative count renders with its sign, which no pattern reads: -5 → "-5m" → 5 |
| TimeUtils.NatToString | lib/plansheet/time.rb:26-31 | `Integer#to_s` gives a numeral denoting the number |
| TimeUtils.IntToString | lib/plansheet/time.rb:31 | `Integer#to_s` of a negative number is "-" followed by the numeral of its magnitude |
| TimeUtils.ToI | lib/plansheet/time.rb:6-18 | `String#to_i` on the `\d+` captures the patterns pass it: an all-digit string gives its value; in the model, a string not starting with a digit gives 0 |
| Projects.TextAt | lib/plansheet/project.rb:69-76 | an option is read exactly when it is present and a string |
| Projects.FromRecord | lib/plansheet/project.rb:68-77 | name is the "project" option; tasks and done are the option lists when given, otherwise empty; desc, location, status, namespace, due and time estimate are the options' values when present, otherwise unset |
| Projects.FromRecordFrame | lib/plansheet/project.rb:68-77 | options the constructor does not read do not change the project |
| Projects.DerivedStatus | lib/plansheet/project.rb:82-90 | "wip" iff both lists are non-empty; "planning" iff tasks only; "idea" iff no tasks; nothing else |
| Projects.Status | lib/plansheet/project.rb:79-91 | an explicit status is returned unchanged; otherwise the derived one |
| Projects.StatusRanked | lib/plansheet/project.rb:6-14 | every status in project.rb's schema list has a rank, and so does every derived status, which ranks 1, 4 or 5 |
| Projects.WaitingUnranked | lib/plansheet/project/yaml.rb:41 | an explicit "waiting", which this schema admits and test/test_project.rb:44 expects back, is reported unchanged and has no rank |
| Projects.StatusPriorityOrder | lib/plansheet/project.rb:6-39 | the rank table covers exactly the statuses of project.rb's schema, ranks them 1..7 in that schema's order wip, ready, blocked, planning, idea, dropped, done, and no two share a rank |
| WeeklySheet.Estimate | lib/plansheet/sheet/weekly.rb:113-119 | a project without an estimate costs 120 minutes; otherwise its parsed estimate |
| WeeklySheet.Costs | lib/plansheet/sheet/weekly.rb:118-119 | succeeds exactly when every estimate parses, with one cost per project, each that project's estimate; otherwise the error of the first estimate that fails |
| WeeklySheet.InTime | lib/plansheet/sheet/weekly.rb:114-126 | an unparsable budget is the error; a selection holds no more projects than the input, all from it |
| WeeklySheet.InBudget | lib/plansheet/sheet/weekly.rb:117-125 | succeeds exactly when every project's estimate parses, and then selects no more projects than the input, all from it |
| WeeklySheet.Pack | lib/plansheet/sheet/weekly.rb:117-125 | one take-or-skip decision per project, and the budget left never exceeds the budget given |
| WeeklySheet.ProjectsInTime | lib/plansheet/sheet/weekly.rb:114-126 | the loop's result equals `InTime` on the list (nil read as empty): the budget parsed first, then the greedy selection or the first parse error |
| WeeklySheet.PackInTime | lib/plansheet/sheet/weekly.rb:117-125 | the loop that decrements `t` and appends to `p` computes exactly `InBudget` |
| WeeklySheet.NilSelectsNothing | lib/plansheet/sheet/weekly.rb:115 | an empty (or nil) list selects nothing |
| WeeklySheet.InTimeSubsequence | lib/plansheet/sheet/weekly.rb:114-125 | the selection is a subsequence of the input, in input order |
| WeeklySheet.InTimeBudget | lib/plansheet/sheet/weekly.rb:116-123 | the selected costs sum to the budget minus what remains, so they never exceed the budget |
| WeeklySheet.PackPrefix | lib/plansheet/sheet/weekly.rb:118-124 | the decisions on a prefix are the prefix of the decisions, and the budget only goes down |
| WeeklySheet.PackRule | lib/plansheet/sheet/weekly.rb:120-123 | project i is taken exactly when its cost fits what is left at that point, and taking it lowers the budget by exactly that cost |
| WeeklySheet.PackSkippedDoNotFit | lib/plansheet/sheet/weekly.rb:120 | a skipped project costs more than the budget left at the end |
| WeeklySheet.PastDue | lib/plansheet/sheet/weekly.rb:61-64 | exactly the projects with a due date before today |
| WeeklySheet.UpcomingDue | lib/plansheet/sheet/weekly.rb:71-74 | exactly the projects due from today to seven days on |
| WeeklySheet.DueWindowsDisjoint | lib/plansheet/sheet/weekly.rb:61-74 | no project is in both windows, one without a due date is in neither, and both keep input order |
| WeeklySheet.DowncaseAll | lib/plansheet/sheet/weekly.rb:96 | every character lower-cased, length kept |
| WeeklySheet.ReplaceChar | lib/plansheet/sheet/weekly.rb:96 | `gsub` of one character: each occurrence replaced, everything else kept |
| WeeklySheet.Capitalize | lib/plansheet/sheet/weekly.rb:96 | `String#capitalize`: length kept, first character upper-cased, every other lower-cased |
| WeeklySheet.PrettyTagName | lib/plansheet/sheet/weekly.rb:95-97 | length kept, first character upper-cased, the rest lower-cased, every "_" a space, no "_" left |
| WeeklySheet.NamespaceCandidates | lib/plansheet/sheet/weekly.rb:44 | exactly the projects of the configured namespace |
| WeeklySheet.NamespaceSelectionOnly | lib/plansheet/sheet/weekly.rb:43-45 | what a namespace's minipage gets from `projects_in_time` is only projects of that namespace |
| ProjectYaml.Basename | lib/plansheet/project/yaml.rb:184 | a path without "/" is its own basename |
| ProjectYaml.BasenameAfterSlash | lib/plansheet/project/yaml.rb:184 | the basename of "dir/base" is base |
| ProjectYaml.StripYml | lib/plansheet/project/yaml.rb:184 | the result is never longer; a name without "." is unchanged |
| ProjectYaml.StripYmlSuffix | lib/plansheet/project/yaml.rb:184 | `gsub(/\.yml$/, "")` removes a final ".yml" |
| ProjectYaml.Namespace | lib/plansheet/project/yaml.rb:182-185 | never longer than the path; a bare name without "/" or "." is its own namespace |
| ProjectYaml.NamespaceOfWritePath | lib/plansheet/project/yaml.rb:182-185 | the namespace of "dir/ns.yml" is ns |
| ProjectYaml.DumpFilter | lib/plansheet/project/yaml.rb:224-229 | "namespace" always removed; "priority" removed iff "low"; "status" removed iff "idea"; every other entry kept unchanged, and nothing added |
| ProjectYaml.DumpFilterIdempotent | lib/plansheet/project/yaml.rb:224-229 | filtering twice is filtering once |
| ProjectYaml.StampIsNoise | lib/plansheet/project/yaml.rb:176-226 | the namespace `load_file` stamps in never reaches a dump |
| ProjectYaml.ReloadedStatus | lib/plansheet/project/yaml.rb:228 | a dumped entry reloads with the same status except when an explicit "idea" is dropped from a project with tasks |
| ProjectYaml.Dump | lib/plansheet/project/yaml.rb:221-231 | one filtered hash per project, in order |
| ProjectYaml.ShouldWrite | lib/plansheet/project/yaml.rb:214 | a write happens exactly when the lists differ in length or some position's filtered hashes differ |
| ProjectYaml.NoiseOnlyNoWrite | lib/plansheet/project/yaml.rb:214 | changes confined to noise never cause a write |
| ProjectYaml.AppendWrites | lib/plansheet/project/yaml.rb:202-205 | appending a project always changes the dump |
| ProjectYaml.Stamped | lib/plansheet/project/yaml.rb:175-176 | same number of entries; each has the namespace; its keys are the stored keys plus "namespace", and every other key keeps its value |
| ProjectYaml.Loaded | lib/plansheet/project/yaml.rb:174-178 | one project per stored entry, each with the file's namespace |
| ProjectYaml.ProjectYamlFile.constructor | lib/plansheet/project/yaml.rb:154-157 | the object remembers its path; nothing loaded yet |
| ProjectYaml.ProjectYamlFile.StubFile | lib/plansheet/project/yaml.rb:159-161 | the file then holds an empty list |
| ProjectYaml.ProjectYamlFile.LoadFile | lib/plansheet/project/yaml.rb:163-180 | a missing file is stubbed; the raw entries are the stored ones with the namespace stamped in; the projects (also returned) are built from them |
| ProjectYaml.ProjectYamlFile.Sort | lib/plansheet/project/yaml.rb:198-200 | the projects are rearranged, none gained or lost |
| ProjectYaml.ProjectYamlFile.CompareAndWrite | lib/plansheet/project/yaml.rb:207-219 | reloads, so the raw entries are the stored ones stamped with the namespace; writes the dump of the new list exactly when it differs from the dump of what was loaded; otherwise the file is untouched |
| ProjectYaml.ProjectYamlFile.AppendProject | lib/plansheet/project/yaml.rb:202-205 | reloads the raw entries as `load_file` does; the file ends up holding the dump of the loaded projects plus the new one |
| Pools.ComparisonOrder | lib/plansheet/pool.rb:8-30 | the configured sort order when given, else the default [completeness, dependency, priority, defer, due, status] |
| Pools.Glob | lib/plansheet/pool.rb:61 | exactly the entries whose names match `*yml`, in listing order |
| Pools.Join | lib/plansheet/pool.rb:63 | `File.join`: one "/" between directory and name |
| Pools.JoinBasename | lib/plansheet/pool.rb:63 | the basename of a joined path is the file name |
| Pools.LoadedEntry | lib/plansheet/pool.rb:63 | every project of a file carries that file's namespace |
| Pools.FileProjects | lib/plansheet/pool.rb:60-64 | one list of projects per matching file |
| Pools.FlattenBang | lib/plansheet/pool.rb:66 | `flatten!` gives nil exactly for an empty array, else the concatenation |
| Pools.LoadProjectsDirAsWritten | lib/plansheet/pool.rb:59-67 | as written: nil exactly when no file matches `*yml`, otherwise the projects of the matching files, file by file |
| Pools.EmptyDirectoryLeavesNil | lib/plansheet/pool.rb:59-67 | as written, the pool's projects are nil exactly when no file matches |
| Pools.FileProjectsNamespaces | lib/plansheet/pool.rb:59-67 | every loaded project carries the namespace of a file it came from |
| Pools.DirProjects | lib/plansheet/pool.rb:59-67 | every loaded project has a namespace, that of some matching file |
| Pools.DirProjectsAgrees | lib/plansheet/pool.rb:66 | the corrected loading agrees with the source whenever a file matches, and gives an empty list when none does |
| Pools.LoadedNamespace | lib/plansheet/pool.rb:53-63 | the file written for a namespace loads back under that namespace |
| Pools.NamespacesOf | lib/plansheet/pool.rb:41 | `collect(&:namespace)`: one namespace per project, in order |
| Pools.ProjectNamespaces | lib/plansheet/pool.rb:40-42 | strictly ascending (sorted, no duplicates); contains exactly the namespaces of the projects |
| Pools.ProjectsInNamespace | lib/plansheet/pool.rb:44-46 | exactly the projects with that namespace, in original order, each as often as in the pool |
| Pools.Groups | lib/plansheet/pool.rb:52-54 | one group per namespace, each the projects of that namespace |
| Pools.GroupsCount | lib/plansheet/pool.rb:52-54 | the first k groups hold a project as often as the pool does when its namespace is among the first k, else never |
| Pools.GroupsPermutation | lib/plansheet/pool.rb:40-56 | the groups over distinct namespaces covering the pool are a rearrangement of the pool |
| Pools.WritePlan | lib/plansheet/pool.rb:48-57 | one file per namespace: path "<dir>/<ns>.yml" holding that namespace's projects |
| Pools.WritePlanCovers | lib/plansheet/pool.rb:40-56 | the files written together hold every project exactly once |
| Pools.WritePlanPaths | lib/plansheet/pool.rb:53-54 | each file's path yields its namespace, and it holds only projects of that namespace |
| Pools.Pool.constructor | lib/plansheet/pool.rb:17-34 | the comparison order is chosen; the projects are a rearrangement of all projects of the directory; every project has a namespace |
| Pools.Pool.LoadProjectsDir | lib/plansheet/pool.rb:59-67 | the loop over the matching files leaves the pool holding exactly their projects, file by file, in listing order, every one with a namespace |
| Pools.Pool.SortProjects | lib/plansheet/pool.rb:36-38 | the projects are rearranged, none gained or lost, and every project still has a namespace |
| LatexMixins.Vspace | lib/plansheet/sheet/latex_utils.rb:8-10 | "\vspace{" + space + "}\n" |
| LatexMixins.WriteinLine | lib/plansheet/sheet/latex_utils.rb:12-14 | "$\underline{\hspace{" + space + "}}$" |
| LatexMixins.CheckboxItem | lib/plansheet/sheet/latex_utils.rb:16-18 | "$\square$ " + str |
| LatexMixins.Vbox | lib/plansheet/sheet/latex_utils.rb:20-26 | the body between "\vbox{" and "}" lines |
| LatexMixins.Document | lib/plansheet/sheet/latex_utils.rb:28-34 | the body between "\begin{document}" and "\end{document}" lines |
| LatexMixins.Minipage | lib/plansheet/sheet/latex_utils.rb:36-42 | the size in "\begin{minipage}{size}", then the body, then "\end{minipage}" |
| LatexMixins.WrappersInjective | lib/plansheet/sheet/latex_utils.rb:8-42 | all six wrappers lose nothing: equal output means equal argument (space, string or body) |
| LatexMixins.Sanitize | lib/plansheet/sheet/latex_utils.rb:44-46 | length grows by the number of "_"; a string without "_" is unchanged |
| LatexMixins.SanitizeChar | lib/plansheet/sheet/latex_utils.rb:45 | "_" becomes "\_"; every other character stays |
| LatexMixins.SanitizeConcat | lib/plansheet/sheet/latex_utils.rb:45 | escaping distributes over concatenation |
| LatexMixins.SanitizeEscapes | lib/plansheet/sheet/latex_utils.rb:45 | every "_" of the output has a backslash before it |
| LatexMixins.UnsanitizeSanitize | lib/plansheet/sheet/latex_utils.rb:44-46 | the escaping can be undone exactly, so no two strings escape alike |

## Left out

- Float arithmetic: `(x.to_f * 60).to_i` in time.rb:18 is exact decimal arithmetic, truncated. For fractions other than ".5", float rounding may differ by a minute. Whole and half hours agree with Ruby only while the product is exactly representable: n hours give 60·n, exact in a double while 15·n ≤ 2^53 (about 6·10^14 hours).
- BuildParseRoundTrip: holds in exact arithmetic. For counts above about 3.6·10^16 minutes, Ruby's `to_f` rounds and the parsed value can differ from the count.
- BuildParseRoundTrip: stated for m ≥ 0 only. NegativeNotRecovered shows why: a negative count does not come back.
- The ranking of projects (`Project#<=>`, the `compare_*` comparators, due/defer/recurrence, dependencies) is not part of any modelled file. So `sort_projects` and `sort!` are modelled only as "some rearrangement". The constructor therefore promises the directory's projects as a multiset, not in a particular order.
- `Project#namespace`, `#due` and `#time_estimate` are used by pool.rb and weekly.rb but are not defined in project.rb. The model reads them from the entry's "namespace", "due" and "time_estimate" keys.
- "waiting" is admitted by the schema in project/yaml.rb:41 and expected by test/test_project.rb:44, but `PROJECT_STATUS_PRIORITY` (project.rb:6-14) gives it no rank. WaitingUnranked states this; a comparison on the rank of such a project is not modelled.
- Status follows project.rb:79-91 ("planning" and "idea"), not test/test_project.rb:50-51, which expects "ready" and "done".
- PROJECT_YAML_SCHEMA and `validate_schema` (Kwalify) are left out. Schema errors would abort; the model assumes valid entries.
- YAML text is left out.
  - `yaml_dump` is modelled as the key filter on maps, and ShouldWrite compares those maps. The source compares YAML text, which also depends on key insertion order and formatting, so two equal filtered maps can still dump differently and cause a write.
  - `Project#to_h` (not defined in the modelled files) is the parameter `toH`.
  - The Diffy diff and the console messages are output only.
- File system, `Dir.glob` and `Date.today`.
  - Files are `Stored` values and directories are `DirEntry` lists; today is an integer day number.
  - `Dir.glob` sorts its results; the model keeps listing order. The constructor promises only a rearrangement of the directory's projects, so this order affects no stated contract. Whether Ruby's `sort!` (not stable) leaves ties in glob order depends on `Project#<=>`, which no modelled file defines.
- `write_projects` calls `pyf.write`, which ProjectYAMLFile does not define. It is modelled as its plan: which file receives which projects (WritePlan).
- WritePlanPaths: stated for namespaces without "/" or a newline.
- NamespaceOfWritePath: stated for namespaces without "/" or a newline. A "/" splits the path; a newline lets `$` match before the end of the line.
- LoadedNamespace: the same restriction.
- `const_set("POOL_COMPARISON_ORDER", …)` is a field, `comparisonOrder`, set once by the constructor.
- The `projects` writer of `attr_accessor` is not modelled. `Pool.Valid` (every project has a namespace) holds after construction.
- The weekly sheet's layout is left out: `initialize`, `tag_minipages`, `works_in_progress`, `external_commits`, `event_writeins`, `project_minipage`, `week_line` and the newline-count `sort_by`.
- `recurring_defer` calls `last_for_deferral`, which no modelled file defines.
- ToI: only the digit runs that the duration patterns capture are modelled. Ruby's `to_i` also skips leading whitespace, reads a leading "+" or "-" and accepts "_" between digits (`" 5"`, `"-5"`, `"+5"`, `"1_000"` give 5, -5, 5, 1000), where the model gives 0, 0, 0 and 1. No call site passes such text.
- `Capitalize`, `DowncaseAll`: ASCII letters only. Ruby's `capitalize` also maps other alphabets.
- `HARD_NL` is the constant `LatexMixins.HardNl`. It has no contract to state.

## Findings

| source | as written | input that shows it | evidently intended | confidence | as-written member | corrected member |
|---|---|---|---|---|---|---|
| lib/plansheet/pool.rb:66 | `@projects = project_arr.flatten!`; `flatten!` returns nil when it changes nothing, so an empty array gives nil | a projects directory with no file matching `*yml`: the pool's projects are nil, and `sort_projects` then calls `sort!` on nil | an empty pool | not executed | Pools.EmptyDirectoryLeavesNil | Pools.DirProjects |
