# python-dependency-checker: the requirement analysis, in Dafny

This project models the requirement analysis of `app.py`, the Flask
service that checks a pasted `requirements.txt`. Once the PyPI lookup is a
fixed registry map (package name to release keys, latest version and
`requires_dist`), this analysis is deterministic string processing. The
model covers:

- `parse_dependencies`: strip the text, split it on newlines, strip every
  line, and drop blank lines and `#` comments (module `Specifier`).
- The name / operator / version split of a requirement line. The name is
  the chain `split('==')[0].split('>=')[0]…split('~=')[0].strip()`. The
  `if/elif` ladder picks the first of `== >= <= > < ~=` found anywhere in
  the line and takes `split(op)[1]` as the version (module `Specifier`).
- `extract_requirements_from_metadata`: drop the `;` environment marker and
  keep the first space-separated token (module `Metadata`).
- `check_package_conflict`, which short-circuits through `missing_package`,
  then `version_not_found`, then the duplicate loop, then the dependency
  loop (module `Conflicts`). The dependency loop is modelled faithfully,
  including the two places where the unused `suggested_version` computation
  could raise. It is then proved dead.
- `detect_conflicts_parallel` as a fold over the per-requirement results in
  a completion order, which is a parameter. Its results are proved equal up
  to permutation for any two orders (module `Conflicts`).
- `get_limited_dependency_tree` (module `DependencyTree`).
- The fixed-requirements merge of the `check_dependencies` handler, lifted
  out as its own function. Python's insertion-ordered `dict` becomes an
  association list (module `Fixes`).
- The handler's analysis pipeline: parse, detect, build the tree, merge the
  fixes (module `Analysis`).

Module `Text` holds the Python string primitives the rest is built from:

- `str.strip()`, with the exact `str.isspace` code points;
- the substring test `sub in s`;
- `split(sep)[0]`, `split(sep)[1]` and `split('\n')`;
- the code-point order of `<` on `str`.

Module `Wrappers` holds `Option` and `Result`.

Behaviours of the code worth noting:

- Two requirements that pin one known package to different versions are
  reported twice, once from each side, with the same suggested pin, when
  both pinned versions are listed releases
  (`Conflicts.DuplicatesReportedFromBothSides`, app.py:136-158). A pin to an
  unlisted version returns `version_not_found` first (app.py:116-130), so
  that line reports nothing against its partner, and the clash is then
  reported from the other side only.
- `dependency_conflict` is never emitted (app.py:161-193). A declared
  dependency's name is its first space-separated token (app.py:72), so it holds no space, and the loop
  compares that token with a requirement's package name. Whenever the bound
  test (`'<' in dep or '>' in dep`) could hold, the token still carries the
  `<` or `>`, which no package name contains. So no input reaches the
  conflict, and the `int(minor)` crash behind it is never reached
  (`Conflicts.DependencyScanInert`, `Conflicts.CheckFindings`).
- The "fixed requirements" are not always one per input line. There is one
  entry per distinct package name over the requirements and then the
  suggestions, so two lines naming one package collapse. A suggestion whose
  own name parses differently adds an entry (`Fixes.FixedRequirements`,
  app.py:318-334).

## Model

| member | source | states |
|---|---|---|
| Text.Trim | app.py:32 | `strip()` never lengthens a line and leaves no whitespace at either end |
| Text.TrimSlice | app.py:30-32 | `strip()` keeps one contiguous slice of the text and drops only whitespace around it |
| Text.TrimIgnoresSpaceEnds | app.py:30-32 | whitespace added at either end of a string never changes its `strip()` |
| Text.TrimTrimmed | app.py:32 | `strip()` leaves a string that is already stripped unchanged |
| Text.Find | app.py:85-102 | `s.find(sub)` gives the first occurrence of `sub`, or none when `sub` occurs nowhere |
| Text.ContainsChar | app.py:66 | the substring test with a one-character needle is plain character membership |
| Text.Before | app.py:83 | `split(sep)[0]` is the prefix before the first `sep`: no occurrence of `sep` starts inside it, one starts right after it unless it is the whole string, and it is the whole string exactly when `sep` is absent |
| Text.After | app.py:87 | `split(sep)[1]` is the text that starts right after the first `sep` and ends at the second `sep` or the end: no occurrence of `sep` starts inside it, and it holds no `sep` |
| Text.BeforeCharIndex | app.py:72 | for a one-character separator, `split(c)[0]` is the prefix up to the first `c`, or the whole string |
| Text.StrLessTransitive | app.py:157 | Python's string order is transitive |
| Text.StrLessTotal | app.py:157 | any two different strings are ordered one way or the other |
| Text.StrLessAsymmetric | app.py:157 | Python's string order is asymmetric |
| Text.StrMax | app.py:156-158 | the first element of a reverse-sorted pair is one of the two strings and below neither |
| Text.StrMaxStrict | app.py:156-158 | for two different versions, the chosen one is strictly above the other, and the choice does not depend on which side is `this_version` |
| Text.LinesJoin | app.py:30 | `split('\n')` loses nothing: joining the pieces with newlines gives the text back |
| Text.LinesAppend | app.py:30 | splitting a concatenation glues the last piece of the left part to the first piece of the right part |
| Specifier.ParseDependencies | app.py:27-38 | every returned line is non-empty, does not start with `#`, and is stripped |
| Specifier.EntriesShape | app.py:32-36 | every kept line is a non-blank, non-comment, stripped line |
| Specifier.EntriesMembership | app.py:30-36 | a string is kept exactly when it is the stripped form of some input line and is neither blank nor a comment |
| Specifier.EntriesAppend | app.py:30-36 | lines are filtered one by one, in input order: the kept lines of a concatenation are the kept lines of each part, concatenated |
| Specifier.EntriesSingle | app.py:32-36 | one line yields its stripped form when that is an entry, and nothing otherwise |
| Specifier.EntriesSpaceBefore | app.py:30 | whitespace in front of the text changes no kept line |
| Specifier.EntriesSpaceAfter | app.py:30 | whitespace after the text changes no kept line |
| Specifier.ParseDependenciesLines | app.py:30-36 | the up-front `strip()` of the whole text changes nothing: the result is the kept lines of the raw text, in order |
| Specifier.CutAllRemoves | app.py:83 | after the chain of `split(op)[0]` cuts no separator is left, and a string holding none of them is not cut |
| Specifier.NameCutNoOperator | app.py:83 | the cut prefix holds no operator, and a line without operators is not cut |
| Specifier.PackageName | app.py:83 | the name is the stripped form of a prefix of the line, holds no `==`, `~=`, `<` or `>`, and is the whole stripped line when the line has no operator |
| Specifier.SplitConstraint | app.py:84-102 | a constraint is found exactly when some operator occurs; it is the first of `== >= <= > < ~=` that occurs anywhere, and the version is the text between that operator's first and second occurrence |
| Specifier.LadderOp | app.py:85-102 | the ladder settles on an operator exactly when some operator occurs, and on the first of `== >= <= > < ~=` that does |
| Specifier.SplitConstraintFirst | app.py:85-102 | conversely, the first operator of the ladder that occurs in the line is the one chosen |
| Specifier.NameRoundTrip | app.py:83 | the name of a printed requirement `name<op>version` (no operator characters in name or version) is the stripped name |
| Specifier.VersionRoundTrip | app.py:87-102 | the text after the operator of a printed requirement is its version |
| Specifier.ConstraintRoundTrip | app.py:84-102 | splitting a printed requirement gives back its operator and its version |
| Metadata.WithoutMarker | app.py:66-69 | an entry without its environment marker holds no `;` |
| Metadata.DependencyName | app.py:64-72 | an extracted name is stripped and holds no `;` and no space |
| Metadata.DependencyNameOfMarked | app.py:66-72 | a plain name comes back unchanged, alone or followed by `;` and any marker |
| Metadata.DependencyNameFirstToken | app.py:64-72 | a plain non-empty name followed by a space comes back unchanged whatever follows, such as `requests (>=2.0)` or `pytest (>=6); extra == 'test'` |
| Metadata.ExtractRequirements | app.py:54-75 | one name per `requires_dist` entry, in order, none holding `;` or a space; none when the list is absent |
| Conflicts.MinorVersionFault | app.py:186-192 | computing `suggested_version` only succeeds on a bound that holds a `.` |
| Conflicts.CollectSuccesses | app.py:212-215 | when no step raises, the loop's results are the step reports laid end to end |
| Conflicts.CollectFailure | app.py:212-215 | the first step that raises makes the whole loop raise that fault |
| Conflicts.DependencyPairInert | app.py:162-193 | for a dependency name without a space, one step of the dependency loop reports nothing and does not raise |
| Conflicts.DependencyAgainstInert | app.py:164-193 | the inner dependency loop reports nothing and does not raise |
| Conflicts.DependencyScanInert | app.py:161-193 | the dependency loop never reports a conflict, never suggests, and never raises |
| Conflicts.DuplicatePartnerSymmetric | app.py:137-147 | the duplicate-partner relation is symmetric: `b` is a partner of `a` exactly when `a` is one of `b` |
| Conflicts.PartnersMembership | app.py:136-147 | the lines a requirement is reported against are exactly the different lines with its package name, both pinned with `==`, with different version texts |
| Conflicts.DuplicateStepShape | app.py:137-158 | one step of the duplicate loop reports one conflict and one pin exactly against a partner, and nothing otherwise |
| Conflicts.DuplicateScanPartners | app.py:136-158 | the duplicate loop reports one conflict and one pin per partner, in input order, and nothing else |
| Conflicts.PartnerReportIndex | app.py:148-158 | the i-th duplicate conflict and the i-th pin belong to the i-th partner |
| Conflicts.CheckMissingPackage | app.py:105-113 | an unknown package gives exactly one `missing_package` conflict and no suggestion |
| Conflicts.CheckVersionNotFound | app.py:116-130 | a pin to a non-empty version that is not among the releases gives exactly one `version_not_found` conflict, and suggests the pin to `info.version` exactly when that is present and non-empty |
| Conflicts.CheckDuplicates | app.py:132-195 | past the first two checks, the result is exactly the duplicate report over the partners |
| Conflicts.CheckFindings | app.py:77-195 | the check never raises, never reports `dependency_conflict`, and files every conflict under the requirement's own package name |
| Conflicts.ChecksSucceed | app.py:206-213 | every per-requirement check returns a report |
| Conflicts.PickIndex | app.py:212-215 | position k of the completed results holds the result of the k-th completed requirement |
| Conflicts.DetectConflictsGathers | app.py:197-217 | the aggregation never raises and lays the per-requirement reports end to end in completion order |
| Conflicts.PickPermutation | app.py:212 | two completion orders that are permutations of each other give permuted results |
| Conflicts.PickCompletionOrder | app.py:212 | results taken in any completion order are a permutation of the per-requirement results |
| Conflicts.GatherAppend | app.py:214-215 | extending with two batches of reports is extending with their concatenation |
| Conflicts.GatherPermutation | app.py:214-215 | reports extended in any rearranged order give the same conflicts and suggestions, up to order |
| Conflicts.DetectConflictsOrderIrrelevant | app.py:197-217 | any two completion orders give the same conflicts and the same suggestions, up to order |
| Conflicts.GatherMembership | app.py:214-215 | a conflict or suggestion is in the aggregate exactly when some report holds it |
| Conflicts.CompletedAt | app.py:206-212 | every submitted requirement completes at some position of the completion order |
| Conflicts.DetectReportsDuplicate | app.py:136-158 | for a pair of clashing pins of a known package whose reporting line pins a listed release (an unlisted pin returns `version_not_found` first), the aggregate holds the duplicate conflict and the pin to the larger version |
| Conflicts.DuplicatesReportedFromBothSides | app.py:143-158 | when the package is known and both pinned versions are listed releases (an unlisted pin returns `version_not_found` first), a clashing pair is reported from both sides, with both version orders, and both sides suggest the same pin: the larger version |
| Conflicts.DetectConflictsFindings | app.py:197-217 | the aggregation never raises, never reports `dependency_conflict`, and files every conflict under some requirement's package name |
| DependencyTree.PackageNode | app.py:231-244 | a known package's node carries its name and one leaf per extracted dependency, in order |
| DependencyTree.KnownNames | app.py:227-229 | the loop keeps only names the registry knows, and never more names than it was given |
| DependencyTree.TreeOf | app.py:223-246 | every node is the node of a known package, and there are at most as many nodes as requirements |
| DependencyTree.TreeDepthOne | app.py:237-244 | every leaf has no children: the tree is at most two levels deep |
| DependencyTree.KnownNamesMembership | app.py:227-229 | a name is kept exactly when it occurs and the registry knows it |
| Specifier.PackageNamesAppend | app.py:224 | names are extracted requirement by requirement |
| DependencyTree.TreeAppend | app.py:223-248 | the tree is built requirement by requirement, in input order: the tree of a concatenation is the concatenation of the trees |
| DependencyTree.TreeSingle | app.py:224-246 | one requirement gives its package's node when the registry knows the name, and nothing otherwise |
| DependencyTree.TreeRoots | app.py:223-246 | a package heads a node exactly when some requirement names it and the registry knows it |
| Fixes.Get | app.py:331 | a dict lookup finds a value exactly when the key is present |
| Fixes.Put | app.py:331 | assignment keeps the key order and appends a new key at the end |
| Fixes.PutGet | app.py:331 | after assigning `k`, looking up `k` gives the new value and every other key is unchanged |
| Fixes.PutAllKeys | app.py:323-331 | a dict built by assignments has its keys in first-occurrence order |
| Fixes.PutAllGet | app.py:329-331 | after a series of assignments, each key holds its last assigned value |
| Fixes.AddNewDistinct | app.py:323-334 | the first-occurrence key list has no repeats and holds exactly the keys assigned |
| Fixes.NoConflictsNoFix | app.py:318-345 | with no conflicts, no fixed requirements are proposed and no suggestion is applied |
| Fixes.MergedInOnePass | app.py:323-331 | keying the requirements and then assigning the suggestions is one pass of assignments over requirements and suggestions |
| Fixes.FixedRequirements | app.py:318-334 | one fixed line per distinct package name, in first-occurrence order over requirements then suggestions; each is the last suggestion for the name if any, else the last requirement line with that name |
| Fixes.MergedKeys | app.py:323-334 | the fixed lines are the dict's values, and its keys are the distinct names in first-occurrence order |
| Fixes.AppliedSuggestions | app.py:329-332 | the applied suggestions are keyed by the distinct suggested names, and each holds the last suggestion for its name |
| Fixes.FixKeepsShape | app.py:323-334 | with distinct requirement names and suggestions for existing packages only, the fix has one line per requirement, naming the same package in the same place |
| Fixes.LastNamedHasName | app.py:324-331 | the line kept for a name has that name, and a name that occurs always keeps a line |
| Analysis.CheckDependenciesOutcome | app.py:294-306 | the handler answers exactly when the text holds an entry, never crashes, and returns the parsed entries and the tree |
| Analysis.FixedExactlyOnConflict | app.py:318-345 | fixed requirements are proposed exactly when a conflict is reported, and suggestions are applied only then |
| Analysis.ConflictsIndependentOfOrder | app.py:303 | the order in which the checks complete changes neither the verdict nor, up to order, the conflicts |

## Left out

- The PyPI request and its `lru_cache` (app.py:40-52) are network I/O and a transparent cache. They become the fixed `Registry` map, and a failed lookup is a missing entry. `Metadata.GetPackageMetadata` is that map lookup and nothing more, so it has no row of its own; what a failed or successful lookup leads to is stated by `Conflicts.CheckMissingPackage`, `Conflicts.CheckVersionNotFound` and the tree lemmas. A registry document is assumed to carry `info` (PyPI's always does), and an entry that is present counts as found.
- The thread pool (app.py:204-215) is left out. The completion order of the futures is the `order` parameter, and every property is stated for all orders or up to permutation. `max_workers=min(10, 0)` would raise on empty input, but the handler returns before that (app.py:296).
- Flask routing, JSON serialisation, the timer and `execution_time` (app.py:23-25, 289-350) are framework I/O. The handler's analysis steps are in `Analysis.CheckDependencies`.
- The graph construction and plotting (app.py:250-287) and the early `graph_error` reply (app.py:310-315) are left out. They are networkx and matplotlib code with image output; the model's response has no graph image.
- The HTML template and file writing (app.py:352-1208) are presentation and I/O.
- Conflict messages and the per-conflict `suggestion` prose are left out. A conflict keeps its package, its kind and the version texts the kind names.
- The unused `max_depth` parameter of `get_limited_dependency_tree` (app.py:219) is left out.
- Conflicts.MinorVersionFault: `suggested_version` is modelled only for whether it raises. Its value is never used. `int()` is approximated by optional surrounding whitespace, an optional sign and ASCII digits with single underscores; Python also accepts other Unicode digits. The branch is proved unreachable, so the approximation never matters.
- Text.Trim: whitespace is the fixed list of code points for which `str.isspace()` holds. No Unicode database is consulted.
