/**
 The analysis pipeline of the `check_dependencies` handler: parse, detect
 conflicts, build the tree, merge the fixes.
 */
module Analysis {
  import opened Wrappers
  import opened Specifier
  import opened Metadata
  import opened Conflicts
  import opened DependencyTree
  import opened Fixes

  /** What the handler sends back for an analysable input. */
  datatype Response = Response(
    requirements: seq<string>,
    conflicts: seq<Conflict>,
    dependencyTree: seq<TreeNode>,
    fixedRequirements: seq<string>,
    appliedSuggestions: Dict)

  /** The ways the handler ends without a response. */
  datatype HandlerError =
    | NoValidPackages        // the early `error` reply for an input with no entries
    | Crashed(fault: Fault)  // an exception escaping `detect_conflicts_parallel`

  /**
   The handler on `text`, against a fixed registry, with the futures
   completing in `order`.
   */
  function CheckDependencies(text: string, registry: Registry, order: seq<nat>): Result<Response, HandlerError>
    requires IsCompletionOrder(order, |ParseDependencies(text)|)
  {
    var requirements := ParseDependencies(text);
    if requirements == [] then Failure(NoValidPackages)
    else
      match DetectConflicts(requirements, registry, order)
      case Failure(f) => Failure(Crashed(f))
      case Success(report) =>
        var fix := FixRequirements(requirements, report.conflicts != [], report.suggestions);
        Success(Response(requirements, report.conflicts, LimitedTree(requirements, registry),
                         fix.fixedRequirements, fix.appliedSuggestions))
  }

  /**
   The handler answers exactly when the text holds an entry, and never
   crashes; the response carries the parsed entries and the tree.
   */
  lemma {:induction false} CheckDependenciesOutcome(text: string, registry: Registry, order: seq<nat>)
    requires IsCompletionOrder(order, |ParseDependencies(text)|)
    ensures var r := CheckDependencies(text, registry, order);
            && (r.Success? <==> ParseDependencies(text) != [])
            && (r.Failure? ==> r.error == NoValidPackages)
            && (r.Success? ==> r.value.requirements == ParseDependencies(text)
                               && r.value.dependencyTree == LimitedTree(ParseDependencies(text), registry))
  {
    var requirements := ParseDependencies(text);
    if requirements != [] {
      DetectConflictsFindings(requirements, registry, order);
    }
  }

  /**
   Fixed requirements are proposed exactly when a conflict is reported, and
   suggestions are applied only then.
   */
  lemma {:induction false} FixedExactlyOnConflict(text: string, registry: Registry, order: seq<nat>)
    requires IsCompletionOrder(order, |ParseDependencies(text)|)
    requires ParseDependencies(text) != []
    ensures var r := CheckDependencies(text, registry, order);
            && r.Success?
            && (r.value.fixedRequirements == [] <==> r.value.conflicts == [])
            && (r.value.conflicts == [] ==> r.value.appliedSuggestions == [])
  {
    var requirements := ParseDependencies(text);
    DetectConflictsFindings(requirements, registry, order);
    var report := DetectConflicts(requirements, registry, order).value;
    if report.conflicts != [] {
      MergedKeys(requirements, report.suggestions);
      var names := PackageNames(requirements) + PackageNames(report.suggestions);
      AddNewDistinct([], names);
      assert names[0] in Dedup(names);
    }
  }

  /**
   The completion order changes neither the verdict nor, up to order, the
   conflicts reported.
   */
  lemma {:induction false} ConflictsIndependentOfOrder(text: string, registry: Registry, o1: seq<nat>, o2: seq<nat>)
    requires IsCompletionOrder(o1, |ParseDependencies(text)|)
    requires IsCompletionOrder(o2, |ParseDependencies(text)|)
    requires ParseDependencies(text) != []
    ensures var r1, r2 := CheckDependencies(text, registry, o1), CheckDependencies(text, registry, o2);
            && r1.Success? && r2.Success?
            && multiset(r1.value.conflicts) == multiset(r2.value.conflicts)
  {
    DetectConflictsOrderIrrelevant(ParseDependencies(text), registry, o1, o2);
  }
}
