/**
 The conflict classifier `check_package_conflict` and its aggregation
 `detect_conflicts_parallel`.
 */
module Conflicts {
  import opened Wrappers
  import opened Text
  import opened Specifier
  import opened Metadata

  /** The `type` of a conflict, with the values its message names. */
  datatype ConflictKind =
    | MissingPackage
    | VersionNotFound(version: string)
    | DuplicatePackage(thisVersion: string, otherVersion: string)
    | DependencyConflict(dependency: string, otherRequirement: string)

  /** One reported conflict: the package it is filed under and its kind. */
  datatype Conflict = Conflict(package: string, kind: ConflictKind)

  /** The `(conflicts, suggestions)` pair a check returns. */
  datatype Report = Report(conflicts: seq<Conflict>, suggestions: seq<string>)

  const NoFindings := Report([], [])

  /** Two reports one after the other, as `list.extend` leaves them. */
  function Join(a: Report, b: Report): Report {
    Report(a.conflicts + b.conflicts, a.suggestions + b.suggestions)
  }

  /** A `ValueError` the dependency branch could raise while computing its unused version. */
  datatype Fault =
    | UnpackError(bound: string)   // `major, minor = version.split('.')[:2]` with no `.`
    | IntError(text: string)       // `int(minor)` on text that is not an integer

  // ---------------------------------------------------------------------------
  // The dependency branch

  predicate IsDigit(c: char) {
    '0' <= c <= '9'
  }

  /** Digits with single underscores between them, as `int()` accepts. */
  predicate IsDigitRun(s: string) {
    && |s| > 0
    && IsDigit(s[0]) && IsDigit(s[|s| - 1])
    && (forall i :: 0 <= i < |s| ==> IsDigit(s[i]) || s[i] == '_')
    && (forall i :: 0 <= i < |s| - 1 ==> !(s[i] == '_' && s[i + 1] == '_'))
  }

  /** Text `int()` parses: optional whitespace around an optionally signed digit run. */
  predicate IsPythonInt(s: string) {
    var t := Trim(s);
    if |t| > 0 && (t[0] == '+' || t[0] == '-') then IsDigitRun(t[1..]) else IsDigitRun(t)
  }

  /**
   Whether computing `suggested_version` from a bound raises: the bound must
   split into at least two `.`-parts and the second must parse as an integer.
   The computed version itself is never used, so only the failure matters.
   */
  function MinorVersionFault(bound: string): (r: Option<Fault>)
    ensures r.None? ==> Contains(bound, ".")
  {
    if !Contains(bound, ".") then Some(UnpackError(bound))
    else if !IsPythonInt(After(bound, ".")) then Some(IntError(After(bound, ".")))
    else None
  }

  /**
   One step of the dependency loop: declared dependency `dep` of package
   `pkg` against requirement `other`.
   */
  function DependencyPair(pkg: string, dep: string, other: string): Result<Report, Fault> {
    var depName := Before(dep, " ");
    var otherPackage := PackageName(other);
    if otherPackage == depName && Contains(other, "==")
       && (Contains(dep, "<") || Contains(dep, ">")) then
      var otherVersion := After(other, "==");
      var tooHigh := Contains(dep, "<") && !StrLess(otherVersion, Trim(After(dep, "<")));
      var tooLow := Contains(dep, ">") && !StrLess(Trim(After(dep, ">")), otherVersion);
      if tooHigh || tooLow then
        var conflict := Conflict(pkg, DependencyConflict(dep, other));
        if Contains(dep, "<") then
          var bound := Trim(After(dep, "<"));
          match MinorVersionFault(bound)
          case Some(f) => Failure(f)
          case None => Success(Report([conflict], [otherPackage + "<" + bound]))
        else
          var bound := Trim(After(dep, ">"));
          match MinorVersionFault(bound)
          case Some(f) => Failure(f)
          case None => Success(Report([conflict], [otherPackage + ">" + bound]))
      else
        Success(NoFindings)
    else
      Success(NoFindings)
  }

  /** Step results laid end to end, the first raise ending the loop. */
  function Collect(rs: seq<Result<Report, Fault>>): Result<Report, Fault> {
    if rs == [] then Success(NoFindings)
    else
      var head :- rs[0];
      var rest :- Collect(rs[1..]);
      Success(Join(head, rest))
  }

  /** Reports laid end to end. */
  function Gather(reports: seq<Report>): Report {
    if reports == [] then NoFindings
    else Join(reports[0], Gather(reports[1..]))
  }

  /** When no step raises, collecting is gathering the step reports. */
  lemma {:induction false} CollectSuccesses(rs: seq<Result<Report, Fault>>, reports: seq<Report>)
    requires |rs| == |reports|
    requires forall i :: 0 <= i < |rs| ==> rs[i] == Success(reports[i])
    ensures Collect(rs) == Success(Gather(reports))
    decreases |rs|
  {
    if rs != [] {
      CollectSuccesses(rs[1..], reports[1..]);
    }
  }

  /** A raising step makes the whole collection raise the first such fault. */
  lemma {:induction false} CollectFailure(rs: seq<Result<Report, Fault>>, k: nat)
    requires k < |rs| && rs[k].Failure?
    requires forall i :: 0 <= i < k ==> rs[i].Success?
    ensures Collect(rs) == Failure(rs[k].error)
    decreases k
  {
    if k > 0 {
      CollectFailure(rs[1..], k - 1);
    }
  }

  /** The inner loop: one dependency against every requirement. */
  function DependencyAgainst(pkg: string, dep: string, others: seq<string>): Result<Report, Fault> {
    Collect(seq(|others|, i requires 0 <= i < |others| => DependencyPair(pkg, dep, others[i])))
  }

  /** The outer loop over the package's declared dependencies. */
  function DependencyScan(pkg: string, deps: seq<string>, all: seq<string>): Result<Report, Fault> {
    Collect(seq(|deps|, i requires 0 <= i < |deps| => DependencyAgainst(pkg, deps[i], all)))
  }

  /**
   The dependency branch is dead: a name from `requires_dist` holds no space,
   so its first space-separated token is the whole name, and a requirement's
   package name holds no `<` or `>`; the name test and the bound test never
   hold together.
   */
  lemma {:induction false} DependencyPairInert(pkg: string, dep: string, other: string)
    requires !Contains(dep, " ")
    ensures DependencyPair(pkg, dep, other) == Success(NoFindings)
  {
    BeforeAbsent(dep, " ");
  }

  lemma {:induction false} DependencyAgainstInert(pkg: string, dep: string, others: seq<string>)
    requires !Contains(dep, " ")
    ensures DependencyAgainst(pkg, dep, others) == Success(NoFindings)
  {
    var rs := seq(|others|, i requires 0 <= i < |others| => DependencyPair(pkg, dep, others[i]));
    var reports := seq(|others|, i => NoFindings);
    forall i | 0 <= i < |others| ensures rs[i] == Success(reports[i]) {
      DependencyPairInert(pkg, dep, others[i]);
    }
    CollectSuccesses(rs, reports);
    GatherEmpty(reports);
  }

  lemma {:induction false} GatherEmpty(reports: seq<Report>)
    requires forall i :: 0 <= i < |reports| ==> reports[i] == NoFindings
    ensures Gather(reports) == NoFindings
    decreases |reports|
  {
    if reports != [] {
      GatherEmpty(reports[1..]);
    }
  }

  /** No declared dependency ever yields a conflict, a suggestion or a raise. */
  lemma {:induction false} DependencyScanInert(pkg: string, deps: seq<string>, all: seq<string>)
    requires forall i :: 0 <= i < |deps| ==> !Contains(deps[i], " ")
    ensures DependencyScan(pkg, deps, all) == Success(NoFindings)
  {
    var rs := seq(|deps|, i requires 0 <= i < |deps| => DependencyAgainst(pkg, deps[i], all));
    var reports := seq(|deps|, i => NoFindings);
    forall i | 0 <= i < |deps| ensures rs[i] == Success(reports[i]) {
      DependencyAgainstInert(pkg, deps[i], all);
    }
    CollectSuccesses(rs, reports);
    GatherEmpty(reports);
  }

  // ---------------------------------------------------------------------------
  // The duplicate check

  /** The version text after the first `==`, or empty when the line pins nothing. */
  function Pin(line: string): string {
    if Contains(line, "==") then After(line, "==") else ""
  }

  /**
   `other` is reported as a duplicate of `req`: a different line with the
   same package name, both pinned with `==`, and different version texts.
   */
  predicate IsDuplicatePartner(req: string, other: string) {
    && other != req
    && PackageName(other) == PackageName(req)
    && Contains(other, "==") && Contains(req, "==")
    && Pin(req) != Pin(other)
  }

  /** The partners are symmetric: each side of a clashing pair sees the other. */
  lemma {:induction false} DuplicatePartnerSymmetric(a: string, b: string)
    ensures IsDuplicatePartner(a, b) <==> IsDuplicatePartner(b, a)
  {
  }

  /** One step of the duplicate loop. */
  function DuplicateStep(req: string, name: string, other: string): Report {
    if other == req then NoFindings
    else if PackageName(other) == name && Contains(other, "==") && Contains(req, "==") then
      var thisVersion := After(req, "==");
      var otherVersion := After(other, "==");
      if thisVersion != otherVersion then
        Report([Conflict(name, DuplicatePackage(thisVersion, otherVersion))],
               [name + "==" + StrMax(thisVersion, otherVersion)])
      else
        NoFindings
    else
      NoFindings
  }

  /** The duplicate loop over every requirement. */
  function DuplicateScan(req: string, name: string, all: seq<string>): Report {
    Gather(seq(|all|, i requires 0 <= i < |all| => DuplicateStep(req, name, all[i])))
  }

  /** The requirements `req` is reported against, in input order. */
  function Partners(req: string, all: seq<string>): seq<string> {
    if all == [] then []
    else (if IsDuplicatePartner(req, all[0]) then [all[0]] else []) + Partners(req, all[1..])
  }

  /** The partners are exactly the requirements that clash with `req`. */
  lemma {:induction false} PartnersMembership(req: string, all: seq<string>, x: string)
    ensures x in Partners(req, all) <==> x in all && IsDuplicatePartner(req, x)
    decreases |all|
  {
    if all != [] {
      PartnersMembership(req, all[1..], x);
      assert all == [all[0]] + all[1..];
    }
  }

  /** The conflict reported against one partner. */
  function DuplicateConflict(req: string, other: string): Conflict {
    Conflict(PackageName(req), DuplicatePackage(Pin(req), Pin(other)))
  }

  /** The pin suggested against one partner: the larger of the two version texts. */
  function DuplicatePin(req: string, other: string): string {
    PackageName(req) + "==" + StrMax(Pin(req), Pin(other))
  }

  /** What one step reports against `other`, stated through the partner relation. */
  function PartnerStep(req: string, other: string): Report {
    if IsDuplicatePartner(req, other)
    then Report([DuplicateConflict(req, other)], [DuplicatePin(req, other)])
    else NoFindings
  }

  /** One step reports against `other` exactly when it is a partner. */
  lemma {:induction false} DuplicateStepShape(req: string, other: string)
    ensures DuplicateStep(req, PackageName(req), other) == PartnerStep(req, other)
  {
  }

  /** The reference report: one conflict and one pin per partner, in order. */
  function PartnerReport(req: string, partners: seq<string>): Report {
    if partners == [] then NoFindings
    else Join(Report([DuplicateConflict(req, partners[0])], [DuplicatePin(req, partners[0])]),
              PartnerReport(req, partners[1..]))
  }

  lemma {:induction false} GatherPartnerSteps(req: string, all: seq<string>, steps: seq<Report>)
    requires |steps| == |all|
    requires forall i :: 0 <= i < |all| ==> steps[i] == PartnerStep(req, all[i])
    ensures Gather(steps) == PartnerReport(req, Partners(req, all))
    decreases |all|
  {
    if all != [] {
      GatherPartnerSteps(req, all[1..], steps[1..]);
      var rest := Partners(req, all[1..]);
      if IsDuplicatePartner(req, all[0]) {
        var p := [all[0]] + rest;
        assert Partners(req, all) == p;
        assert p[0] == all[0] && p[1..] == rest;
      } else {
        assert Partners(req, all) == rest;
      }
    }
  }

  /** The duplicate loop reports against the partners and nothing else. */
  lemma {:induction false} DuplicateScanPartners(req: string, all: seq<string>)
    ensures DuplicateScan(req, PackageName(req), all) == PartnerReport(req, Partners(req, all))
  {
    var steps := seq(|all|, i requires 0 <= i < |all| => DuplicateStep(req, PackageName(req), all[i]));
    forall i | 0 <= i < |all| ensures steps[i] == PartnerStep(req, all[i]) {
      DuplicateStepShape(req, all[i]);
    }
    GatherPartnerSteps(req, all, steps);
  }

  /** The reference report lists exactly one conflict and one pin per partner, in order. */
  lemma {:induction false} PartnerReportIndex(req: string, partners: seq<string>)
    ensures var d := PartnerReport(req, partners);
            && |d.conflicts| == |partners| && |d.suggestions| == |partners|
            && (forall i :: 0 <= i < |partners| ==> d.conflicts[i] == DuplicateConflict(req, partners[i]))
            && (forall i :: 0 <= i < |partners| ==> d.suggestions[i] == DuplicatePin(req, partners[i]))
    decreases |partners|
  {
    if partners != [] {
      PartnerReportIndex(req, partners[1..]);
      var d, t := PartnerReport(req, partners), PartnerReport(req, partners[1..]);
      assert d.conflicts == [DuplicateConflict(req, partners[0])] + t.conflicts;
      assert d.suggestions == [DuplicatePin(req, partners[0])] + t.suggestions;
      forall i | 1 <= i < |partners|
        ensures d.conflicts[i] == DuplicateConflict(req, partners[i])
        ensures d.suggestions[i] == DuplicatePin(req, partners[i])
      {
        assert partners[1..][i - 1] == partners[i];
      }
    }
  }

  // ---------------------------------------------------------------------------
  // check_package_conflict

  /** The pin to the latest release suggested with `version_not_found`, if any. */
  function LatestPin(name: string, m: PackageMetadata): (r: seq<string>)
    ensures |r| <= 1
    ensures r != [] <==> m.latestVersion.Some? && m.latestVersion.value != ""
    ensures r != [] ==> r[0] == name + "==" + m.latestVersion.value
  {
    match m.latestVersion
    case Some(v) => if v != "" then [name + "==" + v] else []
    case None => []
  }

  /** The requirement pins with `==` a non-empty version the registry does not list. */
  predicate PinsUnknownVersion(req: string, m: PackageMetadata) {
    var c := SplitConstraint(req);
    c.Constrained? && c.op == Eq && c.version != "" && c.version !in m.releases
  }

  /** `check_package_conflict(req, all_requirements)` against a fixed registry. */
  function CheckPackageConflict(req: string, all: seq<string>, registry: Registry): Result<Report, Fault> {
    var name := PackageName(req);
    match GetPackageMetadata(registry, name)
    case None =>
      Success(Report([Conflict(name, MissingPackage)], []))
    case Some(m) =>
      if PinsUnknownVersion(req, m) then
        Success(Report([Conflict(name, VersionNotFound(SplitConstraint(req).version))],
                       LatestPin(name, m)))
      else
        var deps := ExtractRequirements(m);
        var duplicates := DuplicateScan(req, name, all);
        var dependencyFindings :- DependencyScan(name, deps, all);
        Success(Join(duplicates, dependencyFindings))
  }

  /** An unknown package gives exactly one `missing_package` conflict and no suggestion. */
  lemma {:induction false} CheckMissingPackage(req: string, all: seq<string>, registry: Registry)
    requires PackageName(req) !in registry
    ensures CheckPackageConflict(req, all, registry)
            == Success(Report([Conflict(PackageName(req), MissingPackage)], []))
  {
  }

  /**
   A pin to an unlisted version gives exactly one `version_not_found`
   conflict and at most the latest-version pin; no later check runs.
   */
  lemma {:induction false} CheckVersionNotFound(req: string, all: seq<string>, registry: Registry)
    requires PackageName(req) in registry
    requires SplitConstraint(req).Constrained? && SplitConstraint(req).op == Eq
    requires SplitConstraint(req).version != ""
    requires SplitConstraint(req).version !in registry[PackageName(req)].releases
    ensures var r := CheckPackageConflict(req, all, registry);
            var name, latest := PackageName(req), registry[PackageName(req)].latestVersion;
            && r.Success?
            && r.value.conflicts == [Conflict(name, VersionNotFound(After(req, "==")))]
            && r.value.suggestions
               == if latest.Some? && latest.value != "" then [name + "==" + latest.value] else []
  {
  }

  /**
   Past the first two checks, the conflicts and suggestions are exactly the
   duplicate reports, one per partner in input order: the dependency loop
   adds nothing.
   */
  lemma {:induction false} CheckDuplicates(req: string, all: seq<string>, registry: Registry)
    requires PackageName(req) in registry
    requires !PinsUnknownVersion(req, registry[PackageName(req)])
    ensures CheckPackageConflict(req, all, registry) == Success(PartnerReport(req, Partners(req, all)))
  {
    var m := registry[PackageName(req)];
    DependencyScanInert(PackageName(req), ExtractRequirements(m), all);
    DuplicateScanPartners(req, all);
    JoinNoFindings(DuplicateScan(req, PackageName(req), all));
  }

  lemma {:induction false} JoinNoFindings(a: Report)
    ensures Join(a, NoFindings) == a
  {
    assert a.conflicts + [] == a.conflicts;
    assert a.suggestions + [] == a.suggestions;
  }

  /**
   The check never raises, never reports `dependency_conflict`, and files
   every conflict under the requirement's own package name.
   */
  lemma {:induction false} CheckFindings(req: string, all: seq<string>, registry: Registry)
    ensures var r := CheckPackageConflict(req, all, registry);
            && r.Success?
            && (forall c :: c in r.value.conflicts ==> c.package == PackageName(req))
            && (forall c :: c in r.value.conflicts ==> !c.kind.DependencyConflict?)
  {
    var name := PackageName(req);
    if name in registry && !PinsUnknownVersion(req, registry[name]) {
      CheckDuplicates(req, all, registry);
      PartnerReportIndex(req, Partners(req, all));
      var r := CheckPackageConflict(req, all, registry);
      forall c | c in r.value.conflicts
        ensures c.package == name && !c.kind.DependencyConflict?
      {
        var i :| 0 <= i < |r.value.conflicts| && r.value.conflicts[i] == c;
        var p := Partners(req, all);
        assert c == DuplicateConflict(req, p[i]);
      }
    }
  }

  // ---------------------------------------------------------------------------
  // detect_conflicts_parallel

  /** The report of every requirement, in input order: no check raises. */
  lemma {:induction false} ChecksSucceed(requirements: seq<string>, registry: Registry)
    returns (reports: seq<Report>)
    ensures |reports| == |requirements|
    ensures forall i :: 0 <= i < |requirements| ==>
              CheckPackageConflict(requirements[i], requirements, registry) == Success(reports[i])
  {
    var n := |requirements|;
    reports := seq(n, i requires 0 <= i < n =>
      var r := CheckPackageConflict(requirements[i], requirements, registry);
      if r.Success? then r.value else NoFindings);
    forall i | 0 <= i < n
      ensures CheckPackageConflict(requirements[i], requirements, registry) == Success(reports[i])
    {
      CheckFindings(requirements[i], requirements, registry);
    }
  }

  /**
   An order in which the pool's futures complete: every index below `n`
   exactly once.
   */
  predicate IsCompletionOrder(order: seq<nat>, n: nat) {
    && (forall k :: 0 <= k < |order| ==> order[k] < n)
    && multiset(order) == multiset(Indices(n))
  }

  function Indices(n: nat): (r: seq<nat>)
    ensures |r| == n && forall i :: 0 <= i < n ==> r[i] == i
  {
    seq(n, i => i)
  }

  /** The elements of `xs` in the order `order` names them. */
  function Pick<T>(xs: seq<T>, order: seq<nat>): (r: seq<T>)
    requires forall k :: 0 <= k < |order| ==> order[k] < |xs|
    ensures |r| == |order|
  {
    if order == [] then [] else [xs[order[0]]] + Pick(xs, order[1..])
  }

  /** Position `k` of the picked sequence holds the element `order[k]` names. */
  lemma {:induction false} PickIndex<T>(xs: seq<T>, order: seq<nat>)
    requires forall k :: 0 <= k < |order| ==> order[k] < |xs|
    ensures forall k :: 0 <= k < |order| ==> Pick(xs, order)[k] == xs[order[k]]
    decreases |order|
  {
    if order != [] {
      PickIndex(xs, order[1..]);
    }
  }

  /**
   `detect_conflicts_parallel`: every requirement is checked against all of
   them, and the results are extended in the order the futures complete,
   which the thread pool decides and is a parameter here. A raise in any
   check propagates from `future.result()`.
   */
  function DetectConflicts(requirements: seq<string>, registry: Registry, order: seq<nat>): Result<Report, Fault>
    requires IsCompletionOrder(order, |requirements|)
  {
    var checks := seq(|requirements|, i requires 0 <= i < |requirements| =>
                        CheckPackageConflict(requirements[i], requirements, registry));
    Collect(Pick(checks, order))
  }

  /**
   The aggregate never raises and lays the per-requirement reports end to
   end in completion order.
   */
  lemma {:induction false} DetectConflictsGathers(requirements: seq<string>, registry: Registry, order: seq<nat>)
    returns (reports: seq<Report>)
    requires IsCompletionOrder(order, |requirements|)
    ensures |reports| == |requirements|
    ensures forall i :: 0 <= i < |requirements| ==>
              CheckPackageConflict(requirements[i], requirements, registry) == Success(reports[i])
    ensures DetectConflicts(requirements, registry, order) == Success(Gather(Pick(reports, order)))
  {
    reports := ChecksSucceed(requirements, registry);
    var checks := seq(|requirements|, i requires 0 <= i < |requirements| =>
                        CheckPackageConflict(requirements[i], requirements, registry));
    PickIndex(checks, order);
    PickIndex(reports, order);
    CollectSuccesses(Pick(checks, order), Pick(reports, order));
  }

  /** Removing one matched element keeps two equal multisets equal. */
  lemma {:induction false} MultisetRemove<T>(rs: seq<T>, qs: seq<T>, k: nat)
    requires multiset(rs) == multiset(qs)
    requires |rs| > 0 && k < |qs| && qs[k] == rs[0]
    ensures multiset(rs[1..]) == multiset(qs[..k] + qs[k + 1..])
  {
    var x, before, after := rs[0], qs[..k], qs[k + 1..];
    assert rs == [x] + rs[1..];
    SplitAt(qs, k);
    forall y ensures multiset(rs[1..])[y] == multiset(before + after)[y] {
      assert multiset(rs)[y] == multiset([x])[y] + multiset(rs[1..])[y];
      assert multiset(qs)[y] == multiset(before)[y] + multiset([x])[y] + multiset(after)[y];
    }
  }

  lemma {:induction false} SplitAt<T>(s: seq<T>, k: nat)
    requires k < |s|
    ensures s == s[..k] + [s[k]] + s[k + 1..]
  {
  }

  /** Picking in two orders that are permutations of each other gives permutations. */
  lemma {:induction false} PickPermutation<T>(xs: seq<T>, o1: seq<nat>, o2: seq<nat>)
    requires forall k :: 0 <= k < |o1| ==> o1[k] < |xs|
    requires forall k :: 0 <= k < |o2| ==> o2[k] < |xs|
    requires multiset(o1) == multiset(o2)
    ensures multiset(Pick(xs, o1)) == multiset(Pick(xs, o2))
    decreases |o1|
  {
    if o1 == [] {
      assert |multiset(o2)| == 0;
    } else {
      assert o1[0] in multiset(o2);
      var k :| 0 <= k < |o2| && o2[k] == o1[0];
      MultisetRemove(o1, o2, k);
      var before, after := o2[..k], o2[k + 1..];
      PickPermutation(xs, o1[1..], before + after);
      PickSplit(xs, o2, k);
      MultisetMiddle(Pick(xs, before), xs[o1[0]], Pick(xs, after), Pick(xs, o1[1..]));
    }
  }

  /** Picking splits around any position of the order. */
  lemma {:induction false} PickSplit<T>(xs: seq<T>, o: seq<nat>, k: nat)
    requires forall i :: 0 <= i < |o| ==> o[i] < |xs|
    requires k < |o|
    ensures Pick(xs, o) == Pick(xs, o[..k]) + [xs[o[k]]] + Pick(xs, o[k + 1..])
    ensures Pick(xs, o[..k] + o[k + 1..]) == Pick(xs, o[..k]) + Pick(xs, o[k + 1..])
  {
    PickAppend(xs, o[..k], o[k + 1..]);
    SplitAt(o, k);
    PickAppend(xs, o[..k] + [o[k]], o[k + 1..]);
    PickAppend(xs, o[..k], [o[k]]);
  }

  /** Putting one element back in the middle of a permutation. */
  lemma {:induction false} MultisetMiddle<T>(a: seq<T>, x: T, b: seq<T>, c: seq<T>)
    requires multiset(c) == multiset(a + b)
    ensures multiset([x] + c) == multiset(a + [x] + b)
  {
    calc {
      multiset([x] + c);
      multiset([x]) + multiset(a) + multiset(b);
      multiset(a + [x] + b);
    }
  }

  lemma {:induction false} PickAppend<T>(xs: seq<T>, a: seq<nat>, b: seq<nat>)
    requires forall k :: 0 <= k < |a| ==> a[k] < |xs|
    requires forall k :: 0 <= k < |b| ==> b[k] < |xs|
    ensures forall k :: 0 <= k < |a + b| ==> (a + b)[k] < |xs|
    ensures Pick(xs, a + b) == Pick(xs, a) + Pick(xs, b)
    decreases |a|
  {
    if a == [] {
      assert a + b == b;
    } else {
      assert (a + b)[0] == a[0];
      assert (a + b)[1..] == a[1..] + b;
      PickAppend(xs, a[1..], b);
    }
  }

  /** Picking along a completion order permutes the sequence. */
  lemma {:induction false} PickCompletionOrder<T>(xs: seq<T>, order: seq<nat>)
    requires IsCompletionOrder(order, |xs|)
    ensures multiset(Pick(xs, order)) == multiset(xs)
  {
    PickPermutation(xs, order, Indices(|xs|));
    PickIndex(xs, Indices(|xs|));
    assert Pick(xs, Indices(|xs|)) == xs;
  }

  lemma {:induction false} GatherAppend(a: seq<Report>, b: seq<Report>)
    ensures Gather(a + b) == Join(Gather(a), Gather(b))
    decreases |a|
  {
    if a == [] {
      assert a + b == b;
    } else {
      assert (a + b)[1..] == a[1..] + b;
      GatherAppend(a[1..], b);
    }
  }

  /**
   Gathering reports in any rearrangement gives the same conflicts and
   suggestions, up to order.
   */
  lemma {:induction false} GatherPermutation(rs: seq<Report>, qs: seq<Report>)
    requires multiset(rs) == multiset(qs)
    ensures multiset(Gather(rs).conflicts) == multiset(Gather(qs).conflicts)
    ensures multiset(Gather(rs).suggestions) == multiset(Gather(qs).suggestions)
    decreases |rs|
  {
    if rs == [] {
      assert |multiset(qs)| == 0;
    } else {
      assert rs[0] in multiset(qs);
      var k :| 0 <= k < |qs| && qs[k] == rs[0];
      MultisetRemove(rs, qs, k);
      GatherPermutation(rs[1..], qs[..k] + qs[k + 1..]);
      GatherRemove(qs, k);
    }
  }

  /** Gathering with one report taken out loses exactly that report's findings. */
  lemma {:induction false} GatherRemove(qs: seq<Report>, k: nat)
    requires k < |qs|
    ensures var g, h := Gather(qs), Gather(qs[..k] + qs[k + 1..]);
            && multiset(g.conflicts) == multiset(qs[k].conflicts) + multiset(h.conflicts)
            && multiset(g.suggestions) == multiset(qs[k].suggestions) + multiset(h.suggestions)
  {
    var before, x, after := qs[..k], qs[k], qs[k + 1..];
    SplitAt(qs, k);
    GatherAppend(before + [x], after);
    GatherAppend(before, [x]);
    GatherAppend(before, after);
    JoinNoFindings(x);
  }

  /**
   The completion order does not matter up to order: any two runs report
   the same conflicts and suggestions, each as often.
   */
  lemma {:induction false} DetectConflictsOrderIrrelevant(requirements: seq<string>, registry: Registry,
                                       o1: seq<nat>, o2: seq<nat>)
    requires IsCompletionOrder(o1, |requirements|) && IsCompletionOrder(o2, |requirements|)
    ensures var r1, r2 := DetectConflicts(requirements, registry, o1), DetectConflicts(requirements, registry, o2);
            && r1.Success? && r2.Success?
            && multiset(r1.value.conflicts) == multiset(r2.value.conflicts)
            && multiset(r1.value.suggestions) == multiset(r2.value.suggestions)
  {
    var reports := DetectConflictsGathers(requirements, registry, o1);
    var reports' := DetectConflictsGathers(requirements, registry, o2);
    assert reports' == reports;
    PickCompletionOrder(reports, o1);
    PickCompletionOrder(reports, o2);
    GatherPermutation(Pick(reports, o1), Pick(reports, o2));
  }

  /** A gathered finding comes from one of the gathered reports, and each of theirs is kept. */
  lemma {:induction false} GatherMembership(rs: seq<Report>, c: Conflict, s: string)
    ensures c in Gather(rs).conflicts <==> exists i :: 0 <= i < |rs| && c in rs[i].conflicts
    ensures s in Gather(rs).suggestions <==> exists i :: 0 <= i < |rs| && s in rs[i].suggestions
    decreases |rs|
  {
    if rs != [] {
      GatherMembership(rs[1..], c, s);
      if c in Gather(rs[1..]).conflicts {
        var i :| 0 <= i < |rs[1..]| && c in rs[1..][i].conflicts;
        assert c in rs[i + 1].conflicts;
      }
      if s in Gather(rs[1..]).suggestions {
        var i :| 0 <= i < |rs[1..]| && s in rs[1..][i].suggestions;
        assert s in rs[i + 1].suggestions;
      }
      if exists i :: 0 <= i < |rs| && c in rs[i].conflicts {
        var i :| 0 <= i < |rs| && c in rs[i].conflicts;
        if i > 0 {
          assert c in rs[1..][i - 1].conflicts;
        }
      }
      if exists i :: 0 <= i < |rs| && s in rs[i].suggestions {
        var i :| 0 <= i < |rs| && s in rs[i].suggestions;
        if i > 0 {
          assert s in rs[1..][i - 1].suggestions;
        }
      }
    }
  }

  /** Every index is completed at some position of a completion order. */
  lemma {:induction false} CompletedAt(order: seq<nat>, n: nat, i: nat) returns (k: nat)
    requires IsCompletionOrder(order, n) && i < n
    ensures k < |order| && order[k] == i
  {
    assert Indices(n)[i] == i;
    assert i in multiset(order);
    k :| 0 <= k < |order| && order[k] == i;
  }

  /**
   A clash found by the duplicate check reaches the aggregate: the conflict
   against each partner and its pin are reported, whatever the completion
   order.
   */
  lemma {:induction false} DetectReportsDuplicate(requirements: seq<string>, registry: Registry,
                                                  order: seq<nat>, i: nat, j: nat)
    requires IsCompletionOrder(order, |requirements|)
    requires i < |requirements| && j < |requirements|
    requires IsDuplicatePartner(requirements[i], requirements[j])
    requires PackageName(requirements[i]) in registry
    requires !PinsUnknownVersion(requirements[i], registry[PackageName(requirements[i])])
    ensures var r := DetectConflicts(requirements, registry, order);
            && r.Success?
            && DuplicateConflict(requirements[i], requirements[j]) in r.value.conflicts
            && DuplicatePin(requirements[i], requirements[j]) in r.value.suggestions
  {
    var a, b := requirements[i], requirements[j];
    var reports := DetectConflictsGathers(requirements, registry, order);
    CheckDuplicates(a, requirements, registry);
    var partners := Partners(a, requirements);
    PartnersMembership(a, requirements, b);
    var m :| 0 <= m < |partners| && partners[m] == b;
    PartnerReportIndex(a, partners);
    assert reports[i].conflicts[m] == DuplicateConflict(a, b);
    assert reports[i].suggestions[m] == DuplicatePin(a, b);
    var k := CompletedAt(order, |requirements|, i);
    var picked := Pick(reports, order);
    PickIndex(reports, order);
    assert picked[k] == reports[i];
    GatherMembership(picked, DuplicateConflict(a, b), DuplicatePin(a, b));
  }

  /**
   Two requirements that pin one package to different versions are each
   reported against the other, and both sides suggest the same pin: the
   greater of the two versions.
   */
  lemma {:induction false} DuplicatesReportedFromBothSides(requirements: seq<string>, registry: Registry,
                                                           order: seq<nat>, i: nat, j: nat)
    requires IsCompletionOrder(order, |requirements|)
    requires i < |requirements| && j < |requirements|
    requires IsDuplicatePartner(requirements[i], requirements[j])
    requires PackageName(requirements[i]) in registry
    requires !PinsUnknownVersion(requirements[i], registry[PackageName(requirements[i])])
    requires !PinsUnknownVersion(requirements[j], registry[PackageName(requirements[i])])
    ensures var r, a, b := DetectConflicts(requirements, registry, order), requirements[i], requirements[j];
            && r.Success?
            && Conflict(PackageName(a), DuplicatePackage(Pin(a), Pin(b))) in r.value.conflicts
            && Conflict(PackageName(a), DuplicatePackage(Pin(b), Pin(a))) in r.value.conflicts
            && PackageName(a) + "==" + StrMax(Pin(a), Pin(b)) in r.value.suggestions
            && DuplicatePin(a, b) == DuplicatePin(b, a)
  {
    var a, b := requirements[i], requirements[j];
    DuplicatePartnerSymmetric(a, b);
    DetectReportsDuplicate(requirements, registry, order, i, j);
    DetectReportsDuplicate(requirements, registry, order, j, i);
    StrMaxStrict(Pin(a), Pin(b));
  }

  /**
   `detect_conflicts_parallel` never raises, never reports
   `dependency_conflict`, and files every conflict under an input package.
   */
  lemma {:induction false} DetectConflictsFindings(requirements: seq<string>, registry: Registry, order: seq<nat>)
    requires IsCompletionOrder(order, |requirements|)
    ensures var r := DetectConflicts(requirements, registry, order);
            && r.Success?
            && (forall c :: c in r.value.conflicts ==>
                  (exists i :: 0 <= i < |requirements| && c.package == PackageName(requirements[i]))
                  && !c.kind.DependencyConflict?)
  {
    var reports := DetectConflictsGathers(requirements, registry, order);
    var picked := Pick(reports, order);
    PickIndex(reports, order);
    forall c | c in Gather(picked).conflicts
      ensures (exists i :: 0 <= i < |requirements| && c.package == PackageName(requirements[i]))
              && !c.kind.DependencyConflict?
    {
      GatherMembership(picked, c, "");
      var k :| 0 <= k < |picked| && c in picked[k].conflicts;
      var i := order[k];
      CheckFindings(requirements[i], requirements, registry);
      assert c in reports[i].conflicts;
    }
  }
}
