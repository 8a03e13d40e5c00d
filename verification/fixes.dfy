/**
 The fixed-requirements merge of the `check_dependencies` handler: a
 dictionary from extracted name to requirement line, seeded with the
 requirements and then overwritten by the suggestions.
 */
module Fixes {
  import opened Wrappers
  import opened Specifier

  /** A dictionary in insertion order, as Python's `dict` keeps one. */
  type Dict = seq<(string, string)>

  function Keys(d: Dict): (r: seq<string>)
    ensures |r| == |d| && forall i :: 0 <= i < |d| ==> r[i] == d[i].0
  {
    seq(|d|, i requires 0 <= i < |d| => d[i].0)
  }

  function Values(d: Dict): (r: seq<string>)
    ensures |r| == |d| && forall i :: 0 <= i < |d| ==> r[i] == d[i].1
  {
    seq(|d|, i requires 0 <= i < |d| => d[i].1)
  }

  predicate Distinct(s: seq<string>) {
    forall i, j :: 0 <= i < j < |s| ==> s[i] != s[j]
  }

  /** `d.get(k)`: the value stored under `k`, if any. */
  function Get(d: Dict, k: string): (r: Option<string>)
    ensures r.Some? <==> k in Keys(d)
  {
    if d == [] then None
    else if d[0].0 == k then Some(d[0].1)
    else Get(d[1..], k)
  }

  /** `d[k] = v`: an existing key keeps its place and takes the new value; a new key goes last. */
  function Put(d: Dict, k: string, v: string): (r: Dict)
    ensures Keys(r) == if k in Keys(d) then Keys(d) else Keys(d) + [k]
    decreases |d|
  {
    if d == [] then [(k, v)]
    else if d[0].0 == k then [(k, v)] + d[1..]
    else [d[0]] + Put(d[1..], k, v)
  }

  /** After `d[k] = v`, `k` reads `v` and every other key reads as before. */
  lemma {:induction false} PutGet(d: Dict, k: string, v: string, x: string)
    ensures Get(Put(d, k, v), x) == if x == k then Some(v) else Get(d, x)
    decreases |d|
  {
    if d != [] && d[0].0 != k {
      PutGet(d[1..], k, v, x);
    }
  }

  /** Assignments in order: `for k, v in pairs: d[k] = v`. */
  function PutAll(d: Dict, pairs: seq<(string, string)>): Dict
    decreases |pairs|
  {
    if pairs == [] then d
    else PutAll(Put(d, pairs[0].0, pairs[0].1), pairs[1..])
  }

  /** `acc` followed by the elements of `ys` not seen before, each once, in first-occurrence order. */
  function AddNew(acc: seq<string>, ys: seq<string>): seq<string>
    decreases |ys|
  {
    if ys == [] then acc
    else AddNew(if ys[0] in acc then acc else acc + [ys[0]], ys[1..])
  }

  /** The distinct elements of `ys` in first-occurrence order. */
  function Dedup(ys: seq<string>): seq<string> {
    AddNew([], ys)
  }

  /** The value of the last pair with key `k`, if any. */
  function LastWith(pairs: seq<(string, string)>, k: string): (r: Option<string>)
    ensures r.Some? <==> exists i :: 0 <= i < |pairs| && pairs[i].0 == k
    decreases |pairs|
  {
    if pairs == [] then None
    else if pairs[|pairs| - 1].0 == k then Some(pairs[|pairs| - 1].1)
    else LastWith(pairs[..|pairs| - 1], k)
  }

  /** Assigning in order leaves the keys in first-assignment order. */
  lemma {:induction false} PutAllKeys(d: Dict, pairs: seq<(string, string)>)
    ensures Keys(PutAll(d, pairs)) == AddNew(Keys(d), Keys(pairs))
    decreases |pairs|
  {
    if pairs != [] {
      PutAllKeys(Put(d, pairs[0].0, pairs[0].1), pairs[1..]);
      assert Keys(pairs)[1..] == Keys(pairs[1..]);
    }
  }

  /** Assigning in order leaves every key with its last assigned value, or its old one. */
  lemma {:induction false} PutAllGet(d: Dict, pairs: seq<(string, string)>, k: string)
    ensures Get(PutAll(d, pairs), k)
            == if LastWith(pairs, k).Some? then LastWith(pairs, k) else Get(d, k)
    decreases |pairs|
  {
    if pairs != [] {
      var d' := Put(d, pairs[0].0, pairs[0].1);
      PutAllGet(d', pairs[1..], k);
      PutGet(d, pairs[0].0, pairs[0].1, k);
      LastWithCons(pairs, k);
    }
  }

  /** The last pair with a key is in the tail, or else it is the head. */
  lemma {:induction false} LastWithCons(pairs: seq<(string, string)>, k: string)
    requires pairs != []
    ensures LastWith(pairs, k)
            == if LastWith(pairs[1..], k).Some? then LastWith(pairs[1..], k)
               else if pairs[0].0 == k then Some(pairs[0].1) else None
    decreases |pairs|
  {
    var n := |pairs|;
    if n > 1 && pairs[n - 1].0 != k {
      assert pairs[1..][..n - 2] == pairs[..n - 1][1..];
      LastWithCons(pairs[..n - 1], k);
    }
  }

  /** The last pair of a concatenation with a key is in the second part, or else in the first. */
  lemma {:induction false} LastWithAppend(a: seq<(string, string)>, b: seq<(string, string)>, k: string)
    ensures LastWith(a + b, k) == if LastWith(b, k).Some? then LastWith(b, k) else LastWith(a, k)
    decreases |b|
  {
    if b == [] {
      assert a + b == a;
    } else {
      var n := |b|;
      assert (a + b)[..|a + b| - 1] == a + b[..n - 1];
      LastWithAppend(a, b[..n - 1], k);
    }
  }

  /** Adding new elements keeps the result free of repeats and loses nothing. */
  lemma {:induction false} AddNewDistinct(acc: seq<string>, ys: seq<string>)
    requires Distinct(acc)
    ensures Distinct(AddNew(acc, ys))
    ensures forall x :: x in AddNew(acc, ys) <==> x in acc || x in ys
    decreases |ys|
  {
    if ys != [] {
      var acc' := if ys[0] in acc then acc else acc + [ys[0]];
      AddNewDistinct(acc', ys[1..]);
      assert ys == [ys[0]] + ys[1..];
    }
  }

  /** Nothing new to add: every element is already present. */
  lemma {:induction false} AddNewAbsorbs(acc: seq<string>, ys: seq<string>)
    requires forall i :: 0 <= i < |ys| ==> ys[i] in acc
    ensures AddNew(acc, ys) == acc
    decreases |ys|
  {
    if ys != [] {
      AddNewAbsorbs(acc, ys[1..]);
    }
  }

  /** A sequence without repeats is its own first-occurrence order. */
  lemma {:induction false} AddNewDistinctAppends(acc: seq<string>, ys: seq<string>)
    requires Distinct(ys)
    requires forall i :: 0 <= i < |ys| ==> ys[i] !in acc
    ensures AddNew(acc, ys) == acc + ys
    decreases |ys|
  {
    if ys != [] {
      AddNewDistinctAppends(acc + [ys[0]], ys[1..]);
      assert acc + [ys[0]] + ys[1..] == acc + ys;
    }
  }

  lemma {:induction false} AddNewAppend(acc: seq<string>, ys: seq<string>, zs: seq<string>)
    ensures AddNew(acc, ys + zs) == AddNew(AddNew(acc, ys), zs)
    decreases |ys|
  {
    if ys == [] {
      assert ys + zs == zs;
    } else {
      assert (ys + zs)[0] == ys[0];
      assert (ys + zs)[1..] == ys[1..] + zs;
      AddNewAppend(if ys[0] in acc then acc else acc + [ys[0]], ys[1..], zs);
    }
  }

  // ---------------------------------------------------------------------------
  // The merge

  /** Each line keyed by its extracted package name. */
  function Keyed(lines: seq<string>): (r: seq<(string, string)>)
    ensures |r| == |lines|
    ensures forall i :: 0 <= i < |lines| ==> r[i] == (PackageName(lines[i]), lines[i])
  {
    seq(|lines|, i requires 0 <= i < |lines| => (PackageName(lines[i]), lines[i]))
  }

  /** The last line with extracted name `name`, if any. */
  function LastNamed(lines: seq<string>, name: string): Option<string> {
    LastWith(Keyed(lines), name)
  }

  /** The two outputs of the merge. */
  datatype Fix = Fix(fixedRequirements: seq<string>, appliedSuggestions: Dict)

  /**
   The merge: with no conflicts nothing is fixed and nothing applied;
   otherwise the requirements keyed by name, then every suggestion assigned
   over its name.
   */
  function FixRequirements(requirements: seq<string>, hasConflicts: bool, suggestions: seq<string>): Fix {
    if !hasConflicts then Fix([], [])
    else
      var reqDict := PutAll([], Keyed(requirements));
      var merged := PutAll(reqDict, Keyed(suggestions));
      Fix(Values(merged), PutAll([], Keyed(suggestions)))
  }

  /** With no conflicts there is nothing to fix and nothing applied. */
  lemma {:induction false} NoConflictsNoFix(requirements: seq<string>, suggestions: seq<string>)
    ensures FixRequirements(requirements, false, suggestions) == Fix([], [])
  {
  }

  lemma {:induction false} KeysOfKeyed(lines: seq<string>)
    ensures Keys(Keyed(lines)) == PackageNames(lines)
  {
  }

  lemma {:induction false} KeyedAppend(a: seq<string>, b: seq<string>)
    ensures Keyed(a + b) == Keyed(a) + Keyed(b)
  {
  }

  /** The fixed dictionary is the requirements and suggestions assigned in one pass. */
  lemma {:induction false} MergedInOnePass(requirements: seq<string>, suggestions: seq<string>)
    ensures PutAll(PutAll([], Keyed(requirements)), Keyed(suggestions))
            == PutAll([], Keyed(requirements + suggestions))
  {
    KeyedAppend(requirements, suggestions);
    PutAllAppend([], Keyed(requirements), Keyed(suggestions));
  }

  lemma {:induction false} PutAllAppend(d: Dict, a: seq<(string, string)>, b: seq<(string, string)>)
    ensures PutAll(d, a + b) == PutAll(PutAll(d, a), b)
    decreases |a|
  {
    if a == [] {
      assert a + b == b;
    } else {
      assert (a + b)[0] == a[0];
      assert (a + b)[1..] == a[1..] + b;
      PutAllAppend(Put(d, a[0].0, a[0].1), a[1..], b);
    }
  }

  /**
   With conflicts, the fixed requirements hold one line per distinct
   extracted name, over the requirements and then the suggestions, in
   first-occurrence order; each is the last suggestion for that name if
   there is one, else the last requirement line with that name.
   */
  lemma {:induction false} FixedRequirements(requirements: seq<string>, suggestions: seq<string>)
    ensures var fixed := FixRequirements(requirements, true, suggestions).fixedRequirements;
            var names := Dedup(PackageNames(requirements) + PackageNames(suggestions));
            && |fixed| == |names|
            && Distinct(names)
            && (forall i :: 0 <= i < |names| ==>
                  Some(fixed[i]) == if LastNamed(suggestions, names[i]).Some?
                                    then LastNamed(suggestions, names[i])
                                    else LastNamed(requirements, names[i]))
  {
    var all := requirements + suggestions;
    var merged := PutAll([], Keyed(all));
    var names := Dedup(PackageNames(requirements) + PackageNames(suggestions));
    MergedKeys(requirements, suggestions);
    forall i | 0 <= i < |names|
      ensures Some(Values(merged)[i]) == if LastNamed(suggestions, names[i]).Some?
                                         then LastNamed(suggestions, names[i])
                                         else LastNamed(requirements, names[i])
    {
      var k := names[i];
      PutAllGet([], Keyed(all), k);
      KeyedAppend(requirements, suggestions);
      LastWithAppend(Keyed(requirements), Keyed(suggestions), k);
      GetDistinct(merged, i);
    }
  }

  /** The merged dictionary's keys: the distinct names in first-occurrence order. */
  lemma {:induction false} MergedKeys(requirements: seq<string>, suggestions: seq<string>)
    ensures var names := Dedup(PackageNames(requirements) + PackageNames(suggestions));
            && FixRequirements(requirements, true, suggestions).fixedRequirements
               == Values(PutAll([], Keyed(requirements + suggestions)))
            && Keys(PutAll([], Keyed(requirements + suggestions))) == names
            && Distinct(names)
  {
    var all := requirements + suggestions;
    MergedInOnePass(requirements, suggestions);
    PutAllKeys([], Keyed(all));
    KeysOfKeyed(all);
    PackageNamesAppend(requirements, suggestions);
    AddNewDistinct([], PackageNames(all));
  }

  /** With distinct keys, looking up the `i`-th key finds the `i`-th value. */
  lemma {:induction false} GetDistinct(d: Dict, i: nat)
    requires Distinct(Keys(d)) && i < |d|
    ensures Get(d, d[i].0) == Some(d[i].1)
    decreases i
  {
    if i > 0 {
      assert Keys(d[1..]) == Keys(d)[1..];
      GetDistinct(d[1..], i - 1);
    }
  }

  /**
   The applied suggestions map each suggested name, in first-occurrence
   order, to the last suggestion for it.
   */
  lemma {:induction false} AppliedSuggestions(requirements: seq<string>, suggestions: seq<string>)
    ensures var applied := FixRequirements(requirements, true, suggestions).appliedSuggestions;
            && Keys(applied) == Dedup(PackageNames(suggestions))
            && (forall k :: Get(applied, k) == LastNamed(suggestions, k))
  {
    var applied := PutAll([], Keyed(suggestions));
    PutAllKeys([], Keyed(suggestions));
    KeysOfKeyed(suggestions);
    forall k ensures Get(applied, k) == LastNamed(suggestions, k) {
      PutAllGet([], Keyed(suggestions), k);
    }
  }

  /**
   When the requirements name distinct packages and every suggestion names
   one of them, the fix keeps one line per requirement, in the same order.
   */
  lemma {:induction false} FixKeepsShape(requirements: seq<string>, suggestions: seq<string>)
    requires Distinct(PackageNames(requirements))
    requires forall j :: 0 <= j < |suggestions| ==> PackageName(suggestions[j]) in PackageNames(requirements)
    ensures var fixed := FixRequirements(requirements, true, suggestions).fixedRequirements;
            && |fixed| == |requirements|
            && (forall i :: 0 <= i < |requirements| ==> PackageName(fixed[i]) == PackageName(requirements[i]))
  {
    var names := PackageNames(requirements);
    AddNewDistinctAppends([], names);
    assert [] + names == names;
    AddNewAppend([], names, PackageNames(suggestions));
    AddNewAbsorbs(names, PackageNames(suggestions));
    FixedRequirements(requirements, suggestions);
    var fixed := FixRequirements(requirements, true, suggestions).fixedRequirements;
    forall i | 0 <= i < |requirements| ensures PackageName(fixed[i]) == PackageName(requirements[i]) {
      var k := names[i];
      LastNamedHasName(suggestions, k);
      LastNamedHasName(requirements, k);
      assert k in names;
    }
  }

  /** The line found for a name carries that name. */
  lemma {:induction false} LastNamedHasName(lines: seq<string>, name: string)
    ensures LastNamed(lines, name).Some? ==> PackageName(LastNamed(lines, name).value) == name
    ensures (exists i :: 0 <= i < |lines| && PackageName(lines[i]) == name) ==> LastNamed(lines, name).Some?
  {
    LastWithHasKey(Keyed(lines), name);
    if exists i :: 0 <= i < |lines| && PackageName(lines[i]) == name {
      var i :| 0 <= i < |lines| && PackageName(lines[i]) == name;
      assert Keyed(lines)[i].0 == name;
    }
  }

  lemma {:induction false} LastWithHasKey(pairs: seq<(string, string)>, k: string)
    ensures LastWith(pairs, k).Some? ==> exists i :: 0 <= i < |pairs| && pairs[i] == (k, LastWith(pairs, k).value)
    decreases |pairs|
  {
    if pairs != [] && pairs[|pairs| - 1].0 != k {
      LastWithHasKey(pairs[..|pairs| - 1], k);
      if LastWith(pairs, k).Some? {
        var i :| 0 <= i < |pairs| - 1 && pairs[..|pairs| - 1][i] == (k, LastWith(pairs, k).value);
        assert pairs[i] == (k, LastWith(pairs, k).value);
      }
    }
  }
}
