/**
 Reading the submitted requirements: the line filter of `parse_dependencies`
 and the name / operator / version split applied to every requirement line
 (app.py, `check_package_conflict` and its callers).
 */
module Specifier {
  import opened Wrappers
  import opened Text

  // ---------------------------------------------------------------------------
  // parse_dependencies

  /** A stripped line is kept when it is non-empty and not a `#` comment. */
  predicate IsEntry(line: string) {
    line != [] && line[0] != '#'
  }

  /** Every line stripped, in order. */
  function Stripped(lines: seq<string>): seq<string> {
    seq(|lines|, i requires 0 <= i < |lines| => Trim(lines[i]))
  }

  /** The lines that are entries, in order. */
  function KeepEntries(ts: seq<string>): (r: seq<string>)
    ensures |r| <= |ts|
  {
    if ts == [] then []
    else (if IsEntry(ts[0]) then [ts[0]] else []) + KeepEntries(ts[1..])
  }

  /** The stripped lines among `lines` that are kept, in order. */
  function Entries(lines: seq<string>): (r: seq<string>)
    ensures |r| <= |lines|
  {
    KeepEntries(Stripped(lines))
  }

  /**
   `parse_dependencies`: strip the whole text, split it on newlines, strip
   every line and keep the non-blank, non-comment ones.
   */
  function ParseDependencies(text: string): (r: seq<string>)
    ensures forall i :: 0 <= i < |r| ==> IsEntry(r[i]) && Trimmed(r[i])
  {
    EntriesShape(Lines(Trim(text)));
    Entries(Lines(Trim(text)))
  }

  lemma {:induction false} KeepEntriesShape(ts: seq<string>)
    ensures forall i :: 0 <= i < |KeepEntries(ts)| ==> IsEntry(KeepEntries(ts)[i]) && KeepEntries(ts)[i] in ts
    decreases |ts|
  {
    if ts != [] {
      KeepEntriesShape(ts[1..]);
    }
  }

  /** Every entry is a non-blank, non-comment, stripped line. */
  lemma {:induction false} EntriesShape(lines: seq<string>)
    ensures forall i :: 0 <= i < |Entries(lines)| ==> IsEntry(Entries(lines)[i]) && Trimmed(Entries(lines)[i])
  {
    var ts := Stripped(lines);
    KeepEntriesShape(ts);
    forall i | 0 <= i < |Entries(lines)| ensures Trimmed(Entries(lines)[i]) {
      var j :| 0 <= j < |ts| && ts[j] == Entries(lines)[i];
      assert ts[j] == Trim(lines[j]);
    }
  }

  lemma {:induction false} KeepEntriesAppend(a: seq<string>, b: seq<string>)
    ensures KeepEntries(a + b) == KeepEntries(a) + KeepEntries(b)
    decreases |a|
  {
    if a == [] {
      assert a + b == b;
    } else {
      assert (a + b)[0] == a[0];
      assert (a + b)[1..] == a[1..] + b;
      KeepEntriesAppend(a[1..], b);
    }
  }

  lemma {:induction false} EntriesAppend(a: seq<string>, b: seq<string>)
    ensures Entries(a + b) == Entries(a) + Entries(b)
  {
    assert Stripped(a + b) == Stripped(a) + Stripped(b);
    KeepEntriesAppend(Stripped(a), Stripped(b));
  }

  lemma {:induction false} LinesOfSpace(w: string)
    requires AllSpace(w)
    ensures forall i :: 0 <= i < |Lines(w)| ==> AllSpace(Lines(w)[i])
    decreases |w|
  {
    if |w| > 0 {
      LinesOfSpace(w[1..]);
      var rest := Lines(w[1..]);
      if w[0] != '\n' {
        assert AllSpace([w[0]] + rest[0]) by {
          forall j | 0 <= j < |[w[0]] + rest[0]| ensures IsSpace(([w[0]] + rest[0])[j]) {
            if j > 0 { assert ([w[0]] + rest[0])[j] == rest[0][j - 1]; }
          }
        }
      }
    }
  }

  lemma {:induction false} KeepNone(ts: seq<string>)
    requires forall i :: 0 <= i < |ts| ==> ts[i] == []
    ensures KeepEntries(ts) == []
    decreases |ts|
  {
    if ts != [] {
      KeepNone(ts[1..]);
    }
  }

  lemma {:induction false} EntriesOfSpace(ls: seq<string>)
    requires forall i :: 0 <= i < |ls| ==> AllSpace(ls[i])
    ensures Entries(ls) == []
  {
    forall i | 0 <= i < |ls| ensures Stripped(ls)[i] == [] {
      TrimIgnoresSpaceEnds(ls[i], [], []);
      assert ls[i] + [] + [] == ls[i];
    }
    KeepNone(Stripped(ls));
  }

  lemma {:induction false} EntriesSingle(x: string)
    ensures Entries([x]) == if IsEntry(Trim(x)) then [Trim(x)] else []
  {
    assert Stripped([x]) == [Trim(x)];
    assert [Trim(x)][1..] == [];
  }

  /** Entries of glued pieces, split into the three parts of the glue. */
  lemma {:induction false} EntriesGlue(la: seq<string>, lb: seq<string>)
    requires |la| >= 1 && |lb| >= 1
    ensures Entries(Glue(la, lb))
            == Entries(la[..|la| - 1]) + Entries([la[|la| - 1] + lb[0]]) + Entries(lb[1..])
  {
    EntriesAppend(la[..|la| - 1] + [la[|la| - 1] + lb[0]], lb[1..]);
    EntriesAppend(la[..|la| - 1], [la[|la| - 1] + lb[0]]);
  }

  lemma {:induction false} EntriesSpaceJoinLeft(w: string, x: string)
    requires AllSpace(w)
    ensures Entries([w + x]) == Entries([x])
  {
    TrimIgnoresSpaceEnds(w, x, []);
    assert w + x + [] == w + x;
    TrimIgnoresSpaceEnds([], x, []);
    assert [] + x + [] == x;
    EntriesSingle(w + x);
    EntriesSingle(x);
  }

  lemma {:induction false} EntriesSpaceJoinRight(x: string, w: string)
    requires AllSpace(w)
    ensures Entries([x + w]) == Entries([x])
  {
    TrimIgnoresSpaceEnds([], x, w);
    assert [] + x + w == x + w;
    TrimIgnoresSpaceEnds([], x, []);
    assert [] + x + [] == x;
    EntriesSingle(x + w);
    EntriesSingle(x);
  }

  /** Gluing whitespace-only pieces in front of `lb` keeps its entries. */
  lemma {:induction false} EntriesGlueSpaceLeft(la: seq<string>, lb: seq<string>)
    requires |la| >= 1 && |lb| >= 1
    requires forall i :: 0 <= i < |la| ==> AllSpace(la[i])
    ensures Entries(Glue(la, lb)) == Entries(lb)
  {
    var front, w, x, rest := la[..|la| - 1], la[|la| - 1], lb[0], lb[1..];
    assert forall i :: 0 <= i < |front| ==> AllSpace(front[i]);
    EntriesGlue(la, lb);
    EntriesOfSpace(front);
    EntriesSpaceJoinLeft(w, x);
    assert lb == [x] + rest;
    EntriesAppend([x], rest);
    var ex, er := Entries([x]), Entries(rest);
    assert Entries(front) == [];
    assert Entries([w + x]) == ex;
    var ef := Entries(front);
    assert ef + ex == ex;
    assert Entries(Glue(la, lb)) == ex + er;
  }

  /** Gluing whitespace-only pieces after `la` keeps its entries. */
  lemma {:induction false} EntriesGlueSpaceRight(la: seq<string>, lb: seq<string>)
    requires |la| >= 1 && |lb| >= 1
    requires forall i :: 0 <= i < |lb| ==> AllSpace(lb[i])
    ensures Entries(Glue(la, lb)) == Entries(la)
  {
    var front, x, w, rest := la[..|la| - 1], la[|la| - 1], lb[0], lb[1..];
    assert forall i :: 0 <= i < |rest| ==> AllSpace(rest[i]);
    EntriesGlue(la, lb);
    EntriesOfSpace(rest);
    EntriesSpaceJoinRight(x, w);
    assert la == front + [x];
    EntriesAppend(front, [x]);
    calc {
      Entries(Glue(la, lb));
      Entries(front) + Entries([x + w]) + Entries(rest);
      Entries(front) + Entries([x]) + [];
      Entries(front) + Entries([x]);
      Entries(la);
    }
  }

  /** Whitespace in front of the text only joins the first line, which is stripped anyway. */
  lemma {:induction false} EntriesSpaceBefore(w: string, x: string)
    requires AllSpace(w)
    ensures Entries(Lines(w + x)) == Entries(Lines(x))
  {
    LinesAppend(w, x);
    LinesOfSpace(w);
    EntriesGlueSpaceLeft(Lines(w), Lines(x));
  }

  /** Whitespace after the text only extends the last line, which is stripped anyway. */
  lemma {:induction false} EntriesSpaceAfter(x: string, w: string)
    requires AllSpace(w)
    ensures Entries(Lines(x + w)) == Entries(Lines(x))
  {
    LinesAppend(x, w);
    LinesOfSpace(w);
    EntriesGlueSpaceRight(Lines(x), Lines(w));
  }

  /**
   The up-front `strip()` of the whole text changes nothing: the result is
   exactly the kept lines of the raw text, in input order.
   */
  lemma {:induction false} ParseDependenciesLines(text: string)
    ensures ParseDependencies(text) == Entries(Lines(text))
  {
    var a, b := TrimSlice(text);
    var m := text[a..b];
    assert text == text[..a] + (m + text[b..]);
    EntriesSpaceBefore(text[..a], m + text[b..]);
    EntriesSpaceAfter(m, text[b..]);
  }

  lemma {:induction false} KeepEntriesMembership(ts: seq<string>, x: string)
    ensures x in KeepEntries(ts) <==> x in ts && IsEntry(x)
    decreases |ts|
  {
    if ts != [] {
      KeepEntriesMembership(ts[1..], x);
      assert ts == [ts[0]] + ts[1..];
    }
  }

  /** A string is returned exactly when it is a kept, stripped line of the text. */
  lemma {:induction false} EntriesMembership(lines: seq<string>, x: string)
    ensures x in Entries(lines) <==> exists i :: 0 <= i < |lines| && Trim(lines[i]) == x && IsEntry(x)
  {
    var ts := Stripped(lines);
    KeepEntriesMembership(ts, x);
    if x in ts {
      var i :| 0 <= i < |ts| && ts[i] == x;
      assert Trim(lines[i]) == x;
    }
    if exists i :: 0 <= i < |lines| && Trim(lines[i]) == x && IsEntry(x) {
      var i :| 0 <= i < |lines| && Trim(lines[i]) == x && IsEntry(x);
      assert ts[i] == x;
    }
  }

  // ---------------------------------------------------------------------------
  // Name, operator and version of one requirement line

  /** The six version operators the analyser recognises. */
  datatype Op = Eq | Ge | Le | Gt | Lt | Compat

  function OpText(op: Op): (r: string)
    ensures 1 <= |r| <= 2
  {
    match op
    case Eq => "=="
    case Ge => ">="
    case Le => "<="
    case Gt => ">"
    case Lt => "<"
    case Compat => "~="
  }

  /** The order in which the operators are tried. */
  const OpOrder: seq<Op> := [Eq, Ge, Le, Gt, Lt, Compat]

  /** Position of `op` in `OpOrder`. */
  function Rank(op: Op): (r: nat)
    ensures r < |OpOrder| && OpOrder[r] == op
  {
    match op
    case Eq => 0
    case Ge => 1
    case Le => 2
    case Gt => 3
    case Lt => 4
    case Compat => 5
  }

  /** No recognised operator occurs anywhere in the line. */
  predicate NoOperator(line: string) {
    forall op: Op :: !Contains(line, OpText(op))
  }

  lemma {:induction false} NoOperatorElim(line: string)
    ensures NoOperator(line) ==>
              !Contains(line, "==") && !Contains(line, ">=") && !Contains(line, "<=")
              && !Contains(line, ">") && !Contains(line, "<") && !Contains(line, "~=")
  {
    if NoOperator(line) {
      assert !Contains(line, OpText(Eq)) && !Contains(line, OpText(Ge))
        && !Contains(line, OpText(Le)) && !Contains(line, OpText(Gt))
        && !Contains(line, OpText(Lt)) && !Contains(line, OpText(Compat));
    }
  }

  lemma {:induction false} NoOperatorIntro(line: string)
    requires !Contains(line, "==") && !Contains(line, ">=") && !Contains(line, "<=")
    requires !Contains(line, ">") && !Contains(line, "<") && !Contains(line, "~=")
    ensures NoOperator(line)
  {
    forall op: Op ensures !Contains(line, OpText(op)) {
      match op
      case Eq =>
      case Ge =>
      case Le =>
      case Gt =>
      case Lt =>
      case Compat =>
    }
  }

  /** What follows the package name: nothing, or an operator with its version text. */
  datatype Constraint = Unconstrained | Constrained(op: Op, version: string)

  /** `s.split(seps[0])[0].split(seps[1])[0]...`: successive cuts, each a prefix. */
  function CutAll(s: string, seps: seq<string>): (r: string)
    requires forall j :: 0 <= j < |seps| ==> |seps[j]| > 0
    ensures |r| <= |s| && r == s[..|r|]
  {
    if seps == [] then s
    else
      var c := Before(s, seps[0]);
      var r := CutAll(c, seps[1..]);
      assert c[..|r|] == s[..|r|];
      r
  }

  /** Every separator is gone after the cuts, and a string holding none of them is not cut. */
  lemma {:induction false} CutAllRemoves(s: string, seps: seq<string>)
    requires forall j :: 0 <= j < |seps| ==> |seps[j]| > 0
    ensures forall j :: 0 <= j < |seps| ==> !Contains(CutAll(s, seps), seps[j])
    ensures (forall j :: 0 <= j < |seps| ==> !Contains(s, seps[j])) ==> CutAll(s, seps) == s
    decreases |seps|
  {
    if seps != [] {
      var c := Before(s, seps[0]);
      var r := CutAll(c, seps[1..]);
      CutAllRemoves(c, seps[1..]);
      NotContainsSlice(c, seps[0], 0, |r|);
      assert c[..|r|] == r;
      if forall j :: 0 <= j < |seps| ==> !Contains(s, seps[j]) {
        assert c == s;
        assert forall j :: 0 <= j < |seps[1..]| ==> !Contains(s, seps[1..][j]) by {
          forall j | 0 <= j < |seps[1..]| ensures !Contains(s, seps[1..][j]) {
            assert seps[1..][j] == seps[j + 1];
          }
        }
      }
      forall j | 0 <= j < |seps| ensures !Contains(r, seps[j]) {
        if j > 0 { assert seps[j] == seps[1..][j - 1]; }
      }
    }
  }

  /** The operator texts in the order the source cuts on them. */
  const CutOrder: seq<string> := ["==", ">=", "<=", ">", "<", "~="]

  /** Cutting a string that some separator shortens to `n`, and that none shortens otherwise. */
  lemma {:induction false} CutAllReaches(s: string, n: string, seps: seq<string>, j: nat)
    requires forall i :: 0 <= i < |seps| ==> |seps[i]| > 0
    requires forall i :: 0 <= i < |seps| ==> !Contains(n, seps[i])
    requires forall i :: 0 <= i < |seps| ==> Before(s, seps[i]) == s || Before(s, seps[i]) == n
    requires j < |seps| && Before(s, seps[j]) == n
    ensures CutAll(s, seps) == n
    decreases |seps|
  {
    var c := Before(s, seps[0]);
    var tail := seps[1..];
    assert forall i :: 0 <= i < |tail| ==> tail[i] == seps[i + 1];
    if c == n {
      CutAllRemoves(n, tail);
    } else {
      CutAllReaches(s, n, tail, j - 1);
    }
  }

  lemma CutOrderIsOpOrder()
    ensures |CutOrder| == |OpOrder|
    ensures forall j :: 0 <= j < |CutOrder| ==> CutOrder[j] == OpText(OpOrder[j])
  {
  }

  /** The chain of `split(op)[0]` cuts on a line, before the final `strip()`. */
  function NameCut(line: string): (r: string)
    ensures |r| <= |line| && r == line[..|r|]
  {
    CutAll(line, CutOrder)
  }

  /** After the cuts no operator is left; without operators nothing is cut. */
  lemma {:induction false} NameCutNoOperator(line: string)
    ensures NoOperator(NameCut(line))
    ensures NoOperator(line) ==> NameCut(line) == line
  {
    CutAllRemoves(line, CutOrder);
    var r := NameCut(line);
    assert !Contains(r, CutOrder[0]) && !Contains(r, CutOrder[1]) && !Contains(r, CutOrder[2])
      && !Contains(r, CutOrder[3]) && !Contains(r, CutOrder[4]) && !Contains(r, CutOrder[5]);
    NoOperatorIntro(r);
    NoOperatorElim(line);
    if NoOperator(line) {
      assert forall j :: 0 <= j < |CutOrder| ==> !Contains(line, CutOrder[j]);
    }
  }

  /**
   The package name of a requirement line: the stripped prefix before the
   operators, with none of `==`, `~=`, `<`, `>` in it; the whole stripped line
   when it has no operator.
   */
  function PackageName(line: string): (r: string)
    ensures Trimmed(r)
    ensures r == Trim(line[..|NameCut(line)|])
    ensures !Contains(r, "==") && !Contains(r, "~=") && !Contains(r, "<") && !Contains(r, ">")
    ensures NoOperator(line) ==> r == Trim(line)
  {
    var cut := NameCut(line);
    NameCutNoOperator(line);
    NoOperatorElim(cut);
    NotContainsTrim(cut, "==");
    NotContainsTrim(cut, "~=");
    NotContainsTrim(cut, "<");
    NotContainsTrim(cut, ">");
    Trim(cut)
  }

  /** The extracted package name of every line, in order. */
  function PackageNames(lines: seq<string>): (r: seq<string>)
    ensures |r| == |lines|
    ensures forall i :: 0 <= i < |lines| ==> r[i] == PackageName(lines[i])
  {
    seq(|lines|, i requires 0 <= i < |lines| => PackageName(lines[i]))
  }

  /** Names are extracted line by line, so extraction distributes over concatenation. */
  lemma {:induction false} PackageNamesAppend(a: seq<string>, b: seq<string>)
    ensures PackageNames(a + b) == PackageNames(a) + PackageNames(b)
  {
    var r, na, nb := PackageNames(a + b), PackageNames(a), PackageNames(b);
    forall k | 0 <= k < |r| ensures r[k] == (na + nb)[k] {
      if k < |a| {
        assert (a + b)[k] == a[k];
      } else {
        assert (a + b)[k] == b[k - |a|];
      }
    }
  }

  /**
   The `if/elif` ladder: the first operator of `OpOrder` found anywhere in the
   line, and the text between its first and second occurrence.
   */
  function SplitConstraint(line: string): (r: Constraint)
    ensures r.Unconstrained? <==> NoOperator(line)
    ensures r.Constrained? ==> Contains(line, OpText(r.op))
    ensures r.Constrained? ==>
              forall j :: 0 <= j < Rank(r.op) ==> !Contains(line, OpText(OpOrder[j]))
    ensures r.Constrained? ==> r.version == After(line, OpText(r.op))
  {
    match LadderOp(line)
    case Some(op) => Constrained(op, After(line, OpText(op)))
    case None => Unconstrained
  }

  /** The operator the ladder settles on, if any. */
  function LadderOp(line: string): (r: Option<Op>)
    ensures r.None? <==> NoOperator(line)
    ensures r.Some? ==> Contains(line, OpText(r.value))
    ensures r.Some? ==>
              forall j :: 0 <= j < Rank(r.value) ==> !Contains(line, OpText(OpOrder[j]))
  {
    NoOperatorElim(line);
    if Contains(line, "==") then Some(Eq)
    else if Contains(line, ">=") then Some(Ge)
    else if Contains(line, "<=") then Some(Le)
    else if Contains(line, ">") then Some(Gt)
    else if Contains(line, "<") then Some(Lt)
    else if Contains(line, "~=") then Some(Compat)
    else
      NoOperatorIntro(line);
      None
  }

  /** Conversely, the first operator of `OpOrder` present in the line is the one chosen. */
  lemma {:induction false} SplitConstraintFirst(line: string, op: Op)
    requires Contains(line, OpText(op))
    requires forall j :: 0 <= j < Rank(op) ==> !Contains(line, OpText(OpOrder[j]))
    ensures SplitConstraint(line) == Constrained(op, After(line, OpText(op)))
  {
    match op
    case Eq =>
    case Ge => assert !Contains(line, OpText(OpOrder[0]));
    case Le => assert !Contains(line, OpText(OpOrder[0])) && !Contains(line, OpText(OpOrder[1]));
    case Gt =>
      assert !Contains(line, OpText(OpOrder[0])) && !Contains(line, OpText(OpOrder[1]));
      assert !Contains(line, OpText(OpOrder[2]));
    case Lt =>
      assert !Contains(line, OpText(OpOrder[0])) && !Contains(line, OpText(OpOrder[1]));
      assert !Contains(line, OpText(OpOrder[2])) && !Contains(line, OpText(OpOrder[3]));
    case Compat =>
      assert !Contains(line, OpText(OpOrder[0])) && !Contains(line, OpText(OpOrder[1]));
      assert !Contains(line, OpText(OpOrder[2])) && !Contains(line, OpText(OpOrder[3]));
      assert !Contains(line, OpText(OpOrder[4]));
  }

  // ---------------------------------------------------------------------------
  // Round trip

  predicate IsOpChar(c: char) {
    c == '<' || c == '>' || c == '=' || c == '~'
  }

  /** A name or version made of ordinary characters only. */
  predicate Plain(s: string) {
    forall i :: 0 <= i < |s| ==> !IsOpChar(s[i])
  }

  /** The requirement line `name<op>version`. */
  function Render(name: string, op: Op, version: string): string {
    name + OpText(op) + version
  }

  predicate StartsWith(s: string, prefix: string) {
    |prefix| <= |s| && s[..|prefix|] == prefix
  }

  /** In `n + o + v` with plain `n` and `v`, operator characters come from `o` only. */
  lemma {:induction false} OpCharInOp(n: string, o: string, v: string, i: int)
    requires Plain(n) && Plain(v)
    requires 0 <= i < |n + o + v| && IsOpChar((n + o + v)[i])
    ensures |n| <= i < |n| + |o|
  {
    var s := n + o + v;
    forall j | 0 <= j < |n| ensures !IsOpChar(s[j]) {
      assert s[j] == n[j];
    }
    forall j | |n| + |o| <= j < |s| ensures !IsOpChar(s[j]) {
      assert s[j] == v[j - |n| - |o|];
    }
  }

  /** So an operator found in `n + o + v` sits at the start of `o`. */
  lemma {:induction false} LocateOp(n: string, op: Op, v: string, t: Op, k: int)
    requires Plain(n) && Plain(v)
    requires OccursAt(Render(n, op, v), OpText(t), k)
    ensures k == |n| && StartsWith(OpText(op), OpText(t))
  {
    var s, o, u := Render(n, op, v), OpText(op), OpText(t);
    assert s[k] == u[0] by { assert s[k..k + |u|][0] == s[k]; }
    assert s[k + |u| - 1] == u[|u| - 1] by { assert s[k..k + |u|][|u| - 1] == s[k + |u| - 1]; }
    OpCharInOp(n, o, v, k);
    OpCharInOp(n, o, v, k + |u| - 1);
    assert s[k..k + |u|] == o[k - |n|..k - |n| + |u|];
  }

  lemma {:induction false} PlainNoOp(s: string, t: Op)
    requires Plain(s)
    ensures !Contains(s, OpText(t))
  {
    var u := OpText(t);
    forall k | 0 <= k && k + |u| <= |s| ensures !OccursAt(s, u, k) {
      assert s[k..k + |u|][0] == s[k];
    }
  }

  lemma {:induction false} CutStep(n: string, op: Op, v: string, t: Op)
    requires Plain(n) && Plain(v)
    ensures Before(Render(n, op, v), OpText(t))
            == if StartsWith(OpText(op), OpText(t)) then n else Render(n, op, v)
    ensures Contains(Render(n, op, v), OpText(t)) <==> StartsWith(OpText(op), OpText(t))
    ensures Before(n, OpText(t)) == n
  {
    var s, o, u := Render(n, op, v), OpText(op), OpText(t);
    forall k | OccursAt(s, u, k) ensures k == |n| && StartsWith(o, u) {
      LocateOp(n, op, v, t, k);
    }
    PlainNoOp(n, t);
    if StartsWith(o, u) {
      assert s[|n|..|n| + |o|] == o;
      assert s[|n|..|n| + |u|] == s[|n|..|n| + |o|][..|u|];
      assert OccursAt(s, u, |n|);
      assert s[..|n|] == n;
    }
  }

  /** The name of a printed requirement `name<op>version` is the stripped name. */
  lemma {:induction false} NameRoundTrip(n: string, op: Op, v: string)
    requires Plain(n) && Plain(v)
    ensures PackageName(Render(n, op, v)) == Trim(n)
  {
    var s := Render(n, op, v);
    forall t: Op ensures Before(s, OpText(t)) == s || Before(s, OpText(t)) == n
                 ensures Before(n, OpText(t)) == n {
      CutStep(n, op, v, t);
    }
    CutStep(n, op, v, op);
    assert StartsWith(OpText(op), OpText(op));
    forall j | 0 <= j < |CutOrder| ensures !Contains(n, CutOrder[j]) {
      CutOrderIsOpOrder();
      PlainNoOp(n, OpOrder[j]);
    }
    CutOrderIsOpOrder();
    CutAllReaches(s, n, CutOrder, Rank(op));
    assert s[..|n|] == n;
  }

  /** The text after the operator of a printed requirement is its version. */
  lemma {:induction false} VersionRoundTrip(n: string, op: Op, v: string)
    requires Plain(n) && Plain(v)
    ensures Contains(Render(n, op, v), OpText(op))
    ensures After(Render(n, op, v), OpText(op)) == v
  {
    var s := Render(n, op, v);
    var o := OpText(op);
    assert OccursAt(s, o, |n|) by { assert s[|n|..|n| + |o|] == o; }
    var i := Find(s, o).value;
    LocateOp(n, op, v, op, i);
    assert s[|n| + |o|..] == v;
    PlainNoOp(v, op);
  }

  /** No operator tried before `op` is a prefix of `op`'s text, so none of them fires first. */
  lemma EarlierOpsAreNotPrefixes(op: Op)
    ensures forall j :: 0 <= j < Rank(op) ==> !StartsWith(OpText(op), OpText(OpOrder[j]))
  {
    forall j | 0 <= j < Rank(op) ensures !StartsWith(OpText(op), OpText(OpOrder[j])) {
      var o, u := OpText(op), OpText(OpOrder[j]);
      assert o[0] != u[0] || |u| > |o|;
      if |u| <= |o| {
        assert o[..|u|][0] == o[0];
      }
    }
  }

  /** Splitting a printed requirement gives back its operator and its version. */
  lemma {:induction false} ConstraintRoundTrip(n: string, op: Op, v: string)
    requires Plain(n) && Plain(v)
    ensures SplitConstraint(Render(n, op, v)) == Constrained(op, v)
  {
    var s := Render(n, op, v);
    VersionRoundTrip(n, op, v);
    EarlierOpsAreNotPrefixes(op);
    forall j | 0 <= j < Rank(op) ensures !Contains(s, OpText(OpOrder[j])) {
      CutStep(n, op, v, OpOrder[j]);
    }
    SplitConstraintFirst(s, op);
  }
}
