/**
 `get_limited_dependency_tree`: one node per requirement whose package the
 registry knows, with that package's declared dependencies as leaves.
 */
module DependencyTree {
  import opened Text
  import opened Specifier
  import opened Metadata

  /** A node of the tree as the handler serialises it. */
  datatype TreeNode = TreeNode(packageName: string, dependencies: seq<TreeNode>)

  /**
   The node of a known package: one leaf per declared dependency, named by
   the dependency's first space-separated token. Extracted names hold no
   space, so the token is the extracted name itself.
   */
  function PackageNode(name: string, m: PackageMetadata): (r: TreeNode)
    ensures r.packageName == name
    ensures |r.dependencies| == |ExtractRequirements(m)|
    ensures forall i :: 0 <= i < |r.dependencies| ==>
              r.dependencies[i] == TreeNode(ExtractRequirements(m)[i], [])
  {
    var deps := ExtractRequirements(m);
    TreeNode(name, seq(|deps|, i requires 0 <= i < |deps| =>
      BeforeAbsent(deps[i], " ");
      TreeNode(Before(deps[i], " "), [])))
  }

  /** The names the registry knows, in order: the ones the loop does not skip. */
  function KnownNames(names: seq<string>, registry: Registry): (r: seq<string>)
    ensures |r| <= |names|
    ensures forall k :: 0 <= k < |r| ==> r[k] in registry
  {
    if names == [] then []
    else if names[0] in registry then [names[0]] + KnownNames(names[1..], registry)
    else KnownNames(names[1..], registry)
  }

  /** The nodes for the names the registry knows, in order. */
  function TreeOf(names: seq<string>, registry: Registry): (r: seq<TreeNode>)
    ensures |r| <= |names|
    ensures forall k :: 0 <= k < |r| ==>
              r[k].packageName in registry
              && r[k] == PackageNode(r[k].packageName, registry[r[k].packageName])
  {
    var known := KnownNames(names, registry);
    seq(|known|, k requires 0 <= k < |known| => PackageNode(known[k], registry[known[k]]))
  }

  /** `get_limited_dependency_tree(requirements)` against a fixed registry. */
  function LimitedTree(requirements: seq<string>, registry: Registry): seq<TreeNode> {
    TreeOf(PackageNames(requirements), registry)
  }

  /** The tree is at most two levels deep: every leaf has no children. */
  lemma {:induction false} TreeDepthOne(requirements: seq<string>, registry: Registry)
    ensures var r := LimitedTree(requirements, registry);
            forall k, i :: 0 <= k < |r| && 0 <= i < |r[k].dependencies| ==> r[k].dependencies[i].dependencies == []
  {
    var r := LimitedTree(requirements, registry);
    forall k, i | 0 <= k < |r| && 0 <= i < |r[k].dependencies|
      ensures r[k].dependencies[i].dependencies == []
    {
      var m := registry[r[k].packageName];
      assert r[k].dependencies[i] == TreeNode(ExtractRequirements(m)[i], []);
    }
  }

  /** Skipping unknown names works piecewise: the known names of a concatenation are concatenated. */
  lemma {:induction false} KnownNamesAppend(a: seq<string>, b: seq<string>, registry: Registry)
    ensures KnownNames(a + b, registry) == KnownNames(a, registry) + KnownNames(b, registry)
    decreases |a|
  {
    if a == [] {
      assert a + b == b;
    } else {
      assert (a + b)[0] == a[0];
      assert (a + b)[1..] == a[1..] + b;
      KnownNamesAppend(a[1..], b, registry);
    }
  }

  /** A name is kept exactly when it occurs and the registry knows it. */
  lemma {:induction false} KnownNamesMembership(names: seq<string>, registry: Registry, x: string)
    ensures x in KnownNames(names, registry) <==> x in names && x in registry
    decreases |names|
  {
    if names != [] {
      KnownNamesMembership(names[1..], registry, x);
      assert names == [names[0]] + names[1..];
    }
  }

  lemma {:induction false} TreeOfAppend(na: seq<string>, nb: seq<string>, registry: Registry)
    ensures TreeOf(na + nb, registry) == TreeOf(na, registry) + TreeOf(nb, registry)
  {
    KnownNamesAppend(na, nb, registry);
    var ka, kb := KnownNames(na, registry), KnownNames(nb, registry);
    var t, ta, tb := TreeOf(na + nb, registry), TreeOf(na, registry), TreeOf(nb, registry);
    forall k | 0 <= k < |t| ensures t[k] == (ta + tb)[k] {
      if k < |ka| {
        assert (ka + kb)[k] == ka[k];
      } else {
        assert (ka + kb)[k] == kb[k - |ka|];
      }
    }
  }

  /**
   The tree is built requirement by requirement, in order: the tree of a
   concatenation is the concatenation of the trees.
   */
  lemma {:induction false} TreeAppend(a: seq<string>, b: seq<string>, registry: Registry)
    ensures LimitedTree(a + b, registry) == LimitedTree(a, registry) + LimitedTree(b, registry)
  {
    PackageNamesAppend(a, b);
    TreeOfAppend(PackageNames(a), PackageNames(b), registry);
  }

  /** One requirement gives its package's node when the registry knows the name, else nothing. */
  lemma {:induction false} TreeSingle(req: string, registry: Registry)
    ensures var name := PackageName(req);
            LimitedTree([req], registry)
            == if name in registry then [PackageNode(name, registry[name])] else []
  {
    assert PackageNames([req]) == [PackageName(req)];
    TreeOfSingle(PackageName(req), registry);
  }

  lemma {:induction false} TreeOfSingle(name: string, registry: Registry)
    ensures TreeOf([name], registry)
            == if name in registry then [PackageNode(name, registry[name])] else []
  {
    assert [name][1..] == [];
    assert KnownNames([name], registry) == if name in registry then [name] else [];
  }

  /** A package heads a node exactly when some requirement names it and the registry knows it. */
  lemma {:induction false} TreeRoots(requirements: seq<string>, registry: Registry, name: string)
    ensures (exists k :: 0 <= k < |LimitedTree(requirements, registry)|
               && LimitedTree(requirements, registry)[k].packageName == name)
            <==> name in registry
                 && exists i :: 0 <= i < |requirements| && PackageName(requirements[i]) == name
  {
    var names := PackageNames(requirements);
    var known := KnownNames(names, registry);
    var r := LimitedTree(requirements, registry);
    KnownNamesMembership(names, registry, name);
    assert forall k :: 0 <= k < |r| ==> r[k].packageName == known[k];
    if exists k :: 0 <= k < |r| && r[k].packageName == name {
      var k :| 0 <= k < |r| && r[k].packageName == name;
      assert known[k] == name;
      var i :| 0 <= i < |names| && names[i] == name;
    }
    if name in registry && exists i :: 0 <= i < |requirements| && PackageName(requirements[i]) == name {
      var i :| 0 <= i < |requirements| && PackageName(requirements[i]) == name;
      assert names[i] == name;
      var k :| 0 <= k < |known| && known[k] == name;
      assert r[k].packageName == name;
    }
  }
}
