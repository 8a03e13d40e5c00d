/**
 The package registry as the analyser sees it. The PyPI request of
 `get_package_metadata` (and its `lru_cache`) becomes a fixed map from
 package name to metadata: a name without an entry is a package whose
 lookup failed. `extract_requirements_from_metadata` turns a package's
 `requires_dist` list into bare dependency names.
 */
module Metadata {
  import opened Wrappers
  import opened Text

  /** The fields of a package's registry document that the analyser reads. */
  datatype PackageMetadata = PackageMetadata(
    releases: set<string>,               // keys of `releases`
    latestVersion: Option<string>,       // `info.version`
    requiresDist: Option<seq<string>>)   // `info.requires_dist`; absent and null are both None

  /** Package name to metadata; a missing name is a failed lookup. */
  type Registry = map<string, PackageMetadata>

  /** `get_package_metadata`: the registry entry, or None when the lookup fails. */
  function GetPackageMetadata(registry: Registry, name: string): (r: Option<PackageMetadata>)
    ensures r.Some? <==> name in registry
    ensures r.Some? ==> r.value == registry[name]
  {
    if name in registry then Some(registry[name]) else None
  }

  /** The `requires_dist` entries; an absent, null or empty list gives none. */
  function DeclaredDependencies(m: PackageMetadata): seq<string> {
    match m.requiresDist
    case None => []
    case Some(entries) => entries
  }

  /** An entry without its environment marker: the stripped text before `;`, if any. */
  function WithoutMarker(entry: string): (r: string)
    ensures !Contains(r, ";")
  {
    if Contains(entry, ";") then
      NotContainsTrim(Before(entry, ";"), ";");
      Trim(Before(entry, ";"))
    else
      entry
  }

  /**
   The name kept from one `requires_dist` entry: the first space-separated
   token of the entry without its marker, stripped.
   */
  function DependencyName(entry: string): (r: string)
    ensures Trimmed(r)
    ensures !Contains(r, ";") && !Contains(r, " ")
  {
    var spec := WithoutMarker(entry);
    var token := Before(spec, " ");
    NotContainsSlice(spec, ";", 0, |token|);
    NotContainsTrim(token, ";");
    NotContainsTrim(token, " ");
    Trim(token)
  }

  /** A plain name followed by an environment marker, or standing alone, comes back unchanged. */
  lemma {:induction false} DependencyNameOfMarked(name: string, marker: string)
    requires Trimmed(name) && !Contains(name, ";") && !Contains(name, " ")
    ensures DependencyName(name + ";" + marker) == name
    ensures DependencyName(name) == name
  {
    var entry := name + ";" + marker;
    ContainsChar(name, ';');
    ContainsChar(entry, ';');
    assert entry[|name|] == ';';
    BeforeCharIndex(entry, ';', |name|);
    assert entry[..|name|] == name;
    TrimTrimmed(name);
  }

  /**
   A plain name followed by a space keeps only the name, whatever comes after
   it: a version clause such as `requests (>=2.0)`, or one followed by a
   marker such as `pytest (>=6); extra == 'test'`.
   */
  lemma {:induction false} DependencyNameFirstToken(name: string, rest: string)
    requires name != [] && Trimmed(name) && !Contains(name, ";") && !Contains(name, " ")
    ensures DependencyName(name + " " + rest) == name
  {
    var entry := name + " " + rest;
    var n := |name|;
    ContainsChar(name, ';');
    ContainsChar(name, ' ');
    assert entry[..n] == name;
    var spec := WithoutMarker(entry);
    if Contains(entry, ";") {
      var x := Before(entry, ";");
      assert x[..n] == name;
      TrimKeepsHead(x, n);
      assert spec[..n] == name;
      assert n < |spec| ==> spec[n] == x[n] == ' ';
    }
    BeforeCharIndex(spec, ' ', n);
    TrimTrimmed(name);
  }

  /** `extract_requirements_from_metadata`: the bare names, one per entry. */
  function ExtractFrom(entries: seq<string>): (r: seq<string>)
    ensures |r| == |entries|
    ensures forall i :: 0 <= i < |r| ==> r[i] == DependencyName(entries[i])
  {
    if entries == [] then []
    else [DependencyName(entries[0])] + ExtractFrom(entries[1..])
  }

  /**
   One name per `requires_dist` entry, in order, none of them holding `;` or
   a space; nothing when the list is absent or empty.
   */
  function ExtractRequirements(m: PackageMetadata): (r: seq<string>)
    ensures |r| == |DeclaredDependencies(m)|
    ensures forall i :: 0 <= i < |r| ==> r[i] == DependencyName(DeclaredDependencies(m)[i])
    ensures forall i :: 0 <= i < |r| ==> !Contains(r[i], ";") && !Contains(r[i], " ")
    ensures m.requiresDist.None? ==> r == []
  {
    ExtractFrom(DeclaredDependencies(m))
  }
}
