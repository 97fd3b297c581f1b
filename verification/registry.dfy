/** The module catalogue as the web API sees it: each module's metadata, in
    the order the module loader discovered them, and lookup by name. */
module ModuleRegistry {
  import opened Wrappers
  import opened Versions
  import opened Errors

  /** `ModuleMetadata`: a module's name, its category (null when
      uncategorised) and the versions it supports. */
  datatype ModuleMetadata = ModuleMetadata(name: string, category: Option<string>, supportedVersions: seq<Version>)

  /** The loaded modules, represented by their metadata. */
  type Registry = seq<ModuleMetadata>

  predicate UniqueNames(registry: Registry) {
    forall i, j :: 0 <= i < j < |registry| ==> registry[i].name != registry[j].name
  }

  /** `ModuleLoader.GetModule(name)`: the first module whose name equals
      `name` exactly (case-sensitive); `ModuleNotFound` when there is none. */
  function FindModule(registry: Registry, name: string): (r: Result<ModuleMetadata, Error>)
    ensures r.Failure? <==> forall i :: 0 <= i < |registry| ==> registry[i].name != name
    ensures r.Failure? ==> r.error == ModuleNotFound(name)
    ensures r.Success? ==> exists i :: 0 <= i < |registry| && registry[i] == r.value
                                       && forall j :: 0 <= j < i ==> registry[j].name != name
    ensures r.Success? ==> r.value.name == name
  {
    if |registry| == 0 then Failure(ModuleNotFound(name))
    else if registry[0].name == name then Success(registry[0])
    else
      var r := FindModule(registry[1..], name);
      assert r.Success? ==> exists i :: 0 <= i < |registry[1..]| && registry[1..][i] == r.value
                                         && forall j :: 0 <= j < i ==> registry[1..][j].name != name;
      if r.Success? then
        var i :| 0 <= i < |registry[1..]| && registry[1..][i] == r.value
                 && forall j :: 0 <= j < i ==> registry[1..][j].name != name;
        assert registry[i + 1] == r.value;
        r
      else
        r
  }

  /** With unique names, every registered module is found by its own name. */
  lemma FindModuleRoundTrip(registry: Registry, i: int)
    requires UniqueNames(registry)
    requires 0 <= i < |registry|
    ensures FindModule(registry, registry[i].name) == Success(registry[i])
  {
    var r := FindModule(registry, registry[i].name);
    var k :| 0 <= k < |registry| && registry[k] == r.value
             && forall j :: 0 <= j < k ==> registry[j].name != registry[i].name;
    assert k >= i;
    assert registry[k].name == registry[i].name;
    assert k == i;
  }
}
