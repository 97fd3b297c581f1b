/** The web API over the module catalogue (`ModulesController`): listing the
    modules that apply to an instance, optionally by category, running one
    module, and reporting the instance's version. */
module ModulesController {
  import opened Wrappers
  import opened Text
  import opened Versions
  import opened Sequences
  import opened Errors
  import opened Instance
  import opened ModuleRegistry

  /** What a module's `GetResults` returns, already serialised. */
  datatype ModuleResult = ModuleResult(payload: string)

  /** The collaborators each request reaches: the IIS site lookup that
      completes a configuration, the version stored in the instance's
      database, and the bodies of the modules. Each may throw. */
  datatype Environment = Environment(
    siteLookup: InstanceConfig -> Result<InstanceConfig, string>,
    databaseVersion: InstanceConfig -> VersionOutcome,
    runModule: (ModuleMetadata, InstanceInfo) -> Result<ModuleResult, string>)

  /** The HTTP responses the controller produces. */
  datatype Response<T> = Ok(body: T) | BadRequest(message: string) | InternalServerError(message: string)

  /** Categories that have their own page in the UI; the default listing leaves them out. */
  const SeparateCategories: seq<string> := ["Security", "Setup"]

  const SetupCategory: string := "Setup"

  /** `string.IsNullOrEmpty`. */
  predicate IsNullOrEmpty(s: Option<string>) {
    s.None? || s.value == ""
  }

  // ---------------------------------------------------------------------
  // The clauses of the listing queries

  /** The module declares support for exactly this version. */
  predicate Supports(m: ModuleMetadata, version: Version) {
    version in m.supportedVersions
  }

  /** The module has a category, and it starts with `category` ignoring case. */
  predicate InCategory(m: ModuleMetadata, category: string) {
    m.category.Some? && StartsWithIgnoreCase(m.category.value, category)
  }

  /** The module is uncategorised or its category does not start with `category`. */
  predicate OutsideCategory(m: ModuleMetadata, category: string) {
    m.category.None? || !StartsWithIgnoreCase(m.category.value, category)
  }

  predicate OutsideAll(m: ModuleMetadata, categories: seq<string>) {
    forall i :: 0 <= i < |categories| ==> OutsideCategory(m, categories[i])
  }

  /** Which modules a listing returns, as one rule: the module supports the
      version and, with no category, lies outside every separate category,
      or, with a category, lies inside it. */
  predicate Listed(m: ModuleMetadata, version: Version, category: Option<string>)
    ensures Listed(m, version, category) ==> Supports(m, version)
    ensures Listed(m, version, category) && !IsNullOrEmpty(category) ==> m.category.Some?
  {
    && Supports(m, version)
    && if IsNullOrEmpty(category) then OutsideAll(m, SeparateCategories) else InCategory(m, category.value)
  }

  // The clauses as predicates to filter with.

  function SupportsClause(version: Version): ModuleMetadata -> bool {
    m => Supports(m, version)
  }

  function InCategoryClause(category: string): ModuleMetadata -> bool {
    m => InCategory(m, category)
  }

  function OutsideCategoryClause(category: string): ModuleMetadata -> bool {
    m => OutsideCategory(m, category)
  }

  function OutsideAllClause(categories: seq<string>): ModuleMetadata -> bool {
    m => OutsideAll(m, categories)
  }

  function ListedClause(version: Version, category: Option<string>): ModuleMetadata -> bool {
    m => Listed(m, version, category)
  }

  // ---------------------------------------------------------------------
  // Listing

  /** The loop over the separate categories: one `Where` per category, each
      dropping the modules inside it. Together they drop exactly the modules
      inside any of them. */
  function ExcludeEach(modules: seq<ModuleMetadata>, categories: seq<string>): (r: seq<ModuleMetadata>)
    ensures r == Filter(OutsideAllClause(categories), modules)
    decreases |categories|
  {
    if |categories| == 0 then
      FilterAll(OutsideAllClause(categories), modules);
      modules
    else
      var once := Filter(OutsideCategoryClause(categories[0]), modules);
      FilterFilter(OutsideCategoryClause(categories[0]), OutsideAllClause(categories[1..]),
                   OutsideAllClause(categories), modules);
      ExcludeEach(once, categories[1..])
  }

  /** The module list computed by `GetModulesMetadata` for an instance of
      `version`: exactly the registry's modules that satisfy `Listed`, in
      registry order. */
  function ListModules(registry: Registry, version: Version, category: Option<string>): (r: seq<ModuleMetadata>)
    ensures r == Filter(ListedClause(version, category), registry)
  {
    var compatible := Filter(SupportsClause(version), registry);
    if IsNullOrEmpty(category) then
      FilterFilter(SupportsClause(version), OutsideAllClause(SeparateCategories),
                   ListedClause(version, category), registry);
      ExcludeEach(compatible, SeparateCategories)
    else
      FilterFilter(SupportsClause(version), InCategoryClause(category.value),
                   ListedClause(version, category), registry);
      Filter(InCategoryClause(category.value), compatible)
  }

  /** `ListedClause` is `Listed` as a function value. */
  lemma ListedClauseIsListed(version: Version, category: Option<string>)
    ensures forall m :: ListedClause(version, category)(m) == Listed(m, version, category)
  {
  }

  /** Every listed module satisfies the listing rule. */
  lemma ListedElements(registry: Registry, version: Version, category: Option<string>)
    ensures var r := ListModules(registry, version, category);
      forall i :: 0 <= i < |r| ==> Listed(r[i], version, category)
  {
    var r := ListModules(registry, version, category);
    forall i | 0 <= i < |r|
      ensures Listed(r[i], version, category)
    {
      assert ListedClause(version, category)(r[i]);
    }
  }

  /** Every listed module supports the version, and the listing keeps the
      registry's order. */
  lemma ListModulesSound(registry: Registry, version: Version, category: Option<string>)
    ensures var r := ListModules(registry, version, category);
      && (forall i :: 0 <= i < |r| ==> version in r[i].supportedVersions)
      && IsSubsequence(r, registry)
  {
    ListedElements(registry, version, category);
  }

  /** Nothing that satisfies the rule is dropped, counting repeated entries,
      and nothing else is returned. */
  lemma ListModulesComplete(registry: Registry, version: Version, category: Option<string>)
    ensures var r := ListModules(registry, version, category);
      && (forall m :: m in r <==> m in registry && Listed(m, version, category))
      && (forall m :: multiset(r)[m] == if Listed(m, version, category) then multiset(registry)[m] else 0)
  {
    ListedClauseIsListed(version, category);
    FilterCounts(ListedClause(version, category), registry);
    FilterMembership(ListedClause(version, category), registry);
  }

  /** Lying outside every separate category means being uncategorised or
      having a category that starts with neither "Security" nor "Setup". */
  lemma OutsideSeparateCategories(m: ModuleMetadata)
    ensures OutsideAll(m, SeparateCategories) <==>
              m.category.None? || (!StartsWithIgnoreCase(m.category.value, "Security")
                                   && !StartsWithIgnoreCase(m.category.value, "Setup"))
  {
    assert SeparateCategories[0] == "Security" && SeparateCategories[1] == "Setup";
  }

  /** The default listing never returns a module whose category starts,
      ignoring case, with "Security" or "Setup". */
  lemma DefaultListingExcludesSeparate(registry: Registry, version: Version, category: Option<string>)
    requires IsNullOrEmpty(category)
    ensures var r := ListModules(registry, version, category);
      forall i :: 0 <= i < |r| ==>
        r[i].category.None? || (!StartsWithIgnoreCase(r[i].category.value, "Security")
                                && !StartsWithIgnoreCase(r[i].category.value, "Setup"))
  {
    var r := ListModules(registry, version, category);
    ListedElements(registry, version, category);
    forall i | 0 <= i < |r|
      ensures r[i].category.None? || (!StartsWithIgnoreCase(r[i].category.value, "Security")
                                      && !StartsWithIgnoreCase(r[i].category.value, "Setup"))
    {
      OutsideSeparateCategories(r[i]);
    }
  }

  /** Uncategorised modules that support the version are always in the default listing. */
  lemma DefaultListingKeepsUncategorised(registry: Registry, version: Version, category: Option<string>, m: ModuleMetadata)
    requires IsNullOrEmpty(category)
    requires m in registry && version in m.supportedVersions && m.category.None?
    ensures m in ListModules(registry, version, category)
  {
    FilterMembership(ListedClause(version, category), registry);
    assert ListedClause(version, category)(m);
  }

  /** A category listing returns only categorised modules whose category
      starts, ignoring case, with the requested one. */
  lemma CategoryListingMatchesPrefix(registry: Registry, version: Version, category: string)
    requires category != ""
    ensures var r := ListModules(registry, version, Some(category));
      forall i :: 0 <= i < |r| ==> r[i].category.Some? && StartsWithIgnoreCase(r[i].category.value, category)
  {
    ListedElements(registry, version, Some(category));
  }

  /** A null and an empty category both select the default listing. */
  lemma NullAndEmptyCategoryAgree(registry: Registry, version: Version)
    ensures ListModules(registry, version, None) == ListModules(registry, version, Some(""))
  {
  }

  /** Among the modules that support the version, the default listing and the
      two separate-category listings partition the catalogue: a module is in
      the default listing exactly when it is in neither separate listing. */
  lemma ListingsPartition(registry: Registry, version: Version, m: ModuleMetadata)
    requires m in registry && version in m.supportedVersions
    ensures m in ListModules(registry, version, None)
            <==> m !in ListModules(registry, version, Some("Security"))
                 && m !in ListModules(registry, version, Some("Setup"))
  {
    ListModulesComplete(registry, version, None);
    ListModulesComplete(registry, version, Some("Security"));
    ListModulesComplete(registry, version, Some("Setup"));
    OutsideSeparateCategories(m);
  }

  /** A module supporting a single version is listed for no other version,
      whatever the category. */
  lemma OtherVersionsExcluded(registry: Registry, m: ModuleMetadata, v1: Version, v2: Version, category: Option<string>)
    requires m.supportedVersions == [v1] && v1 != v2
    ensures m !in ListModules(registry, v2, category)
  {
    ListedElements(registry, v2, category);
  }

  // ---------------------------------------------------------------------
  // Endpoints

  /** Opens the instance and reads its version once, as the listing and
      version endpoints do. */
  function ResolveVersion(config: Option<InstanceConfig>, env: Environment): (r: Result<Version, Error>)
    ensures config.None? ==> r == Failure(ArgumentNull(NullConfigParameter))
    ensures config.Some? && config.value.iisSiteName.None? ==>
              match env.databaseVersion(config.value)
              case Success(v) => r == Success(v)
              case Failure(msg) => r == Failure(Raised(msg))
  {
    match NewInstanceInfo(config, env.siteLookup)
    case Failure(e) => Failure(e)
    case Success(inst) =>
      var read := ReadVersion(inst, env.databaseVersion(inst.config));
      match read.outcome
      case Success(v) => Success(v)
      case Failure(msg) => Failure(Raised(msg))
  }

  const NoModulesHead: string := "There are no modules available for version "

  /** The response to an empty listing: a fixed sentence that ends with the
      version's rendering and a full stop. */
  function NoModulesMessage(version: Version): (r: string)
    ensures NoModulesHead <= r
    ensures |r| == |NoModulesHead| + |FormatVersion(version)| + 1 && r[|r| - 1] == '.'
    ensures r[|NoModulesHead|..|r| - 1] == FormatVersion(version)
  {
    NoModulesHead + FormatVersion(version) + "."
  }

  /** The empty-listing message names the version unambiguously. */
  lemma NoModulesMessageInjective(a: Version, b: Version)
    requires NoModulesMessage(a) == NoModulesMessage(b)
    ensures a == b
  {
    FormatVersionInjective(a, b);
  }

  /** GET api/modules/GetModulesMetadata. A failure to open the instance or
      read its version is a BadRequest carrying the exception message; an
      empty listing is a BadRequest naming the version, never an Ok. */
  function GetModulesMetadata(registry: Registry, config: Option<InstanceConfig>, category: Option<string>,
                              env: Environment): (r: Response<seq<ModuleMetadata>>)
    ensures !r.InternalServerError?
    ensures var v := ResolveVersion(config, env);
      && (v.Failure? ==> r == BadRequest(Message(v.error)))
      && (r.Ok? <==> v.Success? && exists i :: 0 <= i < |registry| && Listed(registry[i], v.value, category))
      && (r.Ok? ==> r.body != [] && r.body == Filter(ListedClause(v.value, category), registry))
      && (v.Success? && !r.Ok? ==> r == BadRequest(NoModulesMessage(v.value)))
  {
    match ResolveVersion(config, env)
    case Failure(e) => BadRequest(Message(e))
    case Success(version) =>
      var modules := ListModules(registry, version, category);
      FilterEmpty(ListedClause(version, category), registry);
      if |modules| == 0 then BadRequest(NoModulesMessage(version)) else Ok(modules)
  }

  /** GET api/modules/GetSetupModulesMetadata: the listing restricted to the
      "Setup" category. It answers exactly as the general listing asked for
      category "Setup". */
  function GetSetupModulesMetadata(registry: Registry, config: Option<InstanceConfig>, env: Environment): (r: Response<seq<ModuleMetadata>>)
    ensures r == GetModulesMetadata(registry, config, Some(SetupCategory), env)
  {
    match ResolveVersion(config, env)
    case Failure(e) => BadRequest(Message(e))
    case Success(version) =>
      var modules := Filter(InCategoryClause(SetupCategory), Filter(SupportsClause(version), registry));
      SetupPipelineIsCategoryListing(registry, version);
      if |modules| == 0 then BadRequest(NoModulesMessage(version)) else Ok(modules)
  }

  /** The setup query's pipeline is the category branch of `ListModules`. */
  lemma SetupPipelineIsCategoryListing(registry: Registry, version: Version)
    ensures Filter(InCategoryClause(SetupCategory), Filter(SupportsClause(version), registry))
            == ListModules(registry, version, Some(SetupCategory))
  {
  }

  /** GET api/modules/GetKenticoVersion. */
  function GetKenticoVersion(config: Option<InstanceConfig>, env: Environment): (r: Response<Version>)
    ensures !r.InternalServerError?
    ensures r.Ok? <==> ResolveVersion(config, env).Success?
    ensures r.Ok? ==> r.body == ResolveVersion(config, env).value
    ensures r.BadRequest? ==> r.message == Message(ResolveVersion(config, env).error)
  {
    match ResolveVersion(config, env)
    case Failure(e) => BadRequest(Message(e))
    case Success(version) => Ok(version)
  }

  /** The version endpoint reports the version the listings filter by: when
      it answers `v`, a listing is either the modules listed for `v` or the
      empty-listing message for `v`. */
  lemma ListingUsesReportedVersion(registry: Registry, config: Option<InstanceConfig>, category: Option<string>,
                                   env: Environment, v: Version)
    requires GetKenticoVersion(config, env) == Ok(v)
    ensures GetModulesMetadata(registry, config, category, env) == Ok(ListModules(registry, v, category))
            || GetModulesMetadata(registry, config, category, env) == BadRequest(NoModulesMessage(v))
  {
  }

  const ModuleErrorHead: string := "Error in \""
  const ModuleErrorTail: string := "\" module. Error message: "

  /** The error text of a failed module run: the module name in double
      quotes, then the exception message. */
  function ModuleErrorMessage(moduleName: string, message: string): (r: string)
    ensures ModuleErrorHead <= r
    ensures |r| == |ModuleErrorHead| + |moduleName| + |ModuleErrorTail| + |message|
    ensures r[|ModuleErrorHead|..|ModuleErrorHead| + |moduleName|] == moduleName
    ensures r[|r| - |message|..] == message
  {
    ModuleErrorHead + moduleName + ModuleErrorTail + message
  }

  /** The error text names the module in quotes and carries the exception message. */
  lemma ModuleErrorMessageMentions(moduleName: string, message: string)
    ensures Contains(ModuleErrorMessage(moduleName, message), "\"" + moduleName + "\"")
    ensures Contains(ModuleErrorMessage(moduleName, message), message)
  {
    QuotedContains(ModuleErrorHead, moduleName, ModuleErrorTail, message);
  }

  lemma QuotedContains(head: string, name: string, tail: string, message: string)
    requires EndsWithChar(head, '"') && |tail| > 0 && tail[0] == '"'
    ensures Contains(head + name + tail + message, ['"'] + name + ['"'])
    ensures Contains(head + name + tail + message, message)
  {
    var s := head + name + tail + message;
    var front := head[..|head| - 1];
    assert head == front + ['"'];
    assert tail == ['"'] + tail[1..];
    assert s == front + (['"'] + name + ['"']) + (tail[1..] + message);
    ContainsConcat(front, ['"'] + name + ['"'], tail[1..] + message);
    assert s == (head + name + tail) + message + [];
    ContainsConcat(head + name + tail, message, []);
  }

  /** For module names without a double quote, the error text determines both
      the module and the exception message. */
  lemma ModuleErrorMessageInjective(n1: string, m1: string, n2: string, m2: string)
    requires Free(n1, '"') && Free(n2, '"')
    requires ModuleErrorMessage(n1, m1) == ModuleErrorMessage(n2, m2)
    ensures n1 == n2 && m1 == m2
  {
    QuotedInjective(ModuleErrorHead, ModuleErrorTail, n1, m1, n2, m2);
  }

  lemma QuotedInjective(head: string, tail: string, n1: string, m1: string, n2: string, m2: string)
    requires Free(n1, '"') && Free(n2, '"')
    requires |tail| > 0 && tail[0] == '"'
    requires head + n1 + tail + m1 == head + n2 + tail + m2
    ensures n1 == n2 && m1 == m2
  {
    var rest := tail[1..];
    assert tail == ['"'] + rest;
    var s1, s2 := head + n1 + tail + m1, head + n2 + tail + m2;
    assert s1[|head|..] == n1 + ['"'] + (rest + m1);
    assert s2[|head|..] == n2 + ['"'] + (rest + m2);
    SplitAtFirst(n1, n2, '"', rest + m1, rest + m2);
    assert m1 == (rest + m1)[|rest|..];
    assert m2 == (rest + m2)[|rest|..];
  }

  /** GET api/modules/GetModuleResult: opens the instance, looks the module up
      by name and runs it. Whatever is thrown along the way becomes an
      InternalServerError that names the requested module. */
  function GetModuleResult(registry: Registry, moduleName: string, config: Option<InstanceConfig>,
                           env: Environment): (r: Response<ModuleResult>)
    ensures !r.BadRequest?
    ensures r.InternalServerError? ==> Contains(r.message, "\"" + moduleName + "\"")
    ensures r.Ok? <==> && NewInstanceInfo(config, env.siteLookup).Success?
                       && FindModule(registry, moduleName).Success?
                       && env.runModule(FindModule(registry, moduleName).value,
                                        NewInstanceInfo(config, env.siteLookup).value).Success?
    ensures r.Ok? ==> r.body == env.runModule(FindModule(registry, moduleName).value,
                                              NewInstanceInfo(config, env.siteLookup).value).value
    ensures config.None? ==> r == InternalServerError(ModuleErrorMessage(moduleName, Message(ArgumentNull(NullConfigParameter))))
    ensures config.Some? && FindModule(registry, moduleName).Failure? ==>
              r == InternalServerError(ModuleErrorMessage(moduleName, Message(
                     if NewInstanceInfo(config, env.siteLookup).Failure? then NewInstanceInfo(config, env.siteLookup).error
                     else ModuleNotFound(moduleName))))
  {
    match NewInstanceInfo(config, env.siteLookup)
    case Failure(e) =>
      ModuleErrorMessageMentions(moduleName, Message(e));
      InternalServerError(ModuleErrorMessage(moduleName, Message(e)))
    case Success(inst) =>
      match FindModule(registry, moduleName)
      case Failure(e) =>
        ModuleErrorMessageMentions(moduleName, Message(e));
        InternalServerError(ModuleErrorMessage(moduleName, Message(e)))
      case Success(m) =>
        match env.runModule(m, inst)
        case Success(result) => Ok(result)
        case Failure(msg) =>
          ModuleErrorMessageMentions(moduleName, msg);
          InternalServerError(ModuleErrorMessage(moduleName, msg))
  }

  /** A module whose body throws yields an InternalServerError naming it and
      carrying what it threw. */
  lemma FailingModuleNamed(registry: Registry, config: InstanceConfig, env: Environment, i: int, thrown: string)
    requires UniqueNames(registry) && 0 <= i < |registry|
    requires config.iisSiteName.None?
    requires env.runModule(registry[i], InstanceInfo(config, Pending)) == Failure(thrown)
    ensures GetModuleResult(registry, registry[i].name, Some(config), env)
            == InternalServerError(ModuleErrorMessage(registry[i].name, thrown))
  {
    FindModuleRoundTrip(registry, i);
  }

  // ---------------------------------------------------------------------
  // A worked scenario

  /** Module A of the worked scenario: supports 8.0 only, category "Security/X". */
  const ScenarioA: ModuleMetadata := ModuleMetadata("A", Some("Security/X"), [[8, 0]])

  /** Module B of the worked scenario: supports 8.0 and 9.0, uncategorised. */
  const ScenarioB: ModuleMetadata := ModuleMetadata("B", None, [[8, 0], [9, 0]])

  /** A's category is under "Security" in either letter case. */
  lemma ScenarioCategoryIsSecurity()
    ensures InCategory(ScenarioA, "Security") && InCategory(ScenarioA, "security")
  {
    PrefixStartsWithIgnoreCase("Security/X", "Security");
    assert StartsWithIgnoreCase("Security", "security");
    StartsWithIgnoreCaseTransitive("Security/X", "Security", "security");
  }

  /** Of a module under "Security" and an uncategorised one, both supporting
      the version, the default listing keeps only the uncategorised one and
      the "Security" listing only the other. */
  lemma SecurityAndUncategorised(a: ModuleMetadata, b: ModuleMetadata, version: Version, security: string)
    requires Supports(a, version) && Supports(b, version)
    requires InCategory(a, "Security") && b.category.None?
    requires security != "" && InCategory(a, security)
    ensures ListModules([a, b], version, None) == [b]
    ensures ListModules([a, b], version, Some(security)) == [a]
  {
    var p := ListedClause(version, None);
    var q := ListedClause(version, Some(security));
    OutsideSeparateCategories(a);
    assert !p(a) && p(b);
    assert q(a) && !q(b);
    assert [a, b] == [a] + [b];
    FilterConcat(p, [a], [b]);
    FilterConcat(q, [a], [b]);
  }

  /** The default listing for 8.0 holds B alone: A is in a separate category.
      The "Security" listing for 8.0, in either letter case, holds A alone. */
  lemma ScenarioListings()
    ensures ListModules([ScenarioA, ScenarioB], [8, 0], None) == [ScenarioB]
    ensures ListModules([ScenarioA, ScenarioB], [8, 0], Some("Security")) == [ScenarioA]
    ensures ListModules([ScenarioA, ScenarioB], [8, 0], Some("security")) == [ScenarioA]
  {
    ScenarioCategoryIsSecurity();
    SecurityAndUncategorised(ScenarioA, ScenarioB, [8, 0], "Security");
    SecurityAndUncategorised(ScenarioA, ScenarioB, [8, 0], "security");
  }

  /** Nothing is listed for 7.0, so the endpoint answers with the empty-listing message. */
  lemma ScenarioNoModulesFor7(config: Option<InstanceConfig>, env: Environment)
    requires ResolveVersion(config, env) == Success([7, 0])
    ensures ListModules([ScenarioA, ScenarioB], [7, 0], None) == []
    ensures GetModulesMetadata([ScenarioA, ScenarioB], config, None, env) == BadRequest(NoModulesMessage([7, 0]))
  {
    var a, b := ScenarioA, ScenarioB;
    assert [7, 0] != [8, 0] && [7, 0] != [9, 0];
    assert !Supports(a, [7, 0]) && !Supports(b, [7, 0]);
    FilterEmpty(ListedClause([7, 0], None), [a, b]);
  }
}
