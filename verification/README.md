# KInspector module selection and instance descriptor, in Dafny

KInspector inspects a running Kentico instance (web site plus database) by
running a catalogue of diagnostic modules against it. This project models two
parts of it:

- the module-selection logic of the web API controller `ModulesController`.
  It lists the modules that support the instance's version. The default
  listing leaves out the categories that have their own page ("Security",
  "Setup"), and a category listing keeps only one category prefix. The
  controller also runs a single module by name and reports the instance
  version. Every failure becomes an HTTP error response.
- the derived values of the instance descriptor `InstanceInfo`:
  - the null-configuration check;
  - the stored configuration;
  - the base URL with a guaranteed trailing `/`;
  - the directory;
  - the version, which is read from the instance's database at most once.

Layout, one Dafny module per concern:

| file | module | models |
|---|---|---|
| `wrappers.dfy` | `Wrappers` | `Option` (a nullable value) and `Result` (an operation that may throw) |
| `errors.dfy` | `Errors` | the exceptions involved and their `Message` text |
| `text.dfy` | `Text` | ASCII case folding, case-insensitive prefix, decimal digits, joining with a separator |
| `versions.dfy` | `Versions` | `System.Version` as a sequence of naturals and its `ToString` |
| `sequences.dfy` | `Sequences` | LINQ `Where` as an order-preserving `Filter` |
| `instance.dfy` | `Instance` | `InstanceConfig` and `InstanceInfo` |
| `registry.dfy` | `ModuleRegistry` | `ModuleMetadata` and lookup of a module by name |
| `modules_controller.dfy` | `ModulesController` | the four endpoints and the listing rule |

Modelling choices:

- A `Version` is a `seq<nat>` with structural equality, so 8.0 and 8.0.0 are
  different versions, as with `System.Version`. A module supports a version
  when the version occurs in its `SupportedVersions`, which is the `Contains`
  call of the source.
- `StartsWith(…, InvariantCultureIgnoreCase)` is modelled as ASCII case
  folding followed by a prefix test. As in .NET, the empty prefix matches
  every string.
- The separate-category loop adds one `Where` per category. `ExcludeEach`
  keeps that shape, and its contract proves that the chain equals a single
  filter by "outside every separate category". The source is C# 6, where a
  `foreach` variable is fresh in each iteration, so each lambda captures its
  own category.
- `ListModules` is proved equal to `Filter(ListedClause(…), registry)`.
  `Listed` is the rule written once: supports the version, and then either
  outside every separate category (no category) or inside the requested one.
  `Filter`'s contract then gives soundness (every kept module satisfies the
  rule) and registry order (the listing is a subsequence of the registry).
  Completeness with multiplicity comes from the separate lemma
  `FilterCounts`.
- `Lazy<Version>` is a `Lazy` cell inside the immutable `InstanceInfo` value.
  A read threads the descriptor through. The database's answer at each read
  is a parameter, so the database may change between reads. A .NET `Lazy<T>`
  built from a value factory caches a thrown exception as well, so the cell
  caches either outcome.
- The constructor's `ArgumentNullException` names the parameter `"version"`,
  although the null argument is `config`. The model keeps that text
  (`NullConfigParameter`), because it reaches the client as the BadRequest
  message.
- Calls into code that is not part of this model are parameters of an
  `Environment`:
  - `siteLookup`: the IIS lookup that completes a configuration naming a site;
  - `databaseVersion`: the `CMSDBVersion` query and its parse;
  - `runModule`: a module's `GetResults`.
  Each of them may throw.
- `ModuleLoader` is not part of this model. `GetModule` is modelled as the
  first module whose name is exactly equal to the requested one (a
  case-sensitive match), with `ModuleNotFound` otherwise. The catalogue is
  the list of the modules' metadata in discovery order.

Further facts about the code that the model keeps:

- Supported versions are matched by exact equality (`Contains`). There are no version ranges.
- An empty listing is a `BadRequest` whose message names the version. It is
  not a separate error kind.
- A failure while running a single module is an `InternalServerError` whose
  text quotes the module name.
- The listing keeps registry order.

## Model

| member | source | states |
|---|---|---|
| `Text.FoldAscii` | KInspector.WebApplication/WebApi/Controllers/ModulesController.cs:42 | the case folding used by the ignore-case comparison: the result is never an upper-case ASCII letter, and only upper-case ASCII letters change |
| `Text.StartsWithIgnoreCase` | KInspector.WebApplication/WebApi/Controllers/ModulesController.cs:47 | `StartsWith(prefix, InvariantCultureIgnoreCase)` holds exactly when the prefix is no longer than the string and matches it position by position up to ASCII case |
| `Text.StartsWithIgnoreCaseTransitive` | KInspector.WebApplication/WebApi/Controllers/ModulesController.cs:42-47 | the ignore-case prefix relation is transitive, so a category under "Security/X" is also under "security" |
| `Versions.FormatVersion` | KInspector.WebApplication/WebApi/Controllers/ModulesController.cs:52 | `Version.ToString()` in the message: empty exactly for a version without components, and otherwise opening with the first component in decimal |
| `Versions.FormatVersionInjective` | KInspector.WebApplication/WebApi/Controllers/ModulesController.cs:52 | the dotted rendering of a version, used in the empty-listing message, identifies the version |
| `Sequences.Filter` | KInspector.WebApplication/WebApi/Controllers/ModulesController.cs:33-35 | `Where` returns only elements satisfying the predicate, never more than the input, as a subsequence of the input in its order |
| `Sequences.FilterCounts` | KInspector.WebApplication/WebApi/Controllers/ModulesController.cs:33-35 | `Where` keeps every occurrence that satisfies the predicate, as often as it occurs, and drops every other one |
| `Sequences.FilterMembership` | KInspector.WebApplication/WebApi/Controllers/ModulesController.cs:33-35 | an element is in the result of `Where` exactly when it is in the input and satisfies the predicate |
| `Sequences.FilterFilter` | KInspector.WebApplication/WebApi/Controllers/ModulesController.cs:40-43 | two chained `Where` calls select what one `Where` by the conjunction selects |
| `Sequences.FilterConcat` | KInspector.WebApplication/WebApi/Controllers/ModulesController.cs:33-48 | filtering distributes over concatenation, so relative order is preserved |
| `Sequences.FilterEmpty` | KInspector.WebApplication/WebApi/Controllers/ModulesController.cs:50 | `!modules.Any()` holds exactly when no element satisfies the predicate |
| `Errors.Message` | KInspector.Core/InstanceInfo.cs:51 | `Exception.Message`: the `ArgumentNullException` text ends with the parameter name, and a collaborator's exception passes its message through unchanged; this is the text the endpoints return as a BadRequest |
| `Instance.NewInstanceInfo` | KInspector.Core/InstanceInfo.cs:47-95 | a null configuration fails with `ArgumentNullException` and nothing else does; without an IIS site name the caller's configuration is stored unchanged; the new descriptor has not read its version |
| `Instance.NewInstanceInfoIgnoresLookupWithoutSite` | KInspector.Core/InstanceInfo.cs:54-92 | without an IIS site name the site lookup is never consulted and `Config` is the caller's configuration |
| `Instance.NormaliseBaseUrl` | KInspector.Core/InstanceInfo.cs:110 | the base URL ends with "/", extends the input by at most one character, and is the input itself when that already ends with "/" |
| `Instance.NormaliseAppendsOneSlash` | KInspector.Core/InstanceInfo.cs:110 | a URL without a trailing "/" gets exactly one appended |
| `Instance.NormaliseBaseUrlIdempotent` | KInspector.Core/InstanceInfo.cs:110 | normalising a normalised URL changes nothing |
| `Instance.BaseUri` | KInspector.Core/InstanceInfo.cs:110 | `Uri` is the normalised `Config.Url`; a null URL makes the access throw |
| `Instance.Directory` | KInspector.Core/InstanceInfo.cs:111 | `Directory` is the directory at `Config.Path`; a null path makes it throw `ArgumentNullException` |
| `Instance.DerivedValuesDependOnTheirField` | KInspector.Core/InstanceInfo.cs:110-111 | the URI depends on `Config.Url` only and the directory on `Config.Path` only |
| `Instance.ResolveRelative` | KInspector.Core/InstanceInfo.cs:103-109 | `new Uri(base, relative)` for a plain segment: the result is the base up to and including its last "/", followed by the segment |
| `Instance.NormalisedBaseKeepsLastSegment` | KInspector.Core/InstanceInfo.cs:97-110 | after normalisation, resolving a plain segment against a base URL without query or fragment appends it to the whole base |
| `Instance.UnnormalisedBaseLosesLastSegment` | KInspector.Core/InstanceInfo.cs:103-109 | without the trailing "/", resolving "robots.txt" against "http://localhost/kentico8" drops "kentico8"; with it, the segment is kept |
| `Instance.ReadVersion` | KInspector.Core/InstanceInfo.cs:30 | a read of `Version` queries the database only when the cell is unforced, and afterwards the cell holds the returned outcome |
| `Instance.CachedReads` | KInspector.Core/InstanceInfo.cs:95 | once the version is forced, every later read returns it without querying, whatever the database would now answer |
| `Instance.RepeatedReadsAgree` | KInspector.Core/InstanceInfo.cs:95 | all reads of `Version` return the first read's outcome, and the database is queried exactly once from a fresh descriptor |
| `ModuleRegistry.FindModule` | KInspector.WebApplication/WebApi/Controllers/ModulesController.cs:104 | `GetModule` returns the first module with exactly that name, and fails with `ModuleNotFound` exactly when no module has it |
| `ModuleRegistry.FindModuleRoundTrip` | KInspector.WebApplication/WebApi/Controllers/ModulesController.cs:104 | with unique names, every registered module is found by its own name |
| `ModulesController.ExcludeEach` | KInspector.WebApplication/WebApi/Controllers/ModulesController.cs:38-44 | the `Where` added per separate category together drop exactly the modules inside any separate category |
| `ModulesController.Listed` | KInspector.WebApplication/WebApi/Controllers/ModulesController.cs:35-47 | the combined listing rule: a listed module supports the version, and with a non-empty category it has a category |
| `ModulesController.ListModules` | KInspector.WebApplication/WebApi/Controllers/ModulesController.cs:33-48 | the version filter followed by the category branch equals the single filter by the combined listing rule |
| `ModulesController.ListedElements` | KInspector.WebApplication/WebApi/Controllers/ModulesController.cs:33-48 | every listed module satisfies the listing rule |
| `ModulesController.ListModulesSound` | KInspector.WebApplication/WebApi/Controllers/ModulesController.cs:33-35 | every listed module's `SupportedVersions` contains the version, and the listing is a subsequence of the catalogue |
| `ModulesController.ListModulesComplete` | KInspector.WebApplication/WebApi/Controllers/ModulesController.cs:33-48 | a module is listed exactly when it is in the catalogue and satisfies the rule, and its count is kept |
| `ModulesController.OutsideSeparateCategories` | KInspector.WebApplication/WebApi/Controllers/ModulesController.cs:18 | lying outside the separate categories means being uncategorised or starting with neither "Security" nor "Setup", ignoring case |
| `ModulesController.DefaultListingExcludesSeparate` | KInspector.WebApplication/WebApi/Controllers/ModulesController.cs:38-43 | with a null or empty category no listed module has a category starting with "Security" or "Setup", ignoring case |
| `ModulesController.DefaultListingKeepsUncategorised` | KInspector.WebApplication/WebApi/Controllers/ModulesController.cs:42 | an uncategorised module that supports the version is always in the default listing |
| `ModulesController.CategoryListingMatchesPrefix` | KInspector.WebApplication/WebApi/Controllers/ModulesController.cs:47 | with a non-empty category every listed module has a category, and it starts with the requested one, ignoring case |
| `ModulesController.NullAndEmptyCategoryAgree` | KInspector.WebApplication/WebApi/Controllers/ModulesController.cs:38 | a null and an empty category give the same listing |
| `ModulesController.ListingsPartition` | KInspector.WebApplication/WebApi/Controllers/ModulesController.cs:18-48 | among modules supporting the version, a module is in the default listing exactly when it is in neither the "Security" nor the "Setup" listing |
| `ModulesController.OtherVersionsExcluded` | KInspector.WebApplication/WebApi/Controllers/ModulesController.cs:35 | a module supporting only v1 is never listed for another version |
| `ModulesController.ResolveVersion` | KInspector.WebApplication/WebApi/Controllers/ModulesController.cs:29-30 | a null configuration fails with the constructor's `ArgumentNullException`; otherwise, without an IIS site, the result is what the database yields |
| `ModulesController.NoModulesMessage` | KInspector.WebApplication/WebApi/Controllers/ModulesController.cs:52 | the empty-listing text (also at line 83): the fixed sentence, then the version's rendering, then a full stop |
| `ModulesController.NoModulesMessageInjective` | KInspector.WebApplication/WebApi/Controllers/ModulesController.cs:52 | the empty-listing message determines the version it names |
| `ModulesController.GetModulesMetadata` | KInspector.WebApplication/WebApi/Controllers/ModulesController.cs:25-61 | the listing answers Ok exactly when the version is resolved and some module satisfies the rule; the body is then the non-empty filtered catalogue; an empty listing is the BadRequest naming the version; any failure before that is a BadRequest carrying the exception message |
| `ModulesController.SetupPipelineIsCategoryListing` | KInspector.WebApplication/WebApi/Controllers/ModulesController.cs:76-79 | the setup query's two filters compute the category listing for "Setup" |
| `ModulesController.GetSetupModulesMetadata` | KInspector.WebApplication/WebApi/Controllers/ModulesController.cs:68-92 | the setup endpoint answers exactly what the general listing answers for category "Setup" |
| `ModulesController.GetKenticoVersion` | KInspector.WebApplication/WebApi/Controllers/ModulesController.cs:119-131 | the version endpoint answers Ok with the resolved version, or a BadRequest carrying the failure message |
| `ModulesController.ListingUsesReportedVersion` | KInspector.WebApplication/WebApi/Controllers/ModulesController.cs:29-30 | when the version endpoint reports v, a listing is either the modules listed for v or the empty-listing message for v |
| `ModulesController.ModuleErrorMessage` | KInspector.WebApplication/WebApi/Controllers/ModulesController.cs:110 | the error text of a failed module run opens with the fixed head, carries the module name right after it and ends with the exception message |
| `ModulesController.ModuleErrorMessageMentions` | KInspector.WebApplication/WebApi/Controllers/ModulesController.cs:110 | the error text of a failed module run contains the module name in double quotes and the exception message |
| `ModulesController.ModuleErrorMessageInjective` | KInspector.WebApplication/WebApi/Controllers/ModulesController.cs:110 | for names without a double quote, the error text determines the module name and the message |
| `ModulesController.GetModuleResult` | KInspector.WebApplication/WebApi/Controllers/ModulesController.cs:99-112 | the run answers Ok with the module's result exactly when the instance opens, the module is found and its body succeeds; every other case is an InternalServerError naming the module, never a BadRequest |
| `ModulesController.FailingModuleNamed` | KInspector.WebApplication/WebApi/Controllers/ModulesController.cs:104-111 | a registered module whose body throws yields the InternalServerError naming that module and carrying what it threw |
| `ModulesController.SecurityAndUncategorised` | KInspector.WebApplication/WebApi/Controllers/ModulesController.cs:38-48 | of a "Security" module and an uncategorised one, the default listing keeps only the uncategorised one and the "Security" listing only the other |
| `ModulesController.ScenarioListings` | KInspector.WebApplication/WebApi/Controllers/ModulesController.cs:33-48 | for A (8.0, "Security/X") and B (8.0 and 9.0, no category), the default listing for 8.0 is [B] and the "Security" or "security" listing is [A] |
| `ModulesController.ScenarioNoModulesFor7` | KInspector.WebApplication/WebApi/Controllers/ModulesController.cs:50-53 | for the same catalogue nothing is listed for 7.0, and the endpoint answers the empty-listing BadRequest |

## Left out

- The IIS site lookup in the `InstanceInfo` constructor (KInspector.Core/InstanceInfo.cs:54-89) is left out. It is the `siteLookup` parameter, because it queries `ServerManager` and `web.config`. The model also ignores that the source mutates the caller's configuration object.
- `GetIISSites` (ModulesController.cs:137-161) enumerates IIS sites, which is environment I/O.
- The SQL query, `DatabaseService` and the parse of `System.Version` (InstanceInfo.cs:94, 118-122) are the `databaseVersion` parameter. They are database I/O and library code.
- The model does not restrict a `Version` to the 2 to 4 components of `System.Version`. A version without components renders as the empty string.
- Case folding covers ASCII only. Culture-specific behaviour of `InvariantCultureIgnoreCase` and of the culture-sensitive `EndsWith("/")` (ignorable characters) is not modelled.
- The `Uri` and `DirectoryInfo` objects are not modelled. The model keeps their strings, without URI parsing, canonicalisation, `UriFormatException` or path validation.
- `ResolveRelative` is the path merge of section 5.2.3 of RFC 3986 applied to the whole string. Its requires limit it to a relative reference that is one plain segment (no '/', '?', '#' or ':', not "." or "..") and a base URL without a query or fragment, so dot-segment removal, absolute-path references, queries and fragments are not modelled. It is also only accurate for a base URL that has a path after its authority, which is the case the source's comment is about.
- The text of `ModuleNotFound` is a stand-in, because `ModuleLoader` is not part of this model. Module discovery and the modules' `GetResults` bodies are left out for the same reason: `runModule` stands for the bodies.
- HTTP response construction, JSON serialisation, the OWIN/static-file/CORS pipeline (`Startup.cs`) and the desktop host (`App.xaml.cs`) are plumbing.
- Thread safety of `Lazy<T>` is not modelled. Each request builds its own descriptor, and the model is sequential.
- A null `moduleName` or `category` string inside interpolation is not modelled. Names are non-null strings, and a null category is `None`.
