/** The descriptor of an inspected instance (`InstanceInfo`): the stored
    configuration, the trailing-slash base URL, the directory, and the version
    that is read from the instance's database at most once. */
module Instance {
  import opened Wrappers
  import opened Text
  import opened Versions
  import opened Errors

  /** Connection coordinates of an instance (`InstanceConfig`); each string may be null. */
  datatype InstanceConfig = InstanceConfig(
    url: Option<string>,
    path: Option<string>,
    server: Option<string>,
    database: Option<string>,
    user: Option<string>,
    password: Option<string>,
    integratedSecurity: bool,
    iisSiteName: Option<string>)

  /** A `Lazy<T>` cell. Once forced it keeps its outcome, and a .NET `Lazy<T>`
      built from a value factory caches a thrown exception the same way. */
  datatype Lazy<T> = Pending | Forced(outcome: T)

  /** What reading the version from the database yields: a version or the
      message of what the query or the parse threw. */
  type VersionOutcome = Result<Version, string>

  /** The descriptor: the stored configuration and the lazy version cell. The
      URL and directory cells are pure functions of the configuration and are
      computed by `BaseUri` and `Directory` on demand. */
  datatype InstanceInfo = InstanceInfo(config: InstanceConfig, version: Lazy<VersionOutcome>)

  /** The parameter name the constructor's `ArgumentNullException` reports. */
  const NullConfigParameter := "version"

  /** `new InstanceInfo(config)`. A null configuration is rejected; a
      configuration naming an IIS site is first completed by `siteLookup`
      (the IIS query, which may throw); otherwise it is stored as given. No
      lazy value is forced. */
  function NewInstanceInfo(config: Option<InstanceConfig>,
                           siteLookup: InstanceConfig -> Result<InstanceConfig, string>): (r: Result<InstanceInfo, Error>)
    ensures config.None? <==> r == Failure(ArgumentNull(NullConfigParameter))
    ensures r.Success? ==> r.value.version.Pending?
    ensures config.Some? && config.value.iisSiteName.None? ==> r == Success(InstanceInfo(config.value, Pending))
    ensures config.Some? && config.value.iisSiteName.Some? ==>
              (r.Success? <==> siteLookup(config.value).Success?)
  {
    match config
    case None => Failure(ArgumentNull(NullConfigParameter))
    case Some(c) =>
      if c.iisSiteName.Some? then
        match siteLookup(c)
        case Failure(msg) => Failure(Raised(msg))
        case Success(completed) => Success(InstanceInfo(completed, Pending))
      else
        Success(InstanceInfo(c, Pending))
  }

  /** Without an IIS site name the site lookup is never consulted. */
  lemma NewInstanceInfoIgnoresLookupWithoutSite(config: InstanceConfig,
                                                a: InstanceConfig -> Result<InstanceConfig, string>,
                                                b: InstanceConfig -> Result<InstanceConfig, string>)
    requires config.iisSiteName.None?
    ensures NewInstanceInfo(Some(config), a) == NewInstanceInfo(Some(config), b)
    ensures NewInstanceInfo(Some(config), a).Success?
    ensures NewInstanceInfo(Some(config), a).value.config == config
  {
  }

  // ---------------------------------------------------------------------
  // Base URL

  /** The base URL with a trailing '/' guaranteed, so that a relative path is
      appended to it rather than replacing its last segment. */
  function NormaliseBaseUrl(url: string): (r: string)
    ensures EndsWithChar(r, '/')
    ensures url <= r && |r| <= |url| + 1
    ensures EndsWithChar(url, '/') ==> r == url
  {
    if EndsWithChar(url, '/') then url else url + "/"
  }

  /** A URL without a trailing '/' gets exactly one appended. */
  lemma NormaliseAppendsOneSlash(url: string)
    requires !EndsWithChar(url, '/')
    ensures NormaliseBaseUrl(url) == url + "/"
  {
    var r := NormaliseBaseUrl(url);
    assert r[..|url|] == url;
    assert r == r[..|url|] + [r[|url|]];
  }

  lemma NormaliseBaseUrlIdempotent(url: string)
    ensures NormaliseBaseUrl(NormaliseBaseUrl(url)) == NormaliseBaseUrl(url)
  {
  }

  /** `InstanceInfo.Uri`: derived from `Config.Url` alone; a null URL makes
      the access throw. */
  function BaseUri(inst: InstanceInfo): (r: Result<string, Error>)
    ensures inst.config.url.None? <==> r.Failure?
    ensures r.Failure? ==> r.error == NullReference
    ensures r.Success? ==> r.value == NormaliseBaseUrl(inst.config.url.value)
  {
    match inst.config.url
    case None => Failure(NullReference)
    case Some(url) => Success(NormaliseBaseUrl(url))
  }

  /** `InstanceInfo.Directory`: the directory at `Config.Path`; a null path
      makes `DirectoryInfo` throw. */
  function Directory(inst: InstanceInfo): (r: Result<string, Error>)
    ensures inst.config.path.None? <==> r.Failure?
    ensures r.Failure? ==> r.error == ArgumentNull("path")
    ensures r.Success? ==> r.value == inst.config.path.value
  {
    match inst.config.path
    case None => Failure(ArgumentNull("path"))
    case Some(p) => Success(p)
  }

  /** The URL depends on `Config.Url` only and the directory on `Config.Path`
      only: the other fields and the state of the version cell do not matter. */
  lemma DerivedValuesDependOnTheirField(a: InstanceInfo, b: InstanceInfo)
    ensures a.config.url == b.config.url ==> BaseUri(a) == BaseUri(b)
    ensures a.config.path == b.config.path ==> Directory(a) == Directory(b)
  {
  }

  /** The directory part of a URL that a relative path is resolved against:
      everything up to and including the last '/', as in the path merge of
      section 5.2.3 of RFC 3986. */
  function BaseDirectory(base: string): (r: string)
    ensures r <= base
    ensures |r| == 0 || EndsWithChar(r, '/')
    ensures forall i :: |r| <= i < |base| ==> base[i] != '/'
  {
    if |base| == 0 || base[|base| - 1] == '/' then base else BaseDirectory(base[..|base| - 1])
  }

  /** A relative reference that is one plain path segment: non-empty, not a
      dot segment, and free of '/', '?', '#' and ':'. */
  predicate PlainSegment(s: string) {
    && |s| > 0
    && s != "." && s != ".."
    && forall i :: 0 <= i < |s| ==> s[i] != '/' && s[i] != '?' && s[i] != '#' && s[i] != ':'
  }

  /** A URL without a query or a fragment. */
  predicate NoQueryOrFragment(url: string) {
    forall i :: 0 <= i < |url| ==> url[i] != '?' && url[i] != '#'
  }

  /** `new Uri(base, relative)` for a plain segment against a base without a
      query or fragment: the base up to and including its last '/', followed
      by the segment. */
  function ResolveRelative(base: string, relative: string): (r: string)
    requires NoQueryOrFragment(base) && PlainSegment(relative)
    ensures |relative| < |r| + 1 && r[|r| - |relative|..] == relative
    ensures r[..|r| - |relative|] <= base
    ensures |r| == |relative| || r[|r| - |relative| - 1] == '/'
    ensures forall i :: |r| - |relative| <= i < |base| ==> base[i] != '/'
  {
    BaseDirectory(base) + relative
  }

  /** After normalisation a plain segment is appended to the whole base URL. */
  lemma NormalisedBaseKeepsLastSegment(url: string, relative: string)
    requires NoQueryOrFragment(url) && PlainSegment(relative)
    ensures NoQueryOrFragment(NormaliseBaseUrl(url))
    ensures ResolveRelative(NormaliseBaseUrl(url), relative) == NormaliseBaseUrl(url) + relative
  {
    var base := NormaliseBaseUrl(url);
    forall i | 0 <= i < |base|
      ensures base[i] != '?' && base[i] != '#'
    {
      if i >= |url| {
        assert base == url + "/";
      }
    }
  }

  /** Without the trailing '/', the last segment of the base is replaced. */
  lemma UnnormalisedBaseLosesLastSegment()
    ensures ResolveRelative("http://localhost/kentico8", "robots.txt") == "http://localhost/robots.txt"
    ensures ResolveRelative(NormaliseBaseUrl("http://localhost/kentico8"), "robots.txt")
            == "http://localhost/kentico8/robots.txt"
  {
    var base := "http://localhost/kentico8";
    assert PlainSegment("robots.txt");
    assert NoQueryOrFragment(base);
    NormalisedBaseKeepsLastSegment(base, "robots.txt");
    var dir := BaseDirectory(base);
    assert base[16] == '/';
    assert forall i :: 17 <= i < |base| ==> base[i] != '/';
    assert |dir| == 17;
    assert dir == base[..17] == "http://localhost/";
  }

  // ---------------------------------------------------------------------
  // Version

  /** One read of `InstanceInfo.Version`, and whether it queried the database. */
  datatype VersionRead = VersionRead(outcome: VersionOutcome, instance: InstanceInfo, queried: bool)

  /** Reads `Version`. `database` is what the database would answer now; it is
      consulted only when the cell has not been forced. */
  function ReadVersion(inst: InstanceInfo, database: VersionOutcome): (r: VersionRead)
    ensures r.instance.config == inst.config
    ensures r.instance.version == Forced(r.outcome)
    ensures r.queried <==> inst.version.Pending?
    ensures inst.version.Forced? ==> r.outcome == inst.version.outcome && r.instance == inst
    ensures inst.version.Pending? ==> r.outcome == database
  {
    match inst.version
    case Forced(o) => VersionRead(o, inst, false)
    case Pending => VersionRead(database, inst.(version := Forced(database)), true)
  }

  /** The outcomes of successive reads, the final descriptor, and how many
      reads queried the database. */
  datatype Reads = Reads(outcomes: seq<VersionOutcome>, instance: InstanceInfo, queries: nat)

  /** Reads `Version` once per entry of `answers`; the database would answer
      `answers[k]` at the k-th read, so it may change between reads. */
  function ReadRepeatedly(inst: InstanceInfo, answers: seq<VersionOutcome>): (r: Reads)
    ensures |r.outcomes| == |answers|
    decreases |answers|
  {
    if |answers| == 0 then Reads([], inst, 0)
    else
      var first := ReadVersion(inst, answers[0]);
      var rest := ReadRepeatedly(first.instance, answers[1..]);
      Reads([first.outcome] + rest.outcomes, rest.instance, rest.queries + if first.queried then 1 else 0)
  }

  /** Once forced, every read returns the cached outcome and none queries. */
  lemma {:induction false} CachedReads(inst: InstanceInfo, answers: seq<VersionOutcome>)
    requires inst.version.Forced?
    ensures var r := ReadRepeatedly(inst, answers);
      && (forall k :: 0 <= k < |answers| ==> r.outcomes[k] == inst.version.outcome)
      && r.queries == 0
      && r.instance == inst
    decreases |answers|
  {
    if |answers| > 0 {
      CachedReads(inst, answers[1..]);
    }
  }

  /** Repeated reads agree: every read returns the outcome of the first, the
      database is queried at most once (exactly once from a fresh descriptor),
      and what the database would answer later never matters. */
  lemma {:induction false} RepeatedReadsAgree(inst: InstanceInfo, answers: seq<VersionOutcome>)
    requires |answers| > 0
    ensures var r := ReadRepeatedly(inst, answers);
      && (forall k :: 0 <= k < |answers| ==> r.outcomes[k] == r.outcomes[0])
      && r.outcomes[0] == (if inst.version.Pending? then answers[0] else inst.version.outcome)
      && r.queries == (if inst.version.Pending? then 1 else 0)
      && r.instance.config == inst.config
  {
    var first := ReadVersion(inst, answers[0]);
    CachedReads(first.instance, answers[1..]);
  }
}
