/** The database deployment program: the variables substituted into the
    scripts, and the three upgrade phases run one after the other.

    Each phase is an upgrade over the embedded scripts its filter selects;
    whether an upgrade succeeds is the parameter `perform`. The default
    dimension count is the parameter `defaultDimensions`. */
module DatabaseDeployment {
  import opened Wrappers
  import opened Text
  import opened Numbers
  import opened Domain
  import Configuration

  const AlwaysRunTag: string := "always-run"
  const EnablePreviewFeaturesTag: string := "enable-preview-features"

  /** The configuration keys the program reads. */
  const EmbeddingModelKey: string := "EmbeddingModel"
  const OllamaTunnelEndpointKey: string := "OLLAMA_HTTP"

  /** The provider name that selects the Ollama endpoint, compared
      ignoring case. */
  const OllamaProvider: string := "OLLAMA"
  const EmbedPath: string := "/api/embed"

  /** `${ollamaEndpoint?.TrimEnd('/')}/api/embed` when the provider is
      Ollama, and the empty string otherwise. */
  function Endpoint(aiProvider: Option<string>, ollamaEndpoint: Option<string>): (e: string)
    ensures (aiProvider.Some? && EqualsIgnoreCase(aiProvider.value, OllamaProvider)) <==> e != ""
    ensures e != "" ==> IsSuffix(EmbedPath, e)
    ensures e != "" && ollamaEndpoint.Some? ==>
              && IsPrefix(e[..|e| - |EmbedPath|], ollamaEndpoint.value)
              && (|e| == |EmbedPath| || e[|e| - |EmbedPath| - 1] != '/')
              && forall k :: |e| - |EmbedPath| <= k < |ollamaEndpoint.value| ==> ollamaEndpoint.value[k] == '/'
    ensures e != "" && ollamaEndpoint.None? ==> e == EmbedPath
  {
    if aiProvider.Some? && EqualsIgnoreCase(aiProvider.value, OllamaProvider) then
      var base := if ollamaEndpoint.Some? then TrimEndChar(ollamaEndpoint.value, '/') else "";
      assert (base + EmbedPath)[..|base|] == base;
      assert (base + EmbedPath)[|base|..] == EmbedPath;
      base + EmbedPath
    else ""
  }

  /** The variables substituted into the scripts. `EMBEDDING_MODEL` and the
      external embedding model may hold null. The program names the latter
      by a constant, `EnvironmentVariables.ExternalEmbeddingModel`, that it
      never declares. */
  datatype Variables = Variables(
    aiProvider: string,
    aiEndpoint: string,
    embeddingModel: Option<string>,
    embeddingDimensions: string,
    externalEmbeddingModel: Option<string>)

  /** The dictionary of variables. `aiProvider.ToUpperInvariant()` throws
      on a null provider. */
  function VariablesOf(config: map<string, string>, defaultDimensions: int): (r: Result<Variables, Error>)
    ensures r.Failure? <==> Configuration.AIProviderKey !in config
    ensures r.Failure? ==> r.error == NullReference
    ensures r.Success? ==>
              && r.value.aiProvider == ToUpperInvariant(config[Configuration.AIProviderKey])
              && r.value.embeddingModel == Configuration.Lookup(config, EmbeddingModelKey)
              && r.value.externalEmbeddingModel == Configuration.Lookup(config, Configuration.ExternalEmbeddingModelKey)
    ensures r.Success? ==>
              r.value.aiEndpoint == Endpoint(Configuration.Lookup(config, Configuration.AIProviderKey),
                                             Configuration.Lookup(config, OllamaTunnelEndpointKey))
  {
    var aiProvider := Configuration.Lookup(config, Configuration.AIProviderKey);
    var endpoint := Endpoint(aiProvider, Configuration.Lookup(config, OllamaTunnelEndpointKey));
    var dimensions := Configuration.DimensionsOf(Configuration.Lookup(config, Configuration.EmbeddingDimensionsKey), defaultDimensions);
    if aiProvider.None? then Failure(NullReference)
    else
      Success(Variables(
        ToUpperInvariant(aiProvider.value),
        endpoint,
        Configuration.Lookup(config, EmbeddingModelKey),
        IntToString(dimensions),
        Configuration.Lookup(config, Configuration.ExternalEmbeddingModelKey)))
  }

  /** The dimension count written into `EMBEDDING_DIMENSIONS` reads back as
      the configured positive count, or as the default. */
  lemma VariablesDimensions(config: map<string, string>, defaultDimensions: int)
    requires VariablesOf(config, defaultDimensions).Success?
    requires 0 < defaultDimensions <= MaxInt32
    ensures TryParseInt32(Some(VariablesOf(config, defaultDimensions).value.embeddingDimensions))
            == Some(Configuration.DimensionsOf(Configuration.Lookup(config, Configuration.EmbeddingDimensionsKey), defaultDimensions))
  {
    var d := Configuration.DimensionsOf(Configuration.Lookup(config, Configuration.EmbeddingDimensionsKey), defaultDimensions);
    assert 0 < d <= MaxInt32;
    TryParseInt32RoundTrip(d);
  }

  /** The three phases. */
  datatype Phase = EnablePreviewFeatures | Migrations | AlwaysRun

  /** The script filter of a phase. */
  predicate Selects(phase: Phase, name: string) {
    match phase
    case EnablePreviewFeatures => ContainsIgnoreCase(name, EnablePreviewFeaturesTag)
    case Migrations => !ContainsIgnoreCase(name, AlwaysRunTag)
    case AlwaysRun => ContainsIgnoreCase(name, AlwaysRunTag)
  }

  /** The embedded scripts a phase runs, in their order. */
  function Selected(phase: Phase, scripts: seq<string>): (r: seq<string>)
    ensures forall x :: x in r <==> x in scripts && Selects(phase, x)
    ensures |r| <= |scripts|
  {
    if |scripts| == 0 then []
    else
      var rest := Selected(phase, scripts[1..]);
      if Selects(phase, scripts[0]) then [scripts[0]] + rest else rest
  }

  /** One upgrade as configured: the scripts it runs, whether it runs them
      in a transaction, and whether it records them in the journal (only
      the always-run phase uses a `NullJournal`). */
  datatype Upgrade = Upgrade(phase: Phase, scripts: seq<string>, variables: Variables,
                             transaction: bool, journaled: bool)

  function UpgradeFor(phase: Phase, scripts: seq<string>, variables: Variables): (u: Upgrade)
    ensures u.phase == phase && u.variables == variables
    ensures u.journaled <==> phase != AlwaysRun
    ensures u.transaction <==> phase != EnablePreviewFeatures
    ensures forall x :: x in u.scripts <==> x in scripts && Selects(phase, x)
  {
    Upgrade(phase, Selected(phase, scripts), variables, phase != EnablePreviewFeatures, phase != AlwaysRun)
  }

  /** The upgrades run, in order, and the exit code. */
  datatype Outcome = Outcome(run: seq<Upgrade>, exitCode: int)

  const Phases: seq<Phase> := [EnablePreviewFeatures, Migrations, AlwaysRun]

  /** The upgrades from position `i` of `Phases` on, each run only when the
      one before it succeeded. */
  function RunFrom(i: nat, scripts: seq<string>, variables: Variables, perform: Upgrade -> bool): (r: seq<Upgrade>)
    requires i < |Phases|
    ensures 1 <= |r| <= |Phases| - i
    ensures forall k :: 0 <= k < |r| ==> r[k] == UpgradeFor(Phases[i + k], scripts, variables)
    ensures forall k :: 0 <= k < |r| - 1 ==> perform(r[k])
    ensures |r| < |Phases| - i ==> !perform(r[|r| - 1])
    decreases |Phases| - i
  {
    var u := UpgradeFor(Phases[i], scripts, variables);
    if perform(u) && i + 1 < |Phases| then [u] + RunFrom(i + 1, scripts, variables, perform) else [u]
  }

  /** The program: the variables, then the phases in order, each only after
      the previous one succeeded; the exit code is -1 when the last phase
      attempted failed, and 0 otherwise. */
  function Deploy(config: map<string, string>, scripts: seq<string>, defaultDimensions: int,
                  perform: Upgrade -> bool): (r: Result<Outcome, Error>)
    ensures r.Failure? <==> Configuration.AIProviderKey !in config
    ensures r.Success? ==>
              && 1 <= |r.value.run| <= 3
              && r.value.run[0].phase == EnablePreviewFeatures
              && (r.value.exitCode == -1 <==> !perform(r.value.run[|r.value.run| - 1]))
              && (r.value.exitCode == 0 <==> |r.value.run| == 3 && forall k :: 0 <= k < 3 ==> perform(r.value.run[k]))
              && (r.value.exitCode == -1 || r.value.exitCode == 0)
    ensures r.Success? ==> r.value.run == RunFrom(0, scripts, VariablesOf(config, defaultDimensions).value, perform)
  {
    var variables :- VariablesOf(config, defaultDimensions);
    var run := RunFrom(0, scripts, variables, perform);
    Success(Outcome(run, if perform(run[|run| - 1]) then 0 else -1))
  }

  /** The migrations phase and the always-run phase split the scripts
      between them: each script is selected by exactly one of the two, and
      together they hold every script as often as it is embedded. */
  lemma {:induction false} PhasesPartition(scripts: seq<string>)
    ensures forall x :: Selects(Migrations, x) != Selects(AlwaysRun, x)
    ensures multiset(Selected(Migrations, scripts)) + multiset(Selected(AlwaysRun, scripts)) == multiset(scripts)
  {
    if |scripts| > 0 {
      PhasesPartition(scripts[1..]);
      assert scripts == [scripts[0]] + scripts[1..];
    }
  }

  /** Trailing slashes on the tunnel address do not change the endpoint. */
  lemma EndpointIgnoresTrailingSlash(aiProvider: Option<string>, ollamaEndpoint: string)
    ensures Endpoint(aiProvider, Some(ollamaEndpoint + "/")) == Endpoint(aiProvider, Some(ollamaEndpoint))
  {
    var s := ollamaEndpoint + "/";
    assert s[..|s| - 1] == ollamaEndpoint;
    assert TrimEndChar(s, '/') == TrimEndChar(ollamaEndpoint, '/');
  }

  /** A provider name upper-cases to `OLLAMA` exactly when it equals
      `OLLAMA` ignoring case. */
  lemma UpperIsOllama(p: string)
    ensures ToUpperInvariant(p) == OllamaProvider <==> EqualsIgnoreCase(p, OllamaProvider)
  {
    var u := ToUpperInvariant(p);
    if u == OllamaProvider {
      forall k | 0 <= k < |p|
        ensures ToUpperAscii(p[k]) == ToUpperAscii(OllamaProvider[k])
      {
        assert ToUpperAscii(p[k]) == u[k];
      }
    }
  }

  /** The endpoint is set exactly when the `AI_PROVIDER` variable is
      `OLLAMA`. */
  lemma EndpointIffOllamaVariable(config: map<string, string>, defaultDimensions: int)
    requires VariablesOf(config, defaultDimensions).Success?
    ensures var v := VariablesOf(config, defaultDimensions).value;
      v.aiEndpoint != "" <==> v.aiProvider == OllamaProvider
  {
    UpperIsOllama(config[Configuration.AIProviderKey]);
  }
}
