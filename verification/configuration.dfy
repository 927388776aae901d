/** `ConfigurationManagerExtensions.GetAISettings`: the provider and the
    external embedding model are both required. The configuration is a map
    from key to value; a missing key reads as null. */
module Configuration {
  import opened Wrappers
  import opened Text
  import opened Domain
  import opened Numbers

  const AIProviderKey: string := "AIProvider"
  const ExternalEmbeddingModelKey: string := "SqlServerExternalEmbeddingModel"
  const EmbeddingDimensionsKey: string := "EmbeddingDimensions"

  /** The message of the exception raised for missing configuration. */
  const MissingMessage: string :=
    "Missing configuration. Both " + AIProviderKey + " and " + ExternalEmbeddingModelKey + " are required."

  /** `configurationManager[key]`. */
  function Lookup(config: map<string, string>, key: string): (r: Option<string>)
    ensures r.Some? <==> key in config
    ensures r.Some? ==> r.value == config[key]
  {
    if key in config then Some(config[key]) else None
  }

  /** The configuration holds a usable value for the key: present and not
      blank. */
  predicate Configured(config: map<string, string>, key: string) {
    key in config && !AllWhiteSpace(config[key])
  }

  /** `GetAISettings`: both values, untrimmed, when both are present and not
      blank, and otherwise the `InvalidOperationException`. The dimensions
      are never assigned, so they stay 0. */
  function GetAISettings(config: map<string, string>): (r: Result<AISettings, Error>)
    ensures r.Success? <==> Configured(config, AIProviderKey) && Configured(config, ExternalEmbeddingModelKey)
    ensures r.Failure? ==> r.error == InvalidOperation(MissingMessage)
    ensures r.Success? ==>
              && r.value.provider == config[AIProviderKey]
              && r.value.externalEmbeddingModel == config[ExternalEmbeddingModelKey]
              && r.value.embeddingModelDimensions == 0
  {
    var aiProvider := Lookup(config, AIProviderKey);
    var externalEmbeddingModel := Lookup(config, ExternalEmbeddingModelKey);
    if IsNullOrWhiteSpace(aiProvider) || IsNullOrWhiteSpace(externalEmbeddingModel) then
      Failure(InvalidOperation(MissingMessage))
    else
      Success(AISettings(aiProvider.value, externalEmbeddingModel.value, 0))
  }

  /** Adding unrelated keys does not change the outcome; only the two
      required keys are read. Configuration keys match ignoring case, so a
      key is unrelated only when it differs from both ignoring case. */
  lemma GetAISettingsReadsTwoKeys(config: map<string, string>, key: string, value: string)
    requires !EqualsIgnoreCase(key, AIProviderKey) && !EqualsIgnoreCase(key, ExternalEmbeddingModelKey)
    ensures GetAISettings(config[key := value]) == GetAISettings(config)
  {
  }

  /** `int.TryParse(text, out var d) && d > 0 ? d : defaultDimensions`:
      the configured dimension count when it reads as a positive 32-bit
      integer, the default otherwise. */
  function DimensionsOf(text: Option<string>, defaultDimensions: int): (d: int)
    ensures TryParseInt32(text).Some? && TryParseInt32(text).value > 0 ==> d == TryParseInt32(text).value
    ensures !(TryParseInt32(text).Some? && TryParseInt32(text).value > 0) ==> d == defaultDimensions
    ensures defaultDimensions > 0 ==> d > 0
  {
    var parsed := TryParseInt32(text);
    if parsed.Some? && parsed.value > 0 then parsed.value else defaultDimensions
  }

  /** A positive count written in decimal is read back as it is. */
  lemma DimensionsOfWritten(n: int, defaultDimensions: int)
    requires 0 < n <= MaxInt32
    ensures DimensionsOf(Some(IntToString(n)), defaultDimensions) == n
  {
    TryParseInt32RoundTrip(n);
  }

  /** `GetAISettings` as evidently intended: the same validation, and the
      dimension count read from the configuration with the deployment's
      fallback rule instead of left at 0. */
  function GetAISettingsWithDimensions(config: map<string, string>, defaultDimensions: int): (r: Result<AISettings, Error>)
    ensures r.Success? <==> GetAISettings(config).Success?
    ensures r.Failure? ==> r == GetAISettings(config)
    ensures r.Success? ==>
              && r.value.provider == GetAISettings(config).value.provider
              && r.value.externalEmbeddingModel == GetAISettings(config).value.externalEmbeddingModel
              && r.value.embeddingModelDimensions == DimensionsOf(Lookup(config, EmbeddingDimensionsKey), defaultDimensions)
    ensures r.Success? && defaultDimensions > 0 ==> r.value.embeddingModelDimensions > 0
  {
    var settings :- GetAISettings(config);
    Success(settings.(embeddingModelDimensions := DimensionsOf(Lookup(config, EmbeddingDimensionsKey), defaultDimensions)))
  }
}
