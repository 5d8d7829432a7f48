/** Configuration resolution of codereview/config.py. The configuration
    is a dict of decoded JSON values; the environment is a map from
    variable names to values; the configuration file arrives already
    decoded, or as `None` when it is missing or reading it raises
    `IOError` or `JSONDecodeError`. */
module Config {
  import opened Wrappers
  import opened Text
  import opened Json

  /** DEFAULT_CONFIG */
  const DefaultConfig: map<string, Json> := map[
    "provider" := JString("openai"),
    "model" := JString("gpt-3.5-turbo"),
    "base_url" := JString("https://api.openai.com/v1"),
    "max_tokens" := JInt(2048),
    "temperature" := JReal(0.2),
    "language" := JString("en"),
    "severity_threshold" := JString("low")]

  const GenericBaseUrl: string := "https://api.openai.com/v1"
  const GenericModel: string := "gpt-3.5-turbo"

  /** One entry of PROVIDER_DEFAULTS. */
  datatype ProviderDefaults = ProviderDefaults(baseUrl: string, model: string, envKey: Option<string>)

  const Providers: map<string, ProviderDefaults> := map[
    "openai" := ProviderDefaults("https://api.openai.com/v1", "gpt-3.5-turbo", Some("OPENAI_API_KEY")),
    "anthropic" := ProviderDefaults("https://api.anthropic.com/v1", "claude-3-haiku-20240307", Some("ANTHROPIC_API_KEY")),
    "ollama" := ProviderDefaults("http://localhost:11434/v1", "llama3", None),
    "groq" := ProviderDefaults("https://api.groq.com/openai/v1", "llama-3.3-70b-versatile", Some("GROQ_API_KEY"))]

  /** The providers in the dict's insertion order. */
  const ProviderNames: seq<string> := ["openai", "anthropic", "ollama", "groq"]

  lemma ProviderNamesAreTheProviders()
    ensures forall i :: 0 <= i < |ProviderNames| ==> ProviderNames[i] in Providers
    ensures forall p :: p in Providers ==> p in ProviderNames
  {
  }

  /** `config.get("provider", "openai")` */
  function ProviderOf(config: map<string, Json>): Json {
    Get(config, "provider", JString("openai"))
  }

  predicate KnownProvider(p: Json) {
    p.JString? && p.s in Providers
  }

  /** `CODEREVIEW_API_KEY` is set to something that is not blank. */
  predicate OverrideSet(env: map<string, string>) {
    "CODEREVIEW_API_KEY" in env && Strip(env["CODEREVIEW_API_KEY"]) != ""
  }

  /** `_get_api_key`: the key comes from the environment only. A provider
      that is a list or dict makes `provider in PROVIDER_DEFAULTS` raise;
      both callers have already raised on it by then. */
  function GetApiKey(config: map<string, Json>, env: map<string, string>): (key: Option<string>)
    requires Hashable(ProviderOf(config))
    ensures key.Some? ==> key.value != "" && Strip(key.value) == key.value
    ensures OverrideSet(env) ==> key == Some(Strip(env["CODEREVIEW_API_KEY"]))
    ensures !OverrideSet(env) && key.Some? ==>
              var p := ProviderOf(config);
              KnownProvider(p) && Providers[p.s].envKey.Some?
              && var name := Providers[p.s].envKey.value;
                 name in env && key.value == Strip(env[name])
    ensures !OverrideSet(env) && KnownProvider(ProviderOf(config)) && Providers[ProviderOf(config).s].envKey.Some? ==>
              var name := Providers[ProviderOf(config).s].envKey.value;
              (key.Some? <==> name in env && Strip(env[name]) != "")
  {
    StripIdempotent(if "CODEREVIEW_API_KEY" in env then env["CODEREVIEW_API_KEY"] else "");
    if OverrideSet(env) then Some(Strip(env["CODEREVIEW_API_KEY"]))
    else
      var provider := ProviderOf(config);
      if KnownProvider(provider) && Providers[provider.s].envKey.Some? then
        var name := Providers[provider.s].envKey.value;
        StripIdempotent(if name in env then env[name] else "");
        if name in env && Strip(env[name]) != "" then Some(Strip(env[name])) else None
      else None
  }

  /** Ollama needs no key: without the override there is none. */
  lemma OllamaHasNoKey(config: map<string, Json>, env: map<string, string>)
    requires ProviderOf(config) == JString("ollama") && !OverrideSet(env)
    ensures GetApiKey(config, env) == None
  {
  }

  /** The key never comes from the configuration: only the provider is read. */
  lemma ApiKeyIgnoresConfig(c1: map<string, Json>, c2: map<string, Json>, env: map<string, string>)
    requires ProviderOf(c1) == ProviderOf(c2) && Hashable(ProviderOf(c1))
    ensures GetApiKey(c1, env) == GetApiKey(c2, env)
  {
  }

  /** `PROVIDER_DEFAULTS.get(provider, {}).get("env_key", "API_KEY")`, as
      formatted into the message. */
  function EnvKeyName(provider: string): string {
    if provider !in Providers then "API_KEY"
    else match Providers[provider].envKey
      case Some(name) => name
      case None => "None"
  }

  function MissingKeyMessage(provider: string): string {
    "No API key found. Set the " + EnvKeyName(provider) + " environment variable.\n"
    + "  export " + EnvKeyName(provider) + "=your-key-here\n"
    + "  Or: export CODEREVIEW_API_KEY=your-key-here"
  }

  /** `validate_api_key`: `True`, or the `ConfigError` it raises. */
  function ValidateApiKey(apiKey: Option<string>, provider: string): (r: Result<bool, Raised>)
    ensures r.Success? <==> provider == "ollama" || (apiKey.Some? && |apiKey.value| >= 10)
    ensures r.Success? ==> r.value
    ensures r.Failure? ==> r.error.ConfigError?
    ensures r.Failure? && (apiKey.None? || apiKey.value == "") ==> r.error.message == MissingKeyMessage(provider)
    ensures r.Failure? && apiKey.Some? && apiKey.value != "" ==>
              r.error.message == "API key looks too short (" + IntToString(|apiKey.value|) + " chars). "
                                 + "Check your environment variable."
  {
    if provider == "ollama" then Success(true)
    else if apiKey.None? || apiKey.value == "" then Failure(ConfigError(MissingKeyMessage(provider)))
    else if |apiKey.value| < 10 then
      Failure(ConfigError("API key looks too short (" + IntToString(|apiKey.value|) + " chars). "
                          + "Check your environment variable."))
    else Success(true)
  }

  /** The missing-key message names the provider's variable. */
  lemma MissingKeyNamesVariable()
    ensures ValidateApiKey(None, "groq") == Failure(ConfigError(MissingKeyMessage("groq")))
    ensures EnvKeyName("groq") == "GROQ_API_KEY" && EnvKeyName("mistral") == "API_KEY"
  {
  }

  /** `_load_config_file`: the decoded file with `api_key` popped. A file
      holding something other than an object fails at `pop`. */
  function LoadConfigFile(file: Option<Json>): (r: Result<map<string, Json>, Raised>)
    ensures file.None? ==> r == Success(map[])
    ensures r.Success? ==> "api_key" !in r.value
    ensures file.Some? && file.value.JObject? ==>
              r.Success? && forall k :: k != "api_key" ==>
                (k in r.value <==> k in file.value.fields) && (k in r.value ==> r.value[k] == file.value.fields[k])
    ensures file.Some? && !file.value.JObject? ==> r.Failure?
  {
    match file
    case None => Success(map[])
    case Some(JObject(fields)) => Success(fields - {"api_key"})
    case Some(JArray(_)) => Failure(TypeError("pop expected at most 1 argument, got 2"))
    case Some(v) => Failure(AttributeError(NoAttribute(v, "pop")))
  }

  /** `save_config`'s `safe_config`: everything but `api_key`. */
  function SavedConfig(config: map<string, Json>): (r: map<string, Json>)
    ensures "api_key" !in r
    ensures forall k :: k != "api_key" ==> (k in r <==> k in config) && (k in r ==> r[k] == config[k])
  {
    map k | k in config && k != "api_key" :: config[k]
  }

  /** What is saved loads back unchanged. */
  lemma SaveLoadRoundTrip(config: map<string, Json>)
    ensures LoadConfigFile(Some(JObject(SavedConfig(config)))) == Success(SavedConfig(config))
  {
    var saved := SavedConfig(config);
    assert saved - {"api_key"} == saved;
  }

  /** `base_url` or `model` is replaced when it is missing, falsy, or the
      generic default. */
  predicate Replaceable(config: map<string, Json>, key: string, generic: string) {
    !Truthy(Get(config, key, JNull)) || config[key] == JString(generic)
  }

  /** The result of `_apply_provider_defaults`. */
  function WithProviderDefaults(config: map<string, Json>): Result<map<string, Json>, Raised> {
    var provider := ProviderOf(config);
    if !Hashable(provider) then Failure(TypeError("unhashable type: '" + TypeName(provider) + "'"))
    else if !KnownProvider(provider) then Success(config)
    else
      var d := Providers[provider.s];
      var c := if Replaceable(config, "base_url", GenericBaseUrl) then config["base_url" := JString(d.baseUrl)] else config;
      Success(if Replaceable(c, "model", GenericModel) then c["model" := JString(d.model)] else c)
  }

  /** `_apply_provider_defaults`: it raises only for an unhashable
      provider, leaves an unknown provider's config unchanged, and
      otherwise touches only `base_url` and `model`. */
  lemma ProviderDefaultsEffect(config: map<string, Json>)
    ensures WithProviderDefaults(config).Failure? <==> !Hashable(ProviderOf(config))
    ensures Hashable(ProviderOf(config)) && !KnownProvider(ProviderOf(config)) ==>
              WithProviderDefaults(config) == Success(config)
    ensures KnownProvider(ProviderOf(config)) ==>
              var r := WithProviderDefaults(config).value;
              var d := Providers[ProviderOf(config).s];
              && (forall k :: k != "base_url" && k != "model" ==>
                    (k in r <==> k in config) && (k in r ==> r[k] == config[k]))
              && "base_url" in r && "model" in r
              && r["base_url"] == (if Replaceable(config, "base_url", GenericBaseUrl) then JString(d.baseUrl) else config["base_url"])
              && r["model"] == (if Replaceable(config, "model", GenericModel) then JString(d.model) else config["model"])
  {
  }

  /** Applying the provider defaults a second time changes nothing. */
  lemma ProviderDefaultsIdempotent(config: map<string, Json>)
    requires WithProviderDefaults(config).Success?
    ensures WithProviderDefaults(WithProviderDefaults(config).value) == WithProviderDefaults(config)
  {
    var r := WithProviderDefaults(config).value;
    ProviderDefaultsEffect(config);
    if KnownProvider(ProviderOf(config)) {
      assert ProviderOf(r) == ProviderOf(config);
      var d := Providers[ProviderOf(config).s];
      assert Replaceable(r, "base_url", GenericBaseUrl) ==> r["base_url"] == JString(d.baseUrl);
      assert Replaceable(r, "model", GenericModel) ==> r["model"] == JString(d.model);
      assert r["base_url" := r["base_url"]] == r;
      assert r["model" := r["model"]] == r;
    }
  }

  /** `_apply_provider_defaults`, step by step. */
  method ApplyProviderDefaults(config: map<string, Json>) returns (r: Result<map<string, Json>, Raised>)
    ensures r == WithProviderDefaults(config)
  {
    var provider := ProviderOf(config);
    if !Hashable(provider) {
      return Failure(TypeError("unhashable type: '" + TypeName(provider) + "'"));
    }
    if !KnownProvider(provider) {
      return Success(config);
    }
    var defaults := Providers[provider.s];
    var c := config;
    if !Truthy(Get(c, "base_url", JNull)) || c["base_url"] == JString(GenericBaseUrl) {
      c := c["base_url" := JString(defaults.baseUrl)];
    }
    if !Truthy(Get(c, "model", JNull)) || c["model"] == JString(GenericModel) {
      c := c["model" := JString(defaults.model)];
    }
    return Success(c);
  }

  function KeyValue(key: Option<string>): Json {
    if key.Some? then JString(key.value) else JNull
  }

  /** `CODEREVIEW_MODEL` is set and non-empty. */
  predicate ModelOverride(env: map<string, string>) {
    "CODEREVIEW_MODEL" in env && env["CODEREVIEW_MODEL"] != ""
  }

  /** The result of `load_config`. */
  function LoadedConfig(file: Option<Json>, env: map<string, string>): (r: Result<map<string, Json>, Raised>)
    ensures r.Success? ==> DefaultConfig.Keys + {"api_key"} <= r.value.Keys
  {
    match LoadConfigFile(file)
    case Failure(e) => Failure(e)
    case Success(fileConfig) =>
      match WithProviderDefaults(DefaultConfig + fileConfig)
      case Failure(e) => Failure(e)
      case Success(c) =>
        ProviderDefaultsEffect(DefaultConfig + fileConfig);
        Success(FinishLoad(c, env))
  }

  /** The last two steps of `load_config`: the key from the environment,
      then the model override. */
  function FinishLoad(c: map<string, Json>, env: map<string, string>): (r: map<string, Json>)
    requires Hashable(ProviderOf(c))
    ensures c.Keys + {"api_key"} <= r.Keys
  {
    var c1 := c["api_key" := KeyValue(GetApiKey(c, env))];
    if ModelOverride(env) then c1["model" := JString(env["CODEREVIEW_MODEL"])] else c1
  }

  /** `load_config`, step by step. */
  method LoadConfig(file: Option<Json>, env: map<string, string>) returns (r: Result<map<string, Json>, Raised>)
    ensures r == LoadedConfig(file, env)
  {
    var config := DefaultConfig;
    var fileConfig := LoadConfigFile(file);
    if fileConfig.Failure? {
      return Failure(fileConfig.error);
    }
    config := config + fileConfig.value;
    var applied := ApplyProviderDefaults(config);
    if applied.Failure? {
      return applied;
    }
    config := applied.value;
    ProviderDefaultsEffect(DefaultConfig + fileConfig.value);
    config := config["api_key" := KeyValue(GetApiKey(config, env))];
    if ModelOverride(env) {
      config := config["model" := JString(env["CODEREVIEW_MODEL"])];
    }
    return Success(config);
  }

  /** The file's own `api_key` makes no difference to what is loaded. */
  lemma LoadedKeyFromEnvOnly(fields: map<string, Json>, v: Json, env: map<string, string>)
    ensures LoadedConfig(Some(JObject(fields["api_key" := v])), env) == LoadedConfig(Some(JObject(fields - {"api_key"})), env)
  {
    var f1 := fields["api_key" := v] - {"api_key"};
    var f2 := (fields - {"api_key"}) - {"api_key"};
    assert f1 == f2;
    assert LoadConfigFile(Some(JObject(fields["api_key" := v]))) == Success(f1);
    assert LoadConfigFile(Some(JObject(fields - {"api_key"}))) == Success(f2);
  }

  /** The loaded `api_key` is `None` or read from the environment. */
  lemma LoadedKeyFromEnv(file: Option<Json>, env: map<string, string>)
    requires LoadedConfig(file, env).Success?
    ensures var c := LoadedConfig(file, env).value;
            "api_key" in c && (c["api_key"] == JNull || exists name :: name in env && c["api_key"] == JString(Strip(env[name])))
  {
    var merged := DefaultConfig + LoadConfigFile(file).value;
    ProviderDefaultsEffect(merged);
    var c0 := WithProviderDefaults(merged).value;
    assert LoadedConfig(file, env).value == FinishLoad(c0, env);
    FinishLoadKey(c0, env);
  }

  /** The key `FinishLoad` sets is absent or read from the environment. */
  lemma FinishLoadKey(c: map<string, Json>, env: map<string, string>)
    requires Hashable(ProviderOf(c))
    ensures "api_key" in FinishLoad(c, env)
    ensures var k := FinishLoad(c, env)["api_key"];
            k == JNull || exists name :: name in env && k == JString(Strip(env[name]))
  {
    var key := GetApiKey(c, env);
    assert FinishLoad(c, env)["api_key"] == KeyValue(key);
    if key.Some? {
      if OverrideSet(env) {
        assert "CODEREVIEW_API_KEY" in env;
      } else {
        var name := Providers[ProviderOf(c).s].envKey.value;
        assert name in env && key.value == Strip(env[name]);
      }
    }
  }

  /** `FinishLoad` sets `api_key`, and `model` only under an override. */
  lemma FinishLoadKeeps(c: map<string, Json>, env: map<string, string>)
    requires Hashable(ProviderOf(c))
    ensures var r := FinishLoad(c, env);
            && (forall k :: k != "api_key" && k != "model" ==> (k in r <==> k in c) && (k in r ==> r[k] == c[k]))
            && (ModelOverride(env) ==> r["model"] == JString(env["CODEREVIEW_MODEL"]))
            && (!ModelOverride(env) && "model" in c ==> r["model"] == c["model"])
  {
  }

  /** Precedence for the ordinary keys: the file's value over the
      default. */
  lemma LoadPrecedence(fields: map<string, Json>, env: map<string, string>)
    requires LoadedConfig(Some(JObject(fields)), env).Success?
    ensures var c := LoadedConfig(Some(JObject(fields)), env).value;
            forall k :: k != "api_key" && k != "base_url" && k != "model" ==>
              && (k in c <==> k in DefaultConfig || k in fields)
              && (k in fields ==> c[k] == fields[k])
              && (k !in fields && k in DefaultConfig ==> c[k] == DefaultConfig[k])
  {
    var merged := DefaultConfig + LoadConfigFile(Some(JObject(fields))).value;
    ProviderDefaultsEffect(merged);
    var c0 := WithProviderDefaults(merged).value;
    assert LoadedConfig(Some(JObject(fields)), env).value == FinishLoad(c0, env);
    FinishLoadKeeps(c0, env);
  }

  /** Precedence for `base_url` and `model`: the merged value, then the
      provider's default where it is replaceable, then a non-empty
      `CODEREVIEW_MODEL`. */
  lemma LoadedModelAndUrl(file: Option<Json>, env: map<string, string>)
    requires LoadedConfig(file, env).Success?
    ensures var c := LoadedConfig(file, env).value;
            var merged := DefaultConfig + LoadConfigFile(file).value;
            && (ModelOverride(env) ==> c["model"] == JString(env["CODEREVIEW_MODEL"]))
            && (!ModelOverride(env) && !KnownProvider(ProviderOf(merged)) ==> c["model"] == merged["model"])
            && (!ModelOverride(env) && KnownProvider(ProviderOf(merged)) ==>
                  c["model"] == (if Replaceable(merged, "model", GenericModel)
                                 then JString(Providers[ProviderOf(merged).s].model) else merged["model"]))
            && (KnownProvider(ProviderOf(merged)) ==>
                  c["base_url"] == (if Replaceable(merged, "base_url", GenericBaseUrl)
                                    then JString(Providers[ProviderOf(merged).s].baseUrl) else merged["base_url"]))
            && (!KnownProvider(ProviderOf(merged)) ==> c["base_url"] == merged["base_url"])
  {
    var merged := DefaultConfig + LoadConfigFile(file).value;
    ProviderDefaultsEffect(merged);
    var c0 := WithProviderDefaults(merged).value;
    assert LoadedConfig(file, env).value == FinishLoad(c0, env);
    FinishLoadKeeps(c0, env);
  }

  /** `init_config`: the configuration for a named provider, and the dict
      it saves; an unknown provider is refused with the list of choices. */
  method InitConfig(provider: string, env: map<string, string>)
    returns (r: Result<map<string, Json>, Raised>, saved: Option<map<string, Json>>)
    ensures provider !in Providers <==> r.Failure?
    ensures r.Failure? ==>
              && saved.None?
              && r.error == ConfigError("Unknown provider: " + provider + ". Choose from: " + Join(ProviderNames, ", "))
    ensures r.Success? ==>
              var d := Providers[provider];
              && saved.Some? && "api_key" !in saved.value
              && {"provider", "base_url", "model", "api_key"} <= r.value.Keys
              && r.value["provider"] == JString(provider)
              && r.value["base_url"] == JString(d.baseUrl)
              && r.value["model"] == JString(d.model)
              && r.value["api_key"] == KeyValue(GetApiKey(r.value, env))
              && (forall k :: k != "provider" && k != "base_url" && k != "model" && k != "api_key" ==>
                    (k in r.value <==> k in DefaultConfig) && (k in r.value ==> r.value[k] == DefaultConfig[k]))
              && (forall k :: k in saved.value <==> k in r.value && k != "api_key")
              && (forall k :: k in saved.value ==> saved.value[k] == r.value[k])
  {
    if provider !in Providers {
      return Failure(ConfigError("Unknown provider: " + provider + ". Choose from: " + Join(ProviderNames, ", "))), None;
    }
    var config := DefaultConfig;
    config := config["provider" := JString(provider)];
    config := config["base_url" := JString(Providers[provider].baseUrl)];
    config := config["model" := JString(Providers[provider].model)];
    saved := Some(SavedConfig(config));
    var chosen := config;
    config := config["api_key" := KeyValue(GetApiKey(config, env))];
    ApiKeyIgnoresConfig(config, chosen, env);
    forall k | k != "provider" && k != "base_url" && k != "model" && k != "api_key"
      ensures (k in config <==> k in DefaultConfig) && (k in config ==> config[k] == DefaultConfig[k])
    {
      assert k in config <==> k in chosen;
    }
    r := Success(config);
  }
}
