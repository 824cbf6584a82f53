/**
  validate_llm_server_config (utils.py): check that the language-model server
  settings are present and build the three-key settings map the request code
  uses, with a placeholder API key for servers that need none.
*/
module Utils {
  import opened Wrappers

  /** A value loaded from the YAML configuration. */
  datatype Value =
    | Null
    | Bool(b: bool)
    | Int(i: int)
    | Str(s: string)
    | List(items: seq<Value>)
    | Dict(entries: map<string, Value>)

  /** Python truthiness: `None`, `False`, `0`, and empty strings, lists and dicts are false. */
  predicate Truthy(v: Value)
  {
    match v
    case Null => false
    case Bool(b) => b
    case Int(i) => i != 0
    case Str(s) => s != ""
    case List(items) => items != []
    case Dict(entries) => entries != map[]
  }

  const RequiredFields: seq<string> := ["model", "base_url", "api_key"]

  /** The key used when the configured one is falsy; any non-empty string is accepted by a
      local server that ignores keys. */
  const DefaultApiKey: string := "ollama"

  /** The `ValueError` raised for a missing field; its message names that field. */
  datatype ConfigError = MissingField(field: string)

  /** The position of the first of `fields` that `config` lacks, `|fields|` when none is missing. */
  function FirstMissing(fields: seq<string>, config: map<string, Value>): (i: nat)
    ensures i <= |fields|
    ensures forall j :: 0 <= j < i ==> fields[j] in config
    ensures i < |fields| ==> fields[i] !in config
  {
    if fields == [] || fields[0] !in config then 0
    else 1 + FirstMissing(fields[1..], config)
  }

  /** `validate_llm_server_config`: fails naming the first of `model`, `base_url`, `api_key`
      that is missing; otherwise returns a map with exactly those three keys, `model` and
      `base_url` copied, and `api_key` copied when truthy and `"ollama"` otherwise. */
  function ValidateLlmServerConfig(config: map<string, Value>): (r: Result<map<string, Value>, ConfigError>)
    ensures r.Failure? <==> "model" !in config || "base_url" !in config || "api_key" !in config
    ensures r.Failure? ==> r.error == MissingField(
      if "model" !in config then "model" else if "base_url" !in config then "base_url" else "api_key")
    ensures r.Success? ==> r.value.Keys == {"model", "base_url", "api_key"}
    ensures r.Success? ==> r.value["model"] == config["model"] && r.value["base_url"] == config["base_url"]
    ensures r.Success? ==> r.value["api_key"] == if Truthy(config["api_key"]) then config["api_key"] else Str(DefaultApiKey)
    ensures r.Success? ==> Truthy(r.value["api_key"])
  {
    assert RequiredFields == ["model", "base_url", "api_key"];
    var missing := FirstMissing(RequiredFields, config);
    assert 0 < missing ==> RequiredFields[0] in config;
    assert 1 < missing ==> RequiredFields[1] in config;
    assert 2 < missing ==> RequiredFields[2] in config;
    if missing < |RequiredFields| then Failure(MissingField(RequiredFields[missing]))
    else
      var llmServerConfig := map["model" := config["model"], "base_url" := config["base_url"], "api_key" := config["api_key"]];
      if !Truthy(llmServerConfig["api_key"]) then Success(llmServerConfig["api_key" := Str(DefaultApiKey)])
      else Success(llmServerConfig)
  }

  /** Validating an already validated configuration returns it unchanged. */
  lemma ValidateIdempotent(config: map<string, Value>)
    ensures ValidateLlmServerConfig(config).Success? ==>
      ValidateLlmServerConfig(ValidateLlmServerConfig(config).value) == ValidateLlmServerConfig(config)
  {
    var r := ValidateLlmServerConfig(config);
    if r.Success? {
      var again := ValidateLlmServerConfig(r.value);
      assert again.Success?;
      assert again.value.Keys == r.value.Keys;
      assert forall k :: k in again.value ==> again.value[k] == r.value[k];
      assert again.value == r.value;
    }
  }

  /** A key present with `null` passes the presence check; only the API key is then replaced. */
  lemma NullValuesPassPresenceCheck(config: map<string, Value>)
    requires config.Keys == {"model", "base_url", "api_key"}
    requires forall k :: k in config ==> config[k] == Null
    ensures ValidateLlmServerConfig(config) ==
      Success(map["model" := Null, "base_url" := Null, "api_key" := Str(DefaultApiKey)])
  {
    var r := ValidateLlmServerConfig(config).value;
    assert r.Keys == config.Keys;
    assert r == map["model" := Null, "base_url" := Null, "api_key" := Str(DefaultApiKey)];
  }
}
