/** The application configuration: the provider name is normalized and checked,
    missing URL and model get the provider's defaults, and the API endpoint is
    derived from provider and URL. */
module AppConfig {
  import opened Text

  datatype Result<T> = Success(value: T) | Failure(error: string)

  const ProviderError := "Provider must be 'ollama' or 'lmstudio'"

  /** The two providers `__post_init__` accepts, after lower-casing. */
  predicate SupportedProvider(p: string) {
    p == "ollama" || p == "lmstudio"
  }

  predicate EndsWith(s: string, suffix: string) {
    |suffix| <= |s| && s[|s| - |suffix|..] == suffix
  }

  /** A string that ends with a non-empty suffix ends with its last character. */
  lemma EndsWithLast(s: string, suffix: string)
    requires suffix != []
    ensures EndsWith(s, suffix) ==> s[|s| - 1] == suffix[|suffix| - 1]
  {
    if EndsWith(s, suffix) {
      assert s[|s| - |suffix|..][|suffix| - 1] == s[|s| - 1];
    }
  }

  class Config {
    var provider: string
    var baseUrl: Option<string>
    var model: Option<string>
    var verbose: bool

    /** What holds once `__post_init__` has run. */
    ghost predicate Valid()
      reads this
    {
      SupportedProvider(provider) && baseUrl.Some? && model.Some?
    }

    /** The dataclass fields as given, then `__post_init__` step by step, for a
        provider that passes the check (see `Create` for the one that does not). */
    constructor (provider: string, baseUrl: Option<string>, model: Option<string>, verbose: bool)
      requires SupportedProvider(Lower(provider))
      ensures Valid()
      ensures this.provider == Lower(provider) && this.verbose == verbose
      ensures baseUrl.Some? ==> this.baseUrl == baseUrl
      ensures baseUrl.None? && this.provider == "ollama" ==> this.baseUrl == Some("http://localhost:11434")
      ensures baseUrl.None? && this.provider == "lmstudio" ==> this.baseUrl == Some("http://localhost:1234")
      ensures model.Some? ==> this.model == model
      ensures model.None? && this.provider == "ollama" ==> this.model == Some("gemma3")
      ensures model.None? && this.provider == "lmstudio" ==> this.model == Some("local-model")
    {
      this.provider := provider;
      this.baseUrl := baseUrl;
      this.model := model;
      this.verbose := verbose;
      new;
      this.provider := Lower(this.provider);
      if this.baseUrl.None? {
        if this.provider == "ollama" {
          this.baseUrl := Some("http://localhost:11434");
        } else {
          this.baseUrl := Some("http://localhost:1234");
        }
      }
      if this.model.None? {
        if this.provider == "ollama" {
          this.model := Some("gemma3");
        } else {
          this.model := Some("local-model");
        }
      }
    }

    /** `Config(...)` as a caller sees it: the `ValueError` for an unsupported
        provider, otherwise a new, valid configuration. */
    static method Create(provider: string, baseUrl: Option<string>, model: Option<string>, verbose: bool)
      returns (r: Result<Config>)
      ensures r.Failure? <==> !SupportedProvider(Lower(provider))
      ensures r.Failure? ==> r.error == ProviderError
      ensures r.Success? ==> fresh(r.value) && r.value.Valid() && r.value.provider == Lower(provider)
      ensures r.Success? && baseUrl.Some? ==> r.value.baseUrl == baseUrl
      ensures r.Success? && model.Some? ==> r.value.model == model
    {
      if !SupportedProvider(Lower(provider)) {
        return Failure(ProviderError);
      }
      var c := new Config(provider, baseUrl, model, verbose);
      r := Success(c);
    }

    /** The `endpoint` property: the base URL followed by the provider's API path. */
    function Endpoint(): (r: string)
      reads this
      requires Valid()
      ensures StartsWith(r, baseUrl.value)
      ensures provider == "ollama" <==> EndsWith(r, "/api/generate")
      ensures provider == "lmstudio" <==> EndsWith(r, "/v1/chat/completions")
      ensures |r| == |baseUrl.value| + if provider == "ollama" then |"/api/generate"| else |"/v1/chat/completions"|
    {
      var path := if provider == "ollama" then "/api/generate" else "/v1/chat/completions";
      var r := baseUrl.value + path;
      assert r[..|baseUrl.value|] == baseUrl.value;
      assert r[|r| - |path|..] == path;
      EndsWithLast(r, "/api/generate");
      EndsWithLast(r, "/v1/chat/completions");
      assert r[|r| - 1] == path[|path| - 1];
      r
    }
  }

  /** The endpoint gives back the configuration's provider and base URL. */
  lemma EndpointDeterminesConfig(a: Config, b: Config)
    requires a.Valid() && b.Valid()
    requires a.Endpoint() == b.Endpoint()
    ensures a.provider == b.provider && a.baseUrl == b.baseUrl
  {
    var e := a.Endpoint();
    assert a.provider == "ollama" <==> b.provider == "ollama";
    assert a.provider == b.provider;
    var n := |a.baseUrl.value|;
    assert |b.baseUrl.value| == n;
    assert a.baseUrl.value == e[..n] == b.baseUrl.value;
  }

  /** Lower-casing happens before the check: `"OLLAMA"` is accepted as `"ollama"`. */
  lemma UpperCaseProviderAccepted()
    ensures Lower("OLLAMA") == "ollama" && Lower("LMStudio") == "lmstudio"
  {
    LowerMatches("OLLAMA", "ollama");
    LowerMatches("LMStudio", "lmstudio");
  }

  /** Given only an upper-case provider name, the configuration talks to a local
      Ollama server's generate API with the `gemma3` model. */
  method DefaultOllamaConfig() returns (endpoint: string, model: string)
    ensures endpoint == "http://localhost:11434" + "/api/generate" && model == "gemma3"
  {
    UpperCaseProviderAccepted();
    var c := new Config("OLLAMA", None, None, false);
    endpoint := c.Endpoint();
    model := c.model.value;
  }

  /** Given only the provider name, LM Studio's configuration talks to a local
      chat-completions API with the `local-model` model. */
  method DefaultLmStudioConfig() returns (endpoint: string, model: string)
    ensures endpoint == "http://localhost:1234" + "/v1/chat/completions" && model == "local-model"
  {
    UpperCaseProviderAccepted();
    var c := new Config("LMStudio", None, None, false);
    endpoint := c.Endpoint();
    model := c.model.value;
  }

  /** Two spellings that differ only in letter case are accepted or refused together. */
  lemma ProviderCaseInsensitive(p: string, q: string)
    requires |p| == |q| && forall i :: 0 <= i < |p| ==> LowerChar(p[i]) == LowerChar(q[i])
    ensures SupportedProvider(Lower(p)) <==> SupportedProvider(Lower(q))
    ensures Lower(p) == Lower(q)
  {
  }
}
