/**
 * The image-caption client: parsing the chat-completion reply, reading the
 * caption out of it, the service configuration and the guards of
 * `get_caption`. The calls to Ollama and to the OpenAI-style endpoint are
 * outside the model; what they return is passed in.
 */
module Caption {
  import opened Wrappers
  import opened PyStr

  // The reply as JSON.

  /** The "message" entry of one choice: missing, JSON null, or an object. */
  datatype JsonMessage =
    | Absent
    | Null
    | Object(role: Option<string>, content: Option<string>, toolCalls: Option<string>)

  /**
   * A reply object. Keys that are missing read as None; `usage` is None
   * when missing or null, and otherwise the counters it holds.
   */
  datatype JsonReply = JsonReply(
    id: Option<string>, created: Option<int>, model: Option<string>, obj: Option<string>,
    choices: seq<JsonMessage>, usage: Option<map<string, int>>)

  datatype Message = Message(role: Option<string>, content: Option<string>, toolCalls: Option<string>)

  datatype Usage = Usage(promptTokens: int, totalTokens: int, completionTokens: int)

  /** `CaptionChatResp`; every choice carries a message. */
  datatype ChatResp = ChatResp(
    id: Option<string>, created: Option<int>, model: Option<string>, obj: Option<string>,
    choices: seq<Message>, usage: Option<Usage>)

  /** The message `from_json` builds for one choice; a missing one has every field None. */
  function MessageOf(m: JsonMessage): Message
    requires !m.Null?
  {
    if m.Absent? then Message(None, None, None) else Message(m.role, m.content, m.toolCalls)
  }

  /** `d.get(key, 0)` on the usage counters. */
  function Counter(m: map<string, int>, key: string): int {
    if key in m then m[key] else 0
  }

  /**
   * `CaptionChatResp.from_json`. A "message" that is JSON null makes
   * `.get` raise, which fails the whole parse.
   */
  method FromJson(j: JsonReply) returns (r: Result<ChatResp>)
    ensures r.Err? <==> exists k :: 0 <= k < |j.choices| && j.choices[k].Null?
    ensures r.Ok? ==> |r.value.choices| == |j.choices|
    ensures r.Ok? ==> forall k :: 0 <= k < |j.choices| ==> r.value.choices[k] == MessageOf(j.choices[k])
    ensures r.Ok? ==> r.value.id == j.id && r.value.created == j.created && r.value.model == j.model &&
                      r.value.obj == j.obj
    ensures r.Ok? && (j.usage.None? || |j.usage.value| == 0) ==> r.value.usage.None?
    ensures r.Ok? && j.usage.Some? && |j.usage.value| > 0 ==>
      r.value.usage == Some(Usage(Counter(j.usage.value, "prompt_tokens"), Counter(j.usage.value, "total_tokens"),
                                  Counter(j.usage.value, "completion_tokens")))
  {
    var choices: seq<Message> := [];
    var k := 0;
    while k < |j.choices|
      invariant 0 <= k <= |j.choices|
      invariant forall m :: 0 <= m < k ==> !j.choices[m].Null?
      invariant |choices| == k
      invariant forall m :: 0 <= m < k ==> choices[m] == MessageOf(j.choices[m])
    {
      var c := j.choices[k];
      if c.Null? {
        return Err("AttributeError: 'NoneType' object has no attribute 'get'");
      }
      var message := if c.Absent? then Message(None, None, None) else Message(c.role, c.content, c.toolCalls);
      choices := choices + [message];
      k := k + 1;
    }
    var usage: Option<Usage> := None;
    if j.usage.Some? && |j.usage.value| > 0 {
      var u := j.usage.value;
      usage := Some(Usage(
        if "prompt_tokens" in u then u["prompt_tokens"] else 0,
        if "total_tokens" in u then u["total_tokens"] else 0,
        if "completion_tokens" in u then u["completion_tokens"] else 0));
    }
    return Ok(ChatResp(j.id, j.created, j.model, j.obj, choices, usage));
  }

  /** `choice_data`: the first choice's content, which may be None; "" without choices. */
  function ChoiceData(resp: ChatResp): (r: Option<string>)
    ensures resp.choices == [] ==> r == Some("")
    ensures resp.choices != [] ==> r == resp.choices[0].content
  {
    if resp.choices != [] then resp.choices[0].content else Some("")
  }

  /** A reply whose first choice had no message gives a None caption. */
  lemma MessagelessChoiceHasNoContent(j: JsonReply, resp: ChatResp)
    requires j.choices != [] && j.choices[0].Absent?
    requires |resp.choices| == |j.choices| && resp.choices[0] == MessageOf(j.choices[0])
    ensures ChoiceData(resp) == None
  {
  }

  // The service configuration.

  /** A VLM configuration dictionary or the environment: missing keys read as None. */
  type Settings = map<string, string>

  function Get(m: Settings, key: string): Option<string> {
    if key in m then Some(m[key]) else None
  }

  predicate Truthy(v: Option<string>) {
    v.Some? && v.value != ""
  }

  /**
   * The attributes `Caption.__init__` leaves: `Unset` when it returned early
   * (so none of them exists), otherwise the endpoint, model, key and
   * interface type.
   */
  datatype Service =
    | Unset
    | Configured(completionUrl: string, model: Option<string>, apiKey: Option<string>, interfaceType: string)

  /** Only "ollama" and "openai" are kept; any other interface type becomes "openai". */
  function NormaliseInterface(t: string): (r: string)
    ensures r == "ollama" || r == "openai"
    ensures r == "ollama" <==> t == "ollama"
  {
    if t == "ollama" || t == "openai" then t else "openai"
  }

  /**
   * `Caption.__init__`. A configuration with a truthy base URL and model
   * name is used; otherwise the VLM_* environment variables are, returning
   * early when the URL or the name is set but empty, and raising when the
   * URL is unset (`None + str`).
   */
  function InitService(vlmConfig: Option<Settings>, env: Settings): (r: Result<Service>)
    ensures r.Ok? && r.value.Configured? ==>
      r.value.interfaceType in {"ollama", "openai"} && EndsWithCompletions(r.value.completionUrl)
  {
    if vlmConfig.Some? && |vlmConfig.value| > 0 && Truthy(Get(vlmConfig.value, "base_url")) &&
       Truthy(Get(vlmConfig.value, "model_name")) then
      var c := vlmConfig.value;
      Ok(Configured(c["base_url"] + "/chat/completions", Some(c["model_name"]),
        Some(Get(c, "api_key").GetOr("")),
        NormaliseInterface(Lower(Get(c, "interface_type").GetOr("openai")))))
    else if Get(env, "VLM_MODEL_BASE_URL") == Some("") || Get(env, "VLM_MODEL_NAME") == Some("") then
      Ok(Unset)
    else if Get(env, "VLM_MODEL_BASE_URL").None? then
      Err("TypeError: unsupported operand type(s) for +: 'NoneType' and 'str'")
    else
      Ok(Configured(env["VLM_MODEL_BASE_URL"] + "/chat/completions", Get(env, "VLM_MODEL_NAME"),
        Get(env, "VLM_MODEL_API_KEY"),
        NormaliseInterface(Lower(Get(env, "VLM_INTERFACE_TYPE").GetOr("openai")))))
  }

  predicate EndsWithCompletions(url: string) {
    |url| >= 17 && url[|url| - 17..] == "/chat/completions"
  }

  /**
   * With a usable configuration, the endpoint is its base URL followed by
   * "/chat/completions", the model is its model name, and the interface
   * type is its lower-cased value when that is "ollama" or "openai".
   */
  lemma ConfiguredFromConfig(c: Settings, env: Settings)
    requires Truthy(Get(c, "base_url")) && Truthy(Get(c, "model_name"))
    ensures var r := InitService(Some(c), env);
      r.Ok? && r.value.Configured? &&
      r.value.completionUrl == c["base_url"] + "/chat/completions" &&
      r.value.model == Some(c["model_name"]) &&
      (r.value.interfaceType == "ollama" <==> Lower(Get(c, "interface_type").GetOr("openai")) == "ollama")
  {
    assert |c| > 0 by { assert "base_url" in c; }
  }

  /** Interface types are matched case-insensitively. */
  lemma InterfaceCaseInsensitive(c1: Settings, c2: Settings, env: Settings)
    requires Truthy(Get(c1, "base_url")) && Truthy(Get(c1, "model_name"))
    requires Truthy(Get(c2, "base_url")) && Truthy(Get(c2, "model_name"))
    requires Lower(Get(c1, "interface_type").GetOr("openai")) == Lower(Get(c2, "interface_type").GetOr("openai"))
    ensures InitService(Some(c1), env).value.interfaceType == InitService(Some(c2), env).value.interfaceType
  {
    ConfiguredFromConfig(c1, env);
    ConfiguredFromConfig(c2, env);
  }

  /**
   * `get_caption`. Empty image data gives "" before the service is looked
   * at; an unconfigured service has no `completion_url`, which raises. The
   * Ollama or the OpenAI-style reply is used according to the interface
   * type; a failed call gives "". A first choice whose content is None
   * makes `len` raise.
   */
  function GetCaption(service: Service, imageData: string, ollamaReply: Option<ChatResp>,
                      openaiReply: Option<ChatResp>): (r: Result<string>)
    ensures imageData == "" ==> r == Ok("")
    ensures imageData != "" && service.Unset? ==> r.Err?
    ensures imageData != "" && service.Configured? ==>
      var reply := if service.interfaceType == "ollama" then ollamaReply else openaiReply;
      (reply.None? ==> r == Ok("")) &&
      (reply.Some? && reply.value.choices == [] ==> r == Ok("")) &&
      (reply.Some? && reply.value.choices != [] ==>
        (r.Ok? <==> reply.value.choices[0].content.Some?) &&
        (r.Ok? ==> r.value == reply.value.choices[0].content.value))
  {
    if imageData == "" then Ok("")
    else if service.Unset? then Err("AttributeError: 'Caption' object has no attribute 'completion_url'")
    else
      var reply := if service.interfaceType == "ollama" then ollamaReply else openaiReply;
      if reply.None? then Ok("")
      else
        match ChoiceData(reply.value) {
          case None => Err("TypeError: object of type 'NoneType' has no len()")
          case Some(caption) => Ok(caption)
        }
  }
}
