/**
  The oracle endpoint `/generate-description`: a request handler that reads the
  `tool` query parameter, builds a fixed prompt around it and asks a bound
  language model for a description. The model binding is a function
  parameter, so the handler is a pure function of the query parameter and
  of what the model does with the one invocation the handler makes.
 */
module Oracle {
  import opened Options

  /** The model the handler invokes. */
  const ModelId := "@cf/meta/llama-2-7b-chat-int8"
  /** The token budget of every invocation. */
  const MaxTokens: nat := 150
  /** The body of the reply to a request that names no tool. */
  const NoToolRebuke := "You dare summon the oracle without a purpose? Name the tool you wish to understand."
  /** The body of the reply when the model invocation throws. */
  const EtherError := "The digital ether has returned an error. A momentary inconvenience on the path to enlightenment."
  /** The content type of a successful reply. */
  const JsonType := "application/json"

  const Quote := "\""
  /** The prompt text before the tool name, ending in the opening quote. */
  const PromptLead := "You are ivelLevi, a brilliant strategist and master of OSINT. Provide a short, clever, and insightful description for the tool named " + Quote
  /** The prompt text after the tool name, starting with the closing quote. */
  const PromptClose := Quote + ". Your tone should be sharp, witty, and subtly powerful. Explain its use in a way that highlights its strategic value for information gathering."

  // ---------------------------------------------------------------------------
  // The prompt

  /** `m` framed by `a` in front and `b` behind. */
  function Frame(a: string, m: string, b: string): (p: string)
    ensures |p| == |a| + |m| + |b|
    ensures p[..|a|] == a && p[|a|..|a| + |m|] == m && p[|a| + |m|..] == b
  {
    a + m + b
  }

  /** The text between the frame `a` ... `b`, when `p` is so framed. */
  function Unframe(a: string, b: string, p: string): (m: Option<string>)
    ensures m.Some? ==> Frame(a, m.value, b) == p
  {
    if |a| + |b| <= |p| && p[..|a|] == a && p[|p| - |b|..] == b then
      assert p == p[..|a|] + p[|a|..|p| - |b|] + p[|p| - |b|..];
      Some(p[|a|..|p| - |b|])
    else None
  }

  lemma UnframeFrame(a: string, m: string, b: string)
    ensures Unframe(a, b, Frame(a, m, b)) == Some(m)
  {
    var p := Frame(a, m, b);
    assert p[..|a|] == a;
    assert p[|p| - |b|..] == b;
    assert p[|a|..|p| - |b|] == m;
  }

  /**
    The prompt the handler sends for tool `name`: the fixed lead, the name
    between double quotes, the fixed close.
   */
  function Prompt(name: string): (p: string)
    ensures |p| == |PromptLead| + |name| + |PromptClose|
    ensures var n := |PromptLead|;
            p[..n] == PromptLead && p[n..n + |name|] == name && p[n + |name|..] == PromptClose
    ensures p[|PromptLead| - 1] == '"' && p[|PromptLead| + |name|] == '"'
  {
    var p := Frame(PromptLead, name, PromptClose);
    assert p[|PromptLead| - 1] == p[..|PromptLead|][|PromptLead| - 1] == PromptLead[|PromptLead| - 1] == Quote[0];
    assert p[|PromptLead| + |name|] == p[|PromptLead| + |name|..][0] == PromptClose[0] == Quote[0];
    p
  }

  /** The tool name a prompt was built around, if it has the prompt's shape. */
  function NameInPrompt(p: string): (name: Option<string>)
    ensures name.Some? ==> Prompt(name.value) == p
  {
    Unframe(PromptLead, PromptClose, p)
  }

  /** The prompt quotes exactly the tool name it was built for. */
  lemma PromptRoundTrip(name: string)
    ensures NameInPrompt(Prompt(name)) == Some(name)
  {
    UnframeFrame(PromptLead, name, PromptClose);
  }

  /** Distinct tool names give distinct prompts. */
  lemma PromptInjective(n1: string, n2: string)
    ensures Prompt(n1) == Prompt(n2) <==> n1 == n2
  {
    PromptRoundTrip(n1);
    PromptRoundTrip(n2);
  }

  // ---------------------------------------------------------------------------
  // The handler

  /** One call of the model binding: model, prompt and token budget. */
  datatype Invocation = Invocation(model: string, prompt: string, maxTokens: nat)

  /** What the model binding does with an invocation: it returns a value or throws. */
  datatype AiOutcome<T> = AiReturned(output: T) | AiThrew(error: string)

  /** A reply: status, the content type the handler sets (None: left to the runtime), body. */
  datatype Response = Response(status: int, contentType: Option<string>, body: string)

  /** A handled request: the reply, and the model invocation made on the way, if any. */
  datatype Handled = Handled(response: Response, invoked: Option<Invocation>)

  /** The invocation for tool `name`. */
  function Call(name: string): (c: Invocation)
    ensures c.model == ModelId && c.maxTokens == MaxTokens
    ensures NameInPrompt(c.prompt) == Some(name)
  {
    PromptRoundTrip(name);
    Invocation(ModelId, Prompt(name), MaxTokens)
  }

  /**
    `onRequest`: `tool` is `searchParams.get("tool")`, `ai` the model binding
    `env.AI.run` and `stringify` is `JSON.stringify` on its output.
   */
  function OnRequest<T>(tool: Option<string>, ai: Invocation -> AiOutcome<T>, stringify: T -> string): (h: Handled)
    ensures h.response.status in {200, 400, 500}
    ensures h.response.status == 400 <==> !Truthy(tool)
    ensures !Truthy(tool) ==> h == Handled(Response(400, None, NoToolRebuke), None)
    ensures Truthy(tool) ==> h.invoked == Some(Call(tool.value))
    ensures Truthy(tool) && ai(Call(tool.value)).AiReturned? ==>
              h.response == Response(200, Some(JsonType), stringify(ai(Call(tool.value)).output))
    ensures Truthy(tool) && ai(Call(tool.value)).AiThrew? ==>
              h.response == Response(500, None, EtherError)
  {
    if !Truthy(tool) then
      Handled(Response(400, None, NoToolRebuke), None)
    else
      var c := Invocation(ModelId, Prompt(tool.value), MaxTokens);
      match ai(c)
      case AiReturned(output) => Handled(Response(200, Some(JsonType), stringify(output)), Some(c))
      case AiThrew(_) => Handled(Response(500, None, EtherError), Some(c))
  }

  /** The reply is a success exactly when a tool is named and the model returned. */
  lemma OkIffModelAnswered<T>(tool: Option<string>, ai: Invocation -> AiOutcome<T>, stringify: T -> string)
    ensures OnRequest(tool, ai, stringify).response.status == 200 <==>
              Truthy(tool) && ai(Call(tool.value)).AiReturned?
  {
  }

  /** The model is asked about the named tool and nothing else. */
  lemma PromptNamesTheTool<T>(tool: Option<string>, ai: Invocation -> AiOutcome<T>, stringify: T -> string)
    requires Truthy(tool)
    ensures var h := OnRequest(tool, ai, stringify);
            h.invoked.Some? && NameInPrompt(h.invoked.value.prompt) == tool
  {
  }

  /**
    The error the model throws never reaches the reply: two bindings that both
    throw, with whatever errors, give the same reply.
   */
  lemma ErrorNotLeaked<T>(tool: Option<string>, ai1: Invocation -> AiOutcome<T>, ai2: Invocation -> AiOutcome<T>,
                          stringify: T -> string)
    requires Truthy(tool) && ai1(Call(tool.value)).AiThrew? && ai2(Call(tool.value)).AiThrew?
    ensures OnRequest(tool, ai1, stringify) == OnRequest(tool, ai2, stringify)
  {
  }

  /**
    The reply depends on the binding only through the one invocation made:
    bindings that agree on it give the same handled request.
   */
  lemma OnlyTheCallMatters<T>(tool: Option<string>, ai1: Invocation -> AiOutcome<T>, ai2: Invocation -> AiOutcome<T>,
                              stringify: T -> string)
    requires Truthy(tool) ==> ai1(Call(tool.value)) == ai2(Call(tool.value))
    ensures OnRequest(tool, ai1, stringify) == OnRequest(tool, ai2, stringify)
  {
  }
}
