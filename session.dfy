/**
  The page and the oracle together: a hover over a tool node requests
  `/generate-description?tool=<name>`, and the endpoint's reply settles the
  node's tooltip. URL encoding is taken to deliver the node's name unchanged as
  the `tool` parameter; `parse` stands for `response.json()` followed by
  reading the `response` field (None when either throws: a body that is not
  JSON, or the JSON value `null`, whose `response` field cannot be read).
 */
module Session {
  import opened Options
  import opened ToolTree
  import opened Oracle

  /** What the page's request for tool `t` comes to, given the oracle's model binding. */
  function Consultation<T>(t: Tool, ai: Invocation -> AiOutcome<T>, stringify: T -> string,
                           parse: string -> Option<Option<string>>): (o: FetchOutcome)
    ensures t.name == "" ==> o == FetchFailed
    ensures t.name != "" && ai(Call(t.name)).AiThrew? ==> o == FetchFailed
    ensures t.name != "" && ai(Call(t.name)).AiReturned? ==>
              o == (match parse(stringify(ai(Call(t.name)).output))
                    case None => FetchFailed
                    case Some(r) => Fetched(r))
  {
    var r := OnRequest(Some(t.name), ai, stringify).response;
    FetchOutcomeOf(r.status, parse(r.body))
  }

  /**
    A node with an empty name is refused by the oracle (status 400) without
    any model call, and the page falls back to the static description.
   */
  lemma EmptyNameFallsBack<T>(t: Tool, tip: Tip, ai: Invocation -> AiOutcome<T>, stringify: T -> string,
                              parse: string -> Option<Option<string>>)
    requires Fetches(t, tip) && t.name == ""
    ensures OnRequest(Some(t.name), ai, stringify).invoked == None
    ensures HoverOnce(t, tip, Consultation(t, ai, stringify, parse)) == Hovered(true, Tip(OldScrolls(t), false))
  {
  }

  /** When the model throws, the oracle replies 500 and the page falls back; a later hover retries. */
  lemma ModelFailureFallsBack<T>(t: Tool, tip: Tip, ai: Invocation -> AiOutcome<T>, stringify: T -> string,
                                 parse: string -> Option<Option<string>>)
    requires Fetches(t, tip) && t.name != "" && ai(Call(t.name)).AiThrew?
    ensures HoverOnce(t, tip, Consultation(t, ai, stringify, parse)) == Hovered(true, Tip(OldScrolls(t), false))
    ensures Fetches(t, Tip(OldScrolls(t), false))
  {
  }

  /**
    When the model answers with an object whose `response` field is the
    non-empty `text`, that text becomes the tooltip and the node is done.
   */
  lemma OracleTextReachesTooltip<T>(t: Tool, tip: Tip, ai: Invocation -> AiOutcome<T>, stringify: T -> string,
                                    parse: string -> Option<Option<string>>, text: string)
    requires Fetches(t, tip) && t.name != ""
    requires ai(Call(t.name)).AiReturned? && parse(stringify(ai(Call(t.name)).output)) == Some(Some(text))
    requires text != ""
    ensures HoverOnce(t, tip, Consultation(t, ai, stringify, parse)) == Hovered(true, Tip(text, true))
  {
  }

  /**
    A hover over a tool node ends with `data-loaded` set exactly when the
    oracle was asked about the node's name, the model returned, and the page
    could parse the reply.
   */
  lemma LoadedIffAnswered<T>(t: Tool, tip: Tip, ai: Invocation -> AiOutcome<T>, stringify: T -> string,
                             parse: string -> Option<Option<string>>)
    requires Fetches(t, tip)
    ensures HoverOnce(t, tip, Consultation(t, ai, stringify, parse)).tip.loaded <==>
              t.name != "" && ai(Call(t.name)).AiReturned? && parse(stringify(ai(Call(t.name)).output)).Some?
  {
  }
}
