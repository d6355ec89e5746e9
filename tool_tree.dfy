/**
  The value-level logic of the tool-tree page (public/js/arf.js): the two child
  slots a node keeps, what `toggle` and `collapse` do to one node, the visual
  choices derived from a node, and the per-node hover tooltip state machine.
 */
module ToolTree {
  import opened Options

  /** A node handle: the node's position in the loaded tree, numbered parents first. */
  type Handle = nat

  /** One entry of the tool dataset; a field the JSON leaves out is None. */
  datatype Tool = Tool(name: string, url: Option<string>, description: Option<string>)

  /** The JavaScript expression `s || fallback` for an optional string. */
  function OrElse(s: Option<string>, fallback: string): (r: string)
    ensures Truthy(s) ==> r == s.value
    ensures !Truthy(s) ==> r == fallback
    ensures r == "" ==> fallback == ""
  {
    if Truthy(s) then s.value else fallback
  }

  /** A child slot: None for null or undefined, Some(list) for an array (truthy even when empty). */
  type Kids = Option<seq<Handle>>

  /** The visible slot `children` and the hidden slot `_children` of one node. */
  datatype Slots = Slots(children: Kids, hidden: Kids)

  function Listed(k: Kids): seq<Handle> {
    if k.Some? then k.value else []
  }

  /** Every child of a node, whichever slot holds it. */
  function Kin(s: Slots): seq<Handle> {
    Listed(s.children) + Listed(s.hidden)
  }

  /** The page's invariant: at most one of the two slots is populated. */
  predicate SingleSlot(s: Slots) {
    s.children.None? || s.hidden.None?
  }

  /** `d.children || d._children`: the node is drawn as one with children. */
  predicate HasKids(s: Slots) {
    s.children.Some? || s.hidden.Some?
  }

  /** `toggle(d)`: hide the visible children, or else reveal the hidden ones. */
  function Toggled(s: Slots): (r: Slots)
    ensures SingleSlot(r)
    ensures s.children.Some? ==> r.children.None? && r.hidden == s.children
    ensures s.children.None? ==> r.children == s.hidden && r.hidden.None?
    ensures SingleSlot(s) ==> Kin(r) == Kin(s) && HasKids(r) == HasKids(s)
  {
    if s.children.Some? then Slots(None, s.children) else Slots(s.hidden, None)
  }

  /** Toggling twice restores the node exactly when it kept the single-slot invariant. */
  lemma ToggleTwice(s: Slots)
    ensures Toggled(Toggled(s)) == s <==> SingleSlot(s)
  {
  }

  /** What `collapse` does to one node it visits: visible children move to the hidden slot. */
  function Folded(s: Slots): (r: Slots)
    ensures r.children.None? && SingleSlot(r)
    ensures r.hidden == (if s.children.Some? then s.children else s.hidden)
    ensures forall c :: c in Kin(r) ==> c in Kin(s)
    ensures SingleSlot(s) ==> Kin(r) == Kin(s)
  {
    if s.children.Some? then Slots(None, s.children) else s
  }

  /** Visiting a node twice in one collapse changes it once. */
  lemma FoldedTwice(s: Slots)
    ensures Folded(Folded(s)) == Folded(s)
  {
  }

  const Shaded := "lightsteelblue"
  const Hollow := "#fff"

  /** Circle fill: shaded exactly when the node holds hidden children. */
  function Fill(s: Slots): (f: string)
    ensures f == Shaded <==> s.hidden.Some?
    ensures f == Shaded || f == Hollow
  {
    if s.hidden.Some? then Shaded else Hollow
  }

  /** Text anchor and x offset of a node's label. */
  datatype Label = Label(anchor: string, dx: int)

  /** Labels of nodes with children sit left of the circle, leaf labels right of it. */
  function LabelOf(s: Slots): (l: Label)
    ensures l == Label("end", -10) <==> HasKids(s)
    ensures l == Label("end", -10) || l == Label("start", 10)
  {
    if HasKids(s) then Label("end", -10) else Label("start", 10)
  }

  /** A click on a node with children always changes its fill. */
  lemma ToggleFlipsFill(s: Slots)
    requires SingleSlot(s) && HasKids(s)
    ensures Fill(Toggled(s)) != Fill(s)
  {
  }

  /** A click never moves a node's label to the other side. */
  lemma ToggleKeepsLabel(s: Slots)
    ensures LabelOf(Toggled(s)) == LabelOf(s)
  {
  }

  /** Horizontal spacing between tree levels. */
  const LevelWidth: nat := 180

  /** `d.y = d.depth * 180`: the column of a node; the column determines the depth. */
  function Column(depth: nat): (y: nat)
    ensures y % LevelWidth == 0 && y / LevelWidth == depth
  {
    depth * LevelWidth
  }

  // ---------------------------------------------------------------------------
  // The hover tooltip of a node

  const HoverInvite := "Hover to summon an insight from the oracle..."
  const Contemplating := "The oracle is contemplating..."
  const Silent := "The oracle is silent on this matter."
  const ScrollsPrefix := "Oracle consultation failed. Relying on the old scrolls: "

  /** The fallback text after a failed request: the prefix, then the static description, if any. */
  function OldScrolls(t: Tool): (s: string)
    ensures |ScrollsPrefix| <= |s| && s[..|ScrollsPrefix|] == ScrollsPrefix
    ensures Truthy(t.description) ==> s[|ScrollsPrefix|..] == t.description.value
    ensures !Truthy(t.description) ==> s == ScrollsPrefix
  {
    ScrollsPrefix + OrElse(t.description, "")
  }

  /** The `<title>` of a node: its text and whether `data-loaded` is set. */
  datatype Tip = Tip(text: string, loaded: bool)

  /** The tooltip a node is drawn with: its static description, or the invitation to hover. */
  function InitialTip(t: Tool): (tip: Tip)
    ensures !tip.loaded
    ensures Truthy(t.description) ==> tip.text == t.description.value
    ensures !Truthy(t.description) ==> tip.text == HoverInvite
  {
    Tip(OrElse(t.description, HoverInvite), false)
  }

  /**
    What the page's request for a description came to: an OK response whose body
    parsed, carrying the `response` field if it had one, or a failure (a rejected
    fetch, a status outside 200-299, a body that is not JSON).
   */
  datatype FetchOutcome = Fetched(response: Option<string>) | FetchFailed

  /** `response.ok` and `response.json()`: a non-OK status or an unparsable body is a failure. */
  function FetchOutcomeOf(status: int, parsed: Option<Option<string>>): (o: FetchOutcome)
    ensures o.Fetched? <==> 200 <= status <= 299 && parsed.Some?
    ensures o.Fetched? ==> o.response == parsed.value
  {
    if 200 <= status <= 299 && parsed.Some? then Fetched(parsed.value) else FetchFailed
  }

  /** The two guards of the hover handler: no `url`, and `data-loaded` not set. */
  function Fetches(t: Tool, tip: Tip): (b: bool)
    ensures b <==> (t.url == None || t.url == Some("")) && !tip.loaded
  {
    !Truthy(t.url) && !tip.loaded
  }

  /** The synchronous part of a hover: whether a request goes out, and the tooltip meanwhile. */
  datatype Started = Started(fetch: bool, tip: Tip)

  function BeginHover(t: Tool, tip: Tip): (r: Started)
    ensures r.fetch <==> Fetches(t, tip)
    ensures r.fetch ==> r.tip == Tip(Contemplating, false)
    ensures !r.fetch ==> r.tip == tip
  {
    if Fetches(t, tip) then Started(true, Tip(Contemplating, tip.loaded)) else Started(false, tip)
  }

  /** The continuation once the request settles; only a success sets `data-loaded`. */
  function SettleHover(t: Tool, tip: Tip, o: FetchOutcome): (r: Tip)
    ensures r.loaded <==> o.Fetched? || tip.loaded
    ensures o.Fetched? && Truthy(o.response) ==> r.text == o.response.value
    ensures o.Fetched? && !Truthy(o.response) ==> r.text == Silent
    ensures o.FetchFailed? && Truthy(t.description) ==> r.text == ScrollsPrefix + t.description.value
    ensures o.FetchFailed? && !Truthy(t.description) ==> r.text == ScrollsPrefix
  {
    match o
    case Fetched(response) => Tip(OrElse(response, Silent), true)
    case FetchFailed => Tip(OldScrolls(t), tip.loaded)
  }

  /** A hover whose request, if it issues one, settles before anything else happens. */
  datatype Hovered = Hovered(fetched: bool, tip: Tip)

  function HoverOnce(t: Tool, tip: Tip, o: FetchOutcome): (h: Hovered)
    ensures h.fetched <==> Fetches(t, tip)
    ensures !h.fetched ==> h.tip == tip
    ensures h.fetched ==> h.tip == SettleHover(t, Tip(Contemplating, false), o)
    ensures h.fetched ==> (h.tip.loaded <==> o.Fetched?)
  {
    var b := BeginHover(t, tip);
    Hovered(b.fetch, if b.fetch then SettleHover(t, b.tip, o) else b.tip)
  }

  /** The final tooltip and the number of requests after a series of sequential hovers. */
  datatype Run = Run(tip: Tip, fetches: nat)

  /**
    Hovers over one node one after another; `events[k]` is what the k-th hover's
    request would come to if that hover issued one.
   */
  function HoverRun(t: Tool, tip: Tip, events: seq<FetchOutcome>): (r: Run)
    ensures r.fetches <= |events|
    ensures r.fetches == 0 ==> r.tip == tip
    decreases |events|
  {
    if events == [] then Run(tip, 0)
    else
      var h := HoverOnce(t, tip, events[0]);
      var rest := HoverRun(t, h.tip, events[1..]);
      Run(rest.tip, rest.fetches + (if h.fetched then 1 else 0))
  }

  /** The number of hovers up to and including the first successful request. */
  function UntilSuccess(events: seq<FetchOutcome>): (n: nat)
    ensures n <= |events|
    ensures events != [] ==> 0 < n
    ensures 0 < n ==> events[n - 1].Fetched? || n == |events|
    ensures forall k :: 0 <= k < n - 1 ==> events[k].FetchFailed?
  {
    if events == [] then 0
    else if events[0].Fetched? then 1
    else 1 + UntilSuccess(events[1..])
  }

  /** A node with a `url` never issues a request and its tooltip never changes. */
  lemma {:induction false} UrlNodeNeverFetches(t: Tool, tip: Tip, events: seq<FetchOutcome>)
    requires Truthy(t.url)
    ensures HoverRun(t, tip, events) == Run(tip, 0)
    decreases |events|
  {
    if events != [] {
      UrlNodeNeverFetches(t, tip, events[1..]);
    }
  }

  /** Once `data-loaded` is set, further hovers issue no request and change nothing. */
  lemma {:induction false} LoadedTipIsFinal(t: Tool, tip: Tip, events: seq<FetchOutcome>)
    requires tip.loaded
    ensures HoverRun(t, tip, events) == Run(tip, 0)
    decreases |events|
  {
    if events != [] {
      LoadedTipIsFinal(t, tip, events[1..]);
    }
  }

  /**
    A describable node that is not loaded issues one request per hover until the
    first success and none after it; it ends loaded exactly when some request
    succeeded, showing the first success's text, and otherwise shows the fallback.
   */
  lemma {:induction false} FetchesUntilFirstSuccess(t: Tool, tip: Tip, events: seq<FetchOutcome>)
    requires Fetches(t, tip)
    ensures HoverRun(t, tip, events).fetches == UntilSuccess(events)
    ensures HoverRun(t, tip, events).tip.loaded <==> exists k :: 0 <= k < |events| && events[k].Fetched?
    ensures (exists k :: 0 <= k < |events| && events[k].Fetched?) ==>
              HoverRun(t, tip, events).tip.text == OrElse(events[UntilSuccess(events) - 1].response, Silent)
    ensures events != [] && (forall k :: 0 <= k < |events| ==> events[k].FetchFailed?) ==>
              HoverRun(t, tip, events).tip == Tip(OldScrolls(t), false)
    decreases |events|
  {
    if events != [] {
      var h := HoverOnce(t, tip, events[0]);
      if events[0].Fetched? {
        LoadedTipIsFinal(t, h.tip, events[1..]);
      } else {
        FetchesUntilFirstSuccess(t, h.tip, events[1..]);
        var tail := events[1..];
        if exists k :: 0 <= k < |events| && events[k].Fetched? {
          var k :| 0 <= k < |events| && events[k].Fetched?;
          assert tail[k - 1].Fetched?;
        }
        if exists k :: 0 <= k < |tail| && tail[k].Fetched? {
          var k :| 0 <= k < |tail| && tail[k].Fetched?;
          assert events[k + 1].Fetched?;
        }
        if tail == [] {
          assert HoverRun(t, tip, events).tip == h.tip;
        } else if forall k :: 0 <= k < |events| ==> events[k].FetchFailed? {
          assert forall k :: 0 <= k < |tail| ==> tail[k] == events[k + 1];
        }
      }
    }
  }

  /**
    The flag is set only when the response arrives: a second hover before the
    first request settles issues a second request.
   */
  lemma RacingHoversBothFetch(t: Tool, tip: Tip)
    requires Fetches(t, tip)
    ensures BeginHover(t, tip).fetch && BeginHover(t, BeginHover(t, tip).tip).fetch
  {
  }

  /**
    Of two racing requests the one that settles last decides the text: a failure
    landing after a success leaves the fallback shown with `data-loaded` set, so
    no later hover repairs it.
   */
  lemma RaceCanPinFallback(t: Tool, tip: Tip, response: Option<string>)
    requires Fetches(t, tip)
    ensures var pending := BeginHover(t, BeginHover(t, tip).tip).tip;
            var settled := SettleHover(t, SettleHover(t, pending, Fetched(response)), FetchFailed);
            settled == Tip(OldScrolls(t), true) && !BeginHover(t, settled).fetch
  {
  }

  /** After a failure the flag stays unset, so the next hover requests again. */
  lemma FailureIsRetried(t: Tool, tip: Tip, o: FetchOutcome)
    requires Fetches(t, tip)
    ensures HoverOnce(t, HoverOnce(t, tip, FetchFailed).tip, o).fetched
  {
  }
}
