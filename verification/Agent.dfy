/** The bounded tool loop of packages/shared/agent/agent.go, with tools.go's cumulative
    character budget. The model and the corpus are arbitrary streams of answers. */
module Agent {
  import opened Common
  import opened Llm
  import Cite

  datatype Bounds = Bounds(
    maxSteps: int, maxToolCalls: int, maxToolErrors: int, maxRepeats: int,
    maxInputTokens: int, maxOutputTokens: int)

  /** Bounds.Validate, without the deadline: when the context expires is an input. */
  predicate Valid(b: Bounds) {
    b.maxSteps >= 1 && b.maxToolCalls >= 1 && b.maxToolErrors >= 0 && b.maxRepeats >= 0
    && b.maxInputTokens >= 1 && b.maxOutputTokens >= 1
  }

  const PER_CALL_OUTPUT_CAP := 1500

  datatype Stop =
    | Final | StepLimit | ToolCallLimit | TokenBudget | Deadline | MalformedToolCall | ToolError
    | RepeatedToolCall | Uncited | MalformedResponse | RateLimited | Unauthorized | Unavailable

  /** Why a provider did not answer. */
  datatype Kind = KindRateLimited | KindUnauthorized | KindUnavailable | KindDeadline | KindMalformed

  function StopOf(k: Kind): Stop {
    match k
    case KindRateLimited => RateLimited
    case KindUnauthorized => Unauthorized
    case KindUnavailable => Unavailable
    case KindDeadline => Deadline
    case KindMalformed => MalformedResponse
  }

  /** kind is None for a fault that is not the provider's. */
  datatype Reply =
    | Failure(kind: Option<Kind>)
    | Response(text: string, calls: seq<ToolCall>, usage: Usage, truncated: bool)

  // ---------- the tools ----------

  datatype Span = Span(id: string, text: string)

  /** What the store and the argument decoder say to one dispatched call. */
  datatype CorpusAnswer =
    | BadArgs
    | StoreDown
    | Rows(content: string, empty: bool)
    | Found(span: Span, content: string, refusal: string)

  datatype ToolOutcome = Malformed | Broken | Data(content: string, notFound: bool, read: seq<Span>)

  const READ_SPAN := "read_span"
  const TOOL_NAMES: set<string> := {"search_code", READ_SPAN, "definition_of", "callers_of"}

  /** One dispatched call and the characters read_span has spent by then. */
  function CallTool(maxSpanChars: int, chars: nat, name: string, a: CorpusAnswer): (ToolOutcome, nat) {
    match a
    case BadArgs => (Malformed, chars)
    case StoreDown => (Broken, chars)
    case Rows(content, empty) => (Data(content, empty, []), chars)
    case Found(span, content, refusal) =>
      if name != READ_SPAN then (Data(content, false, []), chars)
      else if chars > 0 && chars + |span.text| > maxSpanChars then (Data(refusal, true, []), chars)
      else (Data(content, false, [span]), chars + |span.text|)
  }

  class Toolset {
    const maxSpanChars: int
    var chars: nat

    constructor (maxSpanChars: int)
      ensures chars == 0 && this.maxSpanChars == maxSpanChars
    {
      this.maxSpanChars := maxSpanChars;
      chars := 0;
    }

    method Call(name: string, a: CorpusAnswer) returns (r: ToolOutcome)
      modifies this
      ensures (r, chars) == CallTool(maxSpanChars, old(chars), name, a)
      ensures !(a.Found? && name == READ_SPAN) ==> chars == old(chars) && (r.Data? ==> r.read == [])
      ensures a.Found? && name == READ_SPAN ==>
        if old(chars) == 0 || old(chars) + |a.span.text| <= maxSpanChars
        then r == Data(a.content, false, [a.span]) && chars == old(chars) + |a.span.text|
        else r == Data(a.refusal, true, []) && chars == old(chars)
    {
      match a {
        case BadArgs => r := Malformed;
        case StoreDown => r := Broken;
        case Rows(content, empty) => r := Data(content, empty, []);
        case Found(span, content, refusal) =>
          if name != READ_SPAN {
            r := Data(content, false, []);
          } else if chars > 0 && chars + |span.text| > maxSpanChars {
            r := Data(refusal, true, []);
          } else {
            chars := chars + |span.text|;
            r := Data(content, false, [span]);
          }
      }
    }
  }

  // ---------- one run, as a function of what the world answers ----------

  /** reply(i) answers the i-th model call, corpus(i) the i-th dispatched tool call, and
      expired(i) is whether the context is done when step i begins. */
  datatype World = World(
    bounds: Bounds, maxSpanChars: int, system: string, specs: seq<ToolSpec>,
    reply: nat -> Reply, corpus: nat -> CorpusAnswer, expired: nat -> bool, key: ToolCall -> string)

  /** One model call: what was sent, what it could cost, and what it did cost. */
  datatype Sent = Sent(
    messages: seq<Message>, estimate: nat, maxTokens: int, inBefore: int, outBefore: int, usage: Usage)

  /** One call that reached the tool set, by its repeat key, and the spans it opened. */
  datatype Trip = Trip(key: string, spans: seq<Span>)

  /** The loop's fields; sent and trips record its history. */
  datatype State = State(
    msgs: seq<Message>, usedIn: int, usedOut: int, estimated: bool, errs: nat, seen: map<string, nat>,
    read: seq<Span>, chars: nat, steps: nat, toolCalls: nat, tools: seq<string>,
    sent: seq<Sent>, trips: seq<Trip>)

  const NOTHING := Usage(0, 0, false)

  function Start(question: string): State {
    State([Message(User, question, [], [])], 0, 0, false, 0, map[], [], 0, 0, 0, [], [], [])
  }

  datatype Verdict = Answered(result: ToolResult) | Halt(stop: Stop)

  /** A mistake the model may correct, up to MaxToolErrors of them. */
  function Corrected(w: World, s: State, c: ToolCall, complaint: string, stop: Stop): (State, Verdict) {
    var s' := s.(errs := s.errs + 1);
    if s'.errs > w.bounds.maxToolErrors then (s', Halt(stop))
    else (s', Answered(ToolResult(c.id, complaint, true)))
  }

  function Seen(s: State, k: string): nat {
    if k in s.seen then s.seen[k] else 0
  }

  /** The call is counted, remembered and traced before anything is decided about it. */
  function Noted(w: World, s: State, c: ToolCall): State {
    s.(toolCalls := s.toolCalls + 1, seen := s.seen[w.key(c) := Seen(s, w.key(c)) + 1], tools := s.tools + [c.name])
  }

  function Dispatched(w: World, s: State, c: ToolCall): (State, Verdict) {
    var (r, chars) := CallTool(w.maxSpanChars, s.chars, c.name, w.corpus(|s.trips|));
    var s' := s.(chars := chars, trips := s.trips + [Trip(w.key(c), if r.Data? then r.read else [])]);
    match r
    case Malformed => Corrected(w, s', c, "{\"error\":\"malformed_call\"}", MalformedToolCall)
    case Broken => (s', Halt(ToolError))
    case Data(content, notFound, read) =>
      (s'.(read := s.read + read), Answered(ToolResult(c.id, content, notFound)))
  }

  function CallOne(w: World, s: State, c: ToolCall): (State, Verdict) {
    if s.toolCalls >= w.bounds.maxToolCalls then (s, Halt(ToolCallLimit))
    else
      var n := Noted(w, s, c);
      if Seen(s, w.key(c)) > 0 then
        if Seen(s, w.key(c)) > w.bounds.maxRepeats then (n, Halt(RepeatedToolCall))
        else Corrected(w, n, c, "{\"error\":\"repeated_call\"}", RepeatedToolCall)
      else if c.name !in TOOL_NAMES then Corrected(w, n, c, "{\"error\":\"unknown_tool\"}", MalformedToolCall)
      else Dispatched(w, n, c)
  }

  datatype Answers = Answers(state: State, results: seq<ToolResult>, stop: Option<Stop>)

  /** The first n calls of one reply, until a ceiling fires. */
  function CallMany(w: World, s: State, calls: seq<ToolCall>, n: nat): (a: Answers)
    requires n <= |calls|
    ensures a.stop.None? ==> |a.results| == n
  {
    if n == 0 then Answers(s, [], None)
    else
      var a := CallMany(w, s, calls, n - 1);
      if a.stop.Some? then a
      else
        match CallOne(w, a.state, calls[n - 1])
        case (s', Answered(result)) => Answers(s', a.results + [result], None)
        case (s', Halt(stop)) => Answers(s', a.results, Some(stop))
  }

  /** When no ceiling fired, the results go back as one user message. */
  function Delivered(a: Answers): State {
    if a.stop.Some? then a.state else a.state.(msgs := a.state.msgs + [Message(User, "", [], a.results)])
  }

  function EstimateOf(w: World, s: State): nat {
    Estimate(Parts(Request(w.system, s.msgs, w.specs)))
  }

  function MaxTokensOf(w: World, s: State): int {
    Min(w.bounds.maxOutputTokens - s.usedOut, PER_CALL_OUTPUT_CAP)
  }

  /** Why a step stops before its model call, if it does. */
  function Refused(w: World, s: State): Option<Stop> {
    if s.steps >= w.bounds.maxSteps then Some(StepLimit)
    else if w.expired(s.steps) then Some(Deadline)
    else if s.usedIn + EstimateOf(w, s) > w.bounds.maxInputTokens then Some(TokenBudget)
    else if w.bounds.maxOutputTokens - s.usedOut <= 0 then Some(TokenBudget)
    else None
  }

  /** The state after a model call that cost u. */
  function Charged(w: World, s: State, u: Usage): State {
    s.(steps := s.steps + 1, usedIn := s.usedIn + u.input, usedOut := s.usedOut + u.output,
       estimated := s.estimated || u.estimated,
       sent := s.sent + [Sent(s.msgs, EstimateOf(w, s), MaxTokensOf(w, s), s.usedIn, s.usedOut, u)])
  }

  function Asked(s: State, r: Reply): State
    requires r.Response?
  {
    s.(msgs := s.msgs + [Message(Assistant, r.text, r.calls, [])])
  }

  /** One turn of the loop: the state it leaves, and the stop it came to, with the prose of a final answer. */
  datatype Turn = Turn(state: State, stop: Option<Stop>, text: string)

  function TakeTurn(w: World, s: State): Turn {
    if Refused(w, s).Some? then Turn(s, Refused(w, s), "")
    else
      match w.reply(s.steps)
      case Failure(kind) =>
        Turn(Charged(w, s, NOTHING), Some(if kind.Some? then StopOf(kind.value) else MalformedResponse), "")
      case Response(text, calls, usage, truncated) =>
        var c := Charged(w, s, usage);
        if truncated then Turn(c, Some(TokenBudget), "")
        else if calls == [] then Turn(c, Some(Final), text)
        else
          var a := CallMany(w, Asked(c, w.reply(s.steps)), calls, |calls|);
          Turn(Delivered(a), a.stop, "")
  }

  /** What no tool call touches. */
  ghost predicate SameTurn(s: State, t: State) {
    t.steps == s.steps && t.msgs == s.msgs && t.sent == s.sent && t.usedIn == s.usedIn && t.usedOut == s.usedOut
    && t.estimated == s.estimated
  }

  lemma CallOneFrame(w: World, s: State, c: ToolCall)
    ensures SameTurn(s, CallOne(w, s, c).0)
  {
  }

  lemma {:induction false} CallManyFrame(w: World, s: State, calls: seq<ToolCall>, n: nat)
    requires n <= |calls|
    ensures SameTurn(s, CallMany(w, s, calls, n).state)
  {
    if n > 0 {
      CallManyFrame(w, s, calls, n - 1);
      CallOneFrame(w, CallMany(w, s, calls, n - 1).state, calls[n - 1]);
    }
  }

  function RunFrom(w: World, s: State): (t: Turn)
    ensures t.stop.Some?
    decreases w.bounds.maxSteps - s.steps
  {
    var t := TakeTurn(w, s);
    if t.stop.Some? then t
    else
      TurnAdvances(w, s);
      RunFrom(w, t.state)
  }

  lemma TurnAdvances(w: World, s: State)
    requires TakeTurn(w, s).stop.None?
    ensures TakeTurn(w, s).state.steps == s.steps + 1 <= w.bounds.maxSteps
  {
    var r := w.reply(s.steps);
    if r.Response? {
      CallManyFrame(w, Asked(Charged(w, s, r.usage), r), r.calls, |r.calls|);
    }
  }

  // ---------- the citation gate ----------

  datatype Answer = Answer(text: string, read: seq<Span>, cited: seq<nat>, stop: Stop, citationsDropped: nat)

  /** What a stop makes of a turn: only a final answer that cites a span it read is served,
      and everything else serves nothing. */
  ghost predicate Gated(t: Turn, a: Answer)
    requires t.stop.Some?
  {
    var n := |t.state.read|;
    a.read == t.state.read &&
    if t.stop != Some(Final) then a.stop == t.stop.value && a.text == "" && a.cited == [] && a.citationsDropped == 0
    else
      && a.citationsDropped == |Cite.DropSet(t.text, n)|
      && (if exists lo: nat :: Cite.Resolves(t.text, n, lo)
          then a.stop == Final && a.text == Cite.Keep(t.text, n, |t.text|)
            && a.cited != [] && Cite.InOrder(t.text, n, a.cited)
          else a.stop == Uncited && a.text == "" && a.cited == [])
  }

  lemma ListedWhenResolved(text: string, n: nat, order: seq<nat>)
    requires Cite.InOrder(text, n, order)
    ensures order != [] <==> exists lo: nat :: Cite.Resolves(text, n, lo)
  {
    if order != [] {
      assert Cite.Cites(text, n, order[0]);
      var lo: nat :| Cite.Names(text, n, lo, order[0]);
    }
    if lo: nat :| Cite.Resolves(text, n, lo) {
      assert Cite.Names(text, n, lo, Cite.Value(text, lo) - 1);
      assert Cite.Listed(text, n, order, lo, Cite.Value(text, lo) - 1);
    }
  }

  // ---------- the loop itself ----------

  class Loop {
    const w: World
    const ts: Toolset
    var msgs: seq<Message>
    var usedIn: int
    var usedOut: int
    var estimated: bool
    var errs: nat
    var seen: map<string, nat>
    var read: seq<Span>
    var text: string
    var steps: nat
    var toolCalls: nat
    var tools: seq<string>
    var sent: seq<Sent>
    var trips: seq<Trip>

    constructor (w: World, question: string)
      ensures fresh(ts) && this.w == w && ts.maxSpanChars == w.maxSpanChars && text == ""
      ensures Now() == Start(question)
    {
      this.w := w;
      ts := new Toolset(w.maxSpanChars);
      msgs := [Message(User, question, [], [])];
      usedIn, usedOut, estimated, errs, seen, read, text := 0, 0, false, 0, map[], [], "";
      steps, toolCalls, tools, sent, trips := 0, 0, [], [], [];
    }

    function Now(): State
      reads this, ts
    {
      State(msgs, usedIn, usedOut, estimated, errs, seen, read, ts.chars, steps, toolCalls, tools, sent, trips)
    }

    method Correctable() returns (out: bool)
      modifies this
      ensures Now() == old(Now()).(errs := old(errs) + 1)
      ensures out <==> old(errs) + 1 > w.bounds.maxToolErrors
      ensures text == old(text)
    {
      errs := errs + 1;
      out := errs > w.bounds.maxToolErrors;
    }

    method Correct(c: ToolCall, complaint: string, stop: Stop) returns (v: Verdict)
      modifies this
      ensures (Now(), v) == Corrected(w, old(Now()), c, complaint, stop)
      ensures text == old(text)
    {
      var over := Correctable();
      v := if over then Halt(stop) else Answered(ToolResult(c.id, complaint, true));
    }

    method Note(c: ToolCall) returns (repeat: nat)
      modifies this
      ensures Now() == Noted(w, old(Now()), c) && repeat == Seen(old(Now()), w.key(c))
      ensures text == old(text)
    {
      toolCalls := toolCalls + 1;
      var k := w.key(c);
      repeat := if k in seen then seen[k] else 0;
      seen := seen[k := repeat + 1];
      tools := tools + [c.name];
    }

    /** The call reaches the tool set. */
    method Reach(c: ToolCall) returns (v: Verdict)
      requires ts.maxSpanChars == w.maxSpanChars
      modifies this, ts
      ensures (Now(), v) == Dispatched(w, old(Now()), c)
      ensures text == old(text)
    {
      var r := ts.Call(c.name, w.corpus(|trips|));
      trips := trips + [Trip(w.key(c), if r.Data? then r.read else [])];
      match r {
        case Malformed =>
          v := Correct(c, "{\"error\":\"malformed_call\"}", MalformedToolCall);
        case Broken =>
          v := Halt(ToolError);
        case Data(content, notFound, spans) =>
          read := read + spans;
          v := Answered(ToolResult(c.id, content, notFound));
      }
    }

    /** One call of dispatch's loop. */
    method DispatchOne(c: ToolCall) returns (v: Verdict)
      requires ts.maxSpanChars == w.maxSpanChars
      modifies this, ts
      ensures (Now(), v) == CallOne(w, old(Now()), c)
      ensures text == old(text)
    {
      if toolCalls >= w.bounds.maxToolCalls {
        return Halt(ToolCallLimit);
      }
      var repeat := Note(c);
      if repeat > w.bounds.maxRepeats && repeat > 0 {
        v := Halt(RepeatedToolCall);
      } else if repeat > 0 {
        v := Correct(c, "{\"error\":\"repeated_call\"}", RepeatedToolCall);
      } else if c.name !in TOOL_NAMES {
        v := Correct(c, "{\"error\":\"unknown_tool\"}", MalformedToolCall);
      } else {
        v := Reach(c);
      }
    }

    /** dispatch: one step's calls, in order, until a ceiling fires. */
    method Dispatch(calls: seq<ToolCall>) returns (stop: Option<Stop>)
      requires ts.maxSpanChars == w.maxSpanChars
      modifies this, ts
      ensures stop == CallMany(w, old(Now()), calls, |calls|).stop
      ensures Now() == Delivered(CallMany(w, old(Now()), calls, |calls|))
      ensures text == old(text)
    {
      ghost var s := Now();
      var results: seq<ToolResult> := [];
      var i := 0;
      while i < |calls|
        invariant i <= |calls|
        invariant CallMany(w, s, calls, i) == Answers(Now(), results, None)
        invariant text == old(text)
      {
        ghost var t := Now();
        var v := DispatchOne(calls[i]);
        i := i + 1;
        if v.Halt? {
          assert CallMany(w, s, calls, i) == Answers(Now(), results, Some(v.stop));
          CallManyStops(w, s, calls, i, |calls|);
          return Some(v.stop);
        }
        results := results + [v.result];
      }
      msgs := msgs + [Message(User, "", [], results)];
      return None;
    }

    /** A model call's cost, on the running totals. */
    method Charge(estimate: nat, maxTokens: int, u: Usage)
      requires estimate == EstimateOf(w, Now()) && maxTokens == MaxTokensOf(w, Now())
      modifies this
      ensures Now() == Charged(w, old(Now()), u)
      ensures text == old(text)
    {
      sent := sent + [Sent(msgs, estimate, maxTokens, usedIn, usedOut, u)];
      steps := steps + 1;
      usedIn, usedOut, estimated := usedIn + u.input, usedOut + u.output, estimated || u.estimated;
    }

    /** One iteration of run's loop. */
    method Step() returns (stop: Option<Stop>)
      requires ts.maxSpanChars == w.maxSpanChars && steps < w.bounds.maxSteps && text == ""
      modifies this, ts
      ensures TakeTurn(w, old(Now())) == Turn(Now(), stop, text)
    {
      if w.expired(steps) {
        return Some(Deadline);
      }
      var estimate := EstimateRequest(Request(w.system, msgs, w.specs));
      if usedIn + estimate > w.bounds.maxInputTokens {
        return Some(TokenBudget);
      }
      var remaining := w.bounds.maxOutputTokens - usedOut;
      if remaining <= 0 {
        return Some(TokenBudget);
      }
      var reply := w.reply(steps);
      Charge(estimate, Min(remaining, PER_CALL_OUTPUT_CAP), if reply.Response? then reply.usage else NOTHING);
      match reply {
        case Failure(kind) =>
          return Some(if kind.Some? then StopOf(kind.value) else MalformedResponse);
        case Response(prose, calls, _, truncated) =>
          if truncated {
            return Some(TokenBudget);
          }
          if calls == [] {
            text := prose;
            return Some(Final);
          }
          stop := Converse(reply);
      }
    }

    /** The calls of one reply: the assistant's message, and then its results. */
    method Converse(r: Reply) returns (stop: Option<Stop>)
      requires ts.maxSpanChars == w.maxSpanChars && r.Response?
      modifies this, ts
      ensures stop == CallMany(w, Asked(old(Now()), r), r.calls, |r.calls|).stop
      ensures Now() == Delivered(CallMany(w, Asked(old(Now()), r), r.calls, |r.calls|))
      ensures text == old(text)
    {
      msgs := msgs + [Message(Assistant, r.text, r.calls, [])];
      stop := Dispatch(r.calls);
    }

    method Run() returns (a: Answer)
      requires ts.maxSpanChars == w.maxSpanChars && text == ""
      modifies this, ts
      ensures var t := RunFrom(w, old(Now())); Now() == t.state && Gated(t, a)
    {
      var stop: Option<Stop> := None;
      while stop.None? && steps < w.bounds.maxSteps
        invariant stop.None? ==> text == "" && RunFrom(w, old(Now())) == RunFrom(w, Now())
        invariant stop.Some? ==> RunFrom(w, old(Now())) == Turn(Now(), stop, text)
        decreases stop.None?, w.bounds.maxSteps - steps
      {
        ghost var s := Now();
        stop := Step();
        if stop.None? {
          TurnAdvances(w, s);
        }
      }
      if stop.None? {
        stop := Some(StepLimit);
      }
      a := Finish(stop.value);
    }

    /** stop: the gate, for a final answer. */
    method Finish(stop: Stop) returns (a: Answer)
      ensures Gated(Turn(Now(), Some(stop), text), a)
    {
      if stop != Final {
        return Answer("", read, [], stop, 0);
      }
      var out, order, dropped := Cite.Resolve(text, |read|);
      ListedWhenResolved(text, |read|, order);
      if order == [] {
        return Answer("", read, [], Uncited, dropped);
      }
      return Answer(out, read, order, Final, dropped);
    }
  }

  lemma {:induction false} CallManyStops(w: World, s: State, calls: seq<ToolCall>, m: nat, n: nat)
    requires m <= n <= |calls| && CallMany(w, s, calls, m).stop.Some?
    ensures CallMany(w, s, calls, n) == CallMany(w, s, calls, m)
  {
    if m < n {
      CallManyStops(w, s, calls, m, n - 1);
    }
  }
}
