/** What every run of the loop keeps, whatever the model and the corpus answer. */
module AgentLaws {
  import opened Common
  import opened Llm
  import opened Agent
  import Cite

  // ---------- tool calls ----------

  function TextLength(spans: seq<Span>): nat {
    if spans == [] then 0 else TextLength(spans[..|spans| - 1]) + |spans[|spans| - 1].text|
  }

  /** The length of the first span with any text, or 0. */
  function FirstText(spans: seq<Span>): nat {
    if spans == [] then 0
    else
      var n := FirstText(spans[..|spans| - 1]);
      if n > 0 then n else |spans[|spans| - 1].text|
  }

  function AllOpened(trips: seq<Trip>): seq<Span> {
    if trips == [] then [] else AllOpened(trips[..|trips| - 1]) + trips[|trips| - 1].spans
  }

  /** The trace lists every counted call, and no more than the ceiling. */
  ghost predicate Traced(b: Bounds, tools: seq<string>, toolCalls: nat) {
    |tools| == toolCalls <= Max(0, b.maxToolCalls)
  }

  /** No repeat key reached the tool set twice, and the guard remembers every one that did. */
  ghost predicate Unrepeated(trips: seq<Trip>, seen: map<string, nat>) {
    && (forall i, j :: 0 <= i < j < |trips| ==> trips[i].key != trips[j].key)
    && (forall i :: 0 <= i < |trips| ==> trips[i].key in seen && seen[trips[i].key] > 0)
  }

  /** Read is what the dispatched calls opened, in order; chars is its length, within the
      budget or within the first span that had any text. */
  ghost predicate WithinBudget(limit: int, trips: seq<Trip>, read: seq<Span>, chars: nat) {
    read == AllOpened(trips) && chars == TextLength(read) <= Max(limit, FirstText(read))
  }

  ghost predicate ToolLaw(w: World, s: State) {
    && Traced(w.bounds, s.tools, s.toolCalls)
    && Unrepeated(s.trips, s.seen)
    && WithinBudget(w.maxSpanChars, s.trips, s.read, s.chars)
  }

  lemma {:induction false} FirstTextIsPart(spans: seq<Span>)
    ensures FirstText(spans) <= TextLength(spans)
    ensures FirstText(spans) == 0 <==> TextLength(spans) == 0
  {
    if spans != [] {
      FirstTextIsPart(spans[..|spans| - 1]);
    }
  }

  function SpansOf(r: ToolOutcome): seq<Span> {
    if r.Data? then r.read else []
  }

  /** A dispatched call opens at most one span, within the budget or as the first of all. */
  lemma CallToolLaw(limit: int, trips: seq<Trip>, read: seq<Span>, chars: nat, key: string, name: string,
                    a: CorpusAnswer)
    requires WithinBudget(limit, trips, read, chars)
    ensures var (r, chars') := CallTool(limit, chars, name, a);
      WithinBudget(limit, trips + [Trip(key, SpansOf(r))], read + SpansOf(r), chars')
  {
    FirstTextIsPart(read);
    assert read + [] == read;
    var t := Trip(key, SpansOf(CallTool(limit, chars, name, a).0));
    assert (trips + [t])[..|trips|] == trips;
  }

  lemma DispatchedFields(w: World, s: State, c: ToolCall)
    ensures var t := Dispatched(w, s, c).0;
      var (r, chars) := CallTool(w.maxSpanChars, s.chars, c.name, w.corpus(|s.trips|));
      && t.tools == s.tools && t.toolCalls == s.toolCalls && t.seen == s.seen && t.chars == chars
      && t.trips == s.trips + [Trip(w.key(c), SpansOf(r))] && t.read == s.read + SpansOf(r)
  {
    assert s.read + [] == s.read;
  }

  lemma DispatchedKeeps(w: World, s: State, c: ToolCall)
    requires ToolLaw(w, s) && s.toolCalls < w.bounds.maxToolCalls && Seen(s, w.key(c)) == 0
    ensures ToolLaw(w, Dispatched(w, Noted(w, s, c), c).0)
  {
    var t := Dispatched(w, Noted(w, s, c), c).0;
    DispatchedFields(w, Noted(w, s, c), c);
    assert Unrepeated(t.trips, t.seen) by {
      var r := CallTool(w.maxSpanChars, s.chars, c.name, w.corpus(|s.trips|)).0;
    }
    assert WithinBudget(w.maxSpanChars, t.trips, t.read, t.chars) by {
      CallToolLaw(w.maxSpanChars, s.trips, s.read, s.chars, w.key(c), c.name, w.corpus(|s.trips|));
    }
  }

  lemma NotedKeeps(w: World, s: State, c: ToolCall)
    requires ToolLaw(w, s) && s.toolCalls < w.bounds.maxToolCalls
    ensures ToolLaw(w, Noted(w, s, c))
  {
    assert Unrepeated(s.trips, Noted(w, s, c).seen);
  }

  lemma CallOneKeeps(w: World, s: State, c: ToolCall)
    requires ToolLaw(w, s)
    ensures ToolLaw(w, CallOne(w, s, c).0)
  {
    if s.toolCalls < w.bounds.maxToolCalls {
      NotedKeeps(w, s, c);
      if Seen(s, w.key(c)) == 0 && c.name in TOOL_NAMES {
        DispatchedKeeps(w, s, c);
      }
    }
  }

  /** Every call under the ceiling is counted and traced by name, whatever becomes of it. */
  lemma CallOneIsTraced(w: World, s: State, c: ToolCall)
    ensures var t := CallOne(w, s, c).0;
      if s.toolCalls < w.bounds.maxToolCalls then t.toolCalls == s.toolCalls + 1 && t.tools == s.tools + [c.name]
      else t == s
  {
    if s.toolCalls < w.bounds.maxToolCalls && Seen(s, w.key(c)) == 0 && c.name in TOOL_NAMES {
      DispatchedFields(w, Noted(w, s, c), c);
    }
  }

  lemma CallOneAnswers(w: World, s: State, c: ToolCall)
    requires s.errs <= w.bounds.maxToolErrors && CallOne(w, s, c).1.Answered?
    ensures CallOne(w, s, c).1.result.callId == c.id && CallOne(w, s, c).0.errs <= w.bounds.maxToolErrors
  {
  }

  /** The results answer the calls one to one and in order. */
  ghost predicate AnswersInOrder(calls: seq<ToolCall>, results: seq<ToolResult>) {
    |results| == |calls| && forall k :: 0 <= k < |calls| ==> results[k].callId == calls[k].id
  }

  lemma {:induction false} CallManyKeeps(w: World, s: State, calls: seq<ToolCall>, n: nat)
    requires ToolLaw(w, s) && n <= |calls|
    ensures ToolLaw(w, CallMany(w, s, calls, n).state)
  {
    if n > 0 {
      CallManyKeeps(w, s, calls, n - 1);
      CallOneKeeps(w, CallMany(w, s, calls, n - 1).state, calls[n - 1]);
    }
  }

  lemma {:induction false} CallManyAnswers(w: World, s: State, calls: seq<ToolCall>, n: nat)
    requires n <= |calls| && s.errs <= w.bounds.maxToolErrors && CallMany(w, s, calls, n).stop.None?
    ensures CallMany(w, s, calls, n).state.errs <= w.bounds.maxToolErrors
    ensures forall k :: 0 <= k < n ==> CallMany(w, s, calls, n).results[k].callId == calls[k].id
  {
    if n > 0 {
      CallManyAnswers(w, s, calls, n - 1);
      CallOneAnswers(w, CallMany(w, s, calls, n - 1).state, calls[n - 1]);
    }
  }

  // ---------- tokens ----------

  function SumIn(sent: seq<Sent>): int {
    if sent == [] then 0 else SumIn(sent[..|sent| - 1]) + sent[|sent| - 1].usage.input
  }

  function SumOut(sent: seq<Sent>): int {
    if sent == [] then 0 else SumOut(sent[..|sent| - 1]) + sent[|sent| - 1].usage.output
  }

  /** Every call was checked against both cumulative ceilings before it was made. */
  ghost predicate Paid(w: World, sent: seq<Sent>) {
    sent == [] ||
    (var last := sent[|sent| - 1];
     var earlier := sent[..|sent| - 1];
     && Paid(w, earlier)
     && last.estimate == Estimate(Parts(Request(w.system, last.messages, w.specs)))
     && last.inBefore == SumIn(earlier) && last.outBefore == SumOut(earlier)
     && last.inBefore + last.estimate <= w.bounds.maxInputTokens
     && last.outBefore + last.maxTokens <= w.bounds.maxOutputTokens
     && last.maxTokens == Min(w.bounds.maxOutputTokens - last.outBefore, 1500) >= 1)
  }

  // ---------- the transcript ----------

  ghost predicate Exchange(a: Message, b: Message) {
    && a.role == Assistant && a.calls != [] && a.results == []
    && b.role == User && b.text == "" && b.calls == [] && AnswersInOrder(a.calls, b.results)
  }

  /** One user question, then assistant and user in turn, each result matching its call. */
  ghost predicate Dialogue(question: string, msgs: seq<Message>) {
    && |msgs| % 2 == 1 && msgs[0] == Message(User, question, [], [])
    && forall j :: 0 <= j && 2 * j + 2 < |msgs| ==> Exchange(msgs[2 * j + 1], msgs[2 * j + 2])
  }

  /** At its i-th call the model saw i exchanges, all those it had seen before among them. */
  ghost predicate Conversed(question: string, sent: seq<Sent>) {
    && (forall i :: 0 <= i < |sent| ==> Dialogue(question, sent[i].messages) && |sent[i].messages| == 2 * i + 1)
    && (forall i, j :: 0 <= i < j < |sent| ==> sent[i].messages <= sent[j].messages)
  }

  /** What holds of a run that has ended, or is between two turns. */
  ghost predicate Law(w: World, question: string, s: State) {
    && ToolLaw(w, s)
    && |s.sent| == s.steps <= Max(0, w.bounds.maxSteps)
    && Paid(w, s.sent) && s.usedIn == SumIn(s.sent) && s.usedOut == SumOut(s.sent)
    && Conversed(question, s.sent)
  }

  /** And between two turns, also: */
  ghost predicate Ready(w: World, question: string, s: State) {
    && Law(w, question, s) && s.errs <= w.bounds.maxToolErrors
    && Dialogue(question, s.msgs) && |s.msgs| == 2 * |s.sent| + 1
    && forall i :: 0 <= i < |s.sent| ==> s.sent[i].messages <= s.msgs
  }

  lemma ConversedGrows(question: string, sent: seq<Sent>, msgs: seq<Message>, last: Sent)
    requires Conversed(question, sent) && Dialogue(question, msgs) && |msgs| == 2 * |sent| + 1
    requires last.messages == msgs && forall i :: 0 <= i < |sent| ==> sent[i].messages <= msgs
    ensures Conversed(question, sent + [last])
    ensures forall i :: 0 <= i < |sent + [last]| ==> (sent + [last])[i].messages <= msgs
  {
  }

  lemma ChargedIsPaid(w: World, s: State, u: Usage)
    requires Paid(w, s.sent) && s.usedIn == SumIn(s.sent) && s.usedOut == SumOut(s.sent) && Refused(w, s).None?
    ensures var c := Charged(w, s, u);
      Paid(w, c.sent) && c.usedIn == SumIn(c.sent) && c.usedOut == SumOut(c.sent)
  {
    var c := Charged(w, s, u);
    assert c.sent[..|s.sent|] == s.sent;
  }

  lemma ChargedLaw(w: World, question: string, s: State, u: Usage)
    requires Ready(w, question, s) && Refused(w, s).None?
    ensures var c := Charged(w, s, u);
      Law(w, question, c) && forall i :: 0 <= i < |c.sent| ==> c.sent[i].messages <= s.msgs
  {
    ChargedIsPaid(w, s, u);
    ConversedGrows(question, s.sent, s.msgs,
                   Sent(s.msgs, EstimateOf(w, s), MaxTokensOf(w, s), s.usedIn, s.usedOut, u));
  }

  lemma TurnKeeps(w: World, question: string, s: State)
    requires Ready(w, question, s)
    ensures var t := TakeTurn(w, s);
      Law(w, question, t.state) && (t.stop.None? ==> Ready(w, question, t.state))
  {
    if Refused(w, s).None? {
      var r := w.reply(s.steps);
      ChargedLaw(w, question, s, if r.Response? then r.usage else NOTHING);
      if r.Response? && !r.truncated && r.calls != [] {
        ConversationKeeps(w, question, s, r);
      }
    }
  }

  /** After the calls of one reply: still lawful, and ready for the next turn unless stopped. */
  lemma ConversationKeeps(w: World, question: string, s: State, r: Reply)
    requires Ready(w, question, s) && Refused(w, s).None? && r.Response? && r.calls != []
    ensures var a := CallMany(w, Asked(Charged(w, s, r.usage), r), r.calls, |r.calls|);
      Law(w, question, Delivered(a)) && (a.stop.None? ==> Ready(w, question, Delivered(a)))
  {
    var c := Charged(w, s, r.usage);
    ChargedLaw(w, question, s, r.usage);
    DeliveredLaw(w, question, c, r);
    if CallMany(w, Asked(c, r), r.calls, |r.calls|).stop.None? {
      DeliveredReady(w, question, s.msgs, c, r);
    }
  }

  lemma DeliveredLaw(w: World, question: string, c: State, r: Reply)
    requires Law(w, question, c) && r.Response?
    ensures Law(w, question, Delivered(CallMany(w, Asked(c, r), r.calls, |r.calls|)))
  {
    CallManyKeeps(w, Asked(c, r), r.calls, |r.calls|);
    CallManyFrame(w, Asked(c, r), r.calls, |r.calls|);
  }

  lemma DeliveredReady(w: World, question: string, msgs: seq<Message>, c: State, r: Reply)
    requires r.Response? && r.calls != [] && c.msgs == msgs && c.errs <= w.bounds.maxToolErrors
    requires Dialogue(question, msgs) && |msgs| == 2 * |c.sent| - 1
    requires forall i :: 0 <= i < |c.sent| ==> c.sent[i].messages <= msgs
    requires CallMany(w, Asked(c, r), r.calls, |r.calls|).stop.None?
    ensures var t := Delivered(CallMany(w, Asked(c, r), r.calls, |r.calls|));
      && t.errs <= w.bounds.maxToolErrors && t.sent == c.sent
      && Dialogue(question, t.msgs) && |t.msgs| == 2 * |t.sent| + 1
      && forall i :: 0 <= i < |t.sent| ==> t.sent[i].messages <= t.msgs
  {
    var a := CallMany(w, Asked(c, r), r.calls, |r.calls|);
    CallManyFrame(w, Asked(c, r), r.calls, |r.calls|);
    CallManyAnswers(w, Asked(c, r), r.calls, |r.calls|);
    ExchangeDelivered(question, msgs, Message(Assistant, r.text, r.calls, []), a.results, Delivered(a));
  }

  lemma ExchangeDelivered(question: string, msgs: seq<Message>, m: Message, results: seq<ToolResult>, t: State)
    requires Dialogue(question, msgs) && m.role == Assistant && m.calls != [] && m.results == []
    requires AnswersInOrder(m.calls, results) && t.msgs == msgs + [m] + [Message(User, "", [], results)]
    ensures Dialogue(question, t.msgs) && |t.msgs| == |msgs| + 2 && msgs <= t.msgs
  {
  }

  lemma {:induction false} RunKeeps(w: World, question: string, s: State)
    requires Ready(w, question, s)
    ensures Law(w, question, RunFrom(w, s).state)
    decreases w.bounds.maxSteps - s.steps
  {
    TurnKeeps(w, question, s);
    if TakeTurn(w, s).stop.None? {
      TurnAdvances(w, s);
      RunKeeps(w, question, TakeTurn(w, s).state);
    }
  }

  function Ran(w: World, question: string): Turn {
    RunFrom(w, Start(question))
  }

  /** Every run, from its first message to whatever stopped it. */
  lemma EveryRunKeepsTheLaw(w: World, question: string)
    requires Valid(w.bounds)
    ensures Law(w, question, Ran(w, question).state)
  {
    RunKeeps(w, question, Start(question));
  }

  ghost predicate Summed(s: State) {
    s.usedIn == SumIn(s.sent) && s.usedOut == SumOut(s.sent)
  }

  lemma TurnSums(w: World, s: State)
    requires Summed(s)
    ensures Summed(TakeTurn(w, s).state)
  {
    if Refused(w, s).None? {
      var r := w.reply(s.steps);
      var c := Charged(w, s, if r.Response? then r.usage else NOTHING);
      assert c.sent[..|s.sent|] == s.sent;
      if Conversing(r) {
        CallManyFrame(w, Asked(c, r), r.calls, |r.calls|);
      }
    }
  }

  lemma {:induction false} RunSums(w: World, s: State)
    requires Summed(s)
    ensures Summed(RunFrom(w, s).state)
    decreases w.bounds.maxSteps - s.steps
  {
    TurnSums(w, s);
    if TakeTurn(w, s).stop.None? {
      TurnAdvances(w, s);
      RunSums(w, TakeTurn(w, s).state);
    }
  }

  /** What a run reports having used is what its calls cost, input and output, valid bounds or not. */
  lemma RunsCostTheirCalls(w: World, question: string)
    ensures var s := Ran(w, question).state; s.usedIn + s.usedOut == SumIn(s.sent) + SumOut(s.sent)
  {
    RunSums(w, Start(question));
  }

  /** And each call costs what its reply reported; a call that failed costs nothing. */
  ghost predicate Reported(w: World, sent: seq<Sent>) {
    forall i: nat :: i < |sent| ==>
      sent[i].usage == match w.reply(i) case Failure(_) => Usage(0, 0, false) case Response(_, _, usage, _) => usage
  }

  lemma TurnReports(w: World, s: State)
    requires |s.sent| == s.steps && Reported(w, s.sent)
    ensures var t := TakeTurn(w, s).state; |t.sent| == t.steps && Reported(w, t.sent)
  {
    if Refused(w, s).None? {
      var r := w.reply(s.steps);
      var c := Charged(w, s, if r.Response? then r.usage else NOTHING);
      assert Reported(w, c.sent);
      if Conversing(r) {
        CallManyFrame(w, Asked(c, r), r.calls, |r.calls|);
      }
    }
  }

  lemma {:induction false} RunReports(w: World, s: State)
    requires |s.sent| == s.steps && Reported(w, s.sent)
    ensures Reported(w, RunFrom(w, s).state.sent)
    decreases w.bounds.maxSteps - s.steps
  {
    TurnReports(w, s);
    if TakeTurn(w, s).stop.None? {
      TurnAdvances(w, s);
      RunReports(w, TakeTurn(w, s).state);
    }
  }

  lemma CallsCostTheirReplies(w: World, question: string)
    ensures Reported(w, Ran(w, question).state.sent)
  {
    RunReports(w, Start(question));
  }

  /** The ceilings are cumulative, and only the last call of a run can pass one: by what it
      cost beyond its own estimate, or beyond the tokens it was allowed. */
  lemma OnlyTheLastCallCanOverrun(w: World, question: string)
    requires Valid(w.bounds)
    ensures var s := Ran(w, question).state;
      if s.sent == [] then s.usedIn == 0 && s.usedOut == 0
      else
        var last := s.sent[|s.sent| - 1];
        && s.usedIn <= w.bounds.maxInputTokens + (last.usage.input - last.estimate)
        && s.usedOut <= w.bounds.maxOutputTokens + (last.usage.output - last.maxTokens)
  {
    EveryRunKeepsTheLaw(w, question);
  }

  /** One question, answered at once by a provider that counts the joined prompt. */
  function JoinedWorld(): World {
    World(Bounds(1, 1, 0, 0, 1, 1), 0, "abc", [],
          i => Response("", [], Usage(2, 0, false), false), i => StoreDown, i => false, (c: ToolCall) => c.name)
  }

  lemma JoinedPrompt()
    ensures var parts := Parts(Request("abc", [Message(User, "defghij", [], [])], []));
      Estimate(parts) == 1 && Length(parts) / CHARS_PER_TOKEN == 2
  {
    var r := Request("abc", [Message(User, "defghij", [], [])], []);
    assert r.messages[..0] == [];
    assert MessageParts(r.messages) == ["defghij"];
    assert Parts(r) == ["abc", "defghij"];
    EstimateList("abc", "defghij", "");
    assert |"abc"| == 3 && |"defghij"| == 7;
    assert ["defghij"][1..] == [] && ["abc", "defghij"][1..] == ["defghij"];
    assert Length(["abc", "defghij"]) == 10;
  }

  /** And a run does pass one: its only call is let through on its estimate, and costs what the
      joined prompt measures, one token more than the whole ceiling. */
  lemma ARunCanOverrun()
    ensures var w, s := JoinedWorld(), Ran(JoinedWorld(), "defghij").state;
      && Valid(w.bounds) && |s.sent| == 1 && s.usedIn == w.bounds.maxInputTokens + 1
      && s.sent[0].usage.input == Length(Parts(Request(w.system, s.sent[0].messages, w.specs))) / CHARS_PER_TOKEN
  {
    var w, s := JoinedWorld(), Start("defghij");
    JoinedPrompt();
    assert Refused(w, s).None?;
    assert TakeTurn(w, s).stop == Some(Final);
  }

  /** A model that keeps to the estimate and to MaxTokens, and reports no negative cost. */
  ghost predicate WellBehaved(sent: seq<Sent>) {
    forall i :: 0 <= i < |sent| ==>
      0 <= sent[i].usage.input <= sent[i].estimate && 0 <= sent[i].usage.output <= sent[i].maxTokens
  }

  lemma {:induction false} CostsAreNatural(sent: seq<Sent>)
    requires WellBehaved(sent)
    ensures SumIn(sent) >= 0 && SumOut(sent) >= 0
  {
    if sent != [] {
      CostsAreNatural(sent[..|sent| - 1]);
    }
  }

  /** What one request may cost: exactly what Ask reserves for it. */
  function WorstCase(b: Bounds): int {
    b.maxInputTokens + b.maxOutputTokens
  }

  lemma WellBehavedRunsFitTheirReservation(w: World, question: string)
    requires Valid(w.bounds) && WellBehaved(Ran(w, question).state.sent)
    ensures var s := Ran(w, question).state;
      0 <= s.usedIn <= w.bounds.maxInputTokens && 0 <= s.usedOut <= w.bounds.maxOutputTokens
      && s.usedIn + s.usedOut <= WorstCase(w.bounds)
  {
    OnlyTheLastCallCanOverrun(w, question);
    EveryRunKeepsTheLaw(w, question);
    CostsAreNatural(Ran(w, question).state.sent);
  }

  /** What one dispatched call tells the model, or stops the run with. */
  ghost predicate DispatchSays(w: World, s: State, c: ToolCall, v: Verdict) {
    match w.corpus(|s.trips|)
    case BadArgs =>
      v == if s.errs + 1 > w.bounds.maxToolErrors then Halt(MalformedToolCall)
           else Answered(ToolResult(c.id, "{\"error\":\"malformed_call\"}", true))
    case StoreDown => v == Halt(ToolError)
    case Rows(content, empty) => v == Answered(ToolResult(c.id, content, empty))
    case Found(span, content, refusal) =>
      v == if c.name == READ_SPAN && s.chars > 0 && s.chars + |span.text| > w.maxSpanChars
           then Answered(ToolResult(c.id, refusal, true))
           else Answered(ToolResult(c.id, content, false))
  }

  /** What becomes of one call: the call limit first, then the repeat guard, then the name, then
      the tools; a repeat past the limit stops at once, and any mistake stops past its own limit. */
  lemma CallOneSays(w: World, s: State, c: ToolCall)
    ensures var v, repeats := CallOne(w, s, c).1, Seen(s, w.key(c));
      if s.toolCalls >= w.bounds.maxToolCalls then v == Halt(ToolCallLimit)
      else if repeats > 0 then
        v == if repeats > w.bounds.maxRepeats || s.errs + 1 > w.bounds.maxToolErrors then Halt(RepeatedToolCall)
             else Answered(ToolResult(c.id, "{\"error\":\"repeated_call\"}", true))
      else if c.name !in TOOL_NAMES then
        v == if s.errs + 1 > w.bounds.maxToolErrors then Halt(MalformedToolCall)
             else Answered(ToolResult(c.id, "{\"error\":\"unknown_tool\"}", true))
      else DispatchSays(w, s, c, v)
  {
  }

  // ---------- why a run stopped ----------

  /** A reply the loop goes on from: whole, and asking for tools. */
  predicate Conversing(r: Reply) {
    r.Response? && !r.truncated && r.calls != []
  }

  ghost predicate AllConversing(w: World, n: nat) {
    forall i: nat :: i < n ==> Conversing(w.reply(i))
  }

  /** No tool call so far was one that ends a run. */
  ghost predicate Unhalted(w: World, errs: nat, trips: nat, seen: map<string, nat>) {
    && errs <= Max(0, w.bounds.maxToolErrors)
    && (forall i: nat :: i < trips ==> w.corpus(i) != StoreDown)
    && (forall k :: k in seen ==> seen[k] <= Max(0, w.bounds.maxRepeats) + 1)
  }

  /** The calls of the last reply ended the run: at the call limit, on a store that is down, on
      a call repeated too often, or on one mistake too many. */
  ghost predicate HaltedBy(w: World, s: State, stop: Stop) {
    match stop
    case ToolCallLimit => s.toolCalls >= w.bounds.maxToolCalls
    case ToolError => s.trips != [] && w.corpus(|s.trips| - 1) == StoreDown
    case RepeatedToolCall =>
      exists k :: k in s.seen && s.seen[k] >= 2
        && (s.seen[k] > w.bounds.maxRepeats + 1 || s.errs > w.bounds.maxToolErrors)
    case MalformedToolCall => s.errs > w.bounds.maxToolErrors
    case _ => false
  }

  lemma CorrectedHalts(w: World, s: State, c: ToolCall, complaint: string, stop: Stop)
    requires Unhalted(w, s.errs, |s.trips|, s.seen)
    ensures var (t, v) := Corrected(w, s, c, complaint, stop);
      && t == s.(errs := s.errs + 1)
      && (v.Halt? ==> v.stop == stop && t.errs > w.bounds.maxToolErrors)
      && (v.Answered? ==> Unhalted(w, t.errs, |t.trips|, t.seen))
  {
  }

  lemma DispatchedHalts(w: World, s: State, c: ToolCall)
    requires Unhalted(w, s.errs, |s.trips|, s.seen)
    ensures var (t, v) := Dispatched(w, s, c);
      && (v.Halt? ==> HaltedBy(w, t, v.stop))
      && (v.Answered? ==> Unhalted(w, t.errs, |t.trips|, t.seen))
  {
    var (r, chars) := CallTool(w.maxSpanChars, s.chars, c.name, w.corpus(|s.trips|));
    var t := s.(chars := chars, trips := s.trips + [Trip(w.key(c), SpansOf(r))]);
    if r.Malformed? {
      CorrectedHalts(w, t, c, "{\"error\":\"malformed_call\"}", MalformedToolCall);
    }
  }

  lemma NotedIsUnhalted(w: World, s: State, c: ToolCall)
    requires Unhalted(w, s.errs, |s.trips|, s.seen) && Seen(s, w.key(c)) <= Max(0, w.bounds.maxRepeats)
    ensures var n := Noted(w, s, c); Unhalted(w, n.errs, |n.trips|, n.seen)
  {
  }

  lemma RepeatHalts(w: World, s: State, c: ToolCall)
    requires Unhalted(w, s.errs, |s.trips|, s.seen) && s.toolCalls < w.bounds.maxToolCalls && Seen(s, w.key(c)) > 0
    ensures var (t, v) := CallOne(w, s, c);
      && (v.Halt? ==> HaltedBy(w, t, v.stop))
      && (v.Answered? ==> Unhalted(w, t.errs, |t.trips|, t.seen))
  {
    var k, n := w.key(c), Noted(w, s, c);
    assert k in n.seen && n.seen[k] == Seen(s, k) + 1;
    if Seen(s, k) <= w.bounds.maxRepeats {
      NotedIsUnhalted(w, s, c);
      CorrectedHalts(w, n, c, "{\"error\":\"repeated_call\"}", RepeatedToolCall);
    }
  }

  lemma CallOneHalts(w: World, s: State, c: ToolCall)
    requires Unhalted(w, s.errs, |s.trips|, s.seen)
    ensures var (t, v) := CallOne(w, s, c);
      && (v.Halt? ==> HaltedBy(w, t, v.stop))
      && (v.Answered? ==> Unhalted(w, t.errs, |t.trips|, t.seen))
  {
    if s.toolCalls < w.bounds.maxToolCalls {
      if Seen(s, w.key(c)) > 0 {
        RepeatHalts(w, s, c);
      } else {
        NotedIsUnhalted(w, s, c);
        if c.name in TOOL_NAMES {
          DispatchedHalts(w, Noted(w, s, c), c);
        } else {
          CorrectedHalts(w, Noted(w, s, c), c, "{\"error\":\"unknown_tool\"}", MalformedToolCall);
        }
      }
    }
  }

  lemma {:induction false} CallManyHalts(w: World, s: State, calls: seq<ToolCall>, n: nat)
    requires Unhalted(w, s.errs, |s.trips|, s.seen) && n <= |calls|
    ensures var a := CallMany(w, s, calls, n);
      match a.stop
      case Some(stop) => HaltedBy(w, a.state, stop)
      case None => Unhalted(w, a.state.errs, |a.state.trips|, a.state.seen)
  {
    if n > 0 {
      CallManyHalts(w, s, calls, n - 1);
      var a := CallMany(w, s, calls, n - 1);
      if a.stop.None? {
        CallOneHalts(w, a.state, calls[n - 1]);
      }
    }
  }

  /** The run stopped before another call could be made. */
  ghost predicate CutShort(w: World, s: State, stop: Stop) {
    var n := |s.sent|;
    && AllConversing(w, n) && Unhalted(w, s.errs, |s.trips|, s.seen)
    && if n >= w.bounds.maxSteps then stop == StepLimit
       else if w.expired(n) then stop == Deadline
       else
         && stop == TokenBudget
         && (s.usedIn + Estimate(Parts(Request(w.system, s.msgs, w.specs))) > w.bounds.maxInputTokens
             || s.usedOut >= w.bounds.maxOutputTokens)
  }

  /** The run stopped on its last reply. */
  ghost predicate Concluded(w: World, s: State, stop: Stop, text: string) {
    var n := |s.sent|;
    && n > 0 && AllConversing(w, n - 1)
    && match w.reply(n - 1)
       case Failure(Some(KindRateLimited)) => stop == RateLimited
       case Failure(Some(KindUnauthorized)) => stop == Unauthorized
       case Failure(Some(KindUnavailable)) => stop == Unavailable
       case Failure(Some(KindDeadline)) => stop == Deadline
       case Failure(_) => stop == MalformedResponse
       case Response(prose, calls, _, truncated) =>
         if truncated then stop == TokenBudget
         else if calls == [] then stop == Final && text == prose
         else HaltedBy(w, s, stop)
  }

  ghost predicate Explained(w: World, t: Turn)
    requires t.stop.Some?
  {
    CutShort(w, t.state, t.stop.value) || Concluded(w, t.state, t.stop.value, t.text)
  }

  ghost predicate Going(w: World, s: State) {
    |s.sent| == s.steps && AllConversing(w, s.steps) && Unhalted(w, s.errs, |s.trips|, s.seen)
  }

  lemma TurnIsExplained(w: World, s: State)
    requires Going(w, s)
    ensures var t := TakeTurn(w, s); if t.stop.Some? then Explained(w, t) else Going(w, t.state)
  {
    if Refused(w, s).None? {
      var r := w.reply(s.steps);
      if Conversing(r) {
        var c := Asked(Charged(w, s, r.usage), r);
        CallManyHalts(w, c, r.calls, |r.calls|);
        CallManyFrame(w, c, r.calls, |r.calls|);
      }
    }
  }

  lemma {:induction false} RunIsExplained(w: World, s: State)
    requires Going(w, s)
    ensures Explained(w, RunFrom(w, s))
    decreases w.bounds.maxSteps - s.steps
  {
    TurnIsExplained(w, s);
    if TakeTurn(w, s).stop.None? {
      TurnAdvances(w, s);
      RunIsExplained(w, TakeTurn(w, s).state);
    }
  }

  ghost predicate CitesNothing(text: string, read: nat) {
    forall lo: nat :: !Cite.Resolves(text, read, lo)
  }

  /** The last reply of a run, once there is one. */
  function LastReply(w: World, s: State): Reply
    requires s.sent != []
  {
    w.reply(|s.sent| - 1)
  }

  /** Which replies and ceilings end a run, and how: it is cut short by a ceiling that is checked
      before a call, or its last reply concludes it. */
  lemma EveryStopIsExplained(w: World, question: string)
    ensures Explained(w, Ran(w, question))
  {
    RunIsExplained(w, Start(question));
  }

  ghost predicate WholeAnswer(w: World, s: State) {
    s.sent != [] &&
    var r := LastReply(w, s); r.Response? && !r.truncated && r.calls == []
  }

  lemma FinalIsWhole(w: World, question: string)
    ensures var t := Ran(w, question);
      && (t.stop == Some(Final) <==> WholeAnswer(w, t.state))
      && (t.stop == Some(Final) ==> t.text == LastReply(w, t.state).text)
      && t.stop != Some(Uncited)
  {
    EveryStopIsExplained(w, question);
  }

  /** Prose is served, or found to cite nothing, exactly when the last reply is whole and asks for
      no tool, and it is that reply's prose through the gate. */
  lemma OnlyWholeRepliesAreServed(w: World, question: string, a: Answer)
    requires Gated(Ran(w, question), a)
    ensures var s := Ran(w, question).state;
      && (a.stop == Final || a.stop == Uncited <==> WholeAnswer(w, s))
      && (a.stop == Final ==>
            var text := LastReply(w, s).text;
            a.text == Cite.Keep(text, |s.read|, |text|) && !CitesNothing(text, |s.read|))
      && (a.stop == Uncited ==> CitesNothing(LastReply(w, s).text, |s.read|) && a.text == "")
  {
    FinalIsWhole(w, question);
  }

  /** A fragment stops the run and serves nothing. */
  lemma TruncatedIsTokenBudget(w: World, question: string, a: Answer)
    requires Gated(Ran(w, question), a)
    ensures var s := Ran(w, question).state;
      s.sent != [] && LastReply(w, s).Response? && LastReply(w, s).truncated ==> a.stop == TokenBudget && a.text == ""
  {
    EveryStopIsExplained(w, question);
  }

  // ---------- what the model is shown ----------

  /** One of the three mistakes the model is told of. */
  predicate Complaint(r: ToolResult) {
    r.isError && (r.content == "{\"error\":\"malformed_call\"}" || r.content == "{\"error\":\"unknown_tool\"}"
                  || r.content == "{\"error\":\"repeated_call\"}")
  }

  /** The result is what the corpus answered, or its refusal of one more span. */
  predicate Shows(a: CorpusAnswer, r: ToolResult) {
    match a
    case Rows(content, empty) => r.content == content && r.isError == empty
    case Found(_, content, refusal) => if r.isError then r.content == refusal else r.content == content
    case _ => false
  }

  ghost predicate Shown(w: World, trips: nat, r: ToolResult) {
    Complaint(r) || exists i: nat :: i < trips && Shows(w.corpus(i), r)
  }

  lemma CallOneShows(w: World, s: State, c: ToolCall)
    ensures var (t, v) := CallOne(w, s, c);
      |s.trips| <= |t.trips| && (v.Answered? ==> Shown(w, |t.trips|, v.result))
  {
    var (t, v) := CallOne(w, s, c);
    if v.Answered? && !Complaint(v.result) {
      assert Shows(w.corpus(|s.trips|), v.result);
    }
  }

  lemma {:induction false} CallManyShows(w: World, s: State, calls: seq<ToolCall>, n: nat)
    requires n <= |calls|
    ensures var a := CallMany(w, s, calls, n);
      |s.trips| <= |a.state.trips| && forall k :: 0 <= k < |a.results| ==> Shown(w, |a.state.trips|, a.results[k])
  {
    if n > 0 {
      CallManyShows(w, s, calls, n - 1);
      var a := CallMany(w, s, calls, n - 1);
      if a.stop.None? {
        CallOneShows(w, a.state, calls[n - 1]);
      }
    }
  }

  /** Message for message: the question, then each reply as it was, and results the corpus gave. */
  ghost predicate Faithful(w: World, question: string, msgs: seq<Message>, n: nat, trips: nat) {
    && |msgs| == 2 * n + 1 && msgs[0] == Message(User, question, [], [])
    && (forall i: nat :: i < n ==> FaithfulPair(w, msgs, i, trips))
  }

  ghost predicate FaithfulPair(w: World, msgs: seq<Message>, i: nat, trips: nat)
    requires 2 * i + 2 < |msgs|
  {
    var r, a, b := w.reply(i), msgs[2 * i + 1], msgs[2 * i + 2];
    && r.Response? && a == Message(Assistant, r.text, r.calls, [])
    && b == Message(User, "", [], b.results) && |b.results| == |r.calls|
    && forall k :: 0 <= k < |b.results| ==> Shown(w, trips, b.results[k])
  }

  ghost predicate AllFaithful(w: World, question: string, sent: seq<Sent>, trips: nat) {
    forall i: nat :: i < |sent| ==> Faithful(w, question, sent[i].messages, i, trips)
  }

  lemma FaithfulLater(w: World, question: string, msgs: seq<Message>, n: nat, trips: nat, more: nat)
    requires Faithful(w, question, msgs, n, trips) && trips <= more
    ensures Faithful(w, question, msgs, n, more)
  {
    forall i: nat | i < n ensures FaithfulPair(w, msgs, i, more) {
      assert FaithfulPair(w, msgs, i, trips);
    }
  }

  lemma FaithfulGrows(w: World, question: string, msgs: seq<Message>, n: nat, trips: nat, results: seq<ToolResult>)
    requires Faithful(w, question, msgs, n, trips) && w.reply(n).Response? && |results| == |w.reply(n).calls|
    requires forall k :: 0 <= k < |results| ==> Shown(w, trips, results[k])
    ensures var r := w.reply(n);
      Faithful(w, question, msgs + [Message(Assistant, r.text, r.calls, [])] + [Message(User, "", [], results)],
               n + 1, trips)
  {
    var r := w.reply(n);
    var longer := msgs + [Message(Assistant, r.text, r.calls, [])] + [Message(User, "", [], results)];
    forall i: nat | i < n + 1 ensures FaithfulPair(w, longer, i, trips) {
      if i < n {
        assert FaithfulPair(w, msgs, i, trips);
      }
    }
  }

  lemma AllFaithfulLater(w: World, question: string, sent: seq<Sent>, trips: nat, more: nat)
    requires AllFaithful(w, question, sent, trips) && trips <= more
    ensures AllFaithful(w, question, sent, more)
  {
    forall i: nat | i < |sent| ensures Faithful(w, question, sent[i].messages, i, more) {
      FaithfulLater(w, question, sent[i].messages, i, trips, more);
    }
  }

  ghost predicate Telling(w: World, question: string, s: State) {
    && |s.sent| == s.steps && AllFaithful(w, question, s.sent, |s.trips|)
    && Faithful(w, question, s.msgs, s.steps, |s.trips|)
  }

  lemma DeliveredTells(w: World, question: string, msgs: seq<Message>, n: nat, trips: nat, a: Answers)
    requires Faithful(w, question, msgs, n, trips) && trips <= |a.state.trips| && w.reply(n).Response?
    requires a.stop.None? && |a.results| == |w.reply(n).calls|
    requires a.state.msgs == msgs + [Message(Assistant, w.reply(n).text, w.reply(n).calls, [])]
    requires forall k :: 0 <= k < |a.results| ==> Shown(w, |a.state.trips|, a.results[k])
    ensures Faithful(w, question, Delivered(a).msgs, n + 1, |a.state.trips|)
  {
    FaithfulLater(w, question, msgs, n, trips, |a.state.trips|);
    FaithfulGrows(w, question, msgs, n, |a.state.trips|, a.results);
  }

  lemma ConversationIsFaithful(w: World, question: string, c: State, r: Reply)
    requires c.steps > 0 && r == w.reply(c.steps - 1) && r.Response?
    requires |c.sent| == c.steps && AllFaithful(w, question, c.sent, |c.trips|)
    requires Faithful(w, question, c.msgs, c.steps - 1, |c.trips|)
    ensures var a := CallMany(w, Asked(c, r), r.calls, |r.calls|);
      && AllFaithful(w, question, Delivered(a).sent, |Delivered(a).trips|)
      && (a.stop.None? ==> Telling(w, question, Delivered(a)))
  {
    var s := Asked(c, r);
    var a := CallMany(w, s, r.calls, |r.calls|);
    CallManyFrame(w, s, r.calls, |r.calls|);
    CallManyShows(w, s, r.calls, |r.calls|);
    assert AllFaithful(w, question, a.state.sent, |a.state.trips|) by {
      AllFaithfulLater(w, question, c.sent, |c.trips|, |a.state.trips|);
    }
    if a.stop.None? {
      assert Faithful(w, question, Delivered(a).msgs, c.steps, |a.state.trips|) by {
        DeliveredTells(w, question, c.msgs, c.steps - 1, |c.trips|, a);
      }
    }
  }

  lemma TurnTells(w: World, question: string, s: State)
    requires Telling(w, question, s)
    ensures var t := TakeTurn(w, s);
      && AllFaithful(w, question, t.state.sent, |t.state.trips|)
      && (t.stop.None? ==> Telling(w, question, t.state))
  {
    if Refused(w, s).None? {
      var r := w.reply(s.steps);
      var c := Charged(w, s, if r.Response? then r.usage else NOTHING);
      assert AllFaithful(w, question, c.sent, |c.trips|);
      if Conversing(r) {
        ConversationIsFaithful(w, question, c, r);
      }
    }
  }

  lemma {:induction false} RunTells(w: World, question: string, s: State)
    requires Telling(w, question, s)
    ensures var t := RunFrom(w, s).state; AllFaithful(w, question, t.sent, |t.trips|)
    decreases w.bounds.maxSteps - s.steps
  {
    TurnTells(w, question, s);
    if TakeTurn(w, s).stop.None? {
      TurnAdvances(w, s);
      RunTells(w, question, TakeTurn(w, s).state);
    }
  }

  /** At every call the model is shown the question, all its own replies so far as they were, and
      for each of their calls a result: what the corpus answered a dispatched call, or one of the
      three complaints. */
  lemma TheModelIsShownWhatHappened(w: World, question: string)
    ensures var s := Ran(w, question).state; AllFaithful(w, question, s.sent, |s.trips|)
  {
    RunTells(w, question, Start(question));
  }

  /** A served answer cites, and cites only spans the loop read; every other stop serves no prose. */
  lemma ServedAnswersCite(w: World, question: string, a: Answer)
    requires Gated(Ran(w, question), a)
    ensures a.read == Ran(w, question).state.read
    ensures a.stop == Final ==> a.cited != [] && forall i :: 0 <= i < |a.cited| ==> a.cited[i] < |a.read|
    ensures a.stop != Final ==> a.text == "" && a.cited == []
  {
    if a.stop == Final {
      var t := Ran(w, question);
      forall i | 0 <= i < |a.cited| ensures a.cited[i] < |a.read| {
        assert Cite.Cites(t.text, |a.read|, a.cited[i]);
      }
    }
  }
}
