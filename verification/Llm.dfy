/** What a model is sent, and the estimate the input budget is charged:
    packages/shared/llm/llm.go. */
module Llm {

  datatype Role = User | Assistant

  datatype ToolCall = ToolCall(id: string, name: string, args: string)

  datatype ToolResult = ToolResult(callId: string, content: string, isError: bool)

  datatype Message = Message(role: Role, text: string, calls: seq<ToolCall>, results: seq<ToolResult>)

  datatype ToolSpec = ToolSpec(name: string, description: string, schema: string)

  datatype Request = Request(system: string, messages: seq<Message>, tools: seq<ToolSpec>)

  datatype Usage = Usage(input: int, output: int, estimated: bool)

  const CHARS_PER_TOKEN := 4

  function EstimateTokens(s: string): nat {
    |s| / CHARS_PER_TOKEN
  }

  /** Every string of a request that is billed, in the order it is sized. */
  function CallParts(calls: seq<ToolCall>): seq<string> {
    if calls == [] then [] else CallParts(calls[..|calls| - 1]) + [calls[|calls| - 1].name, calls[|calls| - 1].args]
  }

  function ResultParts(results: seq<ToolResult>): seq<string> {
    if results == [] then [] else ResultParts(results[..|results| - 1]) + [results[|results| - 1].content]
  }

  function MessageParts(messages: seq<Message>): seq<string> {
    if messages == [] then []
    else
      var m := messages[|messages| - 1];
      MessageParts(messages[..|messages| - 1]) + ([m.text] + CallParts(m.calls) + ResultParts(m.results))
  }

  function ToolParts(tools: seq<ToolSpec>): seq<string> {
    if tools == [] then []
    else
      var t := tools[|tools| - 1];
      ToolParts(tools[..|tools| - 1]) + [t.name, t.description, t.schema]
  }

  function Parts(r: Request): seq<string> {
    [r.system] + MessageParts(r.messages) + ToolParts(r.tools)
  }

  /** The estimate of a list of strings sizes each one by itself. */
  function Estimate(parts: seq<string>): nat {
    if parts == [] then 0 else EstimateTokens(parts[0]) + Estimate(parts[1..])
  }

  function Length(parts: seq<string>): nat {
    if parts == [] then 0 else |parts[0]| + Length(parts[1..])
  }

  lemma {:induction false} EstimateAppends(a: seq<string>, b: seq<string>)
    ensures Estimate(a + b) == Estimate(a) + Estimate(b)
  {
    if a == [] {
      assert a + b == b;
    } else {
      EstimateAppends(a[1..], b);
      assert (a + b)[1..] == a[1..] + b;
    }
  }

  lemma EstimateList(a: string, b: string, c: string)
    ensures Estimate([a]) == EstimateTokens(a)
    ensures Estimate([a, b]) == EstimateTokens(a) + EstimateTokens(b)
    ensures Estimate([a, b, c]) == EstimateTokens(a) + EstimateTokens(b) + EstimateTokens(c)
  {
    assert [a][1..] == [] && [b][1..] == [] && [c][1..] == [];
    assert [b, c][1..] == [c] && [a, b, c][1..] == [b, c] && [a, b][1..] == [b];
    assert Estimate([c]) == EstimateTokens(c) && Estimate([b, c]) == EstimateTokens(b) + Estimate([c]);
  }

  /** The sum of a list that was concatenated from three. */
  lemma EstimateThree(a: seq<string>, b: seq<string>, c: seq<string>)
    ensures Estimate(a + b + c) == Estimate(a) + Estimate(b) + Estimate(c)
  {
    EstimateAppends(a + b, c);
    EstimateAppends(a, b);
  }

  /** One more element of a list, sized. */
  lemma OneMoreCall(calls: seq<ToolCall>, i: nat)
    requires i < |calls|
    ensures Estimate(CallParts(calls[..i + 1])) ==
      Estimate(CallParts(calls[..i])) + EstimateTokens(calls[i].name) + EstimateTokens(calls[i].args)
  {
    assert calls[..i + 1][..i] == calls[..i];
    EstimateAppends(CallParts(calls[..i]), [calls[i].name, calls[i].args]);
    EstimateList(calls[i].name, calls[i].args, "");
  }

  lemma OneMoreResult(results: seq<ToolResult>, i: nat)
    requires i < |results|
    ensures Estimate(ResultParts(results[..i + 1])) ==
      Estimate(ResultParts(results[..i])) + EstimateTokens(results[i].content)
  {
    assert results[..i + 1][..i] == results[..i];
    EstimateAppends(ResultParts(results[..i]), [results[i].content]);
    EstimateList(results[i].content, "", "");
  }

  method EstimateRequest(r: Request) returns (n: nat)
    ensures n == Estimate(Parts(r))
  {
    n := EstimateTokens(r.system);
    var i := 0;
    while i < |r.messages|
      invariant i <= |r.messages|
      invariant n == EstimateTokens(r.system) + Estimate(MessageParts(r.messages[..i]))
    {
      var m := r.messages[i];
      var size := EstimateMessage(m);
      n := n + size;
      assert r.messages[..i + 1][..i] == r.messages[..i];
      EstimateAppends(MessageParts(r.messages[..i]), [m.text] + CallParts(m.calls) + ResultParts(m.results));
      i := i + 1;
    }
    assert r.messages[..i] == r.messages;
    var k := 0;
    while k < |r.tools|
      invariant k <= |r.tools|
      invariant n == EstimateTokens(r.system) + Estimate(MessageParts(r.messages)) + Estimate(ToolParts(r.tools[..k]))
    {
      var t := r.tools[k];
      n := n + EstimateTokens(t.name) + EstimateTokens(t.description) + EstimateTokens(t.schema);
      assert r.tools[..k + 1][..k] == r.tools[..k];
      EstimateAppends(ToolParts(r.tools[..k]), [t.name, t.description, t.schema]);
      EstimateList(t.name, t.description, t.schema);
      k := k + 1;
    }
    assert r.tools[..k] == r.tools;
    EstimateThree([r.system], MessageParts(r.messages), ToolParts(r.tools));
    EstimateList(r.system, "", "");
  }

  method EstimateMessage(m: Message) returns (n: nat)
    ensures n == Estimate([m.text] + CallParts(m.calls) + ResultParts(m.results))
  {
    n := EstimateTokens(m.text);
    var i := 0;
    while i < |m.calls|
      invariant i <= |m.calls|
      invariant n == EstimateTokens(m.text) + Estimate(CallParts(m.calls[..i]))
    {
      n := n + EstimateTokens(m.calls[i].name) + EstimateTokens(m.calls[i].args);
      OneMoreCall(m.calls, i);
      i := i + 1;
    }
    assert m.calls[..i] == m.calls;
    var k := 0;
    while k < |m.results|
      invariant k <= |m.results|
      invariant n == EstimateTokens(m.text) + Estimate(CallParts(m.calls)) + Estimate(ResultParts(m.results[..k]))
    {
      n := n + EstimateTokens(m.results[k].content);
      OneMoreResult(m.results, k);
      k := k + 1;
    }
    assert m.results[..k] == m.results;
    EstimateThree([m.text], CallParts(m.calls), ResultParts(m.results));
    EstimateList(m.text, "", "");
  }

  /** A message's calls and results, each with one more. */
  lemma MessageEstimate(m: Message, c: ToolCall, result: ToolResult)
    ensures Estimate(MessageParts([m])) == Estimate([m.text] + CallParts(m.calls) + ResultParts(m.results))
    ensures Estimate(MessageParts([m.(calls := m.calls + [c])])) ==
      Estimate(MessageParts([m])) + |c.name| / 4 + |c.args| / 4
    ensures Estimate(MessageParts([m.(results := m.results + [result])])) ==
      Estimate(MessageParts([m])) + |result.content| / 4
  {
    var more, told := m.calls + [c], m.results + [result];
    OneMoreMessage([], m);
    OneMoreMessage([], m.(calls := more));
    OneMoreMessage([], m.(results := told));
    assert more[..|m.calls|] == m.calls && more[..|m.calls| + 1] == more;
    assert told[..|m.results|] == m.results && told[..|m.results| + 1] == told;
    OneMoreCall(more, |m.calls|);
    OneMoreResult(told, |m.results|);
    EstimateThree([m.text], CallParts(m.calls), ResultParts(m.results));
    EstimateThree([m.text], CallParts(more), ResultParts(m.results));
    EstimateThree([m.text], CallParts(m.calls), ResultParts(told));
  }

  lemma OneMoreMessage(messages: seq<Message>, m: Message)
    ensures Estimate(MessageParts(messages + [m])) ==
      Estimate(MessageParts(messages)) + Estimate([m.text] + CallParts(m.calls) + ResultParts(m.results))
  {
    assert (messages + [m])[..|messages|] == messages;
    EstimateAppends(MessageParts(messages), [m.text] + CallParts(m.calls) + ResultParts(m.results));
  }

  /** Everything sent is billed, once: the system prompt; then for each message its text, for
      each call in it the name and the arguments, and for each result the content; and for each
      tool its name, description and schema. Each string costs a quarter of its length. */
  lemma EverythingIsBilled(r: Request, m: Message, t: ToolSpec)
    ensures Estimate(Parts(Request(r.system, [], []))) == |r.system| / 4
    ensures Estimate(Parts(r.(messages := r.messages + [m]))) == Estimate(Parts(r)) + Estimate(MessageParts([m]))
    ensures Estimate(Parts(r.(tools := r.tools + [t]))) ==
      Estimate(Parts(r)) + |t.name| / 4 + |t.description| / 4 + |t.schema| / 4
    ensures Estimate(MessageParts([Message(m.role, m.text, [], [])])) == |m.text| / 4
  {
    EstimateList(r.system, "", "");
    EstimateList(m.text, "", "");
    EstimateList(t.name, t.description, t.schema);
    assert Parts(Request(r.system, [], [])) == [r.system];
    OneMoreMessage(r.messages, m);
    OneMoreMessage([], m);
    OneMoreMessage([], Message(m.role, m.text, [], []));
    assert [] + [m] == [m] && [m.text] + [] + [] == [m.text];
    EstimateThree([r.system], MessageParts(r.messages), ToolParts(r.tools));
    EstimateThree([r.system], MessageParts(r.messages + [m]), ToolParts(r.tools));
    OneMoreTool(r, t);
  }

  lemma OneMoreTool(r: Request, t: ToolSpec)
    ensures Estimate(Parts(r.(tools := r.tools + [t]))) ==
      Estimate(Parts(r)) + Estimate([t.name, t.description, t.schema])
  {
    assert (r.tools + [t])[..|r.tools|] == r.tools;
    EstimateAppends(ToolParts(r.tools), [t.name, t.description, t.schema]);
    EstimateThree([r.system], MessageParts(r.messages), ToolParts(r.tools));
    EstimateThree([r.system], MessageParts(r.messages), ToolParts(r.tools + [t]));
  }

  /** Sizing part by part never overstates the whole text's quarter, and understates it by
      less than one token a part. */
  lemma {:induction false} EstimateUnderstates(parts: seq<string>)
    ensures CHARS_PER_TOKEN * Estimate(parts) <= Length(parts)
    ensures Length(parts) <= CHARS_PER_TOKEN * Estimate(parts) + (CHARS_PER_TOKEN - 1) * |parts|
  {
    if parts != [] {
      EstimateUnderstates(parts[1..]);
    }
  }

  /** So a provider that counts the joined prompt at the same four characters a token can
      report more than the estimate: short parts are each free, together they are not. */
  lemma JoinedPromptCostsMore()
    ensures var r := Request("abc", [Message(User, "def", [], [])], []);
      Estimate(Parts(r)) == 0 && Length(Parts(r)) / CHARS_PER_TOKEN == 1
  {
    var r := Request("abc", [Message(User, "def", [], [])], []);
    assert r.messages[..0] == [];
    assert MessageParts(r.messages) == ["def"];
    assert Parts(r) == ["abc", "def"];
    EstimateList("abc", "def", "");
    assert |"abc"| == 3 && |"def"| == 3;
    assert ["def"][1..] == [] && ["abc", "def"][1..] == ["def"];
    assert Length(["abc", "def"]) == 6;
  }
}
