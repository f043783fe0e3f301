/** Loop.Ask: a slot, a reservation, one bounded run, its settlement, the slot back. And the
    hourly ceiling from end to end. */
module Ask {
  import opened Agent
  import opened AgentLaws
  import Budget
  import Gateway

  datatype Outcome = Busy | BudgetExhausted | Panicked | Served(answer: Answer)

  /** The tokens a run reports having used. */
  function Cost(t: Turn): int {
    t.state.usedIn + t.state.usedOut
  }

  /** What the deferred settlement finds: the run's cost, or the zero it began with. */
  function Spent(w: World, question: string, panics: bool): int {
    if panics then 0 else Cost(AgentLaws.Ran(w, question))
  }

  /** A question's effect on the ledger: reserved and settled, or not let in. */
  function Settled(b: Budget.Ledger, want: int, used: int, asked: int, done: int, stamp: int): Budget.Ledger {
    var reserved := Budget.Reserve(b, want, asked);
    if Budget.Fits(Budget.Pruned(b, asked), want) then Budget.Settle(reserved, want, used, done, stamp) else reserved
  }

  /** The tokens a run's replies reported, input and output, or none when it panicked. */
  function Owed(w: World, question: string, panics: bool): int {
    if panics then 0
    else var sent := AgentLaws.Ran(w, question).state.sent; SumIn(sent) + SumOut(sent)
  }

  /** The last settlement: these tokens, against that reservation. */
  predicate SettledLast(b: Budget.Ledger, want: int, n: int, stamp: int) {
    b.spent != [] && b.spent[|b.spent| - 1] == Budget.Settlement(stamp, n, want)
  }

  class Gate {
    const slots: nat
    const budget: Budget.Allowance
    var running: nat

    constructor (slots: nat, tokensPerHour: int)
      ensures running == 0 && this.slots == slots && fresh(budget)
      ensures budget.State() == Budget.Ledger(tokensPerHour, [], 0, 0)
    {
      this.slots := slots;
      running := 0;
      budget := new Budget.Allowance(tokensPerHour);
    }

    /** One bounded run, and what it cost. */
    method Serve(w: World, question: string) returns (a: Answer, used: int)
      ensures Gated(AgentLaws.Ran(w, question), a)
      ensures used == Cost(AgentLaws.Ran(w, question))
    {
      var l := new Agent.Loop(w, question);
      a := l.Run();
      used := l.usedIn + l.usedOut;
      assert l.Now() == AgentLaws.Ran(w, question).state;
    }

    /** With a slot held: reserve want, run, settle what the run cost, or nothing when it
        panics. The clock is read once to reserve and twice to settle. */
    method Metered(w: World, question: string, want: int, panics: bool, asked: int, done: int, stamp: int)
      returns (r: Outcome)
      modifies budget
      ensures !r.Busy?
      ensures r.BudgetExhausted? <==> !Budget.Fits(Budget.Pruned(old(budget.State()), asked), want)
      ensures !r.BudgetExhausted? ==> (r.Panicked? <==> panics)
      ensures r.Served? ==> Gated(AgentLaws.Ran(w, question), r.answer)
      ensures !r.BudgetExhausted? ==> SettledLast(budget.State(), want, Owed(w, question, panics), stamp)
      ensures budget.State() == Settled(old(budget.State()), want, Spent(w, question, panics), asked, done, stamp)
    {
      var ok := budget.Allow(want, asked);
      if !ok {
        return BudgetExhausted;
      }
      var used := 0;
      r := Panicked;
      if !panics {
        var a;
        a, used := Serve(w, question);
        r := Served(a);
      }
      RunsCostTheirCalls(w, question);
      budget.Spend(want, used, done, stamp);
    }

    /** Over the cap a question is turned away, never queued; the slot and the reservation always
        come back. */
    method Ask(w: World, question: string, panics: bool, asked: int, done: int, stamp: int) returns (r: Outcome)
      modifies this, budget
      ensures running == old(running)
      ensures r.Busy? <==> old(running) >= slots
      ensures r.Busy? ==> budget.State() == old(budget.State())
      ensures !r.Busy? ==>
        && (r.BudgetExhausted? <==>
              var p := Budget.Pruned(old(budget.State()), asked);
              p.total + p.reserved + w.bounds.maxInputTokens + w.bounds.maxOutputTokens > p.limit)
        && (!r.BudgetExhausted? ==> (r.Panicked? <==> panics))
        && (r.Served? ==> Gated(AgentLaws.Ran(w, question), r.answer))
        && (!r.BudgetExhausted? ==>
              SettledLast(budget.State(), w.bounds.maxInputTokens + w.bounds.maxOutputTokens,
                          Owed(w, question, panics), stamp))
        && budget.State() ==
           Settled(old(budget.State()), WorstCase(w.bounds), Spent(w, question, panics), asked, done, stamp)
    {
      if running >= slots {
        return Busy;
      }
      running := running + 1;
      r := Metered(w, question, WorstCase(w.bounds), panics, asked, done, stamp);
      running := running - 1;
    }
  }

  /** A question leaves no reservation behind, whatever its run cost and however it ended. */
  lemma ReservationIsReturned(b: Budget.Ledger, want: int, used: int, asked: int, done: int, stamp: int)
    ensures Settled(b, want, used, asked, done, stamp).reserved == b.reserved
  {
  }

  /** The run behind a settlement of a gateway's history. */
  datatype Source = Source(world: World, question: string, panics: bool)

  /** used is what some run under these bounds settled, with a model that kept to its estimates. */
  ghost predicate CostOfRun(b: Bounds, s: Source, used: int) {
    && s.world.bounds == b && used == Owed(s.world, s.question, s.panics)
    && (!s.panics ==> WellBehaved(AgentLaws.Ran(s.world, s.question).state.sent))
  }

  /** End to end: however the requests interleave, as long as each settles what its own run
      cost, or nothing when that panics, and the model keeps to its estimates, no hour's settled
      tokens pass the limit. */
  lemma HourlyCeilingHolds(b: Bounds, limit: nat, slots: nat, tr: seq<Gateway.State>, evs: seq<Gateway.Event>,
                           sources: seq<Source>, i: nat, a: int)
    requires Valid(b) && Gateway.Run(limit, slots, b.maxInputTokens + b.maxOutputTokens, tr, evs) && i < |tr|
    requires |sources| == |evs|
    requires forall k :: 0 <= k < |evs| && evs[k].Spend? ==> CostOfRun(b, sources[k], evs[k].used)
    ensures Budget.Total(Gateway.Hour(tr[i].history, a)) <= limit
  {
    forall k | 0 <= k < i && evs[k].Spend? ensures evs[k].used <= WorstCase(b) {
      if !sources[k].panics {
        RunsCostTheirCalls(sources[k].world, sources[k].question);
        WellBehavedRunsFitTheirReservation(sources[k].world, sources[k].question);
      }
    }
    Gateway.HourNeverExceedsLimit(limit, slots, WorstCase(b), tr, evs, i, a);
  }
}
