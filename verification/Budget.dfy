/** The rolling hourly token allowance of apps/gateway/internal/handler/ask.go. */
module Budget {
  import opened Common

  const WINDOW: int := 3600

  /** One settlement. want is what it had reserved; the code keeps only at and n. */
  datatype Settlement = Settlement(at: int, n: int, want: int)

  function Total(s: seq<Settlement>): int {
    if s == [] then 0 else s[0].n + Total(s[1..])
  }

  /** The part of each settlement its own reservation covered. */
  function Covered(s: seq<Settlement>): int {
    if s == [] then 0 else Min(s[0].n, s[0].want) + Covered(s[1..])
  }

  /** prune: the leading run of expired settlements goes. */
  function Unexpired(s: seq<Settlement>, cut: int): seq<Settlement> {
    if s == [] then []
    else if s[0].at > cut then s
    else Unexpired(s[1..], cut)
  }

  /** The tail of s, from its first unexpired settlement on. */
  lemma {:induction false} UnexpiredIsTail(s: seq<Settlement>, cut: int)
    ensures var r := Unexpired(s, cut);
      && |r| <= |s| && r == s[|s| - |r|..]
      && (forall i :: 0 <= i < |s| - |r| ==> s[i].at <= cut)
      && (r != [] ==> r[0].at > cut)
  {
    if s != [] && s[0].at <= cut {
      UnexpiredIsTail(s[1..], cut);
    }
  }

  datatype Ledger = Ledger(limit: int, spent: seq<Settlement>, total: int, reserved: int)

  function Pruned(b: Ledger, now: int): Ledger {
    var kept := Unexpired(b.spent, now - WINDOW);
    b.(spent := kept, total := b.total - (Total(b.spent) - Total(kept)))
  }

  predicate Fits(b: Ledger, want: int) {
    b.total + b.reserved + want <= b.limit
  }

  function Reserve(b: Ledger, want: int, now: int): Ledger {
    var p := Pruned(b, now);
    if Fits(p, want) then p.(reserved := p.reserved + want) else p
  }

  /** spend reads the clock twice: once to prune, once to stamp. */
  function Settle(b: Ledger, want: int, actual: int, now: int, stamp: int): Ledger {
    var p := Pruned(b, now);
    p.(reserved := p.reserved - want, spent := p.spent + [Settlement(stamp, actual, want)], total := p.total + actual)
  }

  lemma {:induction false} TotalSplits(s: seq<Settlement>, k: nat)
    requires k <= |s|
    ensures Total(s) == Total(s[..k]) + Total(s[k..])
    ensures Covered(s) == Covered(s[..k]) + Covered(s[k..])
  {
    if k > 0 {
      TotalSplits(s[1..], k - 1);
      assert s[1..][..k - 1] == s[..k][1..] && s[1..][k - 1..] == s[k..];
    } else {
      assert s[..0] == [] && s[0..] == s;
    }
  }

  lemma TotalAppends(s: seq<Settlement>, e: Settlement)
    ensures Total(s + [e]) == Total(s) + e.n
    ensures Covered(s + [e]) == Covered(s) + Min(e.n, e.want)
  {
    TotalSplits(s + [e], |s|);
    assert (s + [e])[..|s|] == s && (s + [e])[|s|..] == [e];
  }

  lemma OneSettlementExpires(e: Settlement, cut: int)
    ensures Unexpired([e], cut) == if e.at <= cut then [] else [e]
  {
    assert [e][1..] == [];
  }

  lemma TotalOfOne(e: Settlement)
    ensures Total([e]) == e.n
  {
    assert [e][1..] == [];
  }

  /** What stays is what follows the expired head. */
  lemma {:induction false} UnexpiredIs(s: seq<Settlement>, i: nat, cut: int)
    requires i <= |s| && (forall k :: 0 <= k < i ==> s[k].at <= cut) && (i < |s| ==> s[i].at > cut)
    ensures Unexpired(s, cut) == s[i..] && Total(s) == Total(s[..i]) + Total(s[i..])
  {
    TotalSplits(s, i);
    if i > 0 {
      UnexpiredIs(s[1..], i - 1, cut);
      assert s[1..][i - 1..] == s[i..];
    }
  }

  /** The budget, one locked method at a time. */
  class Allowance {
    const limit: int
    var spent: seq<Settlement>
    var total: int
    var reserved: int

    constructor (limit: int)
      ensures State() == Ledger(limit, [], 0, 0)
    {
      this.limit := limit;
      spent, total, reserved := [], 0, 0;
    }

    function State(): Ledger
      reads this
    {
      Ledger(limit, spent, total, reserved)
    }

    /** How many leading settlements have expired, their tokens already given back. */
    method GiveBack(cut: int) returns (i: nat)
      modifies this`total
      ensures i <= |spent| && (forall k :: 0 <= k < i ==> spent[k].at <= cut) && (i < |spent| ==> spent[i].at > cut)
      ensures total == old(total) - Total(spent[..i])
    {
      i := 0;
      while i < |spent| && !(spent[i].at > cut)
        invariant i <= |spent| && forall k :: 0 <= k < i ==> spent[k].at <= cut
        invariant total == old(total) - Total(spent[..i])
      {
        assert spent[..i + 1] == spent[..i] + [spent[i]];
        TotalAppends(spent[..i], spent[i]);
        total := total - spent[i].n;
        i := i + 1;
      }
    }

    method Prune(now: int)
      modifies this
      ensures State() == Pruned(old(State()), now)
    {
      var i := GiveBack(now - WINDOW);
      UnexpiredIs(spent, i, now - WINDOW);
      spent := spent[i..];
    }

    method Allow(want: int, now: int) returns (ok: bool)
      modifies this
      ensures State() == Reserve(old(State()), want, now)
      ensures ok <==> Fits(Pruned(old(State()), now), want)
    {
      Prune(now);
      if total + reserved + want > limit {
        return false;
      }
      reserved := reserved + want;
      return true;
    }

    method Spend(want: int, actual: int, now: int, stamp: int)
      modifies this
      ensures State() == Settle(old(State()), want, actual, now, stamp)
    {
      Prune(now);
      reserved := reserved - want;
      spent := spent + [Settlement(stamp, actual, want)];
      total := total + actual;
    }

    /** What a new request could still reserve. */
    method Remaining(now: int) returns (n: int)
      modifies this
      ensures State() == Pruned(old(State()), now)
      ensures n >= 0
      ensures forall want :: want > 0 ==> (Fits(State(), want) <==> want <= n)
    {
      Prune(now);
      if total + reserved >= limit {
        return 0;
      }
      return limit - total - reserved;
    }
  }
}
