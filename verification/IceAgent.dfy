/** The ICE agent's checklist as it runs: a table of pairs sorted in place, an array of active
    pairs compacted in place, and pointers (indices) to the selected and nominated pair. */
module IceAgent {
  import opened Options
  import opened Checklist

  class Agent {
    const locals: seq<Candidate>
    const remotes: seq<Candidate>
    const table: array<Pair>
    var num: nat
    const activePairs: array<nat>
    var activeCount: nat
    var selected: Option<nat>
    var nominated: Option<nat>
    var relayReady: bool

    ghost predicate Valid()
      reads this, table, activePairs
    {
      && table.Length == MAX_PAIRS && activePairs.Length == MAX_ACTIVE && activeCount <= MAX_ACTIVE
      && |locals| <= 10 && |remotes| <= 10
      && Checklist().Shaped()
    }

    ghost function Checklist(): List
      reads this, table, activePairs
      requires activeCount <= activePairs.Length
    {
      List(table[..], num, activePairs[..activeCount], selected, nominated, relayReady)
    }

    constructor (locals: seq<Candidate>, remotes: seq<Candidate>)
      requires |locals| <= 10 && |remotes| <= 10
      ensures Valid() && fresh(table) && fresh(activePairs)
      ensures num == 0 && selected == None && nominated == None && !relayReady
    {
      this.locals, this.remotes := locals, remotes;
      table := new Pair[MAX_PAIRS](_ => Pair(Frozen, 0, 0, 0, 0, 0));
      activePairs := new nat[MAX_ACTIVE](_ => 0);
      num, activeCount, selected, nominated, relayReady := 0, 0, None, None, false;
    }

    // -------------------------------------------------------------- forming pairs

    /** All eligible pairs, in a permutation sorted by descending priority. */
    method UpdateCandidatePairs()
      requires Valid()
      modifies this`num, this`activeCount, table
      ensures Valid()
      ensures multiset(table[..num]) == multiset(Formed(locals, remotes, |locals|)) && Descending(table[..num])
      ensures Checklist() == Rebuilt(old(Checklist()), table[..num])
    {
      hide Formed, PairsOf;
      num, activeCount := 0, 0;
      FormPairs();
      SortPairs();
      assert table[num..] == old(table[..])[num..];
      assert table[..] == table[..num] + old(table[..])[num..];
    }

    /** The nested loops; the table has room for every pair. */
    method FormPairs()
      requires Valid() && num == 0
      modifies this`num, table
      ensures num <= MAX_PAIRS && table[..num] == Formed(locals, remotes, |locals|)
      ensures table[num..] == old(table[..])[num..]
    {
      for i := 0 to |locals|
        invariant num <= 10 * i && table[..num] == Formed(locals, remotes, i)
        invariant table[num..] == old(table[..])[num..]
      {
        FormRow(i);
      }
    }

    method FormRow(i: nat)
      requires table.Length == MAX_PAIRS && i < |locals| <= 10 && |remotes| <= 10 && num <= 10 * i
      modifies this`num, table
      ensures old(num) <= num <= old(num) + |remotes|
      ensures table[..num] == old(table[..num]) + PairsOf(locals, remotes, i, |remotes|)
      ensures table[num..] == old(table[..])[num..]
    {
      for j := 0 to |remotes|
        invariant old(num) <= num <= old(num) + j
        invariant table[..num] == old(table[..num]) + PairsOf(locals, remotes, i, j)
        invariant forall k | num <= k < table.Length :: table[k] == old(table[k])
      {
        if locals[i].addr.family != remotes[j].addr.family { continue; }
        if Impossible(locals[i], remotes[j]) { continue; }
        if num >= MAX_PAIRS { assert false; }
        AddPair(NewPair(locals, remotes, i, j));
      }
    }

    method AddPair(p: Pair)
      requires num < table.Length
      modifies this`num, table
      ensures num == old(num) + 1 && table[..num] == old(table[..num]) + [p]
      ensures forall k | num <= k < table.Length :: table[k] == old(table[k])
    {
      table[num] := p;
      num := num + 1;
    }

    /** Entry p is at least as large as the entries behind it, up to entry n. */
    static ghost predicate Leads(ps: seq<Pair>, p: nat, n: nat) {
      forall q | p < q < n && q < |ps| :: ps[p].priority >= ps[q].priority
    }

    /** The first n entries lead all others. */
    static ghost predicate Placed(ps: seq<Pair>, n: nat) {
      forall p | 0 <= p < n && p < |ps| :: Leads(ps, p, |ps|)
    }

    static function Exchanged(ps: seq<Pair>, i: nat, j: nat): (r: seq<Pair>)
      requires i < j < |ps|
      ensures |r| == |ps|
    {
      ps[i := ps[j]][j := ps[i]]
    }

    /** Exchange sort: after round i, entry i is the largest of the rest. */
    method SortPairs()
      requires table.Length == MAX_PAIRS && num <= MAX_PAIRS
      modifies table
      ensures multiset(table[..num]) == old(multiset(table[..num])) && Descending(table[..num])
      ensures table[num..] == old(table[num..])
    {
      hide Leads;
      for i := 0 to num
        invariant multiset(table[..num]) == old(multiset(table[..num]))
        invariant table[num..] == old(table[num..])
        invariant Placed(table[..num], i)
      {
        SortRound(i);
      }
      AllPlaced(table[..num]);
    }

    /** One round: larger entries are exchanged into place i. */
    method SortRound(i: nat)
      requires table.Length == MAX_PAIRS && i < num <= MAX_PAIRS && Placed(table[..num], i)
      modifies table
      ensures multiset(table[..num]) == old(multiset(table[..num]))
      ensures table[num..] == old(table[num..])
      ensures Placed(table[..num], i + 1)
    {
      hide Leads, Placed, Exchanged;
      NothingToLead(table[..num], i);
      for j := i + 1 to num
        invariant multiset(table[..num]) == old(multiset(table[..num]))
        invariant table[num..] == old(table[num..])
        invariant Placed(table[..num], i) && Leads(table[..num], i, j)
      {
        RoundStep(table[..num], i, j);
        if table[i].priority < table[j].priority {
          Swap(i, j);
        }
      }
      OneMorePlaced(table[..num], i);
    }

    method Swap(i: nat, j: nat)
      requires i < j < num <= table.Length
      modifies table
      ensures table[..num] == Exchanged(old(table[..num]), i, j) && table[num..] == old(table[num..])
    {
      table[i], table[j] := table[j], table[i];
    }

    static lemma NothingToLead(ps: seq<Pair>, i: nat)
      ensures Leads(ps, i, i + 1)
    {
    }

    /** Exchanging a larger entry into place permutes the entries and lets place i lead one more. */
    static lemma RoundStep(ps: seq<Pair>, i: nat, j: nat)
      requires i < j < |ps| && Placed(ps, i) && Leads(ps, i, j)
      ensures multiset(Exchanged(ps, i, j)) == multiset(ps)
      ensures var r := if ps[i].priority < ps[j].priority then Exchanged(ps, i, j) else ps;
              Placed(r, i) && Leads(r, i, j + 1)
    {
      var r := Exchanged(ps, i, j);
      forall p | 0 <= p < i ensures Leads(r, p, |ps|) {
        assert Leads(ps, p, |ps|);
      }
    }

    static lemma OneMorePlaced(ps: seq<Pair>, i: nat)
      requires Placed(ps, i) && Leads(ps, i, |ps|)
      ensures Placed(ps, i + 1)
    {
    }

    static lemma AllPlaced(ps: seq<Pair>)
      requires Placed(ps, |ps|)
      ensures Descending(ps)
    {
      forall i, j | 0 <= i < j < |ps| ensures ps[i].priority >= ps[j].priority {
        assert Leads(ps, i, |ps|);
      }
    }

    // -------------------------------------------------------------- selecting

    method SelectCandidatePair() returns (ret: int)
      requires Valid()
      modifies this`activeCount, this`selected, activePairs, table
      ensures Valid() && Checklist() == Select(old(Checklist())).0
      ensures ret == if Select(old(Checklist())).1 then 0 else -1
    {
      var s := FindSucceeded();
      if s.Some? {
        selected := s;
        return 0;
      }
      RemoveFailed();
      ghost var l1 := Checklist();
      DropNothing(l1.table, l1.active);
      RemoveFailed();
      FillActive();
      ret := if activeCount > 0 then 0 else -1;
    }

    method FindSucceeded() returns (s: Option<nat>)
      requires Valid()
      ensures s == FirstSucceeded(Checklist(), 0)
    {
      for i := 0 to activeCount
        invariant FirstSucceeded(Checklist(), 0) == FirstSucceeded(Checklist(), i)
      {
        if table[activePairs[i]].state.Succeeded? { return Some(activePairs[i]); }
      }
      s := None;
    }

    /** From the last active pair to the first: shift the later ones down over a failed one. */
    method RemoveFailed()
      requires Valid()
      modifies this`activeCount, activePairs
      ensures Valid() && Checklist() == old(Checklist()).(active := DropFailed(table[..], old(Checklist()).active))
    {
      ghost var entries, active := table[..], activePairs[..activeCount];
      var i := activeCount;
      CompactStart(entries, active);
      hide Compacted;
      while i > 0
        invariant 0 <= i <= activeCount <= MAX_ACTIVE && table[..] == entries
        invariant i <= |active| && Compacted(entries, active, i, activePairs[..activeCount])
      {
        i := i - 1;
        ghost var before := activePairs[..activeCount];
        CompactStep(entries, active, i, before);
        RemoveIfFailed(i);
      }
      CompactEnd(entries, active, activePairs[..activeCount]);
      DropFailedBelow(entries, active, num);
    }

    method RemoveIfFailed(i: nat)
      requires table.Length == MAX_PAIRS && activePairs.Length == MAX_ACTIVE && i < activeCount <= MAX_ACTIVE
      requires activePairs[i] < MAX_PAIRS
      modifies this`activeCount, activePairs
      ensures activeCount <= old(activeCount) && table[..] == old(table[..])
      ensures var active := old(activePairs[..activeCount]);
              activePairs[..activeCount] ==
              if table[active[i]].state.Failed? then active[..i] + active[i + 1..] else active
    {
      if table[activePairs[i]].state.Failed? {
        ShiftDown(i);
      }
    }

    /** Overwrites active pair i by moving the later ones down. */
    method ShiftDown(i: nat)
      requires activePairs.Length == MAX_ACTIVE && i < activeCount <= MAX_ACTIVE
      modifies this`activeCount, activePairs
      ensures activeCount == old(activeCount) - 1
      ensures activePairs[..activeCount] == old(activePairs[..activeCount][..i] + activePairs[..activeCount][i + 1..])
    {
      for j := i to activeCount - 1
        invariant activeCount == old(activeCount)
        invariant forall k | 0 <= k < i :: activePairs[k] == old(activePairs[k])
        invariant forall k | i <= k < j :: activePairs[k] == old(activePairs[k + 1])
        invariant forall k | j <= k < MAX_ACTIVE :: activePairs[k] == old(activePairs[k])
      {
        activePairs[j] := activePairs[j + 1];
      }
      activeCount := activeCount - 1;
    }

    /** Thaws frozen pairs in list order while there is room. */
    method FillActive()
      requires Valid()
      modifies this`activeCount, activePairs, table
      ensures Valid() && Checklist() == Thaw(old(Checklist()), 0)
    {
      var i := 0;
      while i < num && activeCount < MAX_ACTIVE
        invariant Valid() && 0 <= i <= num
        invariant Thaw(Checklist(), i) == Thaw(old(Checklist()), 0)
      {
        if table[i].state.Frozen? {
          ghost var before := Checklist();
          table[i] := table[i].(checks := 0, timestamp := 0, state := InProgress);
          activePairs[activeCount] := i;
          activeCount := activeCount + 1;
          assert Checklist().active == before.active + [i];
          assert Checklist() == Activate(before, i);
        }
        i := i + 1;
      }
    }

    // -------------------------------------------------------------- checking

    predicate IsRelay(x: nat) {
      x < |locals| && locals[x].typ.Relay?
    }

    method ConnectivityCheck(now: int, turn: nat -> Turn, response: Option<Address>) returns (ret: int)
      requires Valid()
      modifies this`selected, this`nominated, this`relayReady, table
      ensures Valid()
      ensures var (l, ok) := Check(old(Checklist()), now, IsRelay, turn, remotes, response);
              Checklist() == l && ret == if ok then 0 else -1
    {
      hide CheckRound, Respond, FirstSucceeded;
      var anyActive := SendChecks(now, turn);
      if !anyActive { return -1; }
      if response.Some? {
        ProcessStunResponse(response.value);
      }
      var s := FindSucceeded();
      if s.Some? {
        selected, nominated := s, s;
        return 0;
      }
      ret := -1;
    }

    method SendChecks(now: int, turn: nat -> Turn) returns (anyActive: bool)
      requires Valid()
      modifies this`nominated, this`relayReady, table
      ensures Valid() && Checklist() == CheckRound(old(Checklist()), activeCount, now, IsRelay, turn)
      ensures anyActive <==> AnyInProgress(old(Checklist()), activeCount)
    {
      hide CheckOne;
      ghost var l := Checklist();
      anyActive := false;
      for i := 0 to activeCount
        invariant Valid() && Checklist() == CheckRound(l, i, now, IsRelay, turn)
        invariant anyActive <==> AnyInProgress(l, i)
      {
        RoundState(l, i, now, turn);
        var busy := SendCheck(activePairs[i], now, turn(i));
        anyActive := anyActive || busy;
      }
    }

    static predicate AnyInProgress(l: List, n: nat)
      requires l.Shaped() && n <= |l.active|
    {
      exists k | 0 <= k < n :: l.table[l.active[k]].state.InProgress?
    }

    /** A pair not in progress when the round reaches it was not when the round began, unless an
        earlier occurrence of it was. */
    lemma RoundState(l: List, i: nat, now: int, turn: nat -> Turn)
      requires l.Shaped() && i < |l.active|
      ensures var p := CheckRound(l, i, now, IsRelay, turn).table[l.active[i]];
              AnyInProgress(l, i + 1) <==> AnyInProgress(l, i) || p.state.InProgress?
    {
      hide CheckRound;
      RoundStateUpTo(l, i, l.active[i], now, turn);
    }

    lemma {:induction false} RoundStateUpTo(l: List, k: nat, x: nat, now: int, turn: nat -> Turn)
      requires l.Shaped() && k <= |l.active| && x < l.num
      ensures var p := CheckRound(l, k, now, IsRelay, turn).table[x];
              && (p.state.InProgress? ==> l.table[x].state.InProgress?)
              && (l.table[x].state.InProgress? && !p.state.InProgress? ==> exists j :: 0 <= j < k && l.active[j] == x)
      decreases k
    {
      if k > 0 {
        RoundStateUpTo(l, k - 1, x, now, turn);
        assert l.active[k - 1] == x ==> exists j :: 0 <= j < k && l.active[j] == x;
      }
    }

    /** One active pair: fail it, or count and time-stamp a check, or leave it be. */
    method SendCheck(x: nat, now: int, turn: Turn) returns (busy: bool)
      requires Valid() && x < num
      modifies this`nominated, this`relayReady, table
      ensures Valid() && Checklist() == CheckOne(old(Checklist()), x, now, IsRelay, turn)
      ensures busy == old(table[x]).state.InProgress?
    {
      ghost var before := table[..];
      busy := table[x].state.InProgress?;
      if !busy { return; }
      if IsRelay(table[x].local) && !relayReady {
        if turn.TurnFailed? {
          table[x] := table[x].(state := Failed);
          assert table[..] == before[x := table[x]];
          return;
        }
        relayReady := turn.TurnReady?;
      }
      if table[x].checks >= MAX_CHECKS && (now - table[x].timestamp) % CLOCK >= INTERVAL_MS {
        table[x] := table[x].(state := Failed);
      } else if table[x].checks == 0 || (now - table[x].timestamp) % CLOCK >= INTERVAL_MS {
        nominated := Some(x);
        table[x] := table[x].(checks := table[x].checks + 1, timestamp := now);
      }
      assert table[..] == before[x := table[x]];
    }

    /** A response that carries valid integrity, from `src`. */
    method ProcessStunResponse(src: Address)
      requires Valid()
      modifies this`nominated, table
      ensures Valid() && Checklist() == Respond(old(Checklist()), remotes, src)
    {
      ghost var l := Checklist();
      for i := 0 to activeCount
        invariant Checklist() == l && FirstMatch(l, remotes, src, 0) == FirstMatch(l, remotes, src, i)
      {
        var x := activePairs[i];
        var p := table[x];
        if p.state.InProgress? && p.remote < |remotes| && AddrEqual(remotes[p.remote].addr, src) {
          table[x] := p.(state := Succeeded);
          assert table[..] == l.table[x := p.(state := Succeeded)];
          if nominated.None? || !table[nominated.value].state.Succeeded? {
            nominated := Some(x);
          }
          return;
        }
      }
    }
  }

  /** The active pairs when those from index i on have been gone through. */
  ghost predicate Compacted(table: seq<Pair>, active: seq<nat>, i: nat, now: seq<nat>)
    requires i <= |active| && forall k | 0 <= k < |active| :: active[k] < |table|
  {
    && i <= |now| && now[..i] == active[..i]
    && DropFailed(table, active) == DropFailed(table, active[..i]) + now[i..]
  }

  lemma CompactStart(table: seq<Pair>, active: seq<nat>)
    requires forall k | 0 <= k < |active| :: active[k] < |table|
    ensures Compacted(table, active, |active|, active)
  {
    assert active[..|active|] == active;
  }

  lemma CompactStep(table: seq<Pair>, active: seq<nat>, i: nat, now: seq<nat>)
    requires i < |active| && forall k | 0 <= k < |active| :: active[k] < |table|
    requires Compacted(table, active, i + 1, now)
    ensures i < |now| && now[i] < |table|
    ensures Compacted(table, active, i, if table[now[i]].state.Failed? then now[..i] + now[i + 1..] else now)
  {
    hide DropFailed;
    DropLast(table, active, i);
    assert now[i] == now[..i + 1][i] == active[i];
    assert now[..i] == now[..i + 1][..i] == active[..i];
    assert now[i..] == [active[i]] + now[i + 1..];
  }

  lemma CompactEnd(table: seq<Pair>, active: seq<nat>, now: seq<nat>)
    requires forall k | 0 <= k < |active| :: active[k] < |table|
    requires Compacted(table, active, 0, now)
    ensures now == DropFailed(table, active)
  {
    assert active[..0] == [];
  }

  lemma DropLast(table: seq<Pair>, active: seq<nat>, i: nat)
    requires i < |active| && forall k | 0 <= k < |active| :: active[k] < |table|
    ensures DropFailed(table, active[..i + 1]) ==
            DropFailed(table, active[..i]) + if table[active[i]].state.Failed? then [] else [active[i]]
  {
    assert active[..i + 1][..i] == active[..i];
  }

  lemma {:induction false} DropNothing(table: seq<Pair>, active: seq<nat>)
    requires forall k | 0 <= k < |active| :: active[k] < |table| && !table[active[k]].state.Failed?
    ensures DropFailed(table, active) == active
    decreases |active|
  {
    if active != [] { DropNothing(table, active[..|active| - 1]); }
  }
}
