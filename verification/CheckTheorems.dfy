/** Which pair a response settles, why a pair fails, and what a round of checks sends. */
module CheckTheorems {
  import opened Options
  import opened Checklist
  import opened ChecklistTheorems

  // ---------------------------------------------------------------- responses

  /** Pair x is in progress and its remote candidate has the family, the address and the port
      of `src`. */
  ghost predicate Awaits(l: List, remotes: seq<Candidate>, src: Address, x: nat)
    requires l.Shaped() && x < MAX_PAIRS
  {
    && l.table[x].state == InProgress
    && l.table[x].remote < |remotes|
    && src.family != Unspecified
    && remotes[l.table[x].remote].addr == src
  }

  /** Active pair k awaits `src`, and none of the active pairs from i to k does. */
  ghost predicate FirstAwaiting(l: List, remotes: seq<Candidate>, src: Address, i: int, k: int)
    requires l.Shaped() && 0 <= i
  {
    && i <= k < |l.active| && Awaits(l, remotes, src, l.active[k])
    && forall j | i <= j < k :: !Awaits(l, remotes, src, l.active[j])
  }

  lemma {:induction false} MatchAwaits(l: List, remotes: seq<Candidate>, src: Address, i: nat)
    requires l.Shaped()
    ensures var m := FirstMatch(l, remotes, src, i);
            && (m.None? ==> forall j | i <= j < |l.active| :: !Awaits(l, remotes, src, l.active[j]))
            && (m.Some? ==> exists k :: FirstAwaiting(l, remotes, src, i, k) && l.active[k] == m.value)
    decreases |l.active| - i
  {
    if i < |l.active| {
      var m := FirstMatch(l, remotes, src, i);
      if Awaits(l, remotes, src, l.active[i]) {
        assert FirstAwaiting(l, remotes, src, i, i) && m == Some(l.active[i]);
      } else {
        MatchAwaits(l, remotes, src, i + 1);
        if m.Some? {
          var k :| FirstAwaiting(l, remotes, src, i + 1, k) && l.active[k] == m.value;
          assert FirstAwaiting(l, remotes, src, i, k);
        }
      }
    }
  }

  /** A response settles the first active pair that awaits its source, and nothing else: that
      pair succeeds, and it is nominated unless the nominated pair has succeeded before. A
      response nobody awaits changes nothing. */
  lemma ResponseLaw(l: List, remotes: seq<Candidate>, src: Address)
    requires l.Shaped()
    ensures (forall k | 0 <= k < |l.active| :: !Awaits(l, remotes, src, l.active[k])) ==>
              Respond(l, remotes, src) == l
    ensures forall k | FirstAwaiting(l, remotes, src, 0, k) ::
              Respond(l, remotes, src) == l.(
                table := l.table[l.active[k] := l.table[l.active[k]].(state := Succeeded)],
                nominated := if l.nominated.Some? && l.table[l.nominated.value].state == Succeeded then l.nominated
                             else Some(l.active[k]))
  {
    MatchAwaits(l, remotes, src, 0);
    var m := FirstMatch(l, remotes, src, 0);
    if m.Some? {
      var k :| FirstAwaiting(l, remotes, src, 0, k) && l.active[k] == m.value;
      forall k' | FirstAwaiting(l, remotes, src, 0, k') ensures k' == k {
        assert !(k < k') && !(k' < k);
      }
    }
  }

  // ---------------------------------------------------------------- no success without an answer

  /** Pair x keeps its remote candidate, and its change is neither into success nor, from
      anything but the frozen state, into progress. */
  ghost predicate NoAnswer(p: Pair, q: Pair) {
    && q.remote == p.remote
    && (q.state == Succeeded ==> p.state == Succeeded)
    && (q.state == InProgress ==> p.state == InProgress || p.state == Frozen)
  }

  lemma {:induction false} ThawAnswersNone(l: List, i: nat, x: nat)
    requires l.Shaped() && x < MAX_PAIRS
    ensures NoAnswer(l.table[x], Thaw(l, i).table[x])
    decreases l.num - i
  {
    if i < l.num && |l.active| < MAX_ACTIVE {
      ThawAnswersNone(if l.table[i].state.Frozen? then Activate(l, i) else l, i + 1, x);
    }
  }

  lemma {:induction false} RoundAnswersNone(l: List, k: nat, now: int, isRelay: nat -> bool, turn: nat -> Turn, x: nat)
    requires l.Shaped() && k <= |l.active| && x < MAX_PAIRS
    ensures var q := CheckRound(l, k, now, isRelay, turn).table[x];
            NoAnswer(l.table[x], q) && (q.state == InProgress ==> l.table[x].state == InProgress)
    decreases k
  {
    if k > 0 { RoundAnswersNone(l, k - 1, now, isRelay, turn, x); }
  }

  /** The source of the response that a use of the list takes in. */
  function Source(u: Use): Option<Address> {
    match u
    case UseSelect => None
    case UseCheck(now, turn, response) => response
    case UseResponse(src) => Some(src)
  }

  lemma RespondAnswers(l: List, remotes: seq<Candidate>, src: Address, x: nat)
    requires l.Shaped() && x < MAX_PAIRS
    ensures var q := Respond(l, remotes, src).table[x]; q != l.table[x] ==> Awaits(l, remotes, src, x)
    ensures Respond(l, remotes, src).table[x].remote == l.table[x].remote
  {
    hide Awaits, Respond;
    ResponseLaw(l, remotes, src);
    MatchAwaits(l, remotes, src, 0);
  }

  /** One use of the list: a pair that it makes succeed awaited the source of the response. */
  lemma StepAnswers(l: List, u: Use, isRelay: nat -> bool, remotes: seq<Candidate>, x: nat)
    requires l.Shaped() && x < MAX_PAIRS
    ensures var q := Step(l, u, isRelay, remotes).table[x];
            && q.remote == l.table[x].remote
            && (q.state == Succeeded && l.table[x].state != Succeeded ==>
                  Source(u).Some? && Awaits(l, remotes, Source(u).value, x))
  {
    hide CheckRound, Respond, Thaw, DropFailed, FirstSucceeded;
    match u
    case UseSelect =>
      if FirstSucceeded(l, 0).None? {
        DropFailedBelow(l.table, l.active, l.num);
        ThawAnswersNone(l.(active := DropFailed(l.table, l.active)), 0, x);
      }
    case UseCheck(now, turn, response) =>
      var l1 := CheckRound(l, |l.active|, now, isRelay, turn);
      RoundAnswersNone(l, |l.active|, now, isRelay, turn, x);
      if response.Some? { RespondAnswers(l1, remotes, response.value, x); }
    case UseResponse(src) => RespondAnswers(l, remotes, src, x);
  }

  /** Over any run: a pair that has succeeded since the start was, at some use of the list, in
      progress when a response from the address of its own remote candidate came in. */
  lemma {:induction false} NoSuccessWithoutAnswer(l: List, us: seq<Use>, isRelay: nat -> bool,
                                                  remotes: seq<Candidate>, x: nat)
    requires l.Shaped() && x < MAX_PAIRS
    ensures Run(l, us, isRelay, remotes).table[x].remote == l.table[x].remote
    ensures Run(l, us, isRelay, remotes).table[x].state == Succeeded && l.table[x].state != Succeeded ==>
              exists i :: 0 <= i < |us| && AnsweredAt(l, us, isRelay, remotes, x, i)
    decreases |us|
  {
    hide Step, Awaits;
    if us != [] {
      var n, before := |us| - 1, us[..|us| - 1];
      var lb := Run(l, before, isRelay, remotes);
      NoSuccessWithoutAnswer(l, before, isRelay, remotes, x);
      StepAnswers(lb, us[n], isRelay, remotes, x);
      if lb.table[x].state == Succeeded && l.table[x].state != Succeeded {
        var i :| 0 <= i < n && AnsweredAt(l, before, isRelay, remotes, x, i);
        assert before[..i] == us[..i];
        assert AnsweredAt(l, us, isRelay, remotes, x, i);
      } else if Run(l, us, isRelay, remotes).table[x].state == Succeeded && l.table[x].state != Succeeded {
        assert AnsweredAt(l, us, isRelay, remotes, x, n);
      }
    }
  }

  /** Use i of the run takes in a response that pair x awaits just then. */
  ghost predicate AnsweredAt(l: List, us: seq<Use>, isRelay: nat -> bool, remotes: seq<Candidate>, x: nat, i: nat)
    requires l.Shaped() && x < MAX_PAIRS && i < |us|
  {
    Source(us[i]).Some? && Awaits(Run(l, us[..i], isRelay, remotes), remotes, Source(us[i]).value, x)
  }

  // ---------------------------------------------------------------- a round of checks

  /** The relay is set up when the round reaches active pair k: it was before, or one of the
      relayed pairs in progress reached earlier has set it up. */
  ghost predicate RelaySetUp(l: List, k: nat, isRelay: nat -> bool, turn: nat -> Turn)
    requires l.Shaped() && k <= |l.active|
  {
    l.relayReady ||
    exists j | 0 <= j < k :: InProgressRelay(l, l.active[j], isRelay) && turn(j) == TurnReady
  }

  predicate InProgressRelay(l: List, x: nat, isRelay: nat -> bool)
    requires l.Shaped() && x < l.num
  {
    l.table[x].state == InProgress && isRelay(l.table[x].local)
  }

  /** Setting up the relay fails just when active pair k needs it. */
  ghost predicate RelayLost(l: List, k: nat, isRelay: nat -> bool, turn: nat -> Turn)
    requires l.Shaped() && k < |l.active|
  {
    InProgressRelay(l, l.active[k], isRelay) && !RelaySetUp(l, k, isRelay, turn) && turn(k) == TurnFailed
  }

  /** On the 32-bit millisecond clock, 50 ms have passed since the pair was last checked. */
  predicate Paused(p: Pair, now: int) {
    (now - p.timestamp) % 0x1_0000_0000 >= 50
  }

  /** A check goes out for active pair k: its first, or one of a hundred at 50 ms from the last. */
  ghost predicate Sends(l: List, k: nat, now: int, isRelay: nat -> bool, turn: nat -> Turn)
    requires l.Shaped() && k < |l.active|
  {
    var p := l.table[l.active[k]];
    p.state == InProgress && !RelayLost(l, k, isRelay, turn) && (p.checks == 0 || (p.checks < 100 && Paused(p, now)))
  }

  /** Active pair k fails: after a hundred checks and another 50 ms, or for want of the relay. */
  ghost predicate Fails(l: List, k: nat, now: int, isRelay: nat -> bool, turn: nat -> Turn)
    requires l.Shaped() && k < |l.active|
  {
    var p := l.table[l.active[k]];
    p.state == InProgress && (RelayLost(l, k, isRelay, turn) || (p.checks >= 100 && Paused(p, now)))
  }

  /** Active pair k when the round is over. */
  ghost function Settled(l: List, k: nat, now: int, isRelay: nat -> bool, turn: nat -> Turn): Pair
    requires l.Shaped() && k < |l.active|
  {
    var p := l.table[l.active[k]];
    if Fails(l, k, now, isRelay, turn) then p.(state := Failed)
    else if Sends(l, k, now, isRelay, turn) then p.(checks := p.checks + 1, timestamp := now)
    else p
  }

  /** The pairs, and the pointer to the selected one, when a round has gone through n active pairs. */
  ghost predicate RoundPairs(l: List, n: nat, now: int, isRelay: nat -> bool, turn: nat -> Turn, l': List)
    requires l.Shaped() && n <= |l.active| && l'.Shaped()
  {
    && l'.num == l.num && l'.active == l.active && l'.selected == l.selected
    && (forall k | 0 <= k < n :: l'.table[l.active[k]] == Settled(l, k, now, isRelay, turn))
    && (forall x | 0 <= x < MAX_PAIRS && x !in l.active[..n] :: l'.table[x] == l.table[x])
  }

  /** The pair checked last among the first n active pairs is nominated, if any is checked. */
  ghost predicate RoundNominates(l: List, n: nat, now: int, isRelay: nat -> bool, turn: nat -> Turn, nominated: Option<nat>)
    requires l.Shaped() && n <= |l.active|
  {
    || (nominated == l.nominated && forall j | 0 <= j < n :: !Sends(l, j, now, isRelay, turn))
    || exists k | 0 <= k < n ::
         && Sends(l, k, now, isRelay, turn) && nominated == Some(l.active[k])
         && forall j | k < j < n :: !Sends(l, j, now, isRelay, turn)
  }

  /** What a round of checks does, told from the state before it: each active pair fails, is
      checked or is left alone, the relay is set up in passing, and the pair checked last is
      nominated. */
  lemma {:induction false} RoundLaw(l: List, n: nat, now: int, isRelay: nat -> bool, turn: nat -> Turn)
    requires l.Shaped() && Distinct(l.active) && n <= |l.active|
    ensures var l' := CheckRound(l, n, now, isRelay, turn);
            && RoundPairs(l, n, now, isRelay, turn, l')
            && l'.relayReady == RelaySetUp(l, n, isRelay, turn)
            && RoundNominates(l, n, now, isRelay, turn, l'.nominated)
    decreases n
  {
    hide RoundPairs, RoundNominates, RelaySetUp, CheckOne;
    if n > 0 {
      var l1 := CheckRound(l, n - 1, now, isRelay, turn);
      RoundLaw(l, n - 1, now, isRelay, turn);
      CheckedPair(l, n - 1, now, isRelay, turn, l1);
      PairsStep(l, n - 1, now, isRelay, turn, l1, CheckOne(l1, l.active[n - 1], now, isRelay, turn(n - 1)));
      NominatesStep(l, n - 1, now, isRelay, turn, l1.nominated,
                    CheckOne(l1, l.active[n - 1], now, isRelay, turn(n - 1)).nominated);
    } else {
      NothingReached(l, now, isRelay, turn);
    }
  }

  lemma NothingReached(l: List, now: int, isRelay: nat -> bool, turn: nat -> Turn)
    requires l.Shaped()
    ensures RoundPairs(l, 0, now, isRelay, turn, l)
    ensures l.relayReady == RelaySetUp(l, 0, isRelay, turn)
    ensures RoundNominates(l, 0, now, isRelay, turn, l.nominated)
  {
  }

  /** What the round does when it reaches active pair n. */
  lemma CheckedPair(l: List, n: nat, now: int, isRelay: nat -> bool, turn: nat -> Turn, l1: List)
    requires l.Shaped() && Distinct(l.active) && n < |l.active| && l1.Shaped()
    requires RoundPairs(l, n, now, isRelay, turn, l1) && l1.relayReady == RelaySetUp(l, n, isRelay, turn)
    ensures var l2 := CheckOne(l1, l.active[n], now, isRelay, turn(n));
            && l2 == l1.(table := l1.table[l.active[n] := Settled(l, n, now, isRelay, turn)],
                         nominated := if Sends(l, n, now, isRelay, turn) then Some(l.active[n]) else l1.nominated,
                         relayReady := RelaySetUp(l, n + 1, isRelay, turn))
  {
    hide RelaySetUp;
    var x := l.active[n];
    assert l1.table[x] == l.table[x] && x < l1.num;
    hide RoundPairs;
    RelayStep(l, n, isRelay, turn);
    assert l1.table[x := l1.table[x]] == l1.table;
  }

  lemma RelayStep(l: List, n: nat, isRelay: nat -> bool, turn: nat -> Turn)
    requires l.Shaped() && n < |l.active|
    ensures RelaySetUp(l, n + 1, isRelay, turn) ==
            (RelaySetUp(l, n, isRelay, turn) || (InProgressRelay(l, l.active[n], isRelay) && turn(n) == TurnReady))
  {
    hide InProgressRelay;
  }

  lemma PairsStep(l: List, n: nat, now: int, isRelay: nat -> bool, turn: nat -> Turn, l1: List, l2: List)
    requires l.Shaped() && Distinct(l.active) && n < |l.active| && l1.Shaped() && l2.Shaped()
    requires RoundPairs(l, n, now, isRelay, turn, l1)
    requires l2.num == l1.num && l2.active == l1.active && l2.selected == l1.selected
    requires l2.table == l1.table[l.active[n] := Settled(l, n, now, isRelay, turn)]
    ensures RoundPairs(l, n + 1, now, isRelay, turn, l2)
  {
    hide Settled;
    assert l.active[..n + 1] == l.active[..n] + [l.active[n]];
  }

  lemma NominatesStep(l: List, n: nat, now: int, isRelay: nat -> bool, turn: nat -> Turn, old1: Option<nat>, new1: Option<nat>)
    requires l.Shaped() && n < |l.active|
    requires RoundNominates(l, n, now, isRelay, turn, old1)
    requires new1 == if Sends(l, n, now, isRelay, turn) then Some(l.active[n]) else old1
    ensures RoundNominates(l, n + 1, now, isRelay, turn, new1)
  {
    hide Sends;
  }

  // ---------------------------------------------------------------- the verdict

  /** A call of the check succeeds just when some active pair was in progress before it and some
      active pair has succeeded after it; the first such pair is then both selected and
      nominated. */
  lemma CheckVerdict(l: List, now: int, isRelay: nat -> bool, turn: nat -> Turn, remotes: seq<Candidate>,
                     response: Option<Address>)
    requires l.Shaped()
    ensures var (l', ok) := Check(l, now, isRelay, turn, remotes, response);
            && (ok <==> (exists k | 0 <= k < |l.active| :: l.table[l.active[k]].state == InProgress)
                        && (exists k | 0 <= k < |l.active| :: l'.table[l.active[k]].state == Succeeded))
            && (ok ==> exists k | 0 <= k < |l.active| ::
                         && l'.selected == l'.nominated == Some(l.active[k])
                         && l'.table[l.active[k]].state == Succeeded
                         && forall j | 0 <= j < k :: l'.table[l.active[j]].state != Succeeded)
            && (!ok ==> l'.selected == l.selected)
  {
    hide CheckRound, Respond;
    var l1 := CheckRound(l, |l.active|, now, isRelay, turn);
    RoundSelected(l, |l.active|, now, isRelay, turn);
    if exists k | 0 <= k < |l.active| :: l.table[l.active[k]].state == InProgress {
      var l2 := if response.Some? then Respond(l1, remotes, response.value) else l1;
      FirstIsFirst(l2, 0);
    }
  }

  lemma {:induction false} RoundSelected(l: List, n: nat, now: int, isRelay: nat -> bool, turn: nat -> Turn)
    requires l.Shaped() && n <= |l.active|
    ensures CheckRound(l, n, now, isRelay, turn).selected == l.selected
    decreases n
  {
    if n > 0 { RoundSelected(l, n - 1, now, isRelay, turn); }
  }

  lemma {:induction false} FirstIsFirst(l: List, i: nat)
    requires l.Shaped()
    ensures var s := FirstSucceeded(l, i);
            && (s.None? ==> forall k | i <= k < |l.active| :: l.table[l.active[k]].state != Succeeded)
            && (s.Some? ==> exists k | i <= k < |l.active| ::
                              && l.active[k] == s.value && l.table[l.active[k]].state == Succeeded
                              && forall j | i <= j < k :: l.table[l.active[j]].state != Succeeded)
    decreases |l.active| - i
  {
    if i < |l.active| && l.table[l.active[i]].state != Succeeded { FirstIsFirst(l, i + 1); }
  }
}
