/** What every step on the ICE checklist keeps, why checking ends, and when the nominated pair
    stays. */
module ChecklistTheorems {
  import opened Options
  import opened Checklist

  // ---------------------------------------------------------------- the invariant

  predicate Distinct(s: seq<nat>) {
    forall i, j | 0 <= i < j < |s| :: s[i] != s[j]
  }

  /** Active pairs are distinct, at most five and not frozen; every pair in progress is active;
      frozen pairs form a suffix of the list, which is sorted by priority; no pair has been
      checked more than a hundred times. */
  ghost predicate Inv(l: List) {
    && l.Shaped()
    && |l.active| <= MAX_ACTIVE && Distinct(l.active)
    && (forall k | 0 <= k < |l.active| :: !l.table[l.active[k]].state.Frozen?)
    && (forall x | 0 <= x < l.num && l.table[x].state.InProgress? :: x in l.active)
    && FrozenSuffix(l) && Descending(l.table[..l.num])
    && (forall x | 0 <= x < l.num :: l.table[x].checks <= MAX_CHECKS && !l.table[x].state.Waiting?)
  }

  ghost predicate FrozenSuffix(l: List)
    requires l.Shaped()
  {
    forall x, y | 0 <= x < y < l.num && l.table[x].state.Frozen? :: l.table[y].state.Frozen?
  }

  /** Pairs that succeeded or failed are left exactly as they are, no pair becomes frozen, and
      no pair changes its candidates or its priority. */
  ghost predicate Keeps(l: List, l': List)
    requires l.Shaped() && l'.Shaped()
  {
    && l'.num == l.num
    && forall x | 0 <= x < l.num ::
         var p, q := l.table[x], l'.table[x];
         && q.local == p.local && q.remote == p.remote && q.priority == p.priority
         && (p.state.Succeeded? || p.state.Failed? ==> q == p)
         && (q.state.Frozen? ==> p.state.Frozen?)
  }

  lemma KeepsDescending(l: List, l': List)
    requires l.Shaped() && l'.Shaped() && Keeps(l, l') && Descending(l.table[..l.num])
    ensures Descending(l'.table[..l'.num])
  {
    forall i, j | 0 <= i < j < l.num ensures l'.table[..l.num][i].priority >= l'.table[..l.num][j].priority {
      assert l.table[..l.num][i].priority >= l.table[..l.num][j].priority;
    }
  }

  /** A list just built from sorted, frozen, unchecked pairs. */
  lemma RebuiltInv(l: List, pairs: seq<Pair>)
    requires |l.table| == MAX_PAIRS && |pairs| <= MAX_PAIRS && (l.nominated.Some? ==> l.nominated.value < MAX_PAIRS)
    requires Descending(pairs) && forall i | 0 <= i < |pairs| :: pairs[i].state.Frozen? && pairs[i].checks == 0
    ensures Inv(Rebuilt(l, pairs))
  {
    assert Rebuilt(l, pairs).table[..|pairs|] == pairs;
  }

  /** What forming and sorting leave is such a list: a permutation of the formed pairs holds
      each eligible pair once, frozen and unchecked, and nothing else. */
  lemma FormedList(locals: seq<Candidate>, remotes: seq<Candidate>, pairs: seq<Pair>)
    requires |locals| <= 10 && |remotes| <= 10
    requires multiset(pairs) == multiset(Formed(locals, remotes, |locals|))
    ensures |pairs| <= MAX_PAIRS
    ensures forall k | 0 <= k < |pairs| ::
              var p := pairs[k];
              && p.state.Frozen? && p.checks == 0
              && p.local < |locals| && p.remote < |remotes| && Eligible(locals[p.local], remotes[p.remote])
              && p == NewPair(locals, remotes, p.local, p.remote)
    ensures forall i, j | 0 <= i < |locals| && 0 <= j < |remotes| && Eligible(locals[i], remotes[j]) ::
              NewPair(locals, remotes, i, j) in pairs
    ensures forall i, j | 0 <= i < j < |pairs| :: pairs[i] != pairs[j]
  {
    hide Formed, Eligible;
    var formed := Formed(locals, remotes, |locals|);
    FormedFits(locals, remotes, |locals|);
    assert |pairs| == |multiset(pairs)| == |multiset(formed)| == |formed|;
    forall k | 0 <= k < |pairs|
      ensures var p := pairs[k];
              p.local < |locals| && p.remote < |remotes| && Eligible(locals[p.local], remotes[p.remote]) &&
              p == NewPair(locals, remotes, p.local, p.remote)
    {
      assert pairs[k] in multiset(pairs);
      FormedExactly(locals, remotes, |locals|, pairs[k]);
    }
    forall i, j | 0 <= i < |locals| && 0 <= j < |remotes| && Eligible(locals[i], remotes[j])
      ensures NewPair(locals, remotes, i, j) in pairs
    {
      FormedExactly(locals, remotes, |locals|, NewPair(locals, remotes, i, j));
      assert NewPair(locals, remotes, i, j) in multiset(pairs);
    }
    forall i, j | 0 <= i < j < |pairs| ensures pairs[i] != pairs[j] {
      FormedExactly(locals, remotes, |locals|, pairs[i]);
      assert multiset(pairs)[pairs[i]] <= 1;
      if pairs[i] == pairs[j] { OccursTwice(pairs, i, j); }
    }
  }

  lemma OccursTwice(pairs: seq<Pair>, i: nat, j: nat)
    requires i < j < |pairs| && pairs[i] == pairs[j]
    ensures multiset(pairs)[pairs[i]] >= 2
  {
    assert pairs == pairs[..i + 1] + pairs[i + 1..];
    assert pairs[i] == pairs[..i + 1][i] && pairs[j] == pairs[i + 1..][j - i - 1];
    assert multiset(pairs) == multiset(pairs[..i + 1]) + multiset(pairs[i + 1..]);
  }

  // ---------------------------------------------------------------- selecting

  lemma {:induction false} DropFailedDistinct(table: seq<Pair>, active: seq<nat>)
    requires forall k | 0 <= k < |active| :: active[k] < |table|
    requires Distinct(active)
    ensures Distinct(DropFailed(table, active))
    decreases |active|
  {
    if active != [] {
      var before, last := active[..|active| - 1], active[|active| - 1];
      DropFailedDistinct(table, before);
      forall k | 0 <= k < |DropFailed(table, before)| ensures DropFailed(table, before)[k] != last {
        DropFailedWithin(table, before, k);
      }
    }
  }

  lemma ActivateInv(l: List, i: nat)
    requires Inv(l) && i < l.num && |l.active| < MAX_ACTIVE && l.table[i].state.Frozen?
    requires forall x | 0 <= x < i :: !l.table[x].state.Frozen?
    ensures Inv(Activate(l, i)) && Keeps(l, Activate(l, i))
  {
    var l1 := Activate(l, i);
    assert Keeps(l, l1);
    KeepsDescending(l, l1);
    assert i == l1.active[|l.active|];
    forall x | x in l.active ensures x in l1.active && x != i {
      var k :| 0 <= k < |l.active| && l.active[k] == x;
      assert l1.active[k] == x;
    }
  }

  lemma {:induction false} ThawInv(l: List, i: nat)
    requires Inv(l) && i <= l.num && forall x | 0 <= x < i :: !l.table[x].state.Frozen?
    ensures Inv(Thaw(l, i)) && Keeps(l, Thaw(l, i))
    decreases l.num - i
  {
    hide Inv;
    assert l.Shaped() by { InvShaped(l); }
    if i < l.num && |l.active| < MAX_ACTIVE {
      if l.table[i].state.Frozen? {
        ActivateInv(l, i);
        ThawInv(Activate(l, i), i + 1);
        KeepsTrans(l, Activate(l, i), Thaw(l, i));
      } else {
        NothingFrozenBelow(l, i);
        ThawInv(l, i + 1);
      }
    }
  }

  lemma InvShaped(l: List)
    requires Inv(l)
    ensures l.Shaped() && FrozenSuffix(l)
  {
  }

  lemma NothingFrozenBelow(l: List, i: nat)
    requires Inv(l) && i < l.num && !l.table[i].state.Frozen?
    ensures forall x | 0 <= x < i + 1 :: !l.table[x].state.Frozen?
  {
  }

  lemma KeepsTrans(a: List, b: List, c: List)
    requires a.Shaped() && b.Shaped() && c.Shaped() && Keeps(a, b) && Keeps(b, c)
    ensures Keeps(a, c)
  {
  }

  lemma {:induction false} DropFailedKeeps(table: seq<Pair>, active: seq<nat>, x: nat)
    requires forall k | 0 <= k < |active| :: active[k] < |table|
    requires x in active && !table[x].state.Failed?
    ensures x in DropFailed(table, active)
    decreases |active|
  {
    var before, last := active[..|active| - 1], active[|active| - 1];
    if x in before { DropFailedKeeps(table, before, x); }
  }

  lemma DropInv(l: List)
    requires Inv(l)
    ensures var l1 := l.(active := DropFailed(l.table, l.active)); Inv(l1) && Keeps(l, l1)
  {
    var kept := DropFailed(l.table, l.active);
    DropFailedDistinct(l.table, l.active);
    DropFailedBelow(l.table, l.active, l.num);
    forall x | 0 <= x < l.num && l.table[x].state.InProgress? ensures x in kept {
      DropFailedKeeps(l.table, l.active, x);
    }
    forall k | 0 <= k < |kept| ensures !l.table[kept[k]].state.Frozen? {
      DropFailedWithin(l.table, l.active, k);
    }
  }

  lemma SelectInv(l: List)
    requires Inv(l)
    ensures Inv(Select(l).0) && Keeps(l, Select(l).0)
  {
    if FirstSucceeded(l, 0).None? {
      var l1 := l.(active := DropFailed(l.table, l.active));
      DropInv(l);
      ThawInv(l1, 0);
      KeepsTrans(l, l1, Thaw(l1, 0));
    }
  }

  // ---------------------------------------------------------------- checks and responses

  lemma CheckOneInv(l: List, x: nat, now: int, isRelay: nat -> bool, turn: Turn)
    requires Inv(l) && x < l.num
    ensures var l' := CheckOne(l, x, now, isRelay, turn); Inv(l') && Keeps(l, l')
  {
    var l' := CheckOne(l, x, now, isRelay, turn);
    assert Keeps(l, l');
    KeepsDescending(l, l');
  }

  lemma {:induction false} CheckRoundInv(l: List, k: nat, now: int, isRelay: nat -> bool, turn: nat -> Turn)
    requires Inv(l) && k <= |l.active|
    ensures var l' := CheckRound(l, k, now, isRelay, turn); Inv(l') && Keeps(l, l')
    decreases k
  {
    hide Inv, Keeps, CheckOne;
    assert l.Shaped() by { InvShaped(l); }
    if k > 0 {
      var l1 := CheckRound(l, k - 1, now, isRelay, turn);
      CheckRoundInv(l, k - 1, now, isRelay, turn);
      CheckOneInv(l1, l.active[k - 1], now, isRelay, turn(k - 1));
      KeepsTrans(l, l1, CheckRound(l, k, now, isRelay, turn));
    } else {
      KeepsSelf(l);
    }
  }

  lemma KeepsSelf(l: List)
    requires l.Shaped()
    ensures Keeps(l, l)
  {
  }

  lemma RespondInv(l: List, remotes: seq<Candidate>, src: Address)
    requires Inv(l)
    ensures Inv(Respond(l, remotes, src)) && Keeps(l, Respond(l, remotes, src))
  {
    assert Keeps(l, Respond(l, remotes, src));
    KeepsDescending(l, Respond(l, remotes, src));
  }

  lemma CheckInv(l: List, now: int, isRelay: nat -> bool, turn: nat -> Turn, remotes: seq<Candidate>,
                 response: Option<Address>)
    requires Inv(l)
    ensures var l' := Check(l, now, isRelay, turn, remotes, response).0; Inv(l') && Keeps(l, l')
  {
    hide Inv, Keeps, CheckRound, Respond;
    InvShaped(l);
    CheckRoundInv(l, |l.active|, now, isRelay, turn);
    var l1 := CheckRound(l, |l.active|, now, isRelay, turn);
    var l2 := l1;
    if response.Some? {
      l2 := Respond(l1, remotes, response.value);
      RespondInv(l1, remotes, response.value);
      KeepsTrans(l, l1, l2);
    }
    var s := FirstSucceeded(l2, 0);
    if s.Some? {
      PointersInv(l2, s.value);
      KeepsTrans(l, l2, l2.(selected := s, nominated := s));
    }
  }

  lemma PointersInv(l: List, x: nat)
    requires Inv(l) && x < MAX_PAIRS
    ensures var l' := l.(selected := Some(x), nominated := Some(x)); Inv(l') && Keeps(l, l')
  {
  }

  /** Any way the checklist is used between two rebuilds. */
  datatype Use =
    | UseSelect
    | UseCheck(now: int, turn: nat -> Turn, response: Option<Address>)
    | UseResponse(src: Address)

  function Step(l: List, u: Use, isRelay: nat -> bool, remotes: seq<Candidate>): (l': List)
    requires l.Shaped()
    ensures l'.Shaped() && l'.num == l.num
  {
    match u
    case UseSelect => Select(l).0
    case UseCheck(now, turn, response) => Check(l, now, isRelay, turn, remotes, response).0
    case UseResponse(src) => Respond(l, remotes, src)
  }

  function Run(l: List, us: seq<Use>, isRelay: nat -> bool, remotes: seq<Candidate>): (l': List)
    requires l.Shaped()
    ensures l'.Shaped() && l'.num == l.num
    decreases |us|
  {
    if us == [] then l else Step(Run(l, us[..|us| - 1], isRelay, remotes), us[|us| - 1], isRelay, remotes)
  }

  /** The invariant over every run, and the finality of success and failure until the list is
      rebuilt. */
  lemma {:induction false} ChecklistInvariant(l: List, us: seq<Use>, isRelay: nat -> bool, remotes: seq<Candidate>)
    requires Inv(l)
    ensures Inv(Run(l, us, isRelay, remotes)) && Keeps(l, Run(l, us, isRelay, remotes))
    decreases |us|
  {
    if us != [] {
      var before, u := Run(l, us[..|us| - 1], isRelay, remotes), us[|us| - 1];
      ChecklistInvariant(l, us[..|us| - 1], isRelay, remotes);
      match u
      case UseSelect => SelectInv(before);
      case UseCheck(now, turn, response) => CheckInv(before, now, isRelay, turn, remotes, response);
      case UseResponse(src) => RespondInv(before, remotes, src);
    }
  }

  // ---------------------------------------------------------------- nomination

  function RespondAll(l: List, remotes: seq<Candidate>, srcs: seq<Address>): (l': List)
    requires l.Shaped()
    ensures l'.Shaped()
    decreases |srcs|
  {
    if srcs == [] then l else Respond(RespondAll(l, remotes, srcs[..|srcs| - 1]), remotes, srcs[|srcs| - 1])
  }

  ghost predicate Nominated(l: List, x: nat)
    requires l.Shaped()
  {
    l.nominated == l.selected == Some(x) && x < MAX_PAIRS && l.table[x].state.Succeeded?
  }

  lemma {:induction false} ResponsesKeepNomination(l: List, x: nat, remotes: seq<Candidate>, srcs: seq<Address>)
    requires l.Shaped() && Nominated(l, x)
    ensures Nominated(RespondAll(l, remotes, srcs), x)
    decreases |srcs|
  {
    if srcs != [] {
      ResponsesKeepNomination(l, x, remotes, srcs[..|srcs| - 1]);
    }
  }

  /** Once a round of checks has reported success, its pair stays selected and nominated through
      any later responses. */
  lemma NominationStable(l: List, now: int, isRelay: nat -> bool, turn: nat -> Turn, remotes: seq<Candidate>,
                         response: Option<Address>, srcs: seq<Address>)
    requires l.Shaped() && Check(l, now, isRelay, turn, remotes, response).1
    ensures var l1 := Check(l, now, isRelay, turn, remotes, response).0;
            var l2 := RespondAll(l1, remotes, srcs);
            && l1.nominated.Some? && Nominated(l1, l1.nominated.value)
            && l2.nominated == l1.nominated && l2.selected == l1.selected
  {
    var l1 := Check(l, now, isRelay, turn, remotes, response).0;
    ResponsesKeepNomination(l1, l1.nominated.value, remotes, srcs);
  }

  // ---------------------------------------------------------------- checking ends

  /** How many more rounds a pair can stay unsettled. */
  function Weight(p: Pair): int {
    match p.state
    case Frozen => MAX_CHECKS + 1
    case InProgress => MAX_CHECKS + 1 - p.checks
    case _ => 0
  }

  function Work(table: seq<Pair>, n: nat): int
    requires n <= |table|
  {
    if n == 0 then 0 else Work(table, n - 1) + Weight(table[n - 1])
  }

  lemma {:induction false} WorkUpdate(table: seq<Pair>, n: nat, x: nat, p: Pair)
    requires n <= |table| && x < |table|
    ensures Work(table[x := p], n) == Work(table, n) + if x < n then Weight(p) - Weight(table[x]) else 0
    decreases n
  {
    if n > 0 { WorkUpdate(table, n - 1, x, p); }
  }

  lemma {:induction false} WorkBound(table: seq<Pair>, n: nat)
    requires n <= |table| && forall x | 0 <= x < n :: table[x].checks <= MAX_CHECKS
    ensures 0 <= Work(table, n) <= (MAX_CHECKS + 1) * n
    decreases n
  {
    if n > 0 { WorkBound(table, n - 1); }
  }

  /** No pair has succeeded, and every pair in progress was last checked at time `last`. */
  ghost predicate Waiting(l: List, last: int)
    requires l.Shaped()
  {
    forall x | 0 <= x < l.num ::
      var p := l.table[x];
      !p.state.Succeeded? && (p.state.InProgress? ==> p.checks == 0 || p.timestamp == last)
  }

  ghost predicate AllInProgress(l: List)
    requires l.Shaped()
  {
    forall k | 0 <= k < |l.active| :: l.table[l.active[k]].state.InProgress?
  }

  lemma ActivateWork(l: List, i: nat, last: int)
    requires Inv(l) && Waiting(l, last) && AllInProgress(l)
    requires i < l.num && |l.active| < MAX_ACTIVE && l.table[i].state.Frozen?
    ensures var l1 := Activate(l, i);
            Work(l1.table, l1.num) == Work(l.table, l.num) && Waiting(l1, last) && AllInProgress(l1)
  {
    WorkUpdate(l.table, l.num, i, l.table[i].(state := InProgress, checks := 0, timestamp := 0));
  }

  /** Thawing adds no work; it leaves no frozen pair behind unless the active set is full. */
  lemma {:induction false} ThawWork(l: List, i: nat, last: int)
    requires Inv(l) && Waiting(l, last) && AllInProgress(l)
    requires i <= l.num && forall x | 0 <= x < i :: !l.table[x].state.Frozen?
    ensures var l' := Thaw(l, i);
            && Work(l'.table, l'.num) == Work(l.table, l.num) && Waiting(l', last) && AllInProgress(l')
            && (|l'.active| < MAX_ACTIVE ==> forall x | i <= x < l.num :: !l'.table[x].state.Frozen?)
    decreases l.num - i
  {
    hide Inv, Waiting, AllInProgress;
    assert l.Shaped() by { InvShaped(l); }
    if i < l.num && |l.active| < MAX_ACTIVE {
      if l.table[i].state.Frozen? {
        ActivateInv(l, i);
        ActivateWork(l, i, last);
        ThawWork(Activate(l, i), i + 1, last);
        ThawKeepsBelow(Activate(l, i), i + 1, i);
      } else {
        NothingFrozenBelow(l, i);
        ThawWork(l, i + 1, last);
        ThawKeepsBelow(l, i + 1, i);
      }
    }
  }

  lemma {:induction false} ThawKeepsBelow(l: List, i: nat, x: nat)
    requires l.Shaped() && x < i
    ensures x < |l.table| ==> Thaw(l, i).table[x] == l.table[x]
    decreases l.num - i
  {
    if i < l.num && |l.active| < MAX_ACTIVE {
      if l.table[i].state.Frozen? { ThawKeepsBelow(Activate(l, i), i + 1, x); } else { ThawKeepsBelow(l, i + 1, x); }
    }
  }

  /** Selecting while nothing has succeeded: either some pair is active and all active ones are
      in progress, or every pair has failed. */
  lemma SelectWork(l: List, last: int)
    requires Inv(l) && Waiting(l, last)
    ensures var (l', ok) := Select(l);
            && Work(l'.table, l'.num) == Work(l.table, l.num) && Waiting(l', last) && AllInProgress(l')
            && ok == (|l'.active| > 0)
            && (!ok ==> forall x | 0 <= x < l.num :: l'.table[x].state.Failed?)
  {
    var l1 := l.(active := DropFailed(l.table, l.active));
    DropInv(l);
    forall k | 0 <= k < |l1.active| ensures l.table[l1.active[k]].state.InProgress? {
      DropFailedWithin(l.table, l.active, k);
    }
    ThawWork(l1, 0, last);
    ThawInv(l1, 0);
    assert FirstSucceeded(l, 0).None?;
  }

  // ---------------------------------------------------------------- a round of checks

  /** After the first k active pairs of a round: those not yet reached, and all inactive ones,
      are as they were; those reached have failed or carry the round's time. */
  ghost predicate RoundSoFar(l: List, l': List, k: nat, now: int)
    requires l.Shaped() && l'.Shaped() && k <= |l.active|
  {
    && (forall j | k <= j < |l.active| :: l'.table[l.active[j]] == l.table[l.active[j]])
    && (forall j | 0 <= j < k ::
          var p := l'.table[l.active[j]]; p.state.Failed? || (p.state.InProgress? && p.timestamp == now))
    && (forall x | 0 <= x < l.num && x !in l.active :: l'.table[x] == l.table[x])
  }

  lemma RoundStep(l: List, l1: List, l2: List, k: nat, now: int)
    requires l.Shaped() && l1.Shaped() && l2.Shaped() && 0 < k <= |l.active| && Distinct(l.active)
    requires RoundSoFar(l, l1, k - 1, now)
    requires forall y | 0 <= y < MAX_PAIRS && y != l.active[k - 1] :: l2.table[y] == l1.table[y]
    requires var p := l2.table[l.active[k - 1]]; p.state.Failed? || (p.state.InProgress? && p.timestamp == now)
    ensures RoundSoFar(l, l2, k, now)
  {
  }

  lemma {:induction false} RoundUsesWork(l: List, k: nat, now: int, last: int, isRelay: nat -> bool, turn: nat -> Turn)
    requires Inv(l) && Waiting(l, last) && AllInProgress(l) && k <= |l.active|
    requires (now - last) % CLOCK >= INTERVAL_MS
    ensures var l' := CheckRound(l, k, now, isRelay, turn);
            RoundSoFar(l, l', k, now) && Work(l'.table, l'.num) <= Work(l.table, l.num) - k
    decreases k
  {
    hide CheckOne, RoundSoFar, Work, Inv, Waiting, AllInProgress;
    InvShaped(l);
    if k > 0 {
      var l1, x := CheckRound(l, k - 1, now, isRelay, turn), l.active[k - 1];
      ActivePair(l, k - 1, last);
      RoundUsesWork(l, k - 1, now, last, isRelay, turn);
      NotYetReached(l, l1, k - 1, now);
      CheckOneWork(l1, x, now, last, isRelay, turn(k - 1));
      RoundStep(l, l1, CheckRound(l, k, now, isRelay, turn), k, now);
    } else {
      RoundStart(l, now);
    }
  }

  lemma ActivePair(l: List, k: nat, last: int)
    requires Inv(l) && Waiting(l, last) && AllInProgress(l) && k < |l.active|
    ensures var p := l.table[l.active[k]];
            Distinct(l.active) && p.state.InProgress? && p.checks <= MAX_CHECKS && (p.checks == 0 || p.timestamp == last)
  {
  }

  lemma NotYetReached(l: List, l1: List, k: nat, now: int)
    requires l.Shaped() && l1.Shaped() && k < |l.active| && RoundSoFar(l, l1, k, now)
    ensures l1.table[l.active[k]] == l.table[l.active[k]]
  {
  }

  lemma RoundStart(l: List, now: int)
    requires l.Shaped()
    ensures RoundSoFar(l, l, 0, now)
  {
  }

  lemma CheckOneWork(l: List, x: nat, now: int, last: int, isRelay: nat -> bool, turn: Turn)
    requires l.Shaped() && x < l.num && (now - last) % CLOCK >= INTERVAL_MS
    requires l.table[x].state.InProgress? && l.table[x].checks <= MAX_CHECKS
    requires l.table[x].checks == 0 || l.table[x].timestamp == last
    ensures var l' := CheckOne(l, x, now, isRelay, turn);
            var p := l'.table[x];
            && (p.state.Failed? || (p.state.InProgress? && p.timestamp == now))
            && Work(l'.table, l'.num) <= Work(l.table, l.num) - 1
  {
    WorkUpdate(l.table, l.num, x, CheckOne(l, x, now, isRelay, turn).table[x]);
    assert CheckOne(l, x, now, isRelay, turn).table == l.table[x := CheckOne(l, x, now, isRelay, turn).table[x]];
  }

  /** A round without responses, late enough after the previous one, uses up one unit of work
      per active pair. */
  lemma RoundWork(l: List, now: int, last: int, isRelay: nat -> bool, turn: nat -> Turn, remotes: seq<Candidate>)
    requires Inv(l) && Waiting(l, last) && AllInProgress(l) && |l.active| > 0
    requires (now - last) % CLOCK >= INTERVAL_MS
    ensures var (l', ok) := Check(l, now, isRelay, turn, remotes, None);
            && !ok && Waiting(l', now) && Work(l'.table, l'.num) <= Work(l.table, l.num) - |l.active|
  {
    hide CheckRound, Work;
    RoundUsesWork(l, |l.active|, now, last, isRelay, turn);
    var l1 := CheckRound(l, |l.active|, now, isRelay, turn);
    assert l.table[l.active[0]].state.InProgress?;
    RoundSettles(l, l1, now);
    assert FirstSucceeded(l1, 0).None?;
  }

  lemma RoundSettles(l: List, l': List, now: int)
    requires Inv(l) && l'.Shaped() && l'.num == l.num && RoundSoFar(l, l', |l.active|, now)
    requires forall x | 0 <= x < l.num :: !l.table[x].state.Succeeded?
    ensures Waiting(l', now)
  {
    forall x | 0 <= x < l.num
      ensures !l'.table[x].state.Succeeded? && (l'.table[x].state.InProgress? ==> l'.table[x].timestamp == now)
    {
      if x in l.active {
        var j :| 0 <= j < |l.active| && l.active[j] == x;
      }
    }
  }

  // ---------------------------------------------------------------- the connection gives up

  datatype PeerState = Checking | Connected | PeerFailed

  /** The CHECKING branch of peer_connection_loop. */
  function Loop(l: List, now: int, isRelay: nat -> bool, turn: nat -> Turn, remotes: seq<Candidate>,
                response: Option<Address>): (r: (List, PeerState))
    requires l.Shaped()
    ensures r.0.Shaped()
  {
    var (l1, some) := Select(l);
    if !some then (l1, PeerFailed)
    else
      var (l2, success) := Check(l1, now, isRelay, turn, remotes, response);
      (l2, if success then Connected else Checking)
  }

  /** Whether looping at the given times, without responses, makes the connection fail. */
  predicate GivesUp(l: List, nows: seq<int>, isRelay: nat -> bool, turns: seq<nat -> Turn>, remotes: seq<Candidate>)
    requires l.Shaped() && |turns| == |nows|
    decreases |nows|
  {
    nows != [] &&
    var (l', state) := Loop(l, nows[0], isRelay, turns[0], remotes, None);
    state.PeerFailed? || (state.Checking? && GivesUp(l', nows[1..], isRelay, turns[1..], remotes))
  }

  /** Consecutive times are at least the check interval apart on the 32-bit clock. */
  predicate Spaced(nows: seq<int>) {
    forall i | 0 < i < |nows| :: (nows[i] - nows[i - 1]) % CLOCK >= INTERVAL_MS
  }

  lemma {:induction false} WorkRunsOut(l: List, last: int, nows: seq<int>, isRelay: nat -> bool,
                                       turns: seq<nat -> Turn>, remotes: seq<Candidate>)
    requires Inv(l) && Waiting(l, last) && |turns| == |nows| && Spaced([last] + nows)
    requires |nows| > Work(l.table, l.num)
    ensures GivesUp(l, nows, isRelay, turns, remotes)
    decreases |nows|
  {
    WorkBound(l.table, l.num);
    SelectInv(l);
    SelectWork(l, last);
    SpacedTail(last, nows);
    var (l1, some) := Select(l);
    if some {
      RoundWork(l1, nows[0], last, isRelay, turns[0], remotes);
      CheckInv(l1, nows[0], isRelay, turns[0], remotes, None);
      var l2 := Check(l1, nows[0], isRelay, turns[0], remotes, None).0;
      WorkRunsOut(l2, nows[0], nows[1..], isRelay, turns[1..], remotes);
    }
  }

  lemma SpacedTail(last: int, nows: seq<int>)
    requires nows != [] && Spaced([last] + nows)
    ensures (nows[0] - last) % CLOCK >= INTERVAL_MS && Spaced(nows) && [nows[0]] + nows[1..] == nows
  {
    var all := [last] + nows;
    assert (all[1] - all[0]) % CLOCK >= INTERVAL_MS;
    forall i | 0 < i < |nows| ensures (nows[i] - nows[i - 1]) % CLOCK >= INTERVAL_MS {
      assert ([last] + nows)[i + 1] == nows[i] && ([last] + nows)[i] == nows[i - 1];
    }
  }

  /** From a newly formed list of n pairs, with no responses and iterations at least 50 ms apart,
      the connection fails within 101 * n + 1 iterations, whatever the TURN relay does. */
  lemma CheckingEnds(l: List, pairs: seq<Pair>, nows: seq<int>, isRelay: nat -> bool,
                     turns: seq<nat -> Turn>, remotes: seq<Candidate>)
    requires |l.table| == MAX_PAIRS && |pairs| <= MAX_PAIRS && (l.nominated.Some? ==> l.nominated.value < MAX_PAIRS)
    requires Descending(pairs) && forall i | 0 <= i < |pairs| :: pairs[i].state.Frozen? && pairs[i].checks == 0
    requires |turns| == |nows| == (MAX_CHECKS + 1) * |pairs| + 1 && Spaced(nows)
    ensures GivesUp(Rebuilt(l, pairs), nows, isRelay, turns, remotes)
  {
    RebuiltInv(l, pairs);
    WorkBound(Rebuilt(l, pairs).table, |pairs|);
    var last := nows[0] - INTERVAL_MS;
    assert Spaced([last] + nows);
    WorkRunsOut(Rebuilt(l, pairs), last, nows, isRelay, turns, remotes);
  }
}
