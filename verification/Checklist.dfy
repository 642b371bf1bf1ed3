/** The ICE checklist: forming pairs, keeping a few of them active, checking and retrying them,
    and nominating one, as functions on values. `IceAgent` runs them in place. */
module Checklist {
  import opened Options

  const MAX_PAIRS := 100
  const MAX_ACTIVE := 5
  const MAX_CHECKS := 100
  const INTERVAL_MS := 50
  const CLOCK := 0x1_0000_0000

  // ---------------------------------------------------------------- candidates

  datatype Family = Unspecified | Inet | Inet6

  /** `ip` is the address in host order: 32 bits for Inet, 128 for Inet6. */
  datatype Address = Address(family: Family, ip: nat, port: nat)

  datatype CandidateType = Host | Srflx | Prflx | Relay

  datatype Candidate = Candidate(typ: CandidateType, addr: Address, priority: nat)

  predicate AddrEqual(a: Address, b: Address) {
    a.family == b.family && a.port == b.port && !a.family.Unspecified? && a.ip == b.ip
  }

  /** 10.0.0.0/8, 172.16.0.0/12, 192.168.0.0/16. */
  predicate IsPrivate(a: Address) {
    && a.family.Inet?
    && (a.ip / 0x100_0000 == 10 || a.ip / 0x10_0000 == 172 * 16 + 1 || a.ip / 0x1_0000 == 192 * 256 + 168)
  }

  /** A private host is reachable from private hosts only, and two server-reflexive candidates
      of one public address would need hairpinning. */
  predicate Impossible(local: Candidate, remote: Candidate) {
    && local.addr.family.Inet? && remote.addr.family.Inet?
    && ((remote.typ.Host? && IsPrivate(remote.addr) && !(local.typ.Host? && IsPrivate(local.addr))) ||
        (local.typ.Srflx? && remote.typ.Srflx? && local.addr.ip == remote.addr.ip))
  }

  /** IPv4 address a.b.c.d. */
  function Inet4(a: nat, b: nat, c: nat, d: nat, port: nat): Address
    requires a < 256 && b < 256 && c < 256 && d < 256
  {
    Address(Inet, ((a * 256 + b) * 256 + c) * 256 + d, port)
  }

  /** The private networks of RFC 1918, by octets. */
  lemma PrivateNetworks(a: nat, b: nat, c: nat, d: nat, port: nat)
    requires a < 256 && b < 256 && c < 256 && d < 256
    ensures IsPrivate(Inet4(a, b, c, d, port)) <==>
              a == 10 || (a == 172 && 16 <= b <= 31) || (a == 192 && b == 168)
  {
  }

  /** Which pairs are not tried, by the types of the two candidates: only IPv4 ones are ruled out. */
  lemma ImpossiblePairs(local: Candidate, remote: Candidate)
    requires local.addr.family == remote.addr.family
    ensures local.addr.family != Inet ==> !Impossible(local, remote)
    ensures remote.typ == Host && IsPrivate(remote.addr) ==>
              (Impossible(local, remote) <==> local.typ != Host || !IsPrivate(local.addr))
    ensures remote.typ == Host && !IsPrivate(remote.addr) ==> !Impossible(local, remote)
    ensures remote.typ == Srflx && remote.addr.family == Inet ==>
              (Impossible(local, remote) <==> local.typ == Srflx && local.addr.ip == remote.addr.ip)
    ensures remote.typ == Prflx || remote.typ == Relay ==> !Impossible(local, remote)
  {
  }

  predicate Eligible(local: Candidate, remote: Candidate) {
    local.addr.family == remote.addr.family && !Impossible(local, remote)
  }

  // ---------------------------------------------------------------- pairs

  datatype PairState = Frozen | Waiting | InProgress | Succeeded | Failed

  /** `local` and `remote` are indices of candidates. */
  datatype Pair = Pair(state: PairState, local: nat, remote: nat, checks: nat, timestamp: int, priority: nat)

  /** The sum of the priorities is formed in 32 bits before it is stored in 64. */
  function NewPair(locals: seq<Candidate>, remotes: seq<Candidate>, i: nat, j: nat): Pair
    requires i < |locals| && j < |remotes|
  {
    Pair(Frozen, i, j, 0, 0, (locals[i].priority + remotes[j].priority) % CLOCK)
  }

  /** Where the sums do not wrap, which priorities of 31 bits cannot, the pair with the larger sum
      has the higher priority. */
  lemma PairOrder(locals: seq<Candidate>, remotes: seq<Candidate>, i: nat, j: nat, i': nat, j': nat)
    requires i < |locals| && i' < |locals| && j < |remotes| && j' < |remotes|
    requires locals[i].priority + remotes[j].priority < 0x1_0000_0000
    requires locals[i'].priority + remotes[j'].priority < 0x1_0000_0000
    ensures NewPair(locals, remotes, i, j).priority >= NewPair(locals, remotes, i', j').priority <==>
              locals[i].priority + remotes[j].priority >= locals[i'].priority + remotes[j'].priority
  {
  }

  /** The pairs of local candidate i with the first n remote ones. */
  function PairsOf(locals: seq<Candidate>, remotes: seq<Candidate>, i: nat, n: nat): (ps: seq<Pair>)
    requires i < |locals| && n <= |remotes|
    ensures |ps| <= n
  {
    if n == 0 then []
    else PairsOf(locals, remotes, i, n - 1) +
         if Eligible(locals[i], remotes[n - 1]) then [NewPair(locals, remotes, i, n - 1)] else []
  }

  /** The pairs of the first m local candidates with all remote ones. */
  function Formed(locals: seq<Candidate>, remotes: seq<Candidate>, m: nat): seq<Pair>
    requires m <= |locals|
  {
    if m == 0 then [] else Formed(locals, remotes, m - 1) + PairsOf(locals, remotes, m - 1, |remotes|)
  }

  lemma {:induction false} FormedFits(locals: seq<Candidate>, remotes: seq<Candidate>, m: nat)
    requires m <= |locals| <= 10 && |remotes| <= 10
    ensures |Formed(locals, remotes, m)| <= 10 * m
    decreases m
  {
    if m > 0 { FormedFits(locals, remotes, m - 1); }
  }

  predicate Descending(ps: seq<Pair>) {
    forall i, j | 0 <= i < j < |ps| :: ps[i].priority >= ps[j].priority
  }

  lemma {:induction false} PairsOfExactly(locals: seq<Candidate>, remotes: seq<Candidate>, i: nat, n: nat, p: Pair)
    requires i < |locals| && n <= |remotes|
    ensures multiset(PairsOf(locals, remotes, i, n))[p] ==
            if p.local == i && p.remote < n && Eligible(locals[i], remotes[p.remote]) &&
               p == NewPair(locals, remotes, i, p.remote)
            then 1 else 0
    decreases n
  {
    hide Eligible;
    if n > 0 {
      PairsOfExactly(locals, remotes, i, n - 1, p);
    }
  }

  /** Every same-family pair that is not impossible is formed exactly once, frozen and
      unchecked; nothing else is formed. */
  lemma {:induction false} FormedExactly(locals: seq<Candidate>, remotes: seq<Candidate>, m: nat, p: Pair)
    requires m <= |locals|
    ensures multiset(Formed(locals, remotes, m))[p] ==
            if p.local < m && p.remote < |remotes| && Eligible(locals[p.local], remotes[p.remote]) &&
               p == NewPair(locals, remotes, p.local, p.remote)
            then 1 else 0
    decreases m
  {
    hide PairsOf, NewPair, Eligible;
    if m > 0 {
      FormedExactly(locals, remotes, m - 1, p);
      PairsOfExactly(locals, remotes, m - 1, |remotes|, p);
    }
  }

  // ---------------------------------------------------------------- the checklist

  /** The pair table, of which the first `num` entries are in use; the active pairs, the
      selected and the nominated one as indices into the table; and whether TURN is set up. */
  datatype List = List(table: seq<Pair>, num: nat, active: seq<nat>, selected: Option<nat>, nominated: Option<nat>,
                       relayReady: bool)
  {
    predicate Shaped() {
      && |table| == MAX_PAIRS && num <= MAX_PAIRS
      && (forall k | 0 <= k < |active| :: active[k] < num)
      && (nominated.Some? ==> nominated.value < MAX_PAIRS)
    }
  }

  /** A new list keeps the stale selected and nominated pointers of the old one. */
  function Rebuilt(l: List, pairs: seq<Pair>): List
    requires |l.table| == MAX_PAIRS && |pairs| <= MAX_PAIRS
  {
    l.(table := pairs + l.table[|pairs|..], num := |pairs|, active := [])
  }

  // ---------------------------------------------------------------- selecting

  function FirstSucceeded(l: List, k: nat): (r: Option<nat>)
    requires l.Shaped()
    ensures r.Some? ==> r.value in l.active && l.table[r.value].state.Succeeded?
    ensures r.None? ==> forall j | k <= j < |l.active| :: !l.table[l.active[j]].state.Succeeded?
    decreases |l.active| - k
  {
    if k >= |l.active| then None
    else if l.table[l.active[k]].state.Succeeded? then Some(l.active[k])
    else FirstSucceeded(l, k + 1)
  }

  /** The active pairs that have not failed. */
  function DropFailed(table: seq<Pair>, active: seq<nat>): (r: seq<nat>)
    requires forall k | 0 <= k < |active| :: active[k] < |table|
    ensures |r| <= |active|
    ensures forall k | 0 <= k < |r| :: r[k] < |table| && !table[r[k]].state.Failed?
  {
    if active == [] then []
    else
      var last := active[|active| - 1];
      DropFailed(table, active[..|active| - 1]) + if table[last].state.Failed? then [] else [last]
  }

  lemma {:induction false} DropFailedBelow(table: seq<Pair>, active: seq<nat>, n: nat)
    requires n <= |table| && forall k | 0 <= k < |active| :: active[k] < n
    ensures forall k | 0 <= k < |DropFailed(table, active)| :: DropFailed(table, active)[k] < n
    decreases |active|
  {
    if active != [] { DropFailedBelow(table, active[..|active| - 1], n); }
  }

  lemma {:induction false} DropFailedWithin(table: seq<Pair>, active: seq<nat>, k: nat)
    requires forall j | 0 <= j < |active| :: active[j] < |table|
    requires k < |DropFailed(table, active)|
    ensures DropFailed(table, active)[k] in active
    decreases |active|
  {
    var before := active[..|active| - 1];
    if k < |DropFailed(table, before)| { DropFailedWithin(table, before, k); }
  }

  function Activate(l: List, i: nat): (l': List)
    requires l.Shaped() && i < l.num
    ensures l'.Shaped() && l'.num == l.num
  {
    l.(table := l.table[i := l.table[i].(state := InProgress, checks := 0, timestamp := 0)], active := l.active + [i])
  }

  /** Thaws frozen pairs from index i on, in order, while there is room. */
  function Thaw(l: List, i: nat): (l': List)
    requires l.Shaped()
    ensures l'.Shaped() && l'.num == l.num && l'.selected == l.selected && l'.nominated == l.nominated
    decreases l.num - i
  {
    if i >= l.num || |l.active| >= MAX_ACTIVE then l
    else if l.table[i].state.Frozen? then
      Thaw(Activate(l, i), i + 1)
    else Thaw(l, i + 1)
  }

  /** agent_select_candidate_pair: false stands for -1. */
  function Select(l: List): (r: (List, bool))
    requires l.Shaped()
    ensures r.0.Shaped() && r.0.num == l.num
  {
    var s := FirstSucceeded(l, 0);
    if s.Some? then (l.(selected := s), true)
    else
      DropFailedBelow(l.table, l.active, l.num);
      var l' := Thaw(l.(active := DropFailed(l.table, l.active)), 0);
      (l', |l'.active| > 0)
  }

  // ---------------------------------------------------------------- checking

  /** What setting up the TURN relay may come to. */
  datatype Turn = TurnReady | TurnNotReady | TurnFailed

  predicate Due(p: Pair, now: int) {
    (now - p.timestamp) % CLOCK >= INTERVAL_MS
  }

  /** One active pair in a round of checks. `isRelay` tells relayed local candidates. */
  function CheckOne(l: List, x: nat, now: int, isRelay: nat -> bool, turn: Turn): (l': List)
    requires l.Shaped() && x < l.num
    ensures l'.Shaped() && l'.num == l.num && l'.active == l.active
    ensures forall y | 0 <= y < MAX_PAIRS && y != x :: l'.table[y] == l.table[y]
  {
    var p := l.table[x];
    if !p.state.InProgress? then l
    else
      var setup := isRelay(p.local) && !l.relayReady;
      if setup && turn.TurnFailed? then l.(table := l.table[x := p.(state := Failed)])
      else
        var l1 := l.(relayReady := l.relayReady || (setup && turn.TurnReady?));
        if p.checks >= MAX_CHECKS && Due(p, now) then l1.(table := l.table[x := p.(state := Failed)])
        else if p.checks == 0 || Due(p, now) then
          l1.(table := l.table[x := p.(checks := p.checks + 1, timestamp := now)], nominated := Some(x))
        else l1
  }

  /** The first k active pairs in a round of checks. */
  function CheckRound(l: List, k: nat, now: int, isRelay: nat -> bool, turn: nat -> Turn): (l': List)
    requires l.Shaped() && k <= |l.active|
    ensures l'.Shaped() && l'.num == l.num && l'.active == l.active
  {
    if k == 0 then l
    else
      var l1 := CheckRound(l, k - 1, now, isRelay, turn);
      CheckOne(l1, l.active[k - 1], now, isRelay, turn(k - 1))
  }

  // ---------------------------------------------------------------- responses

  function FirstMatch(l: List, remotes: seq<Candidate>, src: Address, k: nat): (r: Option<nat>)
    requires l.Shaped()
    ensures r.Some? ==> r.value in l.active && l.table[r.value].state.InProgress?
    decreases |l.active| - k
  {
    if k >= |l.active| then None
    else
      var p := l.table[l.active[k]];
      if p.state.InProgress? && p.remote < |remotes| && AddrEqual(remotes[p.remote].addr, src) then Some(l.active[k])
      else FirstMatch(l, remotes, src, k + 1)
  }

  /** An authenticated binding response from `src`. */
  function Respond(l: List, remotes: seq<Candidate>, src: Address): (l': List)
    requires l.Shaped()
    ensures l'.Shaped() && l'.num == l.num && l'.active == l.active && l'.selected == l.selected
  {
    match FirstMatch(l, remotes, src, 0)
    case None => l
    case Some(x) =>
      var table := l.table[x := l.table[x].(state := Succeeded)];
      var keep := l.nominated.Some? && table[l.nominated.value].state.Succeeded?;
      l.(table := table, nominated := if keep then l.nominated else Some(x))
  }

  /** agent_connectivity_check: a round of checks, at most one packet received, and the verdict;
      false stands for -1. */
  function Check(l: List, now: int, isRelay: nat -> bool, turn: nat -> Turn, remotes: seq<Candidate>,
                 response: Option<Address>): (r: (List, bool))
    requires l.Shaped()
    ensures r.0.Shaped() && r.0.num == l.num
  {
    var l1 := CheckRound(l, |l.active|, now, isRelay, turn);
    if forall k | 0 <= k < |l.active| :: !l.table[l.active[k]].state.InProgress? then (l1, false)
    else
      var l2 := if response.Some? then Respond(l1, remotes, response.value) else l1;
      var s := FirstSucceeded(l2, 0);
      if s.Some? then (l2.(selected := s, nominated := s), true) else (l2, false)
  }
}
