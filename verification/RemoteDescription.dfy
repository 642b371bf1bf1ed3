/** The remote session description: its lines, the credentials and the candidates in it. */
module RemoteDescription {
  import opened Options
  import opened Text
  import opened Checklist
  import opened IceCandidate

  const MAX_CANDIDATES := 10
  const MAX_CREDENTIAL := 256
  const MAX_DESCRIPTION := 40960
  const CRLF := "\r\n"
  const UFRAG := "a=ice-ufrag:"
  const PWD := "a=ice-pwd:"

  datatype Remote = Remote(ufrag: string, pwd: string, candidates: seq<Full>)

  predicate Known(cs: seq<Full>, c: Full) {
    exists i | 0 <= i < |cs| :: Equal(cs[i], c)
  }

  predicate CredentialFits(s: string) { 0 < |s| <= MAX_CREDENTIAL }

  /** What one line does: the last credentials count, a line that is no candidate this parser
      reads is passed over, and so is a candidate equal to an earlier one. */
  function Step(lib: Library, r: Remote, line: string): Option<Remote> {
    if UFRAG <= line then
      if CredentialFits(line[|UFRAG|..]) then Some(r.(ufrag := line[|UFRAG|..])) else None
    else if PWD <= line then
      if CredentialFits(line[|PWD|..]) then Some(r.(pwd := line[|PWD|..])) else None
    else if PREFIX <= line then
      var c := Parse(lib, line);
      if c.None? || Known(r.candidates, c.value) then Some(r)
      else if |r.candidates| >= MAX_CANDIDATES then None
      else Some(r.(candidates := r.candidates + [c.value]))
    else Some(r)
  }

  /** The loop over the lines of a text. */
  function Steps(lib: Library, r: Remote, text: string): Option<Remote>
    decreases |text|
  {
    if text == [] then Some(r)
    else
      var at := Find(text, CRLF);
      var next := Step(lib, r, if at.None? then text else text[..at.value]);
      if next.None? || at.None? then next
      else
        assert |CRLF| <= |text[at.value..]|;
        Steps(lib, next.value, text[at.value + 2..])
  }

  function Finished(r: Option<Remote>): Option<Remote> {
    if r.None? || r.value.ufrag == [] || r.value.pwd == [] then None else r
  }

  /** What a description leaves in the agent. */
  function Accepted(lib: Library, text: string): Option<Remote> {
    if |text| > MAX_DESCRIPTION then None else Finished(Steps(lib, Remote([], [], []), text))
  }

  class Agent {
    var remote: Remote

    constructor ()
      ensures remote == Remote([], [], [])
    {
      remote := Remote([], [], []);
    }

    /** Nothing is taken over from a description that is refused. */
    method SetRemoteDescription(lib: Library, text: string) returns (ok: bool)
      modifies this
      ensures ok == Accepted(lib, text).Some?
      ensures remote == if ok then Accepted(lib, text).value else old(remote)
    {
      hide Step, Find;
      if |text| > MAX_DESCRIPTION { return false; }
      var r, rest := Remote([], [], []), text;
      while rest != []
        invariant Steps(lib, r, rest) == Steps(lib, Remote([], [], []), text)
        decreases |rest|
      {
        var end := Find(rest, CRLF);
        var next := Step(lib, r, if end.None? then rest else rest[..end.value]);
        if next.None? { return false; }
        r := next.value;
        if end.None? { rest := []; } else {
          assert |CRLF| <= |rest[end.value..]|;
          rest := rest[end.value + 2..];
        }
      }
      if r.ufrag == [] || r.pwd == [] { return false; }
      remote := r;
      return true;
    }
  }

  // ---------------------------------------------------------------- descriptions written by the other side

  /** A line of a description, by what it is for. */
  datatype Item = Ufrag(value: string) | Pwd(value: string) | Candidate(candidate: Full) | Other(line: string)

  function LineOf(lib: Library, i: Item): string {
    match i
    case Ufrag(s) => UFRAG + s
    case Pwd(s) => PWD + s
    case Candidate(c) => Print(lib, c, [])
    case Other(l) => l
  }

  function Written(lib: Library, items: seq<Item>): string {
    if items == [] then [] else LineOf(lib, items[0]) + (CRLF + Written(lib, items[1..]))
  }

  /** Any line without a carriage return: credentials of any length, candidates that survive
      printing, and whatever else does not begin like credentials. */
  predicate Good(lib: Library, i: Item) {
    match i
    case Ufrag(s) => '\r' !in s
    case Pwd(s) => '\r' !in s
    case Candidate(c) => Printable(c) && Survives(lib, c)
    case Other(l) => '\r' !in l && !(UFRAG <= l) && !(PWD <= l)
  }

  /** What the receiver makes of a candidate: a host's related address, which is none, is cleared. */
  function Received(c: Full): Full {
    if c.typ.Host? then c.(raddr := NO_ADDRESS) else c
  }

  /** The candidates that the lines bring, in order: those of the other side, and any other
      candidate line that the parser reads. */
  function Brought(lib: Library, items: seq<Item>): seq<Full>
    decreases |items|
  {
    if items == [] then [] else BroughtBy(lib, items[0]) + Brought(lib, items[1..])
  }

  function BroughtBy(lib: Library, i: Item): (cs: seq<Full>)
    ensures |cs| <= 1
  {
    match i
    case Candidate(c) => [Received(c)]
    case Other(l) => if PREFIX <= l && Parse(lib, l).Some? then [Parse(lib, l).value] else []
    case _ => []
  }

  /** Those equal to none before them. */
  function Firsts(cs: seq<Full>): (r: seq<Full>)
    ensures |r| <= |cs|
    decreases |cs|
  {
    if cs == [] then []
    else
      var front, last := cs[..|cs| - 1], cs[|cs| - 1];
      Firsts(front) + if exists i | 0 <= i < |front| :: Equal(front[i], last) then [] else [last]
  }

  /** The last fragment name and the last password; the given ones if there are none. */
  function LastUfrag(items: seq<Item>, otherwise: string): string
    decreases |items|
  {
    if items == [] then otherwise
    else LastUfrag(items[1..], if items[0].Ufrag? then items[0].value else otherwise)
  }

  function LastPwd(items: seq<Item>, otherwise: string): string
    decreases |items|
  {
    if items == [] then otherwise
    else LastPwd(items[1..], if items[0].Pwd? then items[0].value else otherwise)
  }

  predicate Unfit(i: Item) {
    (i.Ufrag? || i.Pwd?) && !(0 < |i.value| <= 256)
  }

  /** What the lines leave behind the candidates `seen` and the given credentials: nothing if a
      credential is empty or too long or if more than ten candidates differ. */
  ghost function Left(lib: Library, ufrag: string, pwd: string, seen: seq<Full>, items: seq<Item>): Option<Remote> {
    var kept := Firsts(seen + Brought(lib, items));
    if (exists k | 0 <= k < |items| :: Unfit(items[k])) || |kept| > 10 then None
    else Some(Remote(LastUfrag(items, ufrag), LastPwd(items, pwd), kept))
  }

  lemma {:induction false} NoReturn(words: seq<string>)
    requires forall i | 0 <= i < |words| :: '\r' !in words[i]
    ensures '\r' !in Line(words, [])
  {
    if |words| > 1 {
      NoReturn(words[1..]);
    }
  }

  lemma VisibleNoReturn(w: string)
    requires VisibleWord(w)
    ensures '\r' !in w
  {
  }

  lemma PrintedNoReturn(lib: Library, c: Full)
    requires Printable(c)
    ensures '\r' !in Print(lib, c, [])
  {
    hide Decimal, Print4;
    var ws := Words(lib, c);
    Print4Looks(c.addr.ip);
    Print4Looks(c.raddr.ip);
    NoLetters(c.component, '\r');
    NoLetters(c.priority, '\r');
    NoLetters(c.addr.port, '\r');
    NoLetters(c.raddr.port, '\r');
    VisibleNoReturn(c.foundation);
    VisibleNoReturn(c.transport);
    VisibleNoReturn(Print4(c.addr.ip));
    VisibleNoReturn(Print4(c.raddr.ip));
    NoReturn(ws);
  }

  lemma {:induction false} EndFound(w: string, rest: string)
    requires '\r' !in w
    ensures Find(w + (CRLF + rest), CRLF) == Some(|w|)
    decreases |w|
  {
    var s := w + (CRLF + rest);
    if w == [] {
      assert s == CRLF + rest;
      FoundAtOnce(CRLF, rest);
    } else {
      assert s[0] == w[0] && w[0] in w;
      assert s[1..] == w[1..] + (CRLF + rest);
      EndFound(w[1..], rest);
    }
  }

  lemma GoodNoReturn(lib: Library, i: Item)
    requires Good(lib, i)
    ensures '\r' !in LineOf(lib, i)
  {
    hide Print, Printable, Survives;
    if i.Candidate? { PrintedNoReturn(lib, i.candidate); }
  }

  lemma PrefixesDiffer(s: string)
    ensures !(UFRAG <= PREFIX + s) && !(PWD <= PREFIX + s) && PREFIX <= PREFIX + s
    ensures UFRAG <= UFRAG + s && (UFRAG + s)[|UFRAG|..] == s
    ensures !(UFRAG <= PWD + s) && PWD <= PWD + s && (PWD + s)[|PWD|..] == s
  {
    assert (PREFIX + s)[2] == 'c' && UFRAG[2] == 'i' && PWD[2] == 'i';
    assert (PWD + s)[6] == 'p' && UFRAG[6] == 'u';
  }

  /** One line: what the receiver does with it, given the candidates brought so far. */
  lemma StepApplies(lib: Library, r: Remote, i: Item, seen: seq<Full>)
    requires Good(lib, i) && r.candidates == Firsts(seen) && |r.candidates| <= 10
    ensures var cs := Firsts(seen + BroughtBy(lib, i));
            Step(lib, r, LineOf(lib, i)) ==
            if Unfit(i) || |cs| > 10 then None
            else Some(Remote(if i.Ufrag? then i.value else r.ufrag, if i.Pwd? then i.value else r.pwd, cs))
  {
    hide Known, Parse, Printable, Survives, Words, Line, Firsts;
    FirstsAgain(seen);
    match i
    case Ufrag(s) => PrefixesDiffer(s);
    case Pwd(s) => PrefixesDiffer(s);
    case Candidate(c) =>
      PrefixesDiffer(Line(Words(lib, c), []));
      CandidateReceived(lib, c);
      StepTakes(lib, r, LineOf(lib, i), Received(c), seen);
    case Other(l) =>
      if PREFIX <= l && Parse(lib, l).Some? { StepTakes(lib, r, l, Parse(lib, l).value, seen); }
  }

  lemma StepTakes(lib: Library, r: Remote, line: string, c: Full, seen: seq<Full>)
    requires !(UFRAG <= line) && !(PWD <= line) && PREFIX <= line && Parse(lib, line) == Some(c)
    requires r.candidates == Firsts(seen) && |r.candidates| <= 10
    ensures var cs := Firsts(seen + [c]);
            Step(lib, r, line) == if |cs| > 10 then None else Some(r.(candidates := cs))
  {
    hide Known, Parse, Firsts;
    FirstsOne(seen, c);
    var cs := Firsts(seen + [c]);
    if Known(r.candidates, c) {
      assert cs == r.candidates + [] == r.candidates;
    } else {
      assert |cs| == |r.candidates| + 1;
    }
  }

  lemma FirstsAgain(seen: seq<Full>)
    ensures Firsts(seen + []) == Firsts(seen)
  {
    assert seen + [] == seen;
  }

  lemma CandidateReceived(lib: Library, c: Full)
    requires Printable(c) && Survives(lib, c)
    ensures Parse(lib, Print(lib, c, [])) == Some(Received(c))
  {
    hide Parse, Print, RelatedOf;
    PrintedIsParsed(lib, c, []);
  }

  lemma EqualTrans(a: Full, b: Full, c: Full)
    requires Equal(a, b) && Equal(b, c)
    ensures Equal(a, c)
  {
  }

  /** Comparing with the candidates kept is comparing with all that came before. */
  lemma {:induction false} KnownOfSeen(seen: seq<Full>, c: Full)
    ensures Known(Firsts(seen), c) <==> exists i | 0 <= i < |seen| :: Equal(seen[i], c)
    decreases |seen|
  {
    hide Equal;
    if seen != [] {
      var front, last := seen[..|seen| - 1], seen[|seen| - 1];
      KnownOfSeen(front, c);
      var repeated := exists i | 0 <= i < |front| :: Equal(front[i], last);
      KnownAppend(Firsts(front), last, c);
      SeenAppend(seen, c);
      if repeated && Equal(last, c) {
        var i :| 0 <= i < |front| && Equal(front[i], last);
        EqualTrans(front[i], last, c);
      }
    }
  }

  lemma KnownAppend(cs: seq<Full>, last: Full, c: Full)
    ensures Known(cs + [last], c) <==> Known(cs, c) || Equal(last, c)
    ensures cs + [] == cs
  {
    hide Equal;
    assert (cs + [last])[|cs|] == last;
    assert forall i | 0 <= i < |cs| :: (cs + [last])[i] == cs[i];
  }

  lemma SeenAppend(seen: seq<Full>, c: Full)
    requires seen != []
    ensures var front := seen[..|seen| - 1];
            (exists i | 0 <= i < |seen| :: Equal(seen[i], c)) <==>
            (exists i | 0 <= i < |front| :: Equal(front[i], c)) || Equal(seen[|seen| - 1], c)
  {
    hide Equal;
    var front := seen[..|seen| - 1];
    if i :| 0 <= i < |front| && Equal(front[i], c) { assert Equal(seen[i], c); }
    if i :| 0 <= i < |seen| && Equal(seen[i], c) { assert i < |front| ==> Equal(front[i], c); }
  }

  lemma FirstsOne(seen: seq<Full>, c: Full)
    ensures Firsts(seen + [c]) == Firsts(seen) + if Known(Firsts(seen), c) then [] else [c]
  {
    hide Known;
    assert (seen + [c])[..|seen|] == seen;
    KnownOfSeen(seen, c);
  }

  lemma {:induction false} FirstsGrow(seen: seq<Full>, more: seq<Full>)
    ensures |Firsts(seen)| <= |Firsts(seen + more)|
    decreases |more|
  {
    hide Equal;
    if more == [] {
      assert seen + more == seen;
    } else {
      var all := seen + more;
      assert all[..|all| - 1] == seen + more[..|more| - 1];
      FirstsGrow(seen, more[..|more| - 1]);
    }
  }

  lemma {:induction false} StepsLeave(lib: Library, r: Remote, items: seq<Item>, seen: seq<Full>)
    requires forall k | 0 <= k < |items| :: Good(lib, items[k])
    requires r.candidates == Firsts(seen) && |r.candidates| <= 10
    ensures Steps(lib, r, Written(lib, items)) == Left(lib, r.ufrag, r.pwd, seen, items)
    decreases |items|
  {
    hide *;
    if items == [] {
      NoItems(lib, r, seen);
    } else {
      var i := items[0];
      StepApplies(lib, r, i, seen);
      StepsOne(lib, r, items);
      LeftOne(lib, r, items, seen);
      var next := Step(lib, r, LineOf(lib, i));
      if next.Some? {
        StepsLeave(lib, next.value, items[1..], seen + BroughtBy(lib, i));
      }
    }
  }

  lemma NoItems(lib: Library, r: Remote, seen: seq<Full>)
    requires r.candidates == Firsts(seen) && |r.candidates| <= 10
    ensures Steps(lib, r, Written(lib, [])) == Left(lib, r.ufrag, r.pwd, seen, [])
  {
    hide Firsts;
    assert seen + [] == seen;
  }

  lemma StepsOne(lib: Library, r: Remote, items: seq<Item>)
    requires items != [] && Good(lib, items[0])
    ensures var next := Step(lib, r, LineOf(lib, items[0]));
            Steps(lib, r, Written(lib, items)) ==
            if next.None? then None else Steps(lib, next.value, Written(lib, items[1..]))
  {
    hide Step, Good, LineOf, Find;
    var line, rest := LineOf(lib, items[0]), Written(lib, items[1..]);
    var text := line + (CRLF + rest);
    GoodNoReturn(lib, items[0]);
    EndFound(line, rest);
    assert text[..|line|] == line && text[|line| + 2..] == rest;
  }

  lemma LeftOne(lib: Library, r: Remote, items: seq<Item>, seen: seq<Full>)
    requires items != []
    ensures var i, now := items[0], seen + BroughtBy(lib, items[0]);
            Left(lib, r.ufrag, r.pwd, seen, items) ==
            if Unfit(i) || |Firsts(now)| > 10 then None
            else Left(lib, if i.Ufrag? then i.value else r.ufrag, if i.Pwd? then i.value else r.pwd, now, items[1..])
  {
    hide Firsts, BroughtBy, Unfit;
    var now := seen + BroughtBy(lib, items[0]);
    Regroup(seen, BroughtBy(lib, items[0]), Brought(lib, items[1..]));
    FirstsGrow(now, Brought(lib, items[1..]));
    assert forall k | 0 <= k < |items| - 1 :: items[1..][k] == items[k + 1];
    assert (exists k | 0 <= k < |items| :: Unfit(items[k])) <==>
           Unfit(items[0]) || exists k | 0 <= k < |items[1..]| :: Unfit(items[1..][k]);
  }

  lemma Regroup(a: seq<Full>, b: seq<Full>, c: seq<Full>)
    ensures (a + b) + c == a + (b + c)
  {
  }

  /** A description of any lines leaves its last credentials, and of its candidates, each with its
      foundation and priority, those equal to none before them, in order. It is refused as a whole
      when a credential is empty or longer than 256, when more than ten candidates differ, or when
      it lacks a fragment name or a password. */
  lemma DescriptionRoundTrip(lib: Library, items: seq<Item>)
    requires forall k | 0 <= k < |items| :: Good(lib, items[k])
    requires |Written(lib, items)| <= MAX_DESCRIPTION
    ensures var kept := Firsts(Brought(lib, items));
            Accepted(lib, Written(lib, items)) ==
            if (exists k | 0 <= k < |items| :: Unfit(items[k])) || |kept| > 10 ||
               (forall k | 0 <= k < |items| :: !items[k].Ufrag?) || (forall k | 0 <= k < |items| :: !items[k].Pwd?)
            then None
            else Some(Remote(LastUfrag(items, []), LastPwd(items, []), kept))
  {
    hide Steps, Good, Brought, Firsts, LastUfrag, LastPwd, Written;
    assert [] + Brought(lib, items) == Brought(lib, items);
    assert Firsts([]) == [] by { NoFirsts(); }
    StepsLeave(lib, Remote([], [], []), items, []);
    if forall k | 0 <= k < |items| :: !Unfit(items[k]) {
      UfragGiven(items, []);
      PwdGiven(items, []);
    }
  }

  lemma NoFirsts()
    ensures Firsts([]) == []
  {
  }

  lemma {:induction false} UfragGiven(items: seq<Item>, otherwise: string)
    requires forall k | 0 <= k < |items| :: !Unfit(items[k])
    ensures LastUfrag(items, otherwise) == [] <==> otherwise == [] && forall k | 0 <= k < |items| :: !items[k].Ufrag?
    decreases |items|
  {
    if items != [] {
      assert forall k | 0 <= k < |items| - 1 :: items[1..][k] == items[k + 1];
      UfragGiven(items[1..], if items[0].Ufrag? then items[0].value else otherwise);
      if forall k | 0 <= k < |items[1..]| :: !items[1..][k].Ufrag? {
        assert forall k | 1 <= k < |items| :: items[k] == items[1..][k - 1];
      }
    }
  }

  lemma {:induction false} PwdGiven(items: seq<Item>, otherwise: string)
    requires forall k | 0 <= k < |items| :: !Unfit(items[k])
    ensures LastPwd(items, otherwise) == [] <==> otherwise == [] && forall k | 0 <= k < |items| :: !items[k].Pwd?
    decreases |items|
  {
    if items != [] {
      assert forall k | 0 <= k < |items| - 1 :: items[1..][k] == items[k + 1];
      PwdGiven(items[1..], if items[0].Pwd? then items[0].value else otherwise);
      if forall k | 0 <= k < |items[1..]| :: !items[1..][k].Pwd? {
        assert forall k | 1 <= k < |items| :: items[k] == items[1..][k - 1];
      }
    }
  }
}
