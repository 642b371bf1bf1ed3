/** Text as C prints and scans it: decimal numbers, white space, words, and the first place of a
    substring. */
module Text {
  import opened Options

  predicate IsSpace(c: char) {
    c == ' ' || c == '\t' || c == '\n' || c == '\r' || c as int == 11 || c as int == 12
  }

  predicate IsDigit(c: char) { '0' <= c <= '9' }

  /** How many characters at the front are digits. */
  function Digits(s: string): (n: nat)
    ensures n <= |s|
    ensures forall i | 0 <= i < n :: IsDigit(s[i])
  {
    if s == [] || !IsDigit(s[0]) then 0 else 1 + Digits(s[1..])
  }

  /** How many characters at the front are not white space. */
  function Visible(s: string): (n: nat)
    ensures n <= |s|
  {
    if s == [] || IsSpace(s[0]) then 0 else 1 + Visible(s[1..])
  }

  function SkipSpace(s: string): (r: string)
    ensures |r| <= |s|
  {
    if s != [] && IsSpace(s[0]) then SkipSpace(s[1..]) else s
  }

  // ---------------------------------------------------------------- numbers

  function Decimal(n: nat): (s: string)
    ensures s != []
  {
    (if n < 10 then [] else Decimal(n / 10)) + [('0' as int + n % 10) as char]
  }

  function Digit(c: char): nat
    requires IsDigit(c)
  {
    (c as int) - ('0' as int)
  }

  function Value(s: string): (n: nat)
    requires forall i | 0 <= i < |s| :: IsDigit(s[i])
  {
    if s == [] then 0 else Value(s[..|s| - 1]) * 10 + Digit(s[|s| - 1])
  }

  function Power10(k: nat): nat {
    if k == 0 then 1 else 10 * Power10(k - 1)
  }

  predicate AllDigits(s: string) {
    forall i | 0 <= i < |s| :: IsDigit(s[i])
  }

  lemma {:induction false} DecimalValue(n: nat)
    ensures AllDigits(Decimal(n)) && Value(Decimal(n)) == n
  {
    var d := ('0' as int + n % 10) as char;
    assert IsDigit(d) && Digit(d) == n % 10;
    if n < 10 {
      assert Decimal(n) == [d];
      assert Value([]) == 0;
    } else {
      DecimalValue(n / 10);
      assert Decimal(n) == Decimal(n / 10) + [d];
      assert Decimal(n)[..|Decimal(n)| - 1] == Decimal(n / 10);
    }
  }

  lemma {:induction false} DecimalLength(n: nat, k: nat)
    requires 1 <= k && n < Power10(k)
    ensures |Decimal(n)| <= k
    decreases k
  {
    if n >= 10 {
      DecimalLength(n / 10, k - 1);
    }
  }

  /** No leading zero, except for zero itself. */
  lemma {:induction false} DecimalLeads(n: nat)
    ensures n > 0 ==> Decimal(n)[0] != '0'
    ensures |Decimal(n)| > 1 ==> n > 0
  {
    if n >= 10 { DecimalLeads(n / 10); }
  }

  /** A number ends where no digit follows. */
  predicate Ends(rest: string) { rest == [] || !IsDigit(rest[0]) }

  lemma {:induction false} DigitsOf(s: string, rest: string)
    requires AllDigits(s) && Ends(rest)
    ensures Digits(s + rest) == |s|
  {
    if s == [] {
      assert s + rest == rest;
    } else {
      assert (s + rest)[1..] == s[1..] + rest;
      DigitsOf(s[1..], rest);
    }
  }

  // ---------------------------------------------------------------- conversions

  /** A scanned item and the text behind it. */
  datatype Scanned<T> = Scanned(item: T, rest: string)

  /** The conversion %Ns: a run of visible characters, at most limit of them. */
  function Word(s: string, limit: nat): (r: Option<Scanned<string>>)
    ensures r.Some? ==> 0 < |r.value.item| <= limit && |r.value.rest| < |s|
  {
    var t := SkipSpace(s);
    var n := if Visible(t) < limit then Visible(t) else limit;
    if n == 0 then None else Some(Scanned(t[..n], t[n..]))
  }

  /** The conversions %d and %u before the value is reduced to its width. */
  function Number(s: string): (r: Option<Scanned<int>>)
  {
    var t := SkipSpace(s);
    var negative := t != [] && t[0] == '-';
    var u := if t != [] && (t[0] == '-' || t[0] == '+') then t[1..] else t;
    var n := Digits(u);
    if n == 0 then None
    else
      var v: int := Value(u[..n]);
      Some(Scanned(if negative then -v else v, u[n..]))
  }

  /** A literal in the format, with the white space before it. */
  function Literal(s: string, word: string): Option<string> {
    var t := SkipSpace(s);
    if word <= t then Some(t[|word|..]) else None
  }

  predicate VisibleWord(w: string) {
    w != [] && forall i | 0 <= i < |w| :: !IsSpace(w[i])
  }

  /** A word ends at the end of the text or at white space. */
  predicate Breaks(rest: string) { rest == [] || IsSpace(rest[0]) }

  lemma {:induction false} VisibleOf(w: string, rest: string)
    requires (forall i | 0 <= i < |w| :: !IsSpace(w[i])) && Breaks(rest)
    ensures Visible(w + rest) == |w|
  {
    if w == [] {
      assert w + rest == rest;
    } else {
      assert (w + rest)[1..] == w[1..] + rest;
      VisibleOf(w[1..], rest);
    }
  }

  /** Words joined by single blanks, and what follows the last one. */
  function Line(words: seq<string>, tail: string): string {
    if words == [] then tail
    else if |words| == 1 then words[0] + tail
    else words[0] + ([' '] + Line(words[1..], tail))
  }

  /** What follows the first word of a line. */
  function Rest(words: seq<string>, tail: string): string
    requires words != []
  {
    if |words| == 1 then tail else [' '] + Line(words[1..], tail)
  }

  lemma LineIs(words: seq<string>, tail: string)
    requires words != []
    ensures Line(words, tail) == words[0] + Rest(words, tail)
    ensures Breaks(tail) ==> Breaks(Rest(words, tail)) && Ends(Rest(words, tail))
  {
  }

  lemma RestSkips(words: seq<string>, tail: string)
    requires |words| > 1 && VisibleWord(words[1])
    ensures SkipSpace(Rest(words, tail)) == Line(words[1..], tail)
    ensures SkipSpace(Line(words[1..], tail)) == Line(words[1..], tail)
  {
    LineIs(words[1..], tail);
    assert Rest(words, tail)[1..] == Line(words[1..], tail);
    assert Line(words[1..], tail)[0] == words[1][0];
  }

  /** Text that begins with the words, perhaps behind a blank. */
  predicate Holds(s: string, words: seq<string>, tail: string) {
    words != [] && VisibleWord(words[0]) && SkipSpace(s) == Line(words, tail)
  }

  lemma NextHolds(words: seq<string>, tail: string)
    requires |words| > 1 && VisibleWord(words[1])
    ensures Holds(Rest(words, tail), words[1..], tail)
  {
    RestSkips(words, tail);
  }

  lemma ScanWord(s: string, words: seq<string>, tail: string, limit: nat)
    requires Holds(s, words, tail) && Breaks(tail) && |words[0]| <= limit
    ensures Word(s, limit) == Some(Scanned(words[0], Rest(words, tail)))
  {
    var w, rest := words[0], Rest(words, tail);
    LineIs(words, tail);
    VisibleOf(w, rest);
    assert (w + rest)[..|w|] == w && (w + rest)[|w|..] == rest;
  }

  lemma DigitsVisible(n: nat)
    ensures VisibleWord(Decimal(n))
  {
    DecimalValue(n);
    forall i | 0 <= i < |Decimal(n)| ensures !IsSpace(Decimal(n)[i]) { assert IsDigit(Decimal(n)[i]); }
  }

  lemma ScanNumber(s: string, words: seq<string>, tail: string, n: nat)
    requires Holds(s, words, tail) && Breaks(tail) && words[0] == Decimal(n)
    ensures Number(s) == Some(Scanned(n as int, Rest(words, tail)))
  {
    var w, rest := Decimal(n), Rest(words, tail);
    LineIs(words, tail);
    DecimalValue(n);
    assert IsDigit(w[0]);
    DigitsOf(w, rest);
    assert (w + rest)[0] == w[0];
    assert (w + rest)[..|w|] == w && (w + rest)[|w|..] == rest;
  }

  lemma ScanLiteral(s: string, words: seq<string>, tail: string)
    requires Holds(s, words, tail)
    ensures Literal(s, words[0]) == Some(Rest(words, tail))
  {
    var w, rest := words[0], Rest(words, tail);
    LineIs(words, tail);
    assert (w + rest)[|w|..] == rest;
  }

  // ---------------------------------------------------------------- the first place of a word

  /** strstr: where a pattern first occurs. */
  function Find(s: string, p: string): (r: Option<nat>)
    ensures r.Some? ==> r.value <= |s| && p <= s[r.value..]
  {
    if p <= s then Some(0)
    else if s == [] then None
    else
      var r := Find(s[1..], p);
      if r.None? then None
      else
        assert s[1..][r.value..] == s[r.value + 1..];
        Some(r.value + 1)
  }

  function Shifted(r: Option<nat>, n: nat): Option<nat> {
    if r.None? then None else Some(r.value + n)
  }

  lemma PrefixInWord(w: string, rest: string, p: string)
    requires ' ' !in p && p <= w + ([' '] + rest)
    ensures p <= w
  {
    var s := w + ([' '] + rest);
    assert s[|w|] == ' ';
    assert |p| <= |w|;
    assert s[..|p|] == w[..|p|];
  }

  lemma FindStep(s: string, p: string)
    ensures Find(s, p).None? ==> !(p <= s)
    ensures s != [] && !(p <= s) ==> Find(s, p) == Shifted(Find(s[1..], p), 1)
  {
  }

  lemma TailOfLine(w: string, rest: string)
    ensures w == [] ==> (w + ([' '] + rest))[1..] == rest
    ensures w != [] ==> (w + ([' '] + rest))[1..] == w[1..] + ([' '] + rest)
  {
  }

  /** A pattern without blanks that a word does not hold is first found behind the word. */
  lemma {:induction false} FindPast(w: string, rest: string, p: string)
    requires Find(w, p).None? && p != [] && ' ' !in p
    ensures Find(w + ([' '] + rest), p) == Shifted(Find(rest, p), |w| + 1)
  {
    hide Find;
    var s := w + ([' '] + rest);
    FindStep(w, p);
    if p <= s { PrefixInWord(w, rest, p); }
    FindStep(s, p);
    TailOfLine(w, rest);
    if w != [] { FindPast(w[1..], rest, p); }
  }

  /** A pattern with a character that the text does not have is nowhere. */
  lemma {:induction false} NotFound(s: string, p: string)
    requires p != [] && p[0] !in s
    ensures Find(s, p).None?
  {
    if s != [] {
      NotFound(s[1..], p);
    }
  }

  lemma FoundAtOnce(w: string, rest: string)
    ensures Find(w + rest, w) == Some(0)
  {
    assert w <= w + rest;
  }

  lemma {:induction false} TooShort(s: string, p: string)
    requires |s| < |p|
    ensures Find(s, p).None?
  {
    if s != [] {
      TooShort(s[1..], p);
    }
  }

  lemma SameLength(s: string, p: string)
    requires |s| == |p| > 0 && s != p
    ensures Find(s, p).None?
  {
    assert p <= s ==> p == s;
    TooShort(s[1..], p);
  }

  /** What is found in the front part of a text is found there. */
  lemma {:induction false} FindInFront(w: string, rest: string, p: string)
    requires Find(w, p).Some?
    ensures Find(w + rest, p) == Find(w, p)
  {
    if !(p <= w) {
      assert (w + rest)[1..] == w[1..] + rest;
      FindInFront(w[1..], rest, p);
      if p <= w + rest { PrefixLonger(w, rest, p); }
    } else {
      assert p <= w + rest;
    }
  }

  /** A prefix that reaches past the front cannot be there if the pattern follows in it. */
  lemma PrefixLonger(w: string, rest: string, p: string)
    requires w != [] && p <= w + rest && Find(w[1..], p).Some?
    ensures p <= w
  {
    var k := Find(w[1..], p).value;
    assert |p| <= |w[1..]| - k;
    assert (w + rest)[..|p|] == w[..|p|];
  }

  /** The first word of a line that holds a pattern is where the pattern is found. */
  lemma {:induction false} FindInLine(words: seq<string>, tail: string, p: string, k: nat) returns (at: nat)
    requires k < |words| && Find(words[k], p).Some? && p != [] && ' ' !in p
    requires forall i | 0 <= i < k :: Find(words[i], p).None?
    ensures Find(Line(words, tail), p) == Some(at + Find(words[k], p).value)
    ensures at <= |Line(words, tail)| && Line(words, tail)[at..] == Line(words[k..], tail)
    decreases k
  {
    hide Find, Line;
    if k == 0 {
      LineIs(words, tail);
      FindInFront(words[0], Rest(words, tail), p);
      assert words[0..] == words;
      at := 0;
    } else {
      var inner := FindInLine(words[1..], tail, p, k - 1);
      at := inner + |words[0]| + 1;
      assert words[1..][k - 1..] == words[k..];
      LineStep(words, tail, p, inner);
    }
  }

  lemma LineStep(words: seq<string>, tail: string, p: string, inner: nat)
    requires |words| > 1 && Find(words[0], p).None? && p != [] && ' ' !in p
    requires inner <= |Line(words[1..], tail)|
    ensures Find(Line(words, tail), p) == Shifted(Find(Line(words[1..], tail), p), |words[0]| + 1)
    ensures |Line(words, tail)| == |words[0]| + 1 + |Line(words[1..], tail)|
    ensures Line(words, tail)[inner + |words[0]| + 1..] == Line(words[1..], tail)[inner..]
  {
    hide Find;
    FindPast(words[0], Line(words[1..], tail), p);
  }

  // ---------------------------------------------------------------- reading a word as a number

  /** Text that starts with a word, perhaps behind blanks. */
  predicate Starts(s: string, w: string, rest: string) {
    VisibleWord(w) && Breaks(rest) && SkipSpace(s) == w + rest
  }

  lemma ReadWord(s: string, w: string, rest: string, limit: nat)
    requires Starts(s, w, rest) && |w| <= limit
    ensures Word(s, limit) == Some(Scanned(w, rest))
  {
    VisibleOf(w, rest);
    assert (w + rest)[..|w|] == w && (w + rest)[|w|..] == rest;
  }

  lemma {:induction false} DigitsStop(w: string, rest: string)
    requires Ends(rest)
    ensures Digits(w + rest) == Digits(w)
  {
    if w == [] {
      assert w + rest == rest;
    } else {
      assert (w + rest)[1..] == w[1..] + rest;
      DigitsStop(w[1..], rest);
    }
  }

  /** A number is read within the word. */
  lemma ReadNumber(s: string, w: string, rest: string)
    requires Starts(s, w, rest)
    ensures Number(s).Some? <==> Number(w).Some?
    ensures Number(s).Some? ==> Number(s).value.item == Number(w).value.item
  {
    var signed := w[0] == '-' || w[0] == '+';
    var u := if signed then w[1..] else w;
    assert SkipSpace(w) == w;
    assert (w + rest)[0] == w[0];
    assert (if signed then (w + rest)[1..] else w + rest) == u + rest;
    DigitsStop(u, rest);
    assert (u + rest)[..Digits(u)] == u[..Digits(u)];
  }
}
