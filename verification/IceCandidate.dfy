/** ICE candidates: created, printed as a line of a session description and parsed back. */
module IceCandidate {
  import opened Options
  import opened Text
  import opened Checklist

  const MAX_LINE := 1024
  const WORD32 := 0x1_0000_0000

  /** A candidate with the fields that a description carries. */
  datatype Full = Full(foundation: string, component: int, priority: nat, transport: string, typ: CandidateType,
                       addr: Address, raddr: Address)

  /** The library's IPv6 address text. */
  datatype Library = Library(print6: nat -> string, parse6: string -> Option<nat>)

  // ---------------------------------------------------------------- priority and creation

  function TypePreference(typ: CandidateType): nat {
    match typ
    case Host => 126
    case Srflx => 100
    case Relay => 40
    case Prflx => 0
  }

  function Priority(typ: CandidateType, port: nat, component: int): int {
    0x100_0000 * TypePreference(typ) + 0x100 * port + (256 - component)
  }

  /** The formula fits 31 bits and orders candidates by type, then port, then component. */
  lemma PriorityOrders(t: CandidateType, p: nat, c: int, t': CandidateType, p': nat, c': int)
    requires p < 0x1_0000 && p' < 0x1_0000 && 1 <= c <= 256 && 1 <= c' <= 256
    ensures 0 <= Priority(t, p, c) < 0x8000_0000
    ensures Priority(t, p, c) > Priority(t', p', c') <==>
              || TypePreference(t) > TypePreference(t')
              || (t == t' && p > p')
              || (t == t' && p == p' && c < c')
  {
  }

  /** A rank of the candidate's type: the direct address, then the one the STUN server saw, then
      the relayed one, then one learnt from the peer. */
  function Rank(typ: CandidateType): nat {
    match typ
    case Host => 3
    case Srflx => 2
    case Relay => 1
    case Prflx => 0
  }

  /** Whatever the ports and components, a candidate of a better type has the higher priority. */
  lemma TypeDecides(t: CandidateType, p: nat, c: int, t': CandidateType, p': nat, c': int)
    requires p < 0x1_0000 && p' < 0x1_0000 && 1 <= c <= 256 && 1 <= c' <= 256
    requires Rank(t) > Rank(t')
    ensures Priority(t, p, c) > Priority(t', p', c')
  {
  }

  function SignedDecimal(n: int): (s: string)
    ensures s != []
  {
    if n < 0 then ['-'] + Decimal(-n) else Decimal(n)
  }

  const NO_ADDRESS := Address(Unspecified, 0, 0)

  /** A candidate of component 1 over UDP; its foundation is a running number. */
  function Create(foundation: int, typ: CandidateType, addr: Address): Full
    requires addr.port < 0x1_0000
  {
    PriorityOrders(typ, addr.port, 1, typ, addr.port, 1);
    Full(SignedDecimal(foundation), 1, Priority(typ, addr.port, 1), "UDP", typ, addr, NO_ADDRESS)
  }

  function Lower(c: char): char {
    if 'A' <= c <= 'Z' then ((c as int) + 32) as char else c
  }

  predicate CaseEqual(a: string, b: string) {
    |a| == |b| && forall i | 0 <= i < |a| :: Lower(a[i]) == Lower(b[i])
  }

  predicate Equal(a: Full, b: Full) {
    && a.component == b.component && a.typ == b.typ && CaseEqual(a.transport, b.transport)
    && AddrEqual(a.addr, b.addr)
    && ((a.raddr.family.Unspecified? && b.raddr.family.Unspecified?) || AddrEqual(a.raddr, b.raddr))
  }

  /** Two IPv4 candidates are one when they lead to the same endpoint in the same way: foundation and
      priority do not tell them apart, and everything else does. */
  lemma SameEndpoint(a: Full, b: Full, foundation: string, priority: nat)
    requires a.addr.family == b.addr.family == Inet && a.raddr.family != Inet6 && b.raddr.family != Inet6
    ensures Equal(a, b) ==> a.component == b.component && a.typ == b.typ && |a.transport| == |b.transport| && a.addr == b.addr
    ensures Equal(a, b) ==> a.raddr == b.raddr || (a.raddr.family == b.raddr.family == Unspecified)
    ensures Equal(a, a.(foundation := foundation, priority := priority))
    ensures Equal(a, b) ==> Equal(b, a)
  {
  }

  // ---------------------------------------------------------------- dotted decimals

  function Dotted(os: seq<nat>): (s: string)
  {
    if os == [] then []
    else if |os| == 1 then Decimal(os[0])
    else Decimal(os[0]) + (['.'] + Dotted(os[1..]))
  }

  /** One number of at most three digits, without a leading zero, and below 256. */
  function Octet(s: string): Option<Scanned<nat>> {
    var n := Digits(s);
    if n == 0 || n > 3 || (n > 1 && s[0] == '0') || Value(s[..n]) > 255 then None
    else Some(Scanned(Value(s[..n]), s[n..]))
  }

  /** The numbers of a dotted text with exactly n of them. */
  function Octets(s: string, n: nat): Option<seq<nat>>
    requires n > 0
  {
    var o := Octet(s);
    if o.None? then None
    else if n == 1 then
      if o.value.rest == [] then Some([o.value.item]) else None
    else if o.value.rest == [] || o.value.rest[0] != '.' then None
    else
      var more := Octets(o.value.rest[1..], n - 1);
      if more.None? then None else Some([o.value.item] + more.value)
  }

  lemma OctetReads(v: nat, rest: string)
    requires v < 256 && Ends(rest)
    ensures Octet(Decimal(v) + rest) == Some(Scanned(v, rest))
  {
    var w := Decimal(v);
    DecimalValue(v);
    DecimalLeads(v);
    assert Power10(3) == 1000;
    DecimalLength(v, 3);
    DigitsOf(w, rest);
    assert (w + rest)[..|w|] == w && (w + rest)[|w|..] == rest && (w + rest)[0] == w[0];
  }

  lemma OctetsUnfold(s: string, n: nat, v: nat, rest: string)
    requires n > 0 && Octet(s) == Some(Scanned(v, rest))
    ensures n == 1 && rest == [] ==> Octets(s, n) == Some([v])
    ensures n > 1 && rest != [] && rest[0] == '.' && Octets(rest[1..], n - 1).Some? ==>
              Octets(s, n) == Some([v] + Octets(rest[1..], n - 1).value)
  {
  }

  lemma {:induction false} OctetsRead(os: seq<nat>)
    requires os != [] && forall i | 0 <= i < |os| :: os[i] < 256
    ensures Octets(Dotted(os), |os|) == Some(os)
    decreases |os|
  {
    hide Octets, Octet, Decimal;
    var v := os[0];
    if |os| == 1 {
      assert Decimal(v) + [] == Decimal(v);
      OctetReads(v, []);
      OctetsUnfold(Decimal(v), 1, v, []);
      assert [v] == os;
    } else {
      var rest := ['.'] + Dotted(os[1..]);
      OctetReads(v, rest);
      OctetsRead(os[1..]);
      assert rest[1..] == Dotted(os[1..]);
      OctetsUnfold(Decimal(v) + rest, |os|, v, rest);
      assert [v] + os[1..] == os;
    }
  }

  function OctetsOf(ip: nat): (os: seq<nat>)
    requires ip < WORD32
    ensures |os| == 4 && forall i | 0 <= i < 4 :: os[i] < 256
  {
    [ip / 0x100_0000, ip / 0x1_0000 % 256, ip / 256 % 256, ip % 256]
  }

  function Join(os: seq<nat>): nat
    requires |os| == 4
  {
    os[0] * 0x100_0000 + os[1] * 0x1_0000 + os[2] * 256 + os[3]
  }

  /** inet_pton and inet_ntop for IPv4. */
  function Parse4(s: string): Option<nat> {
    var os := Octets(s, 4);
    if os.None? || |os.value| != 4 then None else Some(Join(os.value))
  }

  function Print4(ip: nat): string
    requires ip < WORD32
  {
    Dotted(OctetsOf(ip))
  }

  lemma Parse4Print4(ip: nat)
    requires ip < WORD32
    ensures Parse4(Print4(ip)) == Some(ip)
  {
    hide Octets, Dotted, Join, OctetsOf;
    OctetsRead(OctetsOf(ip));
    JoinOctets(ip);
  }

  lemma JoinOctets(ip: nat)
    requires ip < WORD32
    ensures Join(OctetsOf(ip)) == ip
  {
    var q := ip / 256;
    assert ip / 0x1_0000 == q / 256;
    assert ip / 0x100_0000 == q / 256 / 256;
  }

  /** Digits and dots only. */
  predicate DottedText(s: string) {
    forall i | 0 <= i < |s| :: IsDigit(s[i]) || s[i] == '.'
  }

  lemma {:induction false} DottedLooks(os: seq<nat>)
    requires forall i | 0 <= i < |os| :: os[i] < 256
    ensures DottedText(Dotted(os)) && |Dotted(os)| <= 4 * |os|
    ensures os != [] ==> Dotted(os) != []
    decreases |os|
  {
    if os != [] {
      DecimalValue(os[0]);
      assert Power10(3) == 1000;
      DecimalLength(os[0], 3);
      if |os| > 1 { DottedLooks(os[1..]); }
    }
  }

  // ---------------------------------------------------------------- printing

  function AddrText(lib: Library, a: Address): string {
    if a.family.Inet6? then lib.print6(a.ip) else if a.ip < WORD32 then Print4(a.ip) else []
  }

  function TypeWords(lib: Library, c: Full): seq<string> {
    match c.typ
    case Host => ["host"]
    case Srflx => ["srflx", "raddr", AddrText(lib, c.raddr), "rport", SignedDecimal(c.raddr.port)]
    case Relay => ["relay", "raddr", AddrText(lib, c.raddr), "rport", SignedDecimal(c.raddr.port)]
    case Prflx => [""]
  }

  function Words(lib: Library, c: Full): seq<string> {
    [c.foundation, SignedDecimal(c.component), c.transport, Decimal(c.priority), AddrText(lib, c.addr),
     Decimal(c.addr.port), "typ"] + TypeWords(lib, c)
  }

  const PREFIX := "a=candidate:"

  /** The printed line and what follows it. */
  function Print(lib: Library, c: Full, tail: string): string {
    PREFIX + Line(Words(lib, c), tail)
  }

  // ---------------------------------------------------------------- parsing

  datatype Fields = Fields(foundation: string, component: int, transport: string, priority: nat, address: string,
                           port: nat, typ: string)

  /** The numbers of C are reduced to 32 bits. */
  function Unsigned(v: int): nat { v % WORD32 }

  function Signed(v: int): int {
    if v % WORD32 < 0x8000_0000 then v % WORD32 else v % WORD32 - WORD32
  }

  /** The seven conversions of the format, in order. */
  function Scan(s: string): Option<Fields> {
    var f := Word(s, 32);
    if f.None? then None
    else
      var c := Number(f.value.rest);
      if c.None? then None
      else
        var t := Word(c.value.rest, 32);
        if t.None? then None
        else
          var p := Number(t.value.rest);
          if p.None? then None else ScanAddress(f.value.item, c.value.item, t.value.item, p.value.item, p.value.rest)
  }

  function ScanAddress(foundation: string, component: int, transport: string, priority: int, s: string): Option<Fields> {
    var a := Word(s, 45);
    if a.None? then None
    else
      var q := Number(a.value.rest);
      if q.None? then None
      else
        var l := Literal(q.value.rest, "typ");
        if l.None? then None
        else
          var y := Word(l.value, 15);
          if y.None? then None
          else
            Some(Fields(foundation, Signed(component), transport, Unsigned(priority), a.value.item,
                        Unsigned(q.value.item), y.value.item))
  }

  function TypeOf(s: string): Option<CandidateType> {
    if "host" <= s then Some(Host)
    else if "srflx" <= s then Some(Srflx)
    else if "relay" <= s then Some(Relay)
    else None
  }

  /** An address text of either family. */
  function AddrOf(lib: Library, s: string): Option<Address> {
    if Parse4(s).Some? then Some(Address(Inet, Parse4(s).value, 0))
    else if lib.parse6(s).Some? then Some(Address(Inet6, lib.parse6(s).value, 0))
    else None
  }

  /** The text six characters behind the start of a marker. */
  function Behind(s: string, at: nat): string {
    if at + 6 <= |s| then s[at + 6..] else []
  }

  /** The related address. Both markers must occur somewhere in the text; the first occurrence
      counts. Its family is forced to that of the candidate. */
  function Related(lib: Library, s: string, family: Family): Option<Address> {
    var a, p := Find(s, "raddr"), Find(s, "rport");
    if a.None? || p.None? then Some(NO_ADDRESS)
    else
      var text, port := Word(Behind(s, a.value), 45), Number(Behind(s, p.value));
      var addr := if text.None? then Some(NO_ADDRESS) else AddrOf(lib, text.value.item);
      if addr.None? then None
      else
        var forced := if text.None? then NO_ADDRESS
                      else Address(family, if addr.value.family == family then addr.value.ip else 0, 0);
        if port.None? then Some(forced)
        else if Unsigned(port.value.item) > 0xffff then None
        else Some(forced.(port := Unsigned(port.value.item)))
  }

  /** From the scanned fields and the text they came from. */
  function Build(lib: Library, f: Fields, s: string): Option<Full> {
    var typ, addr := TypeOf(f.typ), AddrOf(lib, f.address);
    if f.component <= 0 || f.component > 256 || f.port > 0xffff then None
    else if !("UDP" <= f.transport) && !("udp" <= f.transport) then None
    else if typ.None? || Find(f.address, "local").Some? || addr.None? then None
    else
      var raddr := if typ.value.Host? then Some(NO_ADDRESS) else Related(lib, s, addr.value.family);
      if raddr.None? then None
      else
        Some(Full(f.foundation, f.component, f.priority, f.transport, typ.value, addr.value.(port := f.port),
                  raddr.value))
  }

  function Parse(lib: Library, text: string): Option<Full> {
    if |text| == 0 || |text| >= MAX_LINE then None
    else
      var line := if "a=" <= text then text[2..] else text;
      if !("candidate:" <= line) then None
      else
        var s := line[10..];
        var f := Scan(s);
        if f.None? then None else Build(lib, f.value, s)
  }

  // ---------------------------------------------------------------- what is printed is what is scanned

  /** A printed IPv4 UDP candidate of a type that can be parsed. */
  predicate Printable(c: Full) {
    && VisibleWord(c.foundation) && |c.foundation| <= 32
    && VisibleWord(c.transport) && |c.transport| <= 32 && ("UDP" <= c.transport || "udp" <= c.transport)
    && 1 <= c.component <= 256 && c.priority < WORD32
    && c.addr.family.Inet? && c.addr.ip < WORD32 && c.addr.port < 0x1_0000
    && !c.raddr.family.Inet6? && c.raddr.ip < WORD32 && c.raddr.port < 0x1_0000
    && !c.typ.Prflx?
  }

  lemma Print4Looks(ip: nat)
    requires ip < WORD32
    ensures VisibleWord(Print4(ip)) && |Print4(ip)| <= 16 && DottedText(Print4(ip))
  {
    DottedLooks(OctetsOf(ip));
  }

  lemma LettersVisible()
    ensures VisibleWord("typ") && VisibleWord("host") && VisibleWord("srflx") && VisibleWord("relay")
    ensures VisibleWord("raddr") && VisibleWord("rport")
  {
  }

  lemma ScanFront(foundation: string, component: nat, transport: string, priority: nat, more: seq<string>, tail: string)
    returns (rest: string)
    requires VisibleWord(foundation) && |foundation| <= 32 && VisibleWord(transport) && |transport| <= 32
    requires more != [] && VisibleWord(more[0]) && Breaks(tail)
    ensures Holds(rest, more, tail)
    ensures Scan(Line([foundation, Decimal(component), transport, Decimal(priority)] + more, tail))
         == ScanAddress(foundation, component, transport, priority, rest)
  {
    hide VisibleWord, Word, Number, ScanAddress, Line, Rest, SkipSpace, Decimal;
    var w0 := [foundation, Decimal(component), transport, Decimal(priority)] + more;
    var w1 := [Decimal(component), transport, Decimal(priority)] + more;
    var w2 := [transport, Decimal(priority)] + more;
    var w3 := [Decimal(priority)] + more;
    assert w0[1..] == w1 && w1[1..] == w2 && w2[1..] == w3 && w3[1..] == more;
    DigitsVisible(component);
    DigitsVisible(priority);
    var s := Line(w0, tail);
    LineHolds(w0, tail);
    ScanWord(s, w0, tail, 32);
    NextHolds(w0, tail);
    ScanNumber(Rest(w0, tail), w1, tail, component);
    NextHolds(w1, tail);
    ScanWord(Rest(w1, tail), w2, tail, 32);
    NextHolds(w2, tail);
    ScanNumber(Rest(w2, tail), w3, tail, priority);
    NextHolds(w3, tail);
    rest := Rest(w3, tail);
  }

  lemma LineHolds(words: seq<string>, tail: string)
    requires words != [] && VisibleWord(words[0])
    ensures Holds(Line(words, tail), words, tail)
  {
    LineIs(words, tail);
    assert Line(words, tail)[0] == words[0][0];
  }

  lemma ScanBack(s: string, foundation: string, component: int, transport: string, priority: int,
                 address: string, port: nat, typ: string, more: seq<string>, tail: string)
    requires VisibleWord(address) && |address| <= 45 && VisibleWord(typ) && |typ| <= 15 && Breaks(tail)
    requires Holds(s, [address, Decimal(port), "typ", typ] + more, tail)
    ensures ScanAddress(foundation, component, transport, priority, s)
         == Some(Fields(foundation, Signed(component), transport, Unsigned(priority), address, Unsigned(port), typ))
  {
    LettersVisible();
    hide VisibleWord, Word, Number, Literal, Line, Rest, SkipSpace, Decimal, Signed, Unsigned;
    var w0 := [address, Decimal(port), "typ", typ] + more;
    var w1 := [Decimal(port), "typ", typ] + more;
    var w2 := ["typ", typ] + more;
    var w3 := [typ] + more;
    assert w0[1..] == w1 && w1[1..] == w2 && w2[1..] == w3;
    DigitsVisible(port);
    ScanWord(s, w0, tail, 45);
    NextHolds(w0, tail);
    ScanNumber(Rest(w0, tail), w1, tail, port);
    NextHolds(w1, tail);
    ScanLiteral(Rest(w1, tail), w2, tail);
    NextHolds(w2, tail);
    ScanWord(Rest(w2, tail), w3, tail, 15);
  }

  // ---------------------------------------------------------------- finding the related address

  /** The word that follows a pattern of five characters and the character behind it: the rest
      of the word that holds it, or the next word. */
  function Following(w: string, p: string, next: string): string
    requires Find(w, p).Some?
  {
    var j := Find(w, p).value + 6;
    if j < |w| then w[j..] else next
  }

  /** The word the parser reads behind a marker. The first occurrence counts, and the foundation and
      the transport stand in front of the marker that was meant. */
  function ReadText(c: Full, p: string, meant: string): string
    requires c.component >= 1
  {
    if Find(c.foundation, p).Some? then Following(c.foundation, p, Decimal(c.component))
    else if Find(c.transport, p).Some? then Following(c.transport, p, Decimal(c.priority))
    else meant
  }

  /** The port the parser reads: 0 where there is no number. */
  function ReadPort(c: Full): nat
    requires c.component >= 1
  {
    var n := Number(ReadText(c, "rport", Decimal(c.raddr.port)));
    if n.None? then 0 else Unsigned(n.value.item)
  }

  /** The related address the parser makes of a printed reflexive or relayed candidate. */
  function RelatedOf(lib: Library, c: Full): (r: Option<Address>)
    requires c.component >= 1 && c.raddr.ip < WORD32
    ensures r.Some? ==> r.value.family.Inet?
  {
    var a := AddrOf(lib, ReadText(c, "raddr", Print4(c.raddr.ip)));
    if a.None? || ReadPort(c) > 0xffff then None
    else Some(Address(Inet, if a.value.family.Inet? then a.value.ip else 0, ReadPort(c)))
  }

  /** The related address is of the kind its type calls for, none for a host. */
  predicate RelatedMatches(c: Full) {
    if c.typ.Host? then c.raddr.family.Unspecified? else c.raddr.family.Inet?
  }

  /** A candidate that printing and parsing preserve: its related address is of the right kind, and
      is what the parser reads. */
  predicate Survives(lib: Library, c: Full)
    requires c.component >= 1 && c.raddr.ip < WORD32
  {
    RelatedMatches(c) && (c.typ.Host? || RelatedOf(lib, c) == Some(c.raddr))
  }

  /** Neither word in front of the related address holds a marker. */
  predicate Unmarked(c: Full, p: string) {
    Find(c.foundation, p).None? && Find(c.transport, p).None?
  }

  lemma BehindHeld(words: seq<string>, tail: string, p: string, k: nat) returns (rest: string)
    requires k + 1 < |words| && |p| == 5 && ' ' !in p && Breaks(tail)
    requires Find(words[k], p).Some? && VisibleWord(words[k]) && VisibleWord(words[k + 1])
    requires forall i | 0 <= i < k :: Find(words[i], p).None?
    ensures Find(Line(words, tail), p).Some?
    ensures Starts(Behind(Line(words, tail), Find(Line(words, tail), p).value),
                   Following(words[k], p, words[k + 1]), rest)
  {
    hide *;
    var s, w, ws := Line(words, tail), words[k], words[k..];
    var at := FindInLine(words, tail, p, k);
    var j := HeldAt(w, p);
    rest := BehindWordAt(s, at, ws, tail, j + 6);
    Places(s, w, p, words[k + 1], at);
  }

  lemma HeldAt(w: string, p: string) returns (j: nat)
    requires Find(w, p).Some?
    ensures Find(w, p) == Some(j) && j + |p| <= |w|
  {
    hide Find;
    j := Find(w, p).value;
  }

  lemma BehindWordAt(s: string, at: nat, ws: seq<string>, tail: string, j: nat) returns (rest: string)
    requires |ws| > 1 && VisibleWord(ws[0]) && VisibleWord(ws[1]) && Breaks(tail) && j <= |ws[0]| + 1
    requires at <= |s| && s[at..] == Line(ws, tail)
    ensures at + j <= |s|
    ensures Starts(s[at + j..], if j < |ws[0]| then ws[0][j..] else ws[1], rest)
  {
    hide *;
    rest := BehindWord(ws, tail, j);
    SliceTwice(s, at, j);
  }

  lemma SliceTwice(s: string, at: nat, j: nat)
    requires at <= |s| && j <= |s[at..]|
    ensures at + j <= |s| && s[at..][j..] == s[at + j..]
  {
  }

  lemma Places(s: string, w: string, p: string, next: string, at: nat)
    requires Find(w, p).Some? && at + Find(w, p).value + 6 <= |s|
    ensures var j := Find(w, p).value + 6;
            && Behind(s, at + Find(w, p).value) == s[at + j..]
            && Following(w, p, next) == if j < |w| then w[j..] else next
  {
    hide Find;
  }

  /** At most one blank is between the end of a word and the next word. */
  lemma BehindWord(ws: seq<string>, tail: string, j: nat) returns (rest: string)
    requires |ws| > 1 && VisibleWord(ws[0]) && VisibleWord(ws[1]) && Breaks(tail) && j <= |ws[0]| + 1
    ensures j <= |Line(ws, tail)|
    ensures Starts(Line(ws, tail)[j..], if j < |ws[0]| then ws[0][j..] else ws[1], rest)
  {
    LineIs(ws, tail);
    LineIs(ws[1..], tail);
    var s, w := Line(ws, tail), ws[0];
    if j < |w| {
      rest := Rest(ws, tail);
      assert s[j..] == w[j..] + rest;
    } else {
      rest := Rest(ws[1..], tail);
      if j == |w| {
        assert s[j..] == Rest(ws, tail);
        NextHolds(ws, tail);
      } else {
        assert s[j..] == Rest(ws, tail)[1..] == Line(ws[1..], tail);
        LineHolds(ws[1..], tail);
      }
    }
  }

  lemma NoLetters(n: nat, c: char)
    requires !IsDigit(c)
    ensures c !in Decimal(n)
  {
    DecimalValue(n);
    forall i | 0 <= i < |Decimal(n)| ensures Decimal(n)[i] != c { assert IsDigit(Decimal(n)[i]); }
  }

  lemma NumberUnmarked(n: nat, p: string)
    requires p != [] && p[0] == 'r'
    ensures Find(Decimal(n), p).None?
  {
    NoLetters(n, 'r');
    NotFound(Decimal(n), p);
  }

  lemma AddressUnmarked(ip: nat, p: string)
    requires ip < WORD32 && p != [] && (p[0] == 'r' || p[0] == 'l')
    ensures Find(Print4(ip), p).None?
  {
    Print4Looks(ip);
    assert p[0] !in Print4(ip);
    NotFound(Print4(ip), p);
  }

  lemma FrontUnmarked(lib: Library, c: Full, p: string)
    requires Printable(c) && Unmarked(c, p) && (p == "raddr" || p == "rport")
    ensures forall i | 0 <= i < 7 :: Find(Words(lib, c)[i], p).None?
  {
    hide Decimal, Print4;
    var ws := Words(lib, c);
    NumberUnmarked(c.component, p);
    NumberUnmarked(c.priority, p);
    AddressUnmarked(c.addr.ip, p);
    NumberUnmarked(c.addr.port, p);
    TooShort("typ", p);
    forall i | 0 <= i < 7 ensures Find(ws[i], p).None? {
      assert i == 0 || i == 1 || i == 2 || i == 3 || i == 4 || i == 5 || i == 6;
    }
  }

  /** A marker in the foundation or the transport. */
  lemma EarlyMarker(lib: Library, c: Full, tail: string, p: string, meant: string) returns (rest: string)
    requires Printable(c) && !Unmarked(c, p) && (p == "raddr" || p == "rport") && Breaks(tail)
    ensures var s := Line(Words(lib, c), tail);
            Find(s, p).Some? && Starts(Behind(s, Find(s, p).value), ReadText(c, p, meant), rest)
  {
    hide Find, Line, Decimal, Print4, VisibleWord, Starts, Behind, Following;
    var ws := Words(lib, c);
    DigitsVisible(c.component);
    DigitsVisible(c.priority);
    if Find(c.foundation, p).Some? {
      rest := BehindHeld(ws, tail, p, 0);
    } else {
      NumberUnmarked(c.component, p);
      rest := BehindHeld(ws, tail, p, 2);
    }
  }

  lemma RelatedWords(lib: Library, c: Full)
    requires Printable(c) && !c.typ.Host?
    ensures var ws := Words(lib, c);
            && |ws| == 12 && (ws[7] == "srflx" || ws[7] == "relay")
            && ws[8] == "raddr" && ws[9] == Print4(c.raddr.ip) && ws[10] == "rport" && ws[11] == Decimal(c.raddr.port)
  {
    hide Decimal, Print4;
  }

  /** No word in front of a marker holds it. */
  lemma EarlierUnmarked(lib: Library, c: Full, p: string, k: nat)
    requires Printable(c) && !c.typ.Host? && Unmarked(c, p)
    requires (p == "raddr" && k == 8) || (p == "rport" && k == 10)
    ensures k < |Words(lib, c)| && forall i | 0 <= i < k :: Find(Words(lib, c)[i], p).None?
  {
    RelatedWords(lib, c);
    hide Words, Find, Decimal, Print4, Unmarked, Printable;
    var ws := Words(lib, c);
    FrontUnmarked(lib, c, p);
    SameLength(ws[7], p);
    if p == "rport" {
      SameLength(ws[8], p);
      AddressUnmarked(c.raddr.ip, p);
    }
    forall i | 0 <= i < k ensures Find(ws[i], p).None? {
      assert i < 7 || i == 7 || i == 8 || i == 9;
    }
  }

  lemma MeantAddress(lib: Library, c: Full, tail: string) returns (rest: string)
    requires Printable(c) && Unmarked(c, "raddr") && !c.typ.Host? && Breaks(tail)
    ensures var s := Line(Words(lib, c), tail);
            Find(s, "raddr").Some? && Starts(Behind(s, Find(s, "raddr").value), Print4(c.raddr.ip), rest)
  {
    LettersVisible();
    RelatedWords(lib, c);
    hide Words, Find, Line, Decimal, Print4, VisibleWord, Starts, Behind, Following, Unmarked;
    MarkersFollow(Print4(c.raddr.ip));
    EarlierUnmarked(lib, c, "raddr", 8);
    Print4Looks(c.raddr.ip);
    rest := BehindHeld(Words(lib, c), tail, "raddr", 8);
  }

  lemma MeantPort(lib: Library, c: Full, tail: string) returns (rest: string)
    requires Printable(c) && Unmarked(c, "rport") && !c.typ.Host? && Breaks(tail)
    ensures var s := Line(Words(lib, c), tail);
            Find(s, "rport").Some? && Starts(Behind(s, Find(s, "rport").value), Decimal(c.raddr.port), rest)
  {
    LettersVisible();
    RelatedWords(lib, c);
    hide Words, Find, Line, Decimal, Print4, VisibleWord, Starts, Behind, Following, Unmarked;
    MarkersFollow(Decimal(c.raddr.port));
    EarlierUnmarked(lib, c, "rport", 10);
    DigitsVisible(c.raddr.port);
    rest := BehindHeld(Words(lib, c), tail, "rport", 10);
  }

  lemma MarkersFollow(next: string)
    ensures Find("raddr", "raddr") == Find("rport", "rport") == Some(0)
    ensures Following("raddr", "raddr", next) == next && Following("rport", "rport", next) == next
  {
    FoundAtOnce("raddr", []);
    FoundAtOnce("rport", []);
    assert "raddr" + [] == "raddr" && "rport" + [] == "rport";
  }

  lemma ReadTextShort(c: Full, p: string, meant: string)
    requires Printable(c) && |meant| <= 45
    ensures |ReadText(c, p, meant)| <= 45
  {
    assert Power10(10) == 10_000_000_000;
    DecimalLength(c.component, 10);
    DecimalLength(c.priority, 10);
  }

  /** The parser makes of a printed line what RelatedOf says. */
  lemma RelatedRead(lib: Library, c: Full, tail: string)
    requires Printable(c) && !c.typ.Host? && Breaks(tail)
    ensures Related(lib, Line(Words(lib, c), tail), Inet) == RelatedOf(lib, c)
  {
    hide Find, Line, Words, Decimal, Print4, Word, Number, Behind, AddrOf, Starts, Unsigned;
    var s := Line(Words(lib, c), tail);
    var address, port := Print4(c.raddr.ip), Decimal(c.raddr.port);
    var rest, rest' := [], [];
    if Unmarked(c, "raddr") { rest := MeantAddress(lib, c, tail); } else { rest := EarlyMarker(lib, c, tail, "raddr", address); }
    if Unmarked(c, "rport") { rest' := MeantPort(lib, c, tail); } else { rest' := EarlyMarker(lib, c, tail, "rport", port); }
    Print4Looks(c.raddr.ip);
    ReadTextShort(c, "raddr", address);
    ReadWord(Behind(s, Find(s, "raddr").value), ReadText(c, "raddr", address), rest, 45);
    ReadNumber(Behind(s, Find(s, "rport").value), ReadText(c, "rport", port), rest');
  }

  // ---------------------------------------------------------------- the round trip

  lemma ScanPrinted(lib: Library, c: Full, tail: string)
    requires Printable(c) && Breaks(tail)
    ensures Scan(Line(Words(lib, c), tail))
         == Some(Fields(c.foundation, c.component, c.transport, c.priority, Print4(c.addr.ip), c.addr.port,
                        TypeWords(lib, c)[0]))
  {
    LettersVisible();
    hide VisibleWord, Line, Decimal, Print4, Scan, ScanAddress, Holds;
    var typ := TypeWords(lib, c);
    var more := [Print4(c.addr.ip), Decimal(c.addr.port), "typ", typ[0]] + typ[1..];
    assert Words(lib, c) == [c.foundation, Decimal(c.component), c.transport, Decimal(c.priority)] + more;
    Print4Looks(c.addr.ip);
    var rest := ScanFront(c.foundation, c.component, c.transport, c.priority, more, tail);
    ScanBack(rest, c.foundation, c.component, c.transport, c.priority, Print4(c.addr.ip), c.addr.port, typ[0],
             typ[1..], tail);
  }

  lemma LineLength(words: seq<string>, tail: string, n: nat)
    requires forall i | 0 <= i < |words| :: |words[i]| <= n
    ensures |Line(words, tail)| <= |words| * (n + 1) + |tail|
  {
    if |words| > 1 {
      LineLength(words[1..], tail, n);
    }
  }

  lemma PrintedLength(lib: Library, c: Full, tail: string)
    requires Printable(c) && |tail| <= 2
    ensures |Print(lib, c, tail)| < MAX_LINE
  {
    hide Decimal, Print4;
    var ws := Words(lib, c);
    assert Power10(10) == 10_000_000_000;
    DecimalLength(c.component, 10);
    DecimalLength(c.priority, 10);
    DecimalLength(c.addr.port, 10);
    DecimalLength(c.raddr.port, 10);
    Print4Looks(c.addr.ip);
    Print4Looks(c.raddr.ip);
    LineLength(ws, tail, 32);
  }

  lemma ParsePrefixed(lib: Library, s: string)
    requires |PREFIX + s| < MAX_LINE
    ensures Parse(lib, PREFIX + s) == if Scan(s).None? then None else Build(lib, Scan(s).value, s)
  {
    hide Scan, Build;
    var text := PREFIX + s;
    assert text[..2] == "a=";
    assert text[2..] == "candidate:" + s;
    assert text[2..][10..] == s;
  }

  lemma TypesTell()
    ensures TypeOf("host") == Some(Host) && TypeOf("srflx") == Some(Srflx) && TypeOf("relay") == Some(Relay)
  {
    assert "srflx"[0] == 's' && "relay"[0] == 'r';
  }

  lemma BuildPrinted(lib: Library, c: Full, s: string, f: Fields)
    requires Printable(c)
    requires f == Fields(c.foundation, c.component, c.transport, c.priority, Print4(c.addr.ip), c.addr.port,
                         TypeWords(lib, c)[0])
    ensures Build(lib, f, s)
         == if c.typ.Host? then Some(c.(raddr := NO_ADDRESS))
            else if Related(lib, s, Inet).None? then None
            else Some(c.(raddr := Related(lib, s, Inet).value))
  {
    hide Decimal, Print4, Parse4, Related, Find, TypeOf;
    Parse4Print4(c.addr.ip);
    AddressUnmarked(c.addr.ip, "local");
    TypesTell();
  }

  /** Reading a printed line gives back every field but the related address, which is none for a
      host and otherwise what RelatedOf says; where that fails the line is refused. */
  lemma PrintedIsParsed(lib: Library, c: Full, tail: string)
    requires Printable(c) && Breaks(tail) && |tail| <= 2
    ensures Parse(lib, Print(lib, c, tail))
         == if c.typ.Host? then Some(c.(raddr := NO_ADDRESS))
            else if RelatedOf(lib, c).None? then None
            else Some(c.(raddr := RelatedOf(lib, c).value))
  {
    PrintedLength(lib, c, tail);
    hide Line, Words, Scan, Build, Related, RelatedOf, Find, Parse;
    var s := Line(Words(lib, c), tail);
    ParsePrefixed(lib, s);
    ScanPrinted(lib, c, tail);
    if !c.typ.Host? { RelatedRead(lib, c, tail); }
    BuildPrinted(lib, c, s, Scan(s).value);
  }

  /** The parsed candidate equals the printed one. */
  predicate Preserved(c: Full, p: Option<Full>) {
    p.Some? && Equal(c, p.value) && p.value.foundation == c.foundation && p.value.priority == c.priority
  }

  /** The law of printer and parser, and exactly when it holds. */
  lemma RoundTrip(lib: Library, c: Full, tail: string)
    requires Printable(c) && Breaks(tail) && |tail| <= 2
    ensures Preserved(c, Parse(lib, Print(lib, c, tail))) <==> Survives(lib, c)
  {
    hide Parse, Print, RelatedOf;
    PrintedIsParsed(lib, c, tail);
  }

  /** Without markers in front, the related address read is the one printed. */
  lemma UnmarkedRelated(lib: Library, c: Full)
    requires Printable(c) && Unmarked(c, "raddr") && Unmarked(c, "rport")
    ensures RelatedOf(lib, c) == Some(Address(Inet, c.raddr.ip, c.raddr.port))
  {
    hide Find, Decimal, Print4, Parse4, Number;
    Parse4Print4(c.raddr.ip);
    DecimalNumber(c.raddr.port);
  }

  lemma DecimalNumber(n: nat)
    ensures Number(Decimal(n)).Some? && Number(Decimal(n)).value.item == n
  {
    DigitsVisible(n);
    LineHolds([Decimal(n)], []);
    assert Line([Decimal(n)], []) == Decimal(n) + [] == Decimal(n);
    ScanNumber(Decimal(n), [Decimal(n)], [], n);
  }

  /** Creation leaves the related address as the slot held it. For every created candidate the law
      holds exactly when that address is of the kind its type calls for. */
  lemma CreatedRoundTrip(lib: Library, foundation: int, typ: CandidateType, addr: Address, raddr: Address, tail: string)
    requires -0x8000_0000 <= foundation < 0x8000_0000 && !typ.Prflx?
    requires addr.family.Inet? && addr.ip < WORD32 && addr.port < 0x1_0000
    requires !raddr.family.Inet6? && raddr.ip < WORD32 && raddr.port < 0x1_0000
    requires Breaks(tail) && |tail| <= 2
    ensures var c := Create(foundation, typ, addr).(raddr := raddr);
            Preserved(c, Parse(lib, Print(lib, c, tail))) <==> RelatedMatches(c)
  {
    hide Parse, Print, Equal, Decimal, Find, RelatedOf;
    var c := Create(foundation, typ, addr).(raddr := raddr);
    PriorityOrders(typ, addr.port, 1, typ, addr.port, 1);
    FoundationLooks(foundation);
    NotFound("UDP", "raddr");
    NotFound("UDP", "rport");
    UnmarkedRelated(lib, c);
    RoundTrip(lib, c, tail);
  }

  lemma FoundationLooks(n: int)
    requires -0x8000_0000 <= n < 0x8000_0000
    ensures VisibleWord(SignedDecimal(n)) && |SignedDecimal(n)| <= 32
    ensures Find(SignedDecimal(n), "raddr").None? && Find(SignedDecimal(n), "rport").None?
  {
    hide Decimal, Find;
    var m := if n < 0 then -n else n;
    assert Power10(10) == 10_000_000_000;
    DecimalLength(m, 10);
    DigitsVisible(m);
    NoLetters(m, 'r');
    NotFound(SignedDecimal(n), "raddr");
    NotFound(SignedDecimal(n), "rport");
  }

  // ---------------------------------------------------------------- marked foundations

  predicate NoSeparators(s: string) { '.' !in s && ':' !in s }

  /** Without a colon there is no IPv6 address. */
  ghost predicate Sensible(lib: Library) {
    forall s: string :: ':' !in s ==> lib.parse6(s).None?
  }

  lemma NoAddress(lib: Library, s: string)
    requires Sensible(lib) && NoSeparators(s)
    ensures AddrOf(lib, s).None?
  {
    var n := Digits(s);
    if Octet(s).Some? && Octet(s).value.rest != [] { assert s[n] in s; }
  }

  lemma MisreadAddress(lib: Library, c: Full)
    requires Sensible(lib) && Printable(c) && NoSeparators(c.foundation) && NoSeparators(c.transport)
    requires !Unmarked(c, "raddr")
    ensures RelatedOf(lib, c).None?
  {
    hide Find, Decimal, Print4, AddrOf;
    NoLetters(c.component, '.');
    NoLetters(c.component, ':');
    NoLetters(c.priority, '.');
    NoLetters(c.priority, ':');
    NoAddress(lib, ReadText(c, "raddr", Print4(c.raddr.ip)));
  }

  /** For foundations and transports without dots and colons, as RFC 8839 has them: a reflexive or
      relayed candidate survives exactly when neither holds "raddr", and either neither holds "rport"
      or the number behind its first occurrence happens to be the related port. */
  lemma MarkedFoundation(lib: Library, c: Full, tail: string)
    requires Sensible(lib) && Printable(c) && !c.typ.Host? && Breaks(tail) && |tail| <= 2
    requires NoSeparators(c.foundation) && NoSeparators(c.transport)
    ensures Preserved(c, Parse(lib, Print(lib, c, tail))) <==>
              && RelatedMatches(c) && Unmarked(c, "raddr")
              && (Unmarked(c, "rport") || ReadPort(c) == c.raddr.port)
  {
    hide Parse, Print, Preserved, NoSeparators, Sensible;
    RoundTrip(lib, c, tail);
    if Unmarked(c, "raddr") {
      PortDecides(lib, c);
    } else {
      MisreadAddress(lib, c);
    }
  }

  lemma PortDecides(lib: Library, c: Full)
    requires Printable(c) && Unmarked(c, "raddr")
    ensures RelatedOf(lib, c)
         == if ReadPort(c) > 0xffff then None else Some(Address(Inet, c.raddr.ip, ReadPort(c)))
    ensures Unmarked(c, "rport") ==> ReadPort(c) == c.raddr.port
  {
    hide Find, Decimal, Print4, Parse4, Number;
    Parse4Print4(c.raddr.ip);
    DecimalNumber(c.raddr.port);
  }

  /** A reflexive candidate of component 1 with related port 5. */
  function Example(foundation: string): Full {
    Full(foundation, 1, 1, "UDP", Srflx, Address(Inet, 1, 5), Address(Inet, 1, 5))
  }

  lemma ExamplePrintable(foundation: string)
    requires foundation == "raddr" || foundation == "rport"
    ensures Printable(Example(foundation)) && RelatedMatches(Example(foundation))
    ensures NoSeparators(foundation) && NoSeparators("UDP")
  {
    LettersVisible();
  }

  /** For example a candidate with the foundation "raddr" is refused. */
  lemma MarkedExample()
    ensures var lib, c := Library(_ => [], _ => None), Example("raddr");
            Printable(c) && RelatedMatches(c) && Parse(lib, Print(lib, c, [])).None?
  {
    hide Parse, Print, RelatedOf, Printable, RelatedMatches, NoSeparators, Find;
    var lib, c := Library(_ => [], _ => None), Example("raddr");
    ExamplePrintable("raddr");
    MarkersFollow([]);
    PrintedIsParsed(lib, c, []);
    MisreadAddress(lib, c);
  }

  /** And one with the foundation "rport" comes back with its component, 1, as related port. */
  lemma MarkedPortExample()
    ensures var lib, c := Library(_ => [], _ => None), Example("rport");
            && Printable(c) && RelatedMatches(c)
            && Parse(lib, Print(lib, c, [])) == Some(c.(raddr := Address(Inet, 1, 1)))
            && !Preserved(c, Parse(lib, Print(lib, c, [])))
  {
    hide Parse, Print, RelatedOf, Printable, RelatedMatches, Find, Decimal, Number, Following, CaseEqual;
    var lib, c := Library(_ => [], _ => None), Example("rport");
    ExamplePrintable("rport");
    MarkersFollow(Decimal(1));
    SameLength("rport", "raddr");
    TooShort("UDP", "raddr");
    DecimalNumber(1);
    PortDecides(lib, c);
    PrintedIsParsed(lib, c, []);
  }
}
