/** `throttleOrigin`: which client addresses share a budget, whatever way they are spelled. */
module ThrottleOrigin {
  import opened Strings

  const MAX_PASSTHROUGH_LENGTH := 64

  // ----- numbers in text -----

  predicate IsHex(c: char) { IsDigit(c) || 'a' <= c <= 'f' }

  function HexDigit(c: char): (v: nat)
    requires IsHex(c)
    ensures v < 16
  {
    if IsDigit(c) then c as int - 48 else c as int - 87
  }

  function HexChar(v: nat): (c: char)
    requires v < 16
    ensures IsHex(c) && HexDigit(c) == v && c != ':'
  {
    if v < 10 then (48 + v) as char else (87 + v) as char
  }

  predicate AllHex(s: string) { forall i :: 0 <= i < |s| ==> IsHex(s[i]) }

  function HexValue(s: string): nat
    requires AllHex(s)
  {
    if s == "" then 0 else 16 * HexValue(s[..|s| - 1]) + HexDigit(s[|s| - 1])
  }

  function HexText(n: nat): (s: string)
    ensures s != "" && AllHex(s)
  {
    if n < 16 then [HexChar(n)] else HexText(n / 16) + [HexChar(n % 16)]
  }

  lemma {:induction false} ValueOfHexText(n: nat)
    ensures HexValue(HexText(n)) == n
  {
    var s := HexText(n);
    if n < 16 {
      assert s[..0] == "";
    } else {
      assert s[..|s| - 1] == HexText(n / 16);
      ValueOfHexText(n / 16);
    }
  }

  // ----- the text forms of section 2.2 of RFC 4291 -----

  /** One group in hexadecimal, or an embedded IPv4 address standing for two. */
  datatype Piece = Hex(digits: string) | Quad(a: nat, b: nat, c: nat, d: nat)

  /** All eight groups, or some left out at the `::`. */
  datatype Spelling = Full(pieces: seq<Piece>) | Elided(front: seq<Piece>, back: seq<Piece>)

  predicate GoodPiece(p: Piece) {
    match p
    case Hex(digits) => 1 <= |digits| <= 4 && AllHex(digits)
    case Quad(a, b, c, d) => a < 256 && b < 256 && c < 256 && d < 256
  }

  /** Only the last piece of an address may be an IPv4 address. */
  predicate GoodPieces(ps: seq<Piece>, atEnd: bool) {
    AllGood(ps) && forall i :: 0 <= i < |ps| ==> ps[i].Quad? ==> atEnd && i == |ps| - 1
  }

  function PieceGroups(p: Piece): seq<nat>
    requires GoodPiece(p)
  {
    match p
    case Hex(digits) => [HexValue(digits)]
    case Quad(a, b, c, d) => [a * 256 + b, c * 256 + d]
  }

  predicate AllGood(ps: seq<Piece>) { forall i :: 0 <= i < |ps| ==> GoodPiece(ps[i]) }

  function GroupsOf(ps: seq<Piece>): seq<nat>
    requires AllGood(ps)
  {
    if ps == [] then [] else PieceGroups(ps[0]) + GroupsOf(ps[1..])
  }

  /** Eight groups are spelled, or fewer with `::` standing for at least one. */
  predicate WellFormed(sp: Spelling) {
    match sp
    case Full(ps) => GoodPieces(ps, true) && |GroupsOf(ps)| == 8
    case Elided(front, back) =>
      GoodPieces(front, false) && GoodPieces(back, true) && |GroupsOf(front)| + |GroupsOf(back)| <= 7
  }

  function Zeros(n: int): (r: seq<nat>)
    ensures |r| == if n < 0 then 0 else n
    ensures forall i :: 0 <= i < |r| ==> r[i] == 0
  {
    if n <= 0 then [] else Zeros(n - 1) + [0]
  }

  function Address(sp: Spelling): (groups: seq<nat>)
    requires WellFormed(sp)
    ensures |groups| == 8
  {
    match sp
    case Full(ps) => GroupsOf(ps)
    case Elided(front, back) =>
      GroupsOf(front) + Zeros(8 - |GroupsOf(front)| - |GroupsOf(back)|) + GroupsOf(back)
  }

  function QuadText(a: nat, b: nat, c: nat, d: nat): string {
    Join([Decimal(a), Decimal(b), Decimal(c), Decimal(d)], '.')
  }

  function PieceText(p: Piece): string {
    match p
    case Hex(digits) => digits
    case Quad(a, b, c, d) => QuadText(a, b, c, d)
  }

  function Texts(ps: seq<Piece>): (r: seq<string>)
    ensures |r| == |ps|
  {
    if ps == [] then [] else [PieceText(ps[0])] + Texts(ps[1..])
  }

  function Spelled(sp: Spelling): string {
    match sp
    case Full(ps) => Join(Texts(ps), ':')
    case Elided(front, back) => Join(Texts(front), ':') + "::" + Join(Texts(back), ':')
  }

  ghost predicate IsIPv4(address: string) {
    exists a: nat, b: nat, c: nat, d: nat ::
      a < 256 && b < 256 && c < 256 && d < 256 && address == QuadText(a, b, c, d)
  }

  ghost predicate IsIPv6(address: string) {
    exists sp :: WellFormed(sp) && address == Spelled(sp)
  }

  // ----- reading an address -----

  /** The parts between the occurrences of `::`. */
  function SplitDouble(s: string): (parts: seq<string>)
    ensures parts != []
  {
    if |s| < 2 then [s]
    else if s[0] == ':' && s[1] == ':' then [""] + SplitDouble(s[2..])
    else
      var rest := SplitDouble(s[1..]);
      [[s[0]] + rest[0]] + rest[1..]
  }

  function ParseHex(s: string): nat { if AllHex(s) then HexValue(s) else 0 }

  function ParseDecimal(s: string): nat { if AllDigits(s) then Value(s) else 0 }

  function HextetsOf(group: string): seq<nat> {
    if '.' !in group then [ParseHex(group)]
    else
      var octets := Split(group, '.');
      [OctetAt(octets, 0) * 256 + OctetAt(octets, 1), OctetAt(octets, 2) * 256 + OctetAt(octets, 3)]
  }

  function OctetAt(octets: seq<string>, i: nat): nat { if i < |octets| then ParseDecimal(octets[i]) else 0 }

  function AllHextets(groups: seq<string>): seq<nat> {
    if groups == [] then [] else HextetsOf(groups[0]) + AllHextets(groups[1..])
  }

  function Read(part: string): seq<nat> { if part == "" then [] else AllHextets(Split(part, ':')) }

  function Hextets(address: string): seq<nat> {
    var parts := SplitDouble(address);
    var front := Read(parts[0]);
    if |parts| == 1 then front
    else
      var back := Read(parts[1]);
      front + Zeros(8 - |front| - |back|) + back
  }

  predicate IsMapped(groups: seq<nat>)
    requires |groups| == 8
  {
    groups[..5] == [0, 0, 0, 0, 0] && groups[5] == 0xffff
  }

  /** The first four groups, in hexadecimal without leading zeros. */
  function NetworkText(groups: seq<nat>): string
    requires |groups| == 8
  {
    Join([HexText(groups[0]), HexText(groups[1]), HexText(groups[2]), HexText(groups[3])], ':')
  }

  /** The key of an IPv6 address. */
  function KeyOf(groups: seq<nat>): string
    requires |groups| == 8
  {
    if IsMapped(groups) then QuadText(groups[6] / 256, groups[6] % 256, groups[7] / 256, groups[7] % 256)
    else NetworkText(groups) + "::/64"
  }

  // ----- reading is the inverse of spelling -----

  lemma QuadParts(a: nat, b: nat, c: nat, d: nat)
    ensures Split(QuadText(a, b, c, d), '.') == [Decimal(a), Decimal(b), Decimal(c), Decimal(d)]
    ensures '.' in QuadText(a, b, c, d)
  {
    var parts := [Decimal(a), Decimal(b), Decimal(c), Decimal(d)];
    SplitOfJoin(parts, '.');
    if '.' !in QuadText(a, b, c, d) { SplitNone(QuadText(a, b, c, d), '.'); }
  }

  lemma PieceIsRead(p: Piece)
    requires GoodPiece(p)
    ensures HextetsOf(PieceText(p)) == PieceGroups(p)
  {
    match p
    case Hex(digits) =>
    case Quad(a, b, c, d) =>
      QuadParts(a, b, c, d);
      ValueOfDecimal(a);
      ValueOfDecimal(b);
      ValueOfDecimal(c);
      ValueOfDecimal(d);
  }

  lemma {:induction false} PiecesAreRead(ps: seq<Piece>)
    requires AllGood(ps)
    ensures AllHextets(Texts(ps)) == GroupsOf(ps)
  {
    if ps != [] {
      PieceIsRead(ps[0]);
      PiecesAreRead(ps[1..]);
    }
  }

  predicate IsPlain(s: string) { s != "" && ':' !in s && '%' !in s }

  lemma PieceIsPlain(p: Piece)
    requires GoodPiece(p)
    ensures IsPlain(PieceText(p))
  {
    if p.Quad? { QuadIsPlain(p.a, p.b, p.c, p.d); }
  }

  lemma QuadIsPlain(a: nat, b: nat, c: nat, d: nat)
    ensures IsPlain(QuadText(a, b, c, d))
  {
    JoinAvoids([Decimal(a), Decimal(b), Decimal(c), Decimal(d)], '.', ':');
    JoinAvoids([Decimal(a), Decimal(b), Decimal(c), Decimal(d)], '.', '%');
  }

  lemma {:induction false} JoinAvoids(parts: seq<string>, separator: char, other: char)
    requires other != separator && forall i :: 0 <= i < |parts| ==> other !in parts[i]
    ensures other !in Join(parts, separator)
  {
    if parts != [] { JoinAvoids(parts[1..], separator, other); }
  }

  lemma {:induction false} TextsArePlain(ps: seq<Piece>)
    requires AllGood(ps)
    ensures forall i :: 0 <= i < |ps| ==> IsPlain(Texts(ps)[i])
  {
    if ps != [] {
      PieceIsPlain(ps[0]);
      TextsArePlain(ps[1..]);
    }
  }

  predicate NoDouble(s: string) {
    forall i {:trigger s[i]} :: 0 <= i < |s| - 1 ==> s[i] != ':' || s[i + 1] != ':'
  }

  /** No two colons side by side, and none at the end. */
  predicate Single(s: string) { NoDouble(s) && (s != "" ==> s[|s| - 1] != ':') }

  lemma TailNoDouble(s: string)
    requires NoDouble(s) && s != ""
    ensures NoDouble(s[1..])
  {
    var tail := s[1..];
    forall i | 0 <= i < |tail| - 1 ensures tail[i] != ':' || tail[i + 1] != ':' {
      assert tail[i] == s[i + 1] && tail[i + 1] == s[i + 2];
    }
  }

  lemma {:induction false} JoinIsSingle(parts: seq<string>)
    requires forall i :: 0 <= i < |parts| ==> IsPlain(parts[i])
    ensures Single(Join(parts, ':')) && (parts != [] ==> Join(parts, ':') != "" && Join(parts, ':')[0] != ':')
  {
    if |parts| > 1 {
      var rest := Join(parts[1..], ':');
      JoinIsSingle(parts[1..]);
      var s := parts[0] + [':'] + rest;
      assert IsPlain(parts[0]);
      forall i | 0 <= i < |s| - 1 ensures s[i] != ':' || s[i + 1] != ':' {
        if i > |parts[0]| { assert s[i] == rest[i - |parts[0]| - 1] && s[i + 1] == rest[i - |parts[0]|]; }
      }
    } else if parts != [] {
      assert IsPlain(parts[0]);
    }
  }

  lemma {:induction false} SplitDoubleNone(s: string)
    requires NoDouble(s)
    ensures SplitDouble(s) == [s]
  {
    if |s| >= 2 {
      TailNoDouble(s);
      SplitDoubleNone(s[1..]);
      assert s[0] != ':' || s[1] != ':';
      assert [s[0]] + s[1..] == s;
    }
  }

  lemma {:induction false} SplitDoubleOnce(front: string, back: string)
    requires Single(front)
    ensures SplitDouble(front + "::" + back) == [front] + SplitDouble(back)
    decreases |front|
  {
    var s := front + "::" + back;
    if front == "" {
      assert s[2..] == back;
    } else {
      var tail := front[1..];
      assert s[1..] == tail + "::" + back && s[0] == front[0];
      assert [front[0]] + tail == front;
      TailNoDouble(front);
      SplitDoubleOnce(tail, back);
      if |front| > 1 { assert s[1] == front[1]; }
    }
  }

  lemma ReadOfJoin(ps: seq<Piece>)
    requires AllGood(ps)
    ensures Read(Join(Texts(ps), ':')) == GroupsOf(ps)
  {
    TextsArePlain(ps);
    JoinIsSingle(Texts(ps));
    if ps != [] {
      SplitOfJoin(Texts(ps), ':');
      PiecesAreRead(ps);
    }
  }

  lemma HextetsOfFull(ps: seq<Piece>)
    requires WellFormed(Full(ps))
    ensures Hextets(Spelled(Full(ps))) == Address(Full(ps))
  {
    TextsArePlain(ps);
    JoinIsSingle(Texts(ps));
    SplitDoubleNone(Spelled(Full(ps)));
    ReadOfJoin(ps);
  }

  lemma SplitElided(front: seq<Piece>, back: seq<Piece>)
    requires WellFormed(Elided(front, back))
    ensures SplitDouble(Spelled(Elided(front, back))) == [Join(Texts(front), ':'), Join(Texts(back), ':')]
  {
    TextsArePlain(front);
    JoinIsSingle(Texts(front));
    TextsArePlain(back);
    JoinIsSingle(Texts(back));
    SplitDoubleOnce(Join(Texts(front), ':'), Join(Texts(back), ':'));
    SplitDoubleNone(Join(Texts(back), ':'));
  }

  lemma HextetsOfElided(front: seq<Piece>, back: seq<Piece>)
    requires WellFormed(Elided(front, back))
    ensures Hextets(Spelled(Elided(front, back))) == Address(Elided(front, back))
  {
    SplitElided(front, back);
    ReadOfJoin(front);
    ReadOfJoin(back);
  }

  /** Reading any spelling of an address gives the address. */
  lemma HextetsOfSpelling(sp: Spelling)
    requires WellFormed(sp)
    ensures Hextets(Spelled(sp)) == Address(sp)
  {
    match sp
    case Full(ps) => HextetsOfFull(ps);
    case Elided(front, back) => HextetsOfElided(front, back);
  }

  lemma ReadsEight(address: string)
    requires IsIPv6(address)
    ensures |Hextets(address)| == 8
  {
    var sp :| WellFormed(sp) && address == Spelled(sp);
    HextetsOfSpelling(sp);
  }

  // ----- the key of a client address -----

  /** The text, or its first 64 characters when it is longer. */
  function Cut(ip: string): (r: string)
    ensures r <= ip && |r| == if |ip| > MAX_PASSTHROUGH_LENGTH then MAX_PASSTHROUGH_LENGTH else |ip|
  {
    if |ip| <= MAX_PASSTHROUGH_LENGTH then ip else ip[..MAX_PASSTHROUGH_LENGTH]
  }

  ghost function KeyOrCut(address: string, ip: string): string {
    if IsIPv4(address) then address
    else if !IsIPv6(address) then Cut(ip)
    else
      ReadsEight(address);
      KeyOf(Hextets(address))
  }

  ghost function ThrottleOrigin(ip: string): string { KeyOrCut(Lower(Split(ip, '%')[0]), ip) }

  /** The text, without a zone and in whatever case, spells the address. */
  ghost predicate Spells(ip: string, sp: Spelling) {
    WellFormed(sp) && Lower(Split(ip, '%')[0]) == Spelled(sp)
  }

  /** An address with `:` in it is no IPv4 address. */
  lemma SpelledIsNotIPv4(sp: Spelling)
    requires WellFormed(sp)
    ensures !IsIPv4(Spelled(sp))
  {
    SpelledHasColon(sp);
    forall a: nat, b: nat, c: nat, d: nat ensures ':' !in QuadText(a, b, c, d) { QuadIsPlain(a, b, c, d); }
  }

  lemma {:induction false} GroupsNeedPieces(ps: seq<Piece>)
    requires AllGood(ps)
    ensures |GroupsOf(ps)| <= 2 * |ps|
  {
    if ps != [] { GroupsNeedPieces(ps[1..]); }
  }

  lemma SpelledHasColon(sp: Spelling)
    requires WellFormed(sp)
    ensures ':' in Spelled(sp)
  {
    match sp
    case Full(ps) =>
      GroupsNeedPieces(ps);
      assert Spelled(sp)[|Texts(ps)[0]|] == ':';
    case Elided(front, back) =>
      assert Spelled(sp)[|Join(Texts(front), ':')|] == ':';
  }

  /** The key depends on the address alone: not on leading zeros, on where `::` stands, on case,
      on a dotted tail or on a zone. */
  lemma SpellingDoesNotMatter(ip: string, sp: Spelling)
    requires Spells(ip, sp)
    ensures ThrottleOrigin(ip) == KeyOf(Address(sp))
  {
    SpelledIsNotIPv4(sp);
    HextetsOfSpelling(sp);
    assert IsIPv6(Spelled(sp));
  }

  lemma NetworkTextDecides(a: seq<nat>, b: seq<nat>)
    requires |a| == |b| == 8 && NetworkText(a) == NetworkText(b)
    ensures a[..4] == b[..4]
  {
    var x := [HexText(a[0]), HexText(a[1]), HexText(a[2]), HexText(a[3])];
    var y := [HexText(b[0]), HexText(b[1]), HexText(b[2]), HexText(b[3])];
    SplitOfJoin(x, ':');
    SplitOfJoin(y, ':');
    assert x[0] == y[0] && x[1] == y[1] && x[2] == y[2] && x[3] == y[3];
    forall i | 0 <= i < 4 ensures a[i] == b[i] {
      assert HexText(a[i]) == x[i] && HexText(b[i]) == y[i];
      ValueOfHexText(a[i]);
      ValueOfHexText(b[i]);
    }
  }

  lemma HexTextIsShort(n: nat)
    requires n < 0x1_0000
    ensures |HexText(n)| <= 4
  {
    var (a, b, c) := (n / 16, n / 16 / 16, n / 16 / 16 / 16);
    assert c < 16 && |HexText(c)| == 1;
    assert |HexText(b)| <= 2;
    assert |HexText(a)| <= 3;
  }

  /** No digit is written that could be left out. */
  lemma {:induction false} HexTextIsTidy(n: nat)
    ensures n > 0 ==> HexText(n)[0] != '0'
    ensures n == 0 ==> HexText(n) == "0"
  {
    if n >= 16 { HexTextIsTidy(n / 16); }
  }

  lemma HexBelow(digits: string)
    requires AllHex(digits) && |digits| <= 4
    ensures HexValue(digits) < 0x1_0000
  {
    var n := |digits|;
    if n > 0 {
      var front := digits[..n - 1];
      if n > 1 {
        var front2 := front[..n - 2];
        if n > 2 {
          assert HexValue(front2[..n - 3]) < 16 by { if n > 3 { assert front2[..n - 3][..0] == ""; } }
        }
      }
    }
  }

  lemma {:induction false} GroupsAreShort(ps: seq<Piece>)
    requires AllGood(ps)
    ensures forall i :: 0 <= i < |GroupsOf(ps)| ==> GroupsOf(ps)[i] < 0x1_0000
  {
    if ps != [] {
      if ps[0].Hex? { HexBelow(ps[0].digits); }
      GroupsAreShort(ps[1..]);
    }
  }

  /** What the key of an address that is not mapped spells: its network, the rest left out. */
  function NetworkOf(groups: seq<nat>): Spelling
    requires |groups| == 8
  {
    Elided([Hex(HexText(groups[0])), Hex(HexText(groups[1])), Hex(HexText(groups[2])), Hex(HexText(groups[3]))], [])
  }

  /** The key of an address that is not mapped is itself the text of an address, up to the length of the
      prefix: that of the network, the last four groups being zeros. */
  lemma KeyReadsBack(ip: string, sp: Spelling) returns (network: Spelling)
    requires Spells(ip, sp) && !IsMapped(Address(sp))
    ensures WellFormed(network) && ThrottleOrigin(ip) == Spelled(network) + "/64"
    ensures Address(network) == Address(sp)[..4] + [0, 0, 0, 0]
    ensures network.Elided? && network.back == [] && forall i :: 0 <= i < |network.front| ==>
      network.front[i].Hex? && (network.front[i].digits == "0" || network.front[i].digits[0] != '0')
  {
    var g := Address(sp);
    network := NetworkOf(g);
    SpellingDoesNotMatter(ip, sp);
    AddressIsShort(sp);
    FourGroups(g);
  }

  lemma AddressIsShort(sp: Spelling)
    requires WellFormed(sp)
    ensures forall i :: 0 <= i < 8 ==> Address(sp)[i] < 0x1_0000
  {
    match sp
    case Full(ps) => GroupsAreShort(ps);
    case Elided(front, back) =>
      GroupsAreShort(front);
      GroupsAreShort(back);
  }

  lemma FourGroups(g: seq<nat>)
    requires |g| == 8 && forall i :: 0 <= i < 8 ==> g[i] < 0x1_0000
    ensures WellFormed(NetworkOf(g)) && Spelled(NetworkOf(g)) + "/64" == NetworkText(g) + "::/64"
    ensures Address(NetworkOf(g)) == g[..4] + [0, 0, 0, 0]
    ensures forall i :: 0 <= i < 4 ==>
      var digits := NetworkOf(g).front[i].digits; digits == "0" || digits[0] != '0'
  {
    var front := NetworkOf(g).front;
    forall i | 0 <= i < 4
      ensures GoodPiece(front[i]) && PieceGroups(front[i]) == [g[i]]
      ensures front[i].digits == "0" || front[i].digits[0] != '0'
    {
      HexTextIsShort(g[i]);
      HexTextIsTidy(g[i]);
      ValueOfHexText(g[i]);
    }
    GroupsOfFour(front, g[..4]);
    TextsOfFour(front);
    assert Zeros(4) == [0, 0, 0, 0];
  }

  lemma GroupsOfFour(ps: seq<Piece>, g: seq<nat>)
    requires |ps| == |g| == 4 && AllGood(ps) && forall i :: 0 <= i < 4 ==> PieceGroups(ps[i]) == [g[i]]
    ensures GroupsOf(ps) == g
  {
    assert ps[1..][1..] == ps[2..] && ps[2..][1..] == ps[3..] && ps[3..][1..] == [];
    assert GroupsOf(ps[3..]) == [g[3]];
    assert GroupsOf(ps[2..]) == [g[2], g[3]];
    assert GroupsOf(ps[1..]) == [g[1], g[2], g[3]];
  }

  lemma TextsOfFour(ps: seq<Piece>)
    requires |ps| == 4
    ensures Texts(ps) == [PieceText(ps[0]), PieceText(ps[1]), PieceText(ps[2]), PieceText(ps[3])]
  {
    assert ps[1..][1..] == ps[2..] && ps[2..][1..] == ps[3..] && ps[3..][1..] == [];
    assert Texts(ps[3..]) == [PieceText(ps[3])];
    assert Texts(ps[2..]) == [PieceText(ps[2]), PieceText(ps[3])];
    assert Texts(ps[1..]) == [PieceText(ps[1]), PieceText(ps[2]), PieceText(ps[3])];
  }

  /** Two addresses that are not mapped share a key exactly when their first four groups agree. */
  lemma KeyIsNetwork(ip: string, sp: Spelling, other: string, other6: Spelling)
    requires Spells(ip, sp) && Spells(other, other6)
    requires !IsMapped(Address(sp)) && !IsMapped(Address(other6))
    ensures ThrottleOrigin(ip) == ThrottleOrigin(other) <==> Address(sp)[..4] == Address(other6)[..4]
  {
    SpellingDoesNotMatter(ip, sp);
    SpellingDoesNotMatter(other, other6);
    var a, b := Address(sp), Address(other6);
    assert KeyOf(a) == NetworkText(a) + "::/64" && KeyOf(b) == NetworkText(b) + "::/64";
    if KeyOf(a) == KeyOf(b) {
      assert NetworkText(a) == KeyOf(a)[..|KeyOf(a)| - 5] && NetworkText(b) == KeyOf(b)[..|KeyOf(b)| - 5];
      NetworkTextDecides(a, b);
    }
    if a[..4] == b[..4] {
      assert forall i :: 0 <= i < 4 ==> a[i] == a[..4][i] && b[i] == b[..4][i];
    }
  }

  lemma QuadTextDecides(a: nat, b: nat, c: nat, d: nat, e: nat, f: nat, g: nat, h: nat)
    requires QuadText(a, b, c, d) == QuadText(e, f, g, h)
    ensures a == e && b == f && c == g && d == h
  {
    QuadParts(a, b, c, d);
    QuadParts(e, f, g, h);
    var x, y := Split(QuadText(a, b, c, d), '.'), Split(QuadText(e, f, g, h), '.');
    assert x[0] == y[0] && x[1] == y[1] && x[2] == y[2] && x[3] == y[3];
    ValueOfDecimal(a);
    ValueOfDecimal(b);
    ValueOfDecimal(c);
    ValueOfDecimal(d);
    ValueOfDecimal(e);
    ValueOfDecimal(f);
    ValueOfDecimal(g);
    ValueOfDecimal(h);
  }

  /** An IPv4 address is its own key. */
  lemma IPv4IsItsKey(ip: string, a: nat, b: nat, c: nat, d: nat)
    requires a < 256 && b < 256 && c < 256 && d < 256 && ip == QuadText(a, b, c, d)
    ensures ThrottleOrigin(ip) == ip
  {
    QuadIsPlain(a, b, c, d);
    SplitNone(ip, '%');
    QuadIsLower(a, b, c, d);
  }

  lemma QuadIsLower(a: nat, b: nat, c: nat, d: nat)
    ensures Lower(QuadText(a, b, c, d)) == QuadText(a, b, c, d)
  {
    var parts := [Decimal(a), Decimal(b), Decimal(c), Decimal(d)];
    JoinIsDotted(parts);
  }

  lemma {:induction false} JoinIsDotted(parts: seq<string>)
    requires forall i :: 0 <= i < |parts| ==> AllDigits(parts[i])
    ensures Lower(Join(parts, '.')) == Join(parts, '.')
  {
    if parts != [] {
      JoinIsDotted(parts[1..]);
      var s := Join(parts, '.');
      assert AllDigits(parts[0]);
      forall i | 0 <= i < |s| ensures Lower(s)[i] == s[i] {
        if |parts| > 1 && i > |parts[0]| {
          assert s[i] == Join(parts[1..], '.')[i - |parts[0]| - 1];
        }
      }
    }
  }

  /** A mapped address has the key of the IPv4 address it carries, and no other address has it. */
  lemma MappedIsIPv4(ip: string, sp: Spelling, a: nat, b: nat, c: nat, d: nat)
    requires Spells(ip, sp) && IsMapped(Address(sp)) && a < 256 && b < 256 && c < 256 && d < 256
    ensures ThrottleOrigin(ip) == ThrottleOrigin(QuadText(a, b, c, d)) <==>
      Address(sp)[6] == a * 256 + b && Address(sp)[7] == c * 256 + d
  {
    SpellingDoesNotMatter(ip, sp);
    IPv4IsItsKey(QuadText(a, b, c, d), a, b, c, d);
    var g := Address(sp);
    Octets(g[6], a, b);
    Octets(g[7], c, d);
    if KeyOf(g) == QuadText(a, b, c, d) {
      QuadTextDecides(g[6] / 256, g[6] % 256, g[7] / 256, g[7] % 256, a, b, c, d);
    }
  }

  lemma Octets(group: nat, high: nat, low: nat)
    requires high < 256 && low < 256
    ensures group == high * 256 + low <==> group / 256 == high && group % 256 == low
  {}

  /** An address that is not mapped never has the key of an IPv4 address. */
  lemma NetworkIsNoIPv4(ip: string, sp: Spelling, a: nat, b: nat, c: nat, d: nat)
    requires Spells(ip, sp) && !IsMapped(Address(sp)) && a < 256 && b < 256 && c < 256 && d < 256
    ensures ThrottleOrigin(ip) != ThrottleOrigin(QuadText(a, b, c, d))
  {
    SpellingDoesNotMatter(ip, sp);
    IPv4IsItsKey(QuadText(a, b, c, d), a, b, c, d);
    QuadIsPlain(a, b, c, d);
    var key := KeyOf(Address(sp));
    assert key[|key| - 5] == ':';
  }

  /** Anything else passes through, cut to a bounded length. */
  lemma OtherTextIsCut(ip: string)
    requires !IsIPv4(Lower(Split(ip, '%')[0])) && !IsIPv6(Lower(Split(ip, '%')[0]))
    ensures ThrottleOrigin(ip) == Cut(ip)
  {
    NeitherIsCut(Lower(Split(ip, '%')[0]), ip);
  }

  lemma NeitherIsCut(address: string, ip: string)
    requires !IsIPv4(address) && !IsIPv6(address)
    ensures KeyOrCut(address, ip) == Cut(ip)
  {}
}
