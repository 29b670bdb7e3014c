/** Template slots: finding `{{part.name}}` and `{{t "catalogue.key"}}`, and filling them in one
    pass. A `char` stands for one UTF-16 code unit. */
module Slots {
  import opened InsertionMaps
  import opened Escaping
  import opened Strings

  const MAX_TEMPLATE_LENGTH := 65_536
  const MAX_SLOT_NAME_LENGTH := 64

  datatype Slot =
    | Part(name: string, index: nat, end: nat)
    | Text(name: string, index: nat, end: nat)
    | Malformed(index: nat, end: nat)

  // ----- names -----

  predicate IsNameChar(c: char) { IsLetter(c) || IsDigit(c) || c == '.' }

  predicate IsSegment(s: string) {
    s != "" && IsLetter(s[0]) && forall i :: 0 <= i < |s| ==> IsLetter(s[i]) || IsDigit(s[i])
  }

  /** Segments separated by dots, each a letter and then letters and digits. */
  predicate IsName(name: string) {
    forall i :: 0 <= i < |Split(name, '.')| ==> IsSegment(Split(name, '.')[i])
  }

  lemma {:induction false} JoinChars(parts: seq<string>)
    requires forall i :: 0 <= i < |parts| ==> IsSegment(parts[i])
    ensures forall i :: 0 <= i < |Join(parts, '.')| ==> IsNameChar(Join(parts, '.')[i])
  {
    if parts != [] { JoinChars(parts[1..]); }
  }

  lemma NameChars(name: string)
    requires IsName(name)
    ensures forall i :: 0 <= i < |name| ==> IsNameChar(name[i])
  {
    JoinOfSplit(name, '.');
    JoinChars(Split(name, '.'));
  }

  // ----- tokens -----

  /** Where the longest run of name characters from `i` ends. */
  function RunEnd(s: string, i: nat): (r: nat)
    requires i <= |s|
    ensures i <= r <= |s| && (r < |s| ==> !IsNameChar(s[r]))
    ensures forall k :: i <= k < r ==> IsNameChar(s[k])
    decreases |s| - i
  {
    if i < |s| && IsNameChar(s[i]) then RunEnd(s, i + 1) else i
  }

  /** The name at `i` that `close` follows. */
  function NameAt(s: string, i: nat, close: string): Option<string>
    requires i <= |s|
  {
    var run := s[i..RunEnd(s, i)];
    if IsName(run) && StartsAt(s, RunEnd(s, i), close) then Some(run) else None
  }

  /** Looking at the longest run is enough: there is no other name the closing could follow. */
  lemma NameAtIsOnly(s: string, i: nat, close: string, name: string)
    requires i <= |s| && close != "" && !IsNameChar(close[0])
    ensures NameAt(s, i, close) == Some(name) <==> IsName(name) && StartsAt(s, i, name + close)
  {
    if IsName(name) && StartsAt(s, i, name + close) {
      NameChars(name);
      var all := name + close;
      assert s[i..i + |all|] == all;
      forall k | i <= k < i + |all| ensures s[k] == all[k - i] { assert s[i..i + |all|][k - i] == s[k]; }
      assert s[i + |name|] == all[|name|] == close[0];
      assert RunEnd(s, i) == i + |name|;
      assert s[i..i + |name|] == name && s[i + |name|..i + |all|] == close;
    }
  }

  function Sized(slot: Slot): Slot
    requires !slot.Malformed?
  {
    if |slot.name| > MAX_SLOT_NAME_LENGTH then Malformed(slot.index, slot.end) else slot
  }

  const TEXT_OPEN := "t \""
  const TEXT_CLOSE := "\"}}"

  function PartText(name: string): string { "{{" + name + "}}" }

  function TextText(name: string): string { "{{" + TEXT_OPEN + name + TEXT_CLOSE }

  /** The token that starts at `i`, if any. */
  function TokenAt(s: string, i: nat): (r: Option<Slot>)
    requires i <= |s|
    ensures r.Some? ==> r.value.index == i && i < r.value.end <= |s|
  {
    if StartsAt(s, i, "{{") then
      var part := NameAt(s, i + 2, "}}");
      var text := if StartsAt(s, i + 2, TEXT_OPEN) then NameAt(s, i + 5, TEXT_CLOSE) else None;
      if part.Some? then Some(Sized(Part(part.value, i, i + 4 + |part.value|)))
      else if text.Some? then Some(Sized(Text(text.value, i, i + 8 + |text.value|)))
      else Some(Malformed(i, i + 2))
    else if StartsAt(s, i, "}}") then Some(Malformed(i, i + 2))
    else None
  }

  /** The two pieces of a word that starts at `i`. */
  lemma StartsInTwo(s: string, i: nat, a: string, b: string)
    ensures StartsAt(s, i, a + b) <==> StartsAt(s, i, a) && StartsAt(s, i + |a|, b)
  {
    if StartsAt(s, i, a + b) {
      assert s[i..i + |a|] == s[i..i + |a + b|][..|a|];
      assert s[i + |a|..i + |a| + |b|] == s[i..i + |a + b|][|a|..];
    }
    if StartsAt(s, i, a) && StartsAt(s, i + |a|, b) {
      assert s[i..i + |a + b|] == s[i..i + |a|] + s[i + |a|..i + |a| + |b|];
    }
  }

  ghost predicate PartStarts(s: string, i: nat, name: string) { IsName(name) && StartsAt(s, i, PartText(name)) }

  ghost predicate TextStarts(s: string, i: nat, name: string) { IsName(name) && StartsAt(s, i, TextText(name)) }

  lemma PartStartsWhere(s: string, i: nat, name: string)
    requires i <= |s|
    ensures PartStarts(s, i, name) <==> StartsAt(s, i, "{{") && NameAt(s, i + 2, "}}") == Some(name)
  {
    StartsInTwo(s, i, "{{", name + "}}");
    assert "{{" + (name + "}}") == PartText(name);
    if StartsAt(s, i, "{{") { NameAtIsOnly(s, i + 2, "}}", name); }
  }

  lemma TextStartsWhere(s: string, i: nat, name: string)
    requires i <= |s|
    ensures TextStarts(s, i, name) <==>
      StartsAt(s, i, "{{") && StartsAt(s, i + 2, TEXT_OPEN) && NameAt(s, i + 5, TEXT_CLOSE) == Some(name)
  {
    StartsInTwo(s, i, "{{", TEXT_OPEN + (name + TEXT_CLOSE));
    assert "{{" + (TEXT_OPEN + (name + TEXT_CLOSE)) == TextText(name);
    StartsInTwo(s, i + 2, TEXT_OPEN, name + TEXT_CLOSE);
    if StartsAt(s, i, "{{") && StartsAt(s, i + 2, TEXT_OPEN) { NameAtIsOnly(s, i + 5, TEXT_CLOSE, name); }
  }

  /** After `{{t` and a space no part can end. */
  lemma TextOpenMeans(s: string, i: nat)
    requires StartsAt(s, i, TEXT_OPEN)
    ensures RunEnd(s, i) == i + 1 && !StartsAt(s, i + 1, "}}")
  {
    assert s[i] == s[i..i + 3][0] && s[i + 1] == s[i..i + 3][1];
    assert RunEnd(s, i + 1) == i + 1;
    FirstOf(s, i + 1, "}}");
  }

  /** A place is never both a part and a text. */
  lemma NotBoth(s: string, i: nat, part: string, text: string)
    requires i <= |s| && PartStarts(s, i, part)
    ensures !TextStarts(s, i, text)
  {
    PartStartsWhere(s, i, part);
    TextStartsWhere(s, i, text);
    if StartsAt(s, i + 2, TEXT_OPEN) { TextOpenMeans(s, i + 2); }
  }

  /** What is found at a place says what stands there, and nothing that stands there is missed. */
  lemma TokenMeans(s: string, i: nat, name: string)
    requires i <= |s|
    ensures PartStarts(s, i, name) ==> TokenAt(s, i) == Some(Sized(Part(name, i, i + |PartText(name)|)))
    ensures TextStarts(s, i, name) ==> TokenAt(s, i) == Some(Sized(Text(name, i, i + |TextText(name)|)))
    ensures TokenAt(s, i) == None <==> !StartsAt(s, i, "{{") && !StartsAt(s, i, "}}")
  {
    PartStartsWhere(s, i, name);
    TextStartsWhere(s, i, name);
    if TextStarts(s, i, name) {
      var part := NameAt(s, i + 2, "}}");
      if part.Some? {
        PartStartsWhere(s, i, part.value);
        NotBoth(s, i, part.value, name);
      }
    }
  }

  /** A slot is spelled out where it is found. */
  lemma TokenSpells(s: string, i: nat)
    requires i <= |s| && TokenAt(s, i).Some?
    ensures var slot := TokenAt(s, i).value;
      match slot
      case Part(name, _, end) => PartStarts(s, i, name) && |name| <= MAX_SLOT_NAME_LENGTH && end == i + |PartText(name)|
      case Text(name, _, end) => TextStarts(s, i, name) && |name| <= MAX_SLOT_NAME_LENGTH && end == i + |TextText(name)|
      case Malformed(_, end) => StartsAt(s, i, "{{") || StartsAt(s, i, "}}")
  {
    var slot := TokenAt(s, i).value;
    if slot.Part? { PartStartsWhere(s, i, slot.name); }
    if slot.Text? { TextStartsWhere(s, i, slot.name); }
  }

  /** A place is malformed exactly when double braces stand there and no slot of a permitted
      length does. */
  lemma MalformedMeans(s: string, i: nat)
    requires i <= |s|
    ensures TokenAt(s, i).Some? && TokenAt(s, i).value.Malformed? <==>
      && (StartsAt(s, i, "{{") || StartsAt(s, i, "}}"))
      && forall name :: |name| <= MAX_SLOT_NAME_LENGTH ==> !PartStarts(s, i, name) && !TextStarts(s, i, name)
  {
    if TokenAt(s, i).Some? {
      TokenSpells(s, i);
      if TokenAt(s, i).value.Malformed? {
        forall name | |name| <= MAX_SLOT_NAME_LENGTH ensures !PartStarts(s, i, name) && !TextStarts(s, i, name) {
          TokenMeans(s, i, name);
        }
      }
    }
  }

  // ----- the scan -----

  function Scan(s: string, from: nat): seq<Slot>
    requires from <= |s|
    decreases |s| - from
  {
    if from == |s| then []
    else
      var token := TokenAt(s, from);
      if token == None then Scan(s, from + 1) else [token.value] + Scan(s, token.value.end)
  }

  method ScanSlots(template: string) returns (slots: seq<Slot>)
    ensures slots == Scan(template, 0)
  {
    slots := [];
    var i := 0;
    while i < |template|
      invariant i <= |template| && Scan(template, 0) == slots + Scan(template, i)
    {
      var token := TokenAt(template, i);
      match token
      case None => i := i + 1;
      case Some(slot) =>
        assert Scan(template, i) == [slot] + Scan(template, slot.end);
        slots := slots + [slot];
        i := slot.end;
    }
  }

  /** In order, apart, and with no double brace starting between them. */
  ghost predicate Tidy(s: string, from: nat, slots: seq<Slot>)
    decreases slots
  {
    if slots == [] then from <= |s| && Quiet(s, from, |s|)
    else
      && from <= slots[0].index < slots[0].end <= |s|
      && Quiet(s, from, slots[0].index) && TokenAt(s, slots[0].index) == Some(slots[0])
      && Tidy(s, slots[0].end, slots[1..])
  }

  ghost predicate Quiet(s: string, from: nat, to: nat) {
    forall p :: from <= p < to ==> !StartsAt(s, p, "{{") && !StartsAt(s, p, "}}")
  }

  lemma {:induction false} ScanIsTidy(s: string, from: nat)
    requires from <= |s|
    ensures Tidy(s, from, Scan(s, from))
    decreases |s| - from
  {
    if from < |s| {
      var token := TokenAt(s, from);
      if token == None {
        ScanIsTidy(s, from + 1);
        TokenMeans(s, from, "");
      } else {
        ScanIsTidy(s, token.value.end);
      }
    }
  }

  /** There is only one tidy list of slots, so the scan cannot have found any other. */
  lemma {:induction false} TidyIsUnique(s: string, from: nat, slots: seq<Slot>)
    requires from <= |s| && Tidy(s, from, slots)
    ensures slots == Scan(s, from)
    decreases |s| - from, |slots|
  {
    if from < |s| {
      TokenMeans(s, from, "");
      if slots == [] || from < slots[0].index {
        TidyIsUnique(s, from + 1, slots);
      } else {
        TidyIsUnique(s, slots[0].end, slots[1..]);
      }
    }
  }

  // ----- printing -----

  datatype Piece = Literal(text: string) | PartSlot(name: string) | TextSlot(name: string)

  /** A literal holds no brace; a slot has a name of a permitted length. */
  predicate WellFormed(p: Piece) {
    match p
    case Literal(text) => '{' !in text && '}' !in text
    case PartSlot(name) => IsName(name) && |name| <= MAX_SLOT_NAME_LENGTH
    case TextSlot(name) => IsName(name) && |name| <= MAX_SLOT_NAME_LENGTH
  }

  function Printed(p: Piece): string {
    match p
    case Literal(text) => text
    case PartSlot(name) => PartText(name)
    case TextSlot(name) => TextText(name)
  }

  function Print(ps: seq<Piece>): string { if ps == [] then "" else Printed(ps[0]) + Print(ps[1..]) }

  /** The slots among the pieces, the first piece being at `at`. */
  function SlotsOf(ps: seq<Piece>, at: nat): seq<Slot> {
    if ps == [] then [] else SlotsAt(ps[0], at) + SlotsOf(ps[1..], at + |Printed(ps[0])|)
  }

  lemma {:induction false} ScanPasses(s: string, from: nat, to: nat)
    requires from <= to <= |s| && forall k :: from <= k < to ==> s[k] != '{' && s[k] != '}'
    ensures Scan(s, from) == Scan(s, to)
    decreases |s| - from
  {
    if from < to {
      FirstOf(s, from, "{{");
      FirstOf(s, from, "}}");
      ScanPasses(s, from + 1, to);
    }
  }

  function SlotsAt(p: Piece, at: nat): seq<Slot> {
    match p
    case Literal(_) => []
    case PartSlot(name) => [Part(name, at, at + |PartText(name)|)]
    case TextSlot(name) => [Text(name, at, at + |TextText(name)|)]
  }

  lemma ScanToken(s: string, at: nat, slot: Slot)
    requires at < |s| && TokenAt(s, at) == Some(slot)
    ensures slot.end <= |s| && Scan(s, at) == [slot] + Scan(s, slot.end)
  {}

  lemma ScanPart(s: string, at: nat, p: Piece)
    requires p.PartSlot? && StartsAt(s, at, Printed(p)) && WellFormed(p)
    ensures Scan(s, at) == SlotsAt(p, at) + Scan(s, at + |Printed(p)|)
  {
    TokenMeans(s, at, p.name);
    ScanToken(s, at, Part(p.name, at, at + |PartText(p.name)|));
  }

  lemma ScanText(s: string, at: nat, p: Piece)
    requires p.TextSlot? && StartsAt(s, at, Printed(p)) && WellFormed(p)
    ensures Scan(s, at) == SlotsAt(p, at) + Scan(s, at + |Printed(p)|)
  {
    TokenMeans(s, at, p.name);
    ScanToken(s, at, Text(p.name, at, at + |TextText(p.name)|));
  }

  lemma ScanLiteral(s: string, at: nat, p: Piece)
    requires p.Literal? && StartsAt(s, at, Printed(p)) && WellFormed(p)
    ensures Scan(s, at) == SlotsAt(p, at) + Scan(s, at + |Printed(p)|)
  {
    forall k | at <= k < at + |p.text| ensures s[k] != '{' && s[k] != '}' { CharOf(s, at, p.text, k - at); }
    ScanPasses(s, at, at + |p.text|);
  }

  lemma ScanPiece(s: string, at: nat, p: Piece)
    requires StartsAt(s, at, Printed(p)) && WellFormed(p)
    ensures Scan(s, at) == SlotsAt(p, at) + Scan(s, at + |Printed(p)|)
  {
    if p.Literal? {
      ScanLiteral(s, at, p);
    } else if p.PartSlot? {
      ScanPart(s, at, p);
    } else {
      ScanText(s, at, p);
    }
  }

  /** Scanning what was printed finds the slots that were printed. */
  lemma {:induction false} ScanOfPrint(s: string, at: nat, ps: seq<Piece>)
    requires at <= |s| && s[at..] == Print(ps) && forall i :: 0 <= i < |ps| ==> WellFormed(ps[i])
    ensures Scan(s, at) == SlotsOf(ps, at)
    decreases |ps|
  {
    if ps != [] {
      PrintSplits(s, at, ps);
      ScanPiece(s, at, ps[0]);
      ScanOfPrint(s, at + |Printed(ps[0])|, ps[1..]);
    }
  }

  lemma PrintSplits(s: string, at: nat, ps: seq<Piece>)
    requires at <= |s| && s[at..] == Print(ps) && ps != []
    ensures StartsAt(s, at, Printed(ps[0])) && s[at + |Printed(ps[0])|..] == Print(ps[1..])
  {
    var n := |Printed(ps[0])|;
    assert |s[at..]| >= n;
    assert s[at..at + n] == s[at..][..n] && s[at + n..] == s[at..][n..];
  }

  // ----- filling -----

  datatype Result =
    | Filled(out: string)
    | TooLong(length: nat)
    | MalformedSlot(index: nat)
    | UnknownSlot(name: string)

  type Parts = map<string, string>

  predicate Good(slot: Slot, parts: Parts) { !slot.Malformed? && (slot.Part? ==> slot.name in parts) }

  function Value(slot: Slot, parts: Parts, t: string -> string): string
    requires Good(slot, parts)
  {
    if slot.Text? then EscapeText(t(slot.name)) else parts[slot.name]
  }

  predicate AllGood(slots: seq<Slot>, parts: Parts) { forall i :: 0 <= i < |slots| ==> Good(slots[i], parts) }

  lemma AllGoodSplits(slots: seq<Slot>, parts: Parts)
    requires slots != []
    ensures AllGood(slots, parts) <==> Good(slots[0], parts) && AllGood(slots[1..], parts)
  {
    if Good(slots[0], parts) && AllGood(slots[1..], parts) {
      forall i | 0 <= i < |slots| ensures Good(slots[i], parts) {
        if i > 0 { assert slots[i] == slots[1..][i - 1]; }
      }
    }
  }

  function Values(slots: seq<Slot>, parts: Parts, t: string -> string): (r: seq<string>)
    requires AllGood(slots, parts)
    ensures |r| == |slots|
  {
    if slots == [] then [] else [Value(slots[0], parts, t)] + Values(slots[1..], parts, t)
  }

  /** In order and apart, the first at or after `from`. */
  predicate Apart(s: string, from: nat, slots: seq<Slot>)
    decreases |slots|
  {
    if slots == [] then from <= |s|
    else from <= slots[0].index <= slots[0].end <= |s| && Apart(s, slots[0].end, slots[1..])
  }

  function Raws(s: string, from: nat, slots: seq<Slot>): (r: seq<string>)
    requires Apart(s, from, slots)
    ensures |r| == |slots|
    decreases |slots|
  {
    if slots == [] then [] else [s[slots[0].index..slots[0].end]] + Raws(s, slots[0].end, slots[1..])
  }

  /** What stands before, between and after the slots. */
  function Gaps(s: string, from: nat, slots: seq<Slot>): (r: seq<string>)
    requires Apart(s, from, slots)
    ensures |r| == |slots| + 1
    decreases |slots|
  {
    if slots == [] then [s[from..]] else [s[from..slots[0].index]] + Gaps(s, slots[0].end, slots[1..])
  }

  /** The gaps with one text between each and the next. */
  function Weave(gaps: seq<string>, texts: seq<string>): string
    requires |gaps| == |texts| + 1
  {
    if texts == [] then gaps[0] else gaps[0] + texts[0] + Weave(gaps[1..], texts[1..])
  }

  function Prepend(out: string, r: Result): Result { if r.Filled? then Filled(out + r.out) else r }

  function FillFrom(s: string, from: nat, slots: seq<Slot>, parts: Parts, t: string -> string): Result
    requires Apart(s, from, slots)
    decreases |slots|
  {
    if slots == [] then Filled(s[from..])
    else if slots[0].Malformed? then MalformedSlot(slots[0].index)
    else if !Good(slots[0], parts) then UnknownSlot(slots[0].name)
    else
      Prepend(s[from..slots[0].index] + Value(slots[0], parts, t),
              FillFrom(s, slots[0].end, slots[1..], parts, t))
  }

  lemma {:induction false} TidyIsApart(s: string, from: nat, slots: seq<Slot>)
    requires Tidy(s, from, slots)
    ensures Apart(s, from, slots)
    decreases |slots|
  {
    if slots != [] { TidyIsApart(s, slots[0].end, slots[1..]); }
  }

  ghost function Fill(template: string, parts: Parts, t: string -> string): Result {
    if |template| > MAX_TEMPLATE_LENGTH then TooLong(|template|)
    else
      ScanIsTidy(template, 0);
      TidyIsApart(template, 0, Scan(template, 0));
      FillFrom(template, 0, Scan(template, 0), parts, t)
  }

  lemma PrependTwice(a: string, b: string, r: Result)
    ensures Prepend(a, Prepend(b, r)) == Prepend(a + b, r)
  {
    if r.Filled? { assert a + (b + r.out) == a + b + r.out; }
  }

  lemma FillStep(s: string, from: nat, slots: seq<Slot>, i: nat, parts: Parts, t: string -> string, out: string)
    requires i < |slots| && Apart(s, from, slots[i..]) && Good(slots[i], parts)
    ensures from <= slots[i].index <= slots[i].end <= |s| && Apart(s, slots[i].end, slots[i + 1..])
    ensures Prepend(out, FillFrom(s, from, slots[i..], parts, t)) ==
      Prepend(out + (s[from..slots[i].index] + Value(slots[i], parts, t)),
              FillFrom(s, slots[i].end, slots[i + 1..], parts, t))
  {
    assert slots[i..][0] == slots[i] && slots[i..][1..] == slots[i + 1..];
    PrependTwice(out, s[from..slots[i].index] + Value(slots[i], parts, t),
                 FillFrom(s, slots[i].end, slots[i + 1..], parts, t));
  }

  method FillTemplate(template: string, parts: Parts, t: string -> string) returns (r: Result)
    ensures r == Fill(template, parts, t)
  {
    if |template| > MAX_TEMPLATE_LENGTH { return TooLong(|template|); }
    var slots := ScanSlots(template);
    ScanIsTidy(template, 0);
    TidyIsApart(template, 0, slots);
    var out := "";
    var from: nat := 0;
    assert slots[0..] == slots;
    PrependNothing(FillFrom(template, 0, slots, parts, t));
    for i := 0 to |slots|
      invariant Apart(template, from, slots[i..])
      invariant Fill(template, parts, t) == Prepend(out, FillFrom(template, from, slots[i..], parts, t))
    {
      var slot := slots[i];
      assert slots[i..][0] == slot;
      if slot.Malformed? { return MalformedSlot(slot.index); }
      if slot.Part? && slot.name !in parts { return UnknownSlot(slot.name); }
      FillStep(template, from, slots, i, parts, t, out);
      out := out + (template[from..slot.index] + Value(slot, parts, t));
      from := slot.end;
    }
    assert slots[|slots|..] == [];
    r := Filled(out + template[from..]);
  }

  lemma PrependNothing(r: Result)
    ensures Prepend("", r) == r
  {
    if r.Filled? { assert "" + r.out == r.out; }
  }

  /** The template is its gaps woven with its slots as they were spelled. */
  lemma {:induction false} TemplateIsWoven(s: string, from: nat, slots: seq<Slot>)
    requires Apart(s, from, slots)
    ensures Weave(Gaps(s, from, slots), Raws(s, from, slots)) == s[from..]
    decreases |slots|
  {
    if slots != [] {
      var slot := slots[0];
      TemplateIsWoven(s, slot.end, slots[1..]);
      WeaveStep(s[from..slot.index], Gaps(s, slot.end, slots[1..]),
                s[slot.index..slot.end], Raws(s, slot.end, slots[1..]));
      assert s[from..] == s[from..slot.index] + s[slot.index..slot.end] + s[slot.end..];
    }
  }

  lemma WeaveStep(gap: string, gaps: seq<string>, text: string, texts: seq<string>)
    requires |gaps| == |texts| + 1
    ensures Weave([gap] + gaps, [text] + texts) == gap + text + Weave(gaps, texts)
  {
    assert ([gap] + gaps)[1..] == gaps && ([text] + texts)[1..] == texts;
  }

  /** Filling succeeds exactly when every slot can be filled, and then puts the values where the
      slots were and leaves the rest alone, whatever the values hold. */
  lemma {:induction false} FilledIsWoven(s: string, from: nat, slots: seq<Slot>, parts: Parts, t: string -> string)
    requires Apart(s, from, slots)
    ensures FillFrom(s, from, slots, parts, t).Filled? <==> AllGood(slots, parts)
    ensures FillFrom(s, from, slots, parts, t).Filled? ==>
      FillFrom(s, from, slots, parts, t).out == Weave(Gaps(s, from, slots), Values(slots, parts, t))
    decreases |slots|
  {
    if slots != [] {
      FilledIsWoven(s, slots[0].end, slots[1..], parts, t);
      AllGoodSplits(slots, parts);
      assert Gaps(s, from, slots)[1..] == Gaps(s, slots[0].end, slots[1..]);
      if AllGood(slots, parts) { assert Values(slots, parts, t)[1..] == Values(slots[1..], parts, t); }
    }
  }

  /** A failure names the first slot that cannot be filled. */
  lemma {:induction false} FirstBadSlotDecides(s: string, from: nat, slots: seq<Slot>, parts: Parts,
                                               t: string -> string) returns (k: nat)
    requires Apart(s, from, slots) && !AllGood(slots, parts)
    ensures k < |slots| && AllGood(slots[..k], parts) && !Good(slots[k], parts)
    ensures FillFrom(s, from, slots, parts, t) ==
      if slots[k].Malformed? then MalformedSlot(slots[k].index) else UnknownSlot(slots[k].name)
    decreases |slots|
  {
    if !Good(slots[0], parts) {
      k := 0;
    } else {
      AllGoodSplits(slots, parts);
      k := FirstBadSlotDecides(s, slots[0].end, slots[1..], parts, t);
      assert slots[1..][..k] == slots[..k + 1][1..];
      AllGoodSplits(slots[..k + 1], parts);
      k := k + 1;
    }
  }

  // ----- filling what was printed -----

  function Inserted(p: Piece, parts: Parts, t: string -> string): string {
    match p
    case Literal(text) => text
    case PartSlot(name) => if name in parts then parts[name] else ""
    case TextSlot(name) => EscapeText(t(name))
  }

  function Substituted(ps: seq<Piece>, parts: Parts, t: string -> string): string {
    if ps == [] then "" else Inserted(ps[0], parts, t) + Substituted(ps[1..], parts, t)
  }

  ghost predicate Supplied(ps: seq<Piece>, parts: Parts) {
    forall i :: 0 <= i < |ps| ==> WellFormed(ps[i]) && (ps[i].PartSlot? ==> ps[i].name in parts)
  }

  /** Filling from `from` succeeds with `out`; unfolded only where a proof mentions `Apart`. */
  ghost predicate FillsTo(s: string, from: nat, slots: seq<Slot>, parts: Parts, t: string -> string, out: string) {
    forall f: nat {:trigger Apart(s, f, slots)} :: f == from ==>
      Apart(s, f, slots) && FillFrom(s, f, slots, parts, t) == Filled(out)
  }

  lemma FillsSlot(s: string, from: nat, slot: Slot, rest: seq<Slot>, parts: Parts, t: string -> string, tail: string)
    requires from <= slot.index <= slot.end <= |s| && Good(slot, parts) && FillsTo(s, slot.end, rest, parts, t, tail)
    ensures FillsTo(s, from, [slot] + rest, parts, t, s[from..slot.index] + (Value(slot, parts, t) + tail))
  {
    assert Apart(s, slot.end, rest) && FillFrom(s, slot.end, rest, parts, t) == Filled(tail);
    assert Apart(s, from, [slot] + rest);
    assert ([slot] + rest)[1..] == rest;
    assert s[from..slot.index] + Value(slot, parts, t) + tail == s[from..slot.index] + (Value(slot, parts, t) + tail);
  }

  lemma {:induction false} FillOfPrintFrom(s: string, from: nat, at: nat, ps: seq<Piece>, parts: Parts,
                                           t: string -> string)
    requires from <= at <= |s| && s[at..] == Print(ps) && Supplied(ps, parts)
    ensures FillsTo(s, from, SlotsOf(ps, at), parts, t, s[from..at] + Substituted(ps, parts, t))
    decreases |ps|
  {
    if ps == [] {
      FillsRest(s, from, at, parts, t);
    } else {
      PrintSplits(s, at, ps);
      var end := at + |Printed(ps[0])|;
      forall i | 0 <= i < |ps[1..]| ensures WellFormed(ps[1..][i]) && (ps[1..][i].PartSlot? ==> ps[1..][i].name in parts) {
        assert ps[1..][i] == ps[i + 1];
      }
      FillOfPrintFrom(s, if ps[0].Literal? then from else end, end, ps[1..], parts, t);
      FillsPiece(s, from, at, ps, parts, t);
    }
  }

  lemma FillsRest(s: string, from: nat, at: nat, parts: Parts, t: string -> string)
    requires from <= at <= |s| && s[at..] == ""
    ensures FillsTo(s, from, [], parts, t, s[from..at] + "")
  {
    assert at == |s| && s[from..] == s[from..at] + "";
  }

  lemma FillsPiece(s: string, from: nat, at: nat, ps: seq<Piece>, parts: Parts, t: string -> string)
    requires from <= at <= |s| && ps != [] && Supplied(ps, parts) && StartsAt(s, at, Printed(ps[0]))
    requires var end := at + |Printed(ps[0])|;
      var start := if ps[0].Literal? then from else end;
      FillsTo(s, start, SlotsOf(ps[1..], end), parts, t, s[start..end] + Substituted(ps[1..], parts, t))
    ensures FillsTo(s, from, SlotsOf(ps, at), parts, t, s[from..at] + Substituted(ps, parts, t))
  {
    var p, end, tail := ps[0], at + |Printed(ps[0])|, Substituted(ps[1..], parts, t);
    var rest := SlotsOf(ps[1..], end);
    if p.Literal? {
      Regroup(s, from, at, end, p.text, tail);
      assert SlotsOf(ps, at) == rest;
    } else {
      var slot := if p.PartSlot? then Part(p.name, at, end) else Text(p.name, at, end);
      assert s[end..end] + tail == tail;
      FillsSlot(s, from, slot, rest, parts, t, tail);
      assert SlotsOf(ps, at) == [slot] + rest;
    }
  }

  lemma Regroup(s: string, from: nat, at: nat, end: nat, text: string, tail: string)
    requires from <= at <= end <= |s| && s[at..end] == text
    ensures s[from..end] + tail == s[from..at] + (text + tail)
  {
    assert s[from..end] == s[from..at] + s[at..end];
  }

  /** Filling a template printed from its pieces gives the literals, the parts as they are and
      the texts escaped, one after another, even when what is inserted looks like a slot. */
  lemma FillOfPrint(ps: seq<Piece>, parts: Parts, t: string -> string)
    requires |Print(ps)| <= MAX_TEMPLATE_LENGTH && Supplied(ps, parts)
    ensures Fill(Print(ps), parts, t) == Filled(Substituted(ps, parts, t))
  {
    var s := Print(ps);
    assert s[0..] == s && s[0..0] == "";
    ScanOfPrint(s, 0, ps);
    FillOfPrintFrom(s, 0, 0, ps, parts, t);
    assert "" + Substituted(ps, parts, t) == Substituted(ps, parts, t) && Apart(s, 0, SlotsOf(ps, 0));
  }
}
