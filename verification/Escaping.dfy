/** `escapeText`: catalogue text made safe to stand in markup. */
module Escaping {
  import opened Strings

  function ReplaceAll(s: string, c: char, with: string): string {
    if s == "" then "" else (if s[0] == c then with else [s[0]]) + ReplaceAll(s[1..], c, with)
  }

  function EscapeText(value: string): string { FromLess(ReplaceAll(value, '&', "&amp;")) }

  function FromLess(s: string): string { FromGreater(ReplaceAll(s, '<', "&lt;")) }

  function FromGreater(s: string): string { FromQuote(ReplaceAll(s, '>', "&gt;")) }

  function FromQuote(s: string): string { FromApostrophe(ReplaceAll(s, '"', "&quot;")) }

  function FromApostrophe(s: string): string { FromBacktick(ReplaceAll(s, '\'', "&#39;")) }

  function FromBacktick(s: string): string { ReplaceAll(s, '`', "&#96;") }

  function EscapeChar(c: char): string {
    if c == '&' then "&amp;" else if c == '<' then "&lt;" else if c == '>' then "&gt;"
    else if c == '"' then "&quot;" else if c == '\'' then "&#39;" else if c == '`' then "&#96;" else [c]
  }

  function EscapeEach(s: string): string { if s == "" then "" else EscapeChar(s[0]) + EscapeEach(s[1..]) }

  lemma {:induction false} ReplaceConcat(a: string, b: string, c: char, with: string)
    ensures ReplaceAll(a + b, c, with) == ReplaceAll(a, c, with) + ReplaceAll(b, c, with)
  {
    if a == "" {
      assert a + b == b;
    } else {
      assert (a + b)[1..] == a[1..] + b;
      ReplaceConcat(a[1..], b, c, with);
    }
  }

  lemma {:induction false} ReplaceNothing(s: string, c: char, with: string)
    requires c !in s
    ensures ReplaceAll(s, c, with) == s
  {
    if s != "" {
      ReplaceNothing(s[1..], c, with);
      assert [s[0]] + s[1..] == s;
    }
  }

  lemma ReplaceOne(x: char, c: char, with: string)
    ensures ReplaceAll([x], c, with) == if x == c then with else [x]
  {
    assert [x][1..] == "";
  }

  lemma EscapeConcat(a: string, b: string)
    ensures EscapeText(a + b) == EscapeText(a) + EscapeText(b)
  {
    var a1, b1 := ReplaceAll(a, '&', "&amp;"), ReplaceAll(b, '&', "&amp;");
    var a2, b2 := ReplaceAll(a1, '<', "&lt;"), ReplaceAll(b1, '<', "&lt;");
    var a3, b3 := ReplaceAll(a2, '>', "&gt;"), ReplaceAll(b2, '>', "&gt;");
    var a4, b4 := ReplaceAll(a3, '"', "&quot;"), ReplaceAll(b3, '"', "&quot;");
    var a5, b5 := ReplaceAll(a4, '\'', "&#39;"), ReplaceAll(b4, '\'', "&#39;");
    ReplaceConcat(a, b, '&', "&amp;");
    ReplaceConcat(a1, b1, '<', "&lt;");
    ReplaceConcat(a2, b2, '>', "&gt;");
    ReplaceConcat(a3, b3, '"', "&quot;");
    ReplaceConcat(a4, b4, '\'', "&#39;");
    ReplaceConcat(a5, b5, '`', "&#96;");
  }

  predicate Quiescent(s: string) { '<' !in s && '>' !in s && '"' !in s && '\'' !in s && '`' !in s }

  /** What holds none of the five later characters goes through every later replacement. */
  lemma LaterDoNothing(s: string)
    requires Quiescent(s)
    ensures FromLess(s) == FromGreater(s) == FromQuote(s) == FromApostrophe(s) == FromBacktick(s) == s
  {
    ReplaceNothing(s, '<', "&lt;");
    ReplaceNothing(s, '>', "&gt;");
    ReplaceNothing(s, '"', "&quot;");
    ReplaceNothing(s, '\'', "&#39;");
    ReplaceNothing(s, '`', "&#96;");
  }

  lemma EntitiesAreQuiescent()
    ensures Quiescent("&amp;") && Quiescent("&lt;") && Quiescent("&gt;")
    ensures Quiescent("&quot;") && Quiescent("&#39;") && Quiescent("&#96;")
  {}

  /** A character the first replacements are not about reaches the later ones as it was. */
  lemma ReachesLater(c: char)
    requires c != '&'
    ensures EscapeText([c]) == FromLess([c])
    ensures c != '<' ==> FromLess([c]) == FromGreater([c])
    ensures c != '>' ==> FromGreater([c]) == FromQuote([c])
    ensures c != '"' ==> FromQuote([c]) == FromApostrophe([c])
    ensures c != '\'' ==> FromApostrophe([c]) == FromBacktick([c])
  {
    ReplaceOne(c, '&', "&amp;");
    ReplaceOne(c, '<', "&lt;");
    ReplaceOne(c, '>', "&gt;");
    ReplaceOne(c, '"', "&quot;");
    ReplaceOne(c, '\'', "&#39;");
  }

  /** Nothing that one replacement puts in is touched by a later one. */
  lemma EscapeOne(c: char)
    ensures EscapeText([c]) == EscapeChar(c)
  {
    EntitiesAreQuiescent();
    if c == '&' { ReplaceOne(c, '&', "&amp;"); } else { ReachesLater(c); }
    if c == '<' { ReplaceOne(c, '<', "&lt;"); }
    if c == '>' { ReplaceOne(c, '>', "&gt;"); }
    if c == '"' { ReplaceOne(c, '"', "&quot;"); }
    if c == '\'' { ReplaceOne(c, '\'', "&#39;"); }
    ReplaceOne(c, '`', "&#96;");
    if EscapeChar(c) != [c] { LaterDoNothing(EscapeChar(c)); }
  }

  /** The six replacements, one after the other, are one replacement of each character. */
  lemma {:induction false} EscapeIsPerCharacter(s: string)
    ensures EscapeText(s) == EscapeEach(s)
  {
    if s != "" {
      assert s == [s[0]] + s[1..];
      EscapeConcat([s[0]], s[1..]);
      EscapeOne(s[0]);
      EscapeIsPerCharacter(s[1..]);
    }
  }

  function Unescape(s: string): string
    decreases |s|
  {
    if s == "" then ""
    else if StartsAt(s, 0, "&amp;") then ['&'] + Unescape(s[5..])
    else if StartsAt(s, 0, "&lt;") then ['<'] + Unescape(s[4..])
    else if StartsAt(s, 0, "&gt;") then ['>'] + Unescape(s[4..])
    else if StartsAt(s, 0, "&quot;") then ['"'] + Unescape(s[6..])
    else if StartsAt(s, 0, "&#39;") then ['\''] + Unescape(s[5..])
    else if StartsAt(s, 0, "&#96;") then ['`'] + Unescape(s[5..])
    else [s[0]] + Unescape(s[1..])
  }

  lemma StartsOnce(s: string, a: string, b: string, k: nat)
    requires StartsAt(s, 0, a) && k < |a| && k < |b| && a[k] != b[k]
    ensures !StartsAt(s, 0, b)
  {
    CharOf(s, 0, a, k);
    CharOf(s, 0, b, k);
  }

  /** Reading back one escaped character. */
  lemma UnescapeOne(c: char, rest: string)
    ensures Unescape(EscapeChar(c) + rest) == [c] + Unescape(rest)
  {
    var e := EscapeChar(c);
    var s := e + rest;
    assert StartsAt(s, 0, e) && s[|e|..] == rest;
    if e == [c] {
      NoEntity(s);
    } else {
      if c != '&' { StartsOnce(s, e, "&amp;", 1); }
      if c != '&' && c != '<' { StartsOnce(s, e, "&lt;", 1); }
      if c == '"' || c == '\'' || c == '`' { StartsOnce(s, e, "&gt;", 1); }
      if c == '\'' || c == '`' { StartsOnce(s, e, "&quot;", 1); }
      if c == '`' { StartsOnce(s, e, "&#39;", 2); }
    }
  }

  lemma NoEntity(s: string)
    requires s != "" && s[0] != '&'
    ensures Unescape(s) == [s[0]] + Unescape(s[1..])
  {
    FirstOf(s, 0, "&amp;");
    FirstOf(s, 0, "&lt;");
    FirstOf(s, 0, "&gt;");
    FirstOf(s, 0, "&quot;");
    FirstOf(s, 0, "&#39;");
    FirstOf(s, 0, "&#96;");
  }

  /** Escaping loses nothing: unescaping gives the text back. */
  lemma {:induction false} UnescapeInverts(s: string)
    ensures Unescape(EscapeText(s)) == s
  {
    EscapeIsPerCharacter(s);
    if s != "" {
      EscapeIsPerCharacter(s[1..]);
      UnescapeOne(s[0], EscapeText(s[1..]));
      UnescapeInverts(s[1..]);
      assert [s[0]] + s[1..] == s;
    }
  }

  /** Escaped text holds nothing that could open a tag or end an attribute. */
  lemma {:induction false} EscapedIsQuiescent(s: string)
    ensures Quiescent(EscapeText(s))
  {
    EscapeIsPerCharacter(s);
    if s != "" {
      EscapedIsQuiescent(s[1..]);
      EscapeIsPerCharacter(s[1..]);
      EntitiesAreQuiescent();
    }
  }
}
