/** Language tags and the one spelling each is stored under. */
module Locales {
  import opened InsertionMaps
  import opened Strings

  predicate AllLetters(s: string) { forall i :: 0 <= i < |s| ==> IsLetter(s[i]) }

  predicate IsScript(s: string) { |s| == 4 && AllLetters(s) }

  predicate IsRegion(s: string) { (|s| == 2 && AllLetters(s)) || (|s| == 3 && AllDigits(s)) }

  /** A language, then an optional script, then an optional region. */
  predicate IsTag(parts: seq<string>) {
    && 1 <= |parts| <= 3
    && 2 <= |parts[0]| <= 3 && AllLetters(parts[0])
    && (|parts| == 2 ==> IsScript(parts[1]) || IsRegion(parts[1]))
    && (|parts| == 3 ==> IsScript(parts[1]) && IsRegion(parts[2]))
  }

  function Spelled(subtag: string): string {
    if |subtag| == 4 then Upper(subtag[..1]) + Lower(subtag[1..]) else Upper(subtag)
  }

  function SpelledParts(parts: seq<string>): (r: seq<string>)
    requires 1 <= |parts| <= 3
    ensures |r| == |parts|
  {
    if |parts| == 1 then [Lower(parts[0])]
    else if |parts| == 2 then [Lower(parts[0]), Spelled(parts[1])]
    else [Lower(parts[0]), Spelled(parts[1]), Spelled(parts[2])]
  }

  function CanonicalLocale(tag: string): Option<string> {
    var parts := Split(tag, '-');
    if IsTag(parts) then Some(Join(SpelledParts(parts), '-')) else None
  }

  // ----- which tags there are, and how they are spelled -----

  function Suffix(subtag: string): string { if subtag == "" then "" else "-" + subtag }

  /** The tag is a language, perhaps a script, and perhaps a region, with hyphens between. */
  ghost predicate IsTyped(tag: string) {
    exists language: string, script: string, region: string :: IsTypedAs(tag, language, script, region)
  }

  predicate IsTypedAs(tag: string, language: string, script: string, region: string) {
    && 2 <= |language| <= 3 && AllLetters(language)
    && (script == "" || IsScript(script)) && (region == "" || IsRegion(region))
    && tag == language + Suffix(script) + Suffix(region)
  }

  function PartsOf(language: string, script: string, region: string): seq<string> {
    if script == "" && region == "" then [language]
    else if script == "" then [language, region]
    else if region == "" then [language, script]
    else [language, script, region]
  }

  lemma JoinOfParts(language: string, script: string, region: string)
    ensures Join(PartsOf(language, script, region), '-') == language + Suffix(script) + Suffix(region)
  {
    JoinOfTag(PartsOf(language, script, region));
  }

  lemma NoHyphen(subtag: string)
    requires AllLetters(subtag) || AllDigits(subtag)
    ensures '-' !in subtag
  {}

  lemma PartsOfTyped(tag: string, language: string, script: string, region: string)
    requires IsTypedAs(tag, language, script, region)
    ensures IsTag(Split(tag, '-'))
  {
    var parts := PartsOf(language, script, region);
    JoinOfParts(language, script, region);
    forall i | 0 <= i < |parts| ensures '-' !in parts[i] { NoHyphen(parts[i]); }
    SplitOfJoin(parts, '-');
  }

  lemma JoinOfTag(parts: seq<string>)
    requires 1 <= |parts| <= 3
    ensures Join(parts, '-') ==
      if |parts| == 1 then parts[0]
      else if |parts| == 2 then parts[0] + "-" + parts[1]
      else parts[0] + "-" + parts[1] + "-" + parts[2]
  {
    if |parts| == 3 {
      assert parts[1..] == [parts[1], parts[2]] && Join(parts[1..], '-') == parts[1] + "-" + Join([parts[2]], '-') by {
        assert [parts[1], parts[2]][1..] == [parts[2]];
      }
    } else if |parts| == 2 {
      assert parts[1..] == [parts[1]];
    }
  }

  /** A tag has a spelling exactly when it is one of these. */
  lemma CanonicalIffTyped(tag: string)
    ensures CanonicalLocale(tag).Some? <==> IsTyped(tag)
  {
    var parts := Split(tag, '-');
    if IsTag(parts) {
      JoinOfSplit(tag, '-');
      JoinOfTag(parts);
      var script := if |parts| == 3 || (|parts| == 2 && IsScript(parts[1])) then parts[1] else "";
      var region := if |parts| == 3 then parts[2] else if |parts| == 2 && !IsScript(parts[1]) then parts[1] else "";
      assert IsTypedAs(tag, parts[0], script, region);
    }
    if IsTyped(tag) {
      var language, script, region :| IsTypedAs(tag, language, script, region);
      PartsOfTyped(tag, language, script, region);
    }
  }

  ghost predicate SameUpToCase(s: string, t: string) {
    |s| == |t| && forall i :: 0 <= i < |s| ==> ToLower(s[i]) == ToLower(t[i])
  }

  /** One of the later subtags stands there. */
  ghost predicate SubtagAt(s: string, from: nat, to: nat) {
    && 0 < from < to <= |s| && s[from - 1] == '-' && (to == |s| || s[to] == '-')
    && forall k :: from <= k < to ==> s[k] != '-'
  }

  /** Title case for four letters, upper case for anything else. */
  ghost predicate CasedAt(s: string, from: nat, to: nat)
    requires from < to <= |s|
  {
    if to - from == 4 then IsUpper(s[from]) && forall k :: from < k < to ==> IsLower(s[k])
    else forall k :: from <= k < to ==> !IsLower(s[k])
  }

  /** The language in lower case, a script in title case, a region in upper case. */
  ghost predicate IsCased(s: string) {
    && (forall k :: 0 <= k < |s| && (forall i :: 0 <= i <= k ==> s[i] != '-') ==> IsLower(s[k]))
    && (forall from, to {:trigger SubtagAt(s, from, to)} :: SubtagAt(s, from, to) ==> CasedAt(s, from, to))
  }

  lemma {:induction false} JoinSameCase(parts: seq<string>, others: seq<string>)
    requires |parts| == |others| && forall i :: 0 <= i < |parts| ==> SameUpToCase(parts[i], others[i])
    ensures SameUpToCase(Join(parts, '-'), Join(others, '-'))
  {
    if |parts| > 1 {
      JoinSameCase(parts[1..], others[1..]);
      assert SameUpToCase(parts[0], others[0]);
    }
  }

  lemma SpelledShape(s: string)
    ensures SameUpToCase(Spelled(s), s) && SameUpToCase(s, Spelled(s))
  {
    var r := Spelled(s);
    forall i | 0 <= i < |s| ensures ToLower(r[i]) == ToLower(s[i]) {
      if |s| == 4 && i > 0 { assert r[i] == Lower(s[1..])[i - 1]; }
    }
  }

  lemma SpelledSameCase(parts: seq<string>)
    requires IsTag(parts)
    ensures forall i :: 0 <= i < |parts| ==>
      SameUpToCase(SpelledParts(parts)[i], parts[i]) && SameUpToCase(parts[i], SpelledParts(parts)[i])
  {
    if |parts| >= 2 { SpelledShape(parts[1]); }
    if |parts| == 3 { SpelledShape(parts[2]); }
  }

  lemma SpelledIsTag(parts: seq<string>)
    requires IsTag(parts)
    ensures IsTag(SpelledParts(parts)) && forall i :: 0 <= i < |parts| ==> '-' !in SpelledParts(parts)[i]
  {
    SpelledSameCase(parts);
    SameKinds(parts, SpelledParts(parts));
    forall i | 0 <= i < |parts| ensures '-' !in SpelledParts(parts)[i] { NoHyphen(SpelledParts(parts)[i]); }
  }

  /** The spelling is the tag in the case recommended for each subtag. */
  lemma CanonicalCasing(tag: string)
    requires CanonicalLocale(tag).Some?
    ensures SameUpToCase(CanonicalLocale(tag).value, tag) && IsCased(CanonicalLocale(tag).value)
  {
    var parts := Split(tag, '-');
    JoinOfSplit(tag, '-');
    SpelledSameCase(parts);
    JoinSameCase(SpelledParts(parts), parts);
    SpelledIsTag(parts);
    SpelledCase(parts);
    JoinedCase(SpelledParts(parts));
  }

  predicate Cased(subtag: string) {
    if |subtag| == 4 then IsUpper(subtag[0]) && forall k :: 0 < k < 4 ==> IsLower(subtag[k])
    else forall k :: 0 <= k < |subtag| ==> !IsLower(subtag[k])
  }

  lemma SpelledCase(parts: seq<string>)
    requires IsTag(parts)
    ensures forall k :: 0 <= k < |SpelledParts(parts)[0]| ==> IsLower(SpelledParts(parts)[0][k])
    ensures forall i :: 1 <= i < |parts| ==> Cased(SpelledParts(parts)[i])
  {}

  lemma JoinedCase(parts: seq<string>)
    requires IsTag(parts) && (forall k :: 0 <= k < |parts[0]| ==> IsLower(parts[0][k]))
    requires forall i :: 1 <= i < |parts| ==> Cased(parts[i])
    requires forall i :: 0 <= i < |parts| ==> '-' !in parts[i]
    ensures IsCased(Join(parts, '-'))
  {
    JoinOfTag(parts);
    var s, n := Join(parts, '-'), |parts[0]|;
    if |parts| > 1 { assert s[n] == '-'; }
    if |parts| == 3 { assert s[n + 1 + |parts[1]|] == '-'; }
    forall from, to | SubtagAt(s, from, to) ensures CasedAt(s, from, to) {
      SubtagIsPart(parts, s, from, to);
    }
  }

  lemma SubtagIsPart(parts: seq<string>, s: string, from: nat, to: nat)
    requires IsTag(parts) && s == Join(parts, '-') && SubtagAt(s, from, to)
    requires forall i :: 0 <= i < |parts| ==> '-' !in parts[i]
    ensures (|parts| >= 2 && s[from..to] == parts[1]) || (|parts| == 3 && s[from..to] == parts[2])
  {
    JoinOfTag(parts);
    if |parts| == 2 {
      OnlySubtag(parts[0], parts[1], s, from, to);
    } else if |parts| == 3 {
      EitherSubtag(parts[0], parts[1], parts[2], s, from, to);
    }
  }

  lemma OnlySubtag(a: string, b: string, s: string, from: nat, to: nat)
    requires s == a + "-" + b && '-' !in a && '-' !in b && SubtagAt(s, from, to)
    ensures s[from..to] == b
  {
    assert s == a + (['-'] + b);
    forall k | 0 <= k < |a| ensures s[k] != '-' { assert s[k] == a[k]; }
    forall k | |a| < k < |s| ensures s[k] != '-' { assert s[k] == b[k - |a| - 1]; }
    assert s[|a| + 1..] == b;
  }

  lemma EitherSubtag(a: string, b: string, c: string, s: string, from: nat, to: nat)
    requires s == a + "-" + b + "-" + c && '-' !in a && '-' !in b && '-' !in c && SubtagAt(s, from, to)
    ensures s[from..to] == b || s[from..to] == c
  {
    var n, m := |a|, |a| + 1 + |b|;
    ThreeParts(a, b, c, s);
    forall k | 0 <= k < n ensures s[k] != '-' { assert s[k] == a[k]; }
    forall k | n < k < m ensures s[k] != '-' { assert s[k] == b[k - n - 1]; }
    forall k | m < k < |s| ensures s[k] != '-' { assert s[k] == c[k - m - 1]; }
    assert s[n + 1..m] == b && s[m + 1..] == c;
  }

  lemma ThreeParts(a: string, b: string, c: string, s: string)
    requires s == a + "-" + b + "-" + c
    ensures var (n, m) := (|a|, |a| + 1 + |b|);
      && |s| == m + 1 + |c| && s[n] == '-' && s[m] == '-'
      && (forall k :: n < k < m ==> s[k] == b[k - n - 1]) && (forall k :: m < k < |s| ==> s[k] == c[k - m - 1])
  {}

  lemma {:induction false} SplitSameCase(s: string, t: string)
    requires SameUpToCase(s, t)
    ensures |Split(s, '-')| == |Split(t, '-')|
    ensures forall i :: 0 <= i < |Split(s, '-')| ==> SameUpToCase(Split(s, '-')[i], Split(t, '-')[i])
  {
    if s != "" {
      SplitSameCase(s[1..], t[1..]);
      var (p, q) := (Split(s[1..], '-'), Split(t[1..], '-'));
      assert SameUpToCase(p[0], q[0]) && ToLower(s[0]) == ToLower(t[0]);
      PrependSameCase(s[0], p[0], t[0], q[0]);
      assert forall i :: 1 <= i < |p| ==> SameUpToCase(p[i], q[i]);
    }
  }

  lemma PrependSameCase(c: char, s: string, d: char, t: string)
    requires ToLower(c) == ToLower(d) && SameUpToCase(s, t)
    ensures SameUpToCase([c] + s, [d] + t) && (c == '-' <==> d == '-')
  {}

  lemma SameCaseSpelled(parts: seq<string>, others: seq<string>)
    requires |parts| == |others| && IsTag(parts) && forall i :: 0 <= i < |parts| ==> SameUpToCase(parts[i], others[i])
    ensures IsTag(others) && SpelledParts(parts) == SpelledParts(others)
  {
    forall i | 0 <= i < |parts| ensures Lower(parts[i]) == Lower(others[i]) && Spelled(parts[i]) == Spelled(others[i]) {
      SameCase(parts[i], others[i]);
      SameKind(parts[i], others[i]);
    }
    assert IsTag(others) by { SameKinds(parts, others); }
  }

  lemma SameKinds(parts: seq<string>, others: seq<string>)
    requires |parts| == |others| && forall i :: 0 <= i < |parts| ==> SameUpToCase(parts[i], others[i])
    ensures IsTag(parts) ==> IsTag(others)
  {
    forall i | 0 <= i < |parts|
      ensures |parts[i]| == |others[i]| && (AllLetters(parts[i]) ==> AllLetters(others[i]))
      ensures AllDigits(parts[i]) ==> AllDigits(others[i])
    {
      SameKind(parts[i], others[i]);
    }
  }

  lemma SameKind(s: string, t: string)
    requires SameUpToCase(s, t)
    ensures (AllLetters(s) ==> AllLetters(t)) && (AllDigits(s) ==> AllDigits(t))
  {
    forall i | 0 <= i < |s| ensures (IsLetter(s[i]) ==> IsLetter(t[i])) && (IsDigit(s[i]) ==> IsDigit(t[i])) {
      assert ToLower(s[i]) == ToLower(t[i]);
    }
  }

  lemma SameCase(s: string, t: string)
    requires SameUpToCase(s, t)
    ensures Lower(s) == Lower(t) && Spelled(s) == Spelled(t)
  {
    SameLower(s, t);
    if |s| == 4 {
      SameUpper(s[..1], t[..1]);
      SameLower(s[1..], t[1..]);
    } else {
      SameUpper(s, t);
    }
  }

  lemma SameLower(s: string, t: string)
    requires SameUpToCase(s, t)
    ensures Lower(s) == Lower(t)
  {
    forall i | 0 <= i < |s| ensures Lower(s)[i] == Lower(t)[i] { assert ToLower(s[i]) == ToLower(t[i]); }
  }

  lemma SameLetter(c: char, d: char)
    requires ToLower(c) == ToLower(d)
    ensures ToUpper(c) == ToUpper(d)
  {
    if IsUpper(c) { assert c as int + 32 == ToLower(c) as int; }
    if IsUpper(d) { assert d as int + 32 == ToLower(d) as int; }
  }

  lemma SameUpper(s: string, t: string)
    requires SameUpToCase(s, t)
    ensures Upper(s) == Upper(t)
  {
    forall i | 0 <= i < |s| ensures Upper(s)[i] == Upper(t)[i] { SameLetter(s[i], t[i]); }
  }

  lemma SpelledAlike(s: string, t: string)
    requires CanonicalLocale(s).Some? && CanonicalLocale(s) == CanonicalLocale(t)
    ensures SameUpToCase(s, t)
  {
    CanonicalCasing(s);
    CanonicalCasing(t);
    var c := CanonicalLocale(s).value;
    forall i | 0 <= i < |s| ensures ToLower(s[i]) == ToLower(t[i]) {
      assert ToLower(c[i]) == ToLower(s[i]) && ToLower(c[i]) == ToLower(t[i]);
    }
  }

  /** Two tags have one spelling exactly when they differ in case alone. */
  lemma OneSpellingIff(s: string, t: string)
    requires CanonicalLocale(s).Some?
    ensures CanonicalLocale(s) == CanonicalLocale(t) <==> SameUpToCase(s, t)
  {
    if CanonicalLocale(s) == CanonicalLocale(t) { SpelledAlike(s, t); }
    if SameUpToCase(s, t) {
      SplitSameCase(s, t);
      SameCaseSpelled(Split(s, '-'), Split(t, '-'));
    }
  }

  /** A stored spelling is its own spelling, whatever was typed. */
  lemma CanonicalIsStable(tag: string)
    requires CanonicalLocale(tag).Some?
    ensures CanonicalLocale(CanonicalLocale(tag).value) == CanonicalLocale(tag)
  {
    CanonicalCasing(tag);
    OneSpellingIff(tag, CanonicalLocale(tag).value);
  }

  predicate Plain(s: string) { forall i :: 0 <= i < |s| ==> IsLetter(s[i]) || IsDigit(s[i]) || s[i] == '-' }

  /** A locale holds only letters, digits and hyphens. */
  lemma CanonicalIsPlain(tag: string)
    requires CanonicalLocale(tag).Some?
    ensures Plain(CanonicalLocale(tag).value)
  {
    var parts := Split(tag, '-');
    SpelledIsTag(parts);
    var spelled := SpelledParts(parts);
    JoinIsPlain(spelled);
  }

  lemma {:induction false} JoinIsPlain(parts: seq<string>)
    requires forall i :: 0 <= i < |parts| ==> Plain(parts[i])
    ensures Plain(Join(parts, '-'))
  {
    if |parts| > 1 {
      JoinIsPlain(parts[1..]);
      assert Plain(parts[0]);
    }
  }
}
