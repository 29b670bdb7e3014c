/** The part of a sequence that a sequence of flags selects. */
module Selection {
  import opened Sets

  /** How many of the first `n` flags are set: where element `n` goes when it is selected. */
  function Position(flags: seq<bool>, n: nat): (p: nat)
    requires n <= |flags|
    ensures p <= n
  {
    if n == 0 then 0 else Position(flags, n - 1) + if flags[n - 1] then 1 else 0
  }

  /** The selected elements among the first `n`. */
  function Selected<T>(s: seq<T>, flags: seq<bool>, n: nat): (r: seq<T>)
    requires n <= |s| == |flags|
    ensures |r| == Position(flags, n)
  {
    if n == 0 then [] else Selected(s, flags, n - 1) + if flags[n - 1] then [s[n - 1]] else []
  }

  function Select<T>(s: seq<T>, flags: seq<bool>): seq<T>
    requires |s| == |flags|
  {
    Selected(s, flags, |s|)
  }

  lemma {:induction false} PositionsAscend(flags: seq<bool>, i: nat, j: nat)
    requires i <= j <= |flags|
    ensures Position(flags, i) <= Position(flags, j)
    ensures i < j && flags[i] ==> Position(flags, i) < Position(flags, j)
  {
    if i < j { PositionsAscend(flags, i, j - 1); }
  }

  /** What is selected from a prefix is a prefix of what is selected. */
  lemma {:induction false} SelectedPrefix<T>(s: seq<T>, flags: seq<bool>, i: nat, n: nat)
    requires i <= n <= |s| == |flags|
    ensures Position(flags, i) <= Position(flags, n)
    ensures Selected(s, flags, i) == Selected(s, flags, n)[..Position(flags, i)]
  {
    if i < n {
      SelectedPrefix(s, flags, i, n - 1);
    }
  }

  /** A selected element stands at its position. */
  lemma SelectedAt<T>(s: seq<T>, flags: seq<bool>, i: nat, n: nat)
    requires i < n <= |s| == |flags| && flags[i]
    ensures Position(flags, i) < Position(flags, n)
    ensures Selected(s, flags, n)[Position(flags, i)] == s[i]
  {
    SelectedPrefix(s, flags, i + 1, n);
  }

  /** Every position is that of a selected element. */
  lemma {:induction false} SelectedFrom<T>(s: seq<T>, flags: seq<bool>, n: nat, p: nat) returns (i: nat)
    requires n <= |s| == |flags| && p < Position(flags, n)
    ensures i < n && flags[i] && Position(flags, i) == p && Selected(s, flags, n)[p] == s[i]
  {
    if p < Position(flags, n - 1) {
      i := SelectedFrom(s, flags, n - 1, p);
    } else {
      i := n - 1;
    }
  }

  /** Selected elements and their positions are equally many. */
  lemma {:induction false} PositionsCount(flags: seq<bool>, elements: set<nat>, positions: set<nat>)
    requires forall i :: i in elements ==> i < |flags| && flags[i] && Position(flags, i) in positions
    ensures |elements| <= |positions|
    decreases |elements|
  {
    if elements != {} {
      var last := Greatest(elements);
      var others := elements - {last};
      forall i | i in others ensures Position(flags, i) in positions - {Position(flags, last)} {
        PositionsAscend(flags, i, last);
      }
      PositionsCount(flags, others, positions - {Position(flags, last)});
    }
  }

  lemma {:induction false} SelectedPrefixOnly<T>(s: seq<T>, flags: seq<bool>, s': seq<T>, flags': seq<bool>, n: nat)
    requires n <= |s| == |flags| && n <= |s'| == |flags'|
    requires s[..n] == s'[..n] && flags[..n] == flags'[..n]
    ensures Position(flags, n) == Position(flags', n) && Selected(s, flags, n) == Selected(s', flags', n)
  {
    if n > 0 {
      assert s[..n][n - 1] == s'[..n][n - 1] && flags[..n][n - 1] == flags'[..n][n - 1];
      assert s[..n - 1] == s[..n][..n - 1] && s'[..n - 1] == s'[..n][..n - 1];
      assert flags[..n - 1] == flags[..n][..n - 1] && flags'[..n - 1] == flags'[..n][..n - 1];
      SelectedPrefixOnly(s, flags, s', flags', n - 1);
    }
  }

  /** Selecting from one element more. */
  lemma SelectOneMore<T>(s: seq<T>, flags: seq<bool>, x: T, flag: bool)
    requires |s| == |flags|
    ensures Select(s + [x], flags + [flag]) == Select(s, flags) + if flag then [x] else []
    ensures forall i :: 0 <= i <= |flags| ==> Position(flags + [flag], i) == Position(flags, i)
  {
    assert (s + [x])[..|s|] == s[..|s|] && (flags + [flag])[..|s|] == flags[..|s|];
    SelectedPrefixOnly(s, flags, s + [x], flags + [flag], |s|);
    forall i | 0 <= i <= |flags| ensures Position(flags + [flag], i) == Position(flags, i) {
      assert (s + [x])[..i] == s[..i] && (flags + [flag])[..i] == flags[..i];
      SelectedPrefixOnly(s, flags, s + [x], flags + [flag], i);
    }
  }

  lemma {:induction false} SelectAll<T>(s: seq<T>, flags: seq<bool>, n: nat)
    requires n <= |s| == |flags| && forall i :: 0 <= i < n ==> flags[i]
    ensures Selected(s, flags, n) == s[..n]
  {
    if n > 0 { SelectAll(s, flags, n - 1); }
  }
}
