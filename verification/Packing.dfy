/** Cutting a sequence of weighed items into consecutive blocks, greedily: each item joins the
    last block if the block stays within the limit, else it opens a new one. */
module Packing {
  import opened Sequences

  function Total<T>(weight: T -> nat, items: seq<T>): nat {
    if items == [] then 0 else Total(weight, items[..|items| - 1]) + weight(items[|items| - 1])
  }

  /** A block is a single item, however heavy, or within the limit. */
  predicate Allowed<T>(weight: T -> nat, limit: nat, block: seq<T>) {
    |block| == 1 || (|block| > 1 && Total(weight, block) <= limit)
  }

  ghost predicate Cuts<T>(weight: T -> nat, limit: nat, items: seq<T>, blocks: seq<seq<T>>) {
    Flatten(blocks) == items && forall i :: 0 <= i < |blocks| ==> Allowed(weight, limit, blocks[i])
  }

  function Joined<T>(blocks: seq<seq<T>>, item: T): seq<seq<T>>
    requires blocks != []
  {
    Init(blocks) + [Last(blocks) + [item]]
  }

  predicate FitsIn<T>(weight: T -> nat, limit: nat, blocks: seq<seq<T>>, item: T) {
    blocks != [] && Total(weight, Last(blocks)) + weight(item) <= limit
  }

  /** The item joins the last block if it fits in, else it opens a new one. */
  function Placed<T>(weight: T -> nat, limit: nat, blocks: seq<seq<T>>, item: T): seq<seq<T>> {
    if FitsIn(weight, limit, blocks, item) then Joined(blocks, item) else blocks + [[item]]
  }

  function Greedy<T>(weight: T -> nat, limit: nat, items: seq<T>): seq<seq<T>> {
    if items == [] then [] else Placed(weight, limit, Greedy(weight, limit, Init(items)), Last(items))
  }

  lemma GreedyOneMore<T>(weight: T -> nat, limit: nat, items: seq<T>, i: nat)
    requires i < |items|
    ensures Greedy(weight, limit, items[..i + 1]) == Placed(weight, limit, Greedy(weight, limit, items[..i]), items[i])
  {
    assert Init(items[..i + 1]) == items[..i];
  }

  lemma TotalLast<T>(weight: T -> nat, items: seq<T>, item: T)
    ensures Total(weight, items + [item]) == Total(weight, items) + weight(item)
  {
    assert (items + [item])[..|items|] == items;
  }

  lemma JoinedCuts<T>(weight: T -> nat, limit: nat, items: seq<T>, blocks: seq<seq<T>>, item: T)
    requires Cuts(weight, limit, items, blocks) && blocks != []
    requires Total(weight, Last(blocks)) + weight(item) <= limit
    ensures Cuts(weight, limit, items + [item], Joined(blocks, item))
  {
    var joined := Last(blocks) + [item];
    TotalLast(weight, Last(blocks), item);
    FlattenLast(Init(blocks), Last(blocks));
    FlattenLast(Init(blocks), joined);
    assert blocks == Init(blocks) + [Last(blocks)];
    assert Flatten(Init(blocks)) + joined == items + [item];
    assert Allowed(weight, limit, Last(blocks));
    forall i | 0 <= i < |blocks| ensures Allowed(weight, limit, Joined(blocks, item)[i]) {
      if i < |blocks| - 1 { assert Joined(blocks, item)[i] == blocks[i]; }
    }
  }

  lemma OpenedCuts<T>(weight: T -> nat, limit: nat, items: seq<T>, blocks: seq<seq<T>>, item: T)
    requires Cuts(weight, limit, items, blocks)
    ensures Cuts(weight, limit, items + [item], blocks + [[item]])
  {
    FlattenLast(blocks, [item]);
  }

  /** Greedy packing loses nothing, keeps the order, and never makes a block it may not. */
  lemma {:induction false} GreedyCuts<T>(weight: T -> nat, limit: nat, items: seq<T>)
    ensures Cuts(weight, limit, items, Greedy(weight, limit, items))
    ensures items != [] ==> Greedy(weight, limit, items) != []
  {
    if items != [] {
      var before, item := Greedy(weight, limit, Init(items)), Last(items);
      GreedyCuts(weight, limit, Init(items));
      assert items == Init(items) + [item];
      if FitsIn(weight, limit, before, item) {
        JoinedCuts(weight, limit, Init(items), before, item);
      } else {
        OpenedCuts(weight, limit, Init(items), before, item);
      }
    }
  }

  /** The blocks without the last item. */
  function Shortened<T>(blocks: seq<seq<T>>): seq<seq<T>>
    requires blocks != [] && Last(blocks) != []
  {
    if |Last(blocks)| == 1 then Init(blocks) else Init(blocks) + [Init(Last(blocks))]
  }

  lemma ShortenedCuts<T>(weight: T -> nat, limit: nat, items: seq<T>, blocks: seq<seq<T>>)
    requires items != [] && Cuts(weight, limit, items, blocks)
    ensures blocks != [] && Last(blocks) != [] && Last(Last(blocks)) == Last(items)
    ensures Cuts(weight, limit, Init(items), Shortened(blocks))
  {
    var last := Last(blocks);
    assert Allowed(weight, limit, last);
    assert blocks == Init(blocks) + [last];
    if |last| == 1 {
      assert Flatten(blocks) == Flatten(Init(blocks)) + last;
    } else {
      FlattenLast(Init(blocks), Init(last));
      assert last == Init(last) + [Last(last)];
      assert Init(items) == Flatten(Init(blocks)) + Init(last);
      assert Allowed(weight, limit, Init(last));
    }
  }

  lemma {:induction false} TotalOfSuffix<T>(weight: T -> nat, items: seq<T>, from: nat, to: nat)
    requires from <= to <= |items|
    ensures Total(weight, items[to..]) <= Total(weight, items[from..])
    decreases |items|
  {
    if to < |items| {
      var front := Init(items);
      TotalOfSuffix(weight, front, from, to);
      assert items[from..][..|items| - from - 1] == front[from..];
      assert items[to..][..|items| - to - 1] == front[to..];
    }
  }

  lemma LastIsSuffix<T>(blocks: seq<seq<T>>)
    requires blocks != []
    ensures |Last(blocks)| <= |Flatten(blocks)| && Flatten(blocks)[|Flatten(blocks)| - |Last(blocks)|..] == Last(blocks)
  {}

  /** The block could not have taken the first item of the next one. */
  predicate FullBefore<T>(weight: T -> nat, limit: nat, block: seq<T>, next: seq<T>) {
    next != [] && Total(weight, block) + weight(next[0]) > limit
  }

  ghost predicate Full<T>(weight: T -> nat, limit: nat, blocks: seq<seq<T>>) {
    forall i, j :: 0 <= i && j == i + 1 < |blocks| ==> FullBefore(weight, limit, blocks[i], blocks[j])
  }

  lemma PlacedIsFull<T>(weight: T -> nat, limit: nat, blocks: seq<seq<T>>, item: T)
    requires Full(weight, limit, blocks) && forall i :: 0 <= i < |blocks| ==> blocks[i] != []
    ensures var placed := Placed(weight, limit, blocks, item);
      Full(weight, limit, placed) && forall i :: 0 <= i < |placed| ==> placed[i] != []
  {
    if FitsIn(weight, limit, blocks, item) {
      JoinedIsFull(weight, limit, blocks, item);
    } else {
      var placed := blocks + [[item]];
      forall i, j | 0 <= i && j == i + 1 < |placed| ensures FullBefore(weight, limit, placed[i], placed[j]) {
        if j < |blocks| { assert FullBefore(weight, limit, blocks[i], blocks[j]); }
      }
    }
  }

  lemma JoinedIsFull<T>(weight: T -> nat, limit: nat, blocks: seq<seq<T>>, item: T)
    requires blocks != [] && Full(weight, limit, blocks) && forall i :: 0 <= i < |blocks| ==> blocks[i] != []
    ensures var joined := Joined(blocks, item);
      Full(weight, limit, joined) && forall i :: 0 <= i < |joined| ==> joined[i] != []
  {
    var joined := Joined(blocks, item);
    forall i, j | 0 <= i && j == i + 1 < |joined| ensures FullBefore(weight, limit, joined[i], joined[j]) {
      assert FullBefore(weight, limit, blocks[i], blocks[j]);
      assert joined[i] == blocks[i] && joined[j][0] == blocks[j][0];
    }
  }

  /** Greedy packing opens a block only for an item that the one before cannot take. */
  lemma {:induction false} GreedyIsFull<T>(weight: T -> nat, limit: nat, items: seq<T>)
    ensures Full(weight, limit, Greedy(weight, limit, items))
    ensures forall i :: 0 <= i < |Greedy(weight, limit, items)| ==> Greedy(weight, limit, items)[i] != []
  {
    if items != [] {
      GreedyIsFull(weight, limit, Init(items));
      PlacedIsFull(weight, limit, Greedy(weight, limit, Init(items)), Last(items));
    }
  }

  /** No more blocks, and if as many, no longer a last one. */
  predicate NoMore<T>(mine: seq<seq<T>>, theirs: seq<seq<T>>) {
    |mine| <= |theirs| && (|mine| == |theirs| && theirs != [] ==> |Last(mine)| <= |Last(theirs)|)
  }

  /** One step of the exchange: if their cut can spare the last item, so can the greedy one. */
  lemma PlacedIsFewest<T>(weight: T -> nat, limit: nat, before: seq<seq<T>>, blocks: seq<seq<T>>, item: T)
    requires blocks != [] && Last(blocks) != [] && NoMore(before, Shortened(blocks))
    requires |Last(blocks)| > 1 && |before| == |blocks| ==> FitsIn(weight, limit, before, item)
    ensures NoMore(Placed(weight, limit, before, item), blocks)
  {}

  lemma FitsBeside<T>(weight: T -> nat, limit: nat, items: seq<T>, before: seq<seq<T>>, blocks: seq<seq<T>>)
    requires items != [] && Cuts(weight, limit, items, blocks) && Cuts(weight, limit, Init(items), before)
    requires blocks != [] && |Last(blocks)| > 1 && |before| == |blocks| && NoMore(before, Shortened(blocks))
    ensures FitsIn(weight, limit, before, Last(items))
  {
    var short := Shortened(blocks);
    ShortenedCuts(weight, limit, items, blocks);
    LastIsSuffix(before);
    LastIsSuffix(short);
    assert Allowed(weight, limit, Last(blocks)) && Last(blocks) == Last(short) + [Last(items)];
    FitsToo(weight, limit, Init(items), Last(before), Last(short), Last(items));
  }

  /** Among all the ways to cut the items into allowed blocks, the greedy one has the fewest, and
      of those with as few none has a shorter last block. */
  lemma {:induction false} GreedyIsFewest<T>(weight: T -> nat, limit: nat, items: seq<T>, blocks: seq<seq<T>>)
    requires Cuts(weight, limit, items, blocks)
    ensures |Greedy(weight, limit, items)| <= |blocks|
    ensures |Greedy(weight, limit, items)| == |blocks| && blocks != [] ==>
      |Last(Greedy(weight, limit, items))| <= |Last(blocks)|
    decreases |items|
  {
    if items != [] {
      var before := Greedy(weight, limit, Init(items));
      ShortenedCuts(weight, limit, items, blocks);
      GreedyIsFewest(weight, limit, Init(items), Shortened(blocks));
      if |Last(blocks)| > 1 && |before| == |blocks| {
        GreedyCuts(weight, limit, Init(items));
        FitsBeside(weight, limit, items, before, blocks);
      }
      PlacedIsFewest(weight, limit, before, blocks, Last(items));
    }
  }

  /** Where another cut fits the last item into a block no shorter, the greedy one does too. */
  lemma FitsToo<T>(weight: T -> nat, limit: nat, front: seq<T>, mine: seq<T>, theirs: seq<T>, item: T)
    requires |mine| <= |theirs| <= |front| && mine == front[|front| - |mine|..] && theirs == front[|front| - |theirs|..]
    requires Total(weight, theirs + [item]) <= limit
    ensures Total(weight, mine) + weight(item) <= limit
  {
    TotalOfSuffix(weight, front, |front| - |theirs|, |front| - |mine|);
    TotalLast(weight, theirs, item);
  }
}
