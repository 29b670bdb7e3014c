/** How the API pages are filled: a body's rows into tables, an area's operations into pages. */
module OpenApiPages {
  import opened InsertionMaps
  import opened Packing
  import opened Sequences

  datatype Row = Row(path: string, cells: seq<string>)

  datatype Section = Section(text: string, rows: nat)

  const MAX_TABLE_ROWS := 60
  const MAX_PAGE_ROWS := 60

  // ----- the top-level field of a row -----

  function TopLevel(path: string): string {
    if path == "" || path[0] == '.' || path[0] == '[' then "" else [path[0]] + TopLevel(path[1..])
  }

  /** The top level is the part of a path before its first `.` or `[`. */
  lemma {:induction false} TopLevelIsPrefix(path: string)
    ensures var field := TopLevel(path);
      && field <= path && '.' !in field && '[' !in field
      && (|field| < |path| ==> path[|field|] == '.' || path[|field|] == '[')
  {
    if path != "" && path[0] != '.' && path[0] != '[' { TopLevelIsPrefix(path[1..]); }
  }

  /** Whatever lies inside a field has that field's top level. */
  lemma {:induction false} InsideHasSameTop(path: string, separator: char, rest: string)
    requires separator == '.' || separator == '['
    ensures TopLevel(path + [separator] + rest) == TopLevel(path)
  {
    var all := path + [separator] + rest;
    if path == "" {
      assert all[0] == separator;
    } else if path[0] != '.' && path[0] != '[' {
      assert all[1..] == path[1..] + [separator] + rest;
      InsideHasSameTop(path[1..], separator, rest);
    }
  }

  // ----- grouping rows by field -----

  /** The rows of one top-level field, in their order. */
  function Field(rows: seq<Row>, field: string): seq<Row> {
    if rows == [] then []
    else Field(Init(rows), field) + if TopLevel(Last(rows).path) == field then [Last(rows)] else []
  }

  lemma {:induction false} InField(rows: seq<Row>, field: string, row: Row)
    requires row in Field(rows, field)
    ensures TopLevel(row.path) == field
  {
    if row in Field(Init(rows), field) { InField(Init(rows), field, row); }
  }

  type Groups = InsertionMap<string, seq<Row>>

  function Grouped(groups: Groups, row: Row): Groups {
    var top := TopLevel(row.path);
    groups.Set(top, if top in groups.held then groups.held[top] + [row] else [row])
  }

  function GroupsOf(rows: seq<Row>): Groups {
    if rows == [] then Empty() else Grouped(GroupsOf(Init(rows)), Last(rows))
  }

  /** Each field met has one group, which is the field's rows in their order. */
  lemma {:induction false} GroupsAreFields(rows: seq<Row>)
    ensures GroupsOf(rows).Valid()
    ensures forall k :: k in GroupsOf(rows).held ==> GroupsOf(rows).held[k] == Field(rows, k) != []
    ensures forall k :: k !in GroupsOf(rows).held ==> Field(rows, k) == []
  {
    if rows != [] { GroupsAreFields(Init(rows)); }
  }

  function Fields(rows: seq<Row>, order: seq<string>): seq<seq<Row>> {
    if order == [] then [] else Fields(rows, Init(order)) + [Field(rows, Last(order))]
  }

  lemma {:induction false} FieldsAt(rows: seq<Row>, order: seq<string>)
    ensures |Fields(rows, order)| == |order|
    ensures forall i :: 0 <= i < |order| ==> Fields(rows, order)[i] == Field(rows, order[i])
  {
    if order != [] { FieldsAt(rows, Init(order)); }
  }

  lemma {:induction false} FieldsPrefix(rows: seq<Row>, order: seq<string>, n: nat)
    requires n <= |order|
    ensures n <= |Fields(rows, order)| && Fields(rows, order)[..n] == Fields(rows, order[..n])
  {
    FieldsAt(rows, order);
    if n < |order| {
      FieldsAt(rows, Init(order));
      FieldsPrefix(rows, Init(order), n);
      assert Init(order)[..n] == order[..n];
    } else {
      assert order[..n] == order;
    }
  }

  /** The groups in the order their fields first appear. */
  function GroupList(rows: seq<Row>): seq<seq<Row>> { Fields(rows, GroupsOf(rows).order) }

  method GroupRows(rows: seq<Row>) returns (groups: Groups)
    ensures groups == GroupsOf(rows)
  {
    groups := Empty();
    for i := 0 to |rows|
      invariant groups == GroupsOf(rows[..i])
    {
      var top := TopLevel(rows[i].path);
      assert rows[..i + 1] == rows[..i] + [rows[i]];
      if top !in groups.held {
        groups := groups.Set(top, [rows[i]]);
      } else {
        groups := groups.Set(top, groups.held[top] + [rows[i]]);
      }
    }
    assert rows[..|rows|] == rows;
  }

  // ----- chunks -----

  function RowCount(group: seq<Row>): nat { |group| }

  /** Each block of groups made into one list of rows. */
  function Merged(blocks: seq<seq<seq<Row>>>): (r: seq<seq<Row>>)
    ensures |r| == |blocks|
  {
    if blocks == [] then [] else Merged(Init(blocks)) + [Flatten(Last(blocks))]
  }

  lemma {:induction false} MergedAt(blocks: seq<seq<seq<Row>>>, i: nat)
    requires i < |blocks|
    ensures Merged(blocks)[i] == Flatten(blocks[i])
  {
    if i < |blocks| - 1 { MergedAt(Init(blocks), i); }
  }

  /** A group added to the last block, or made a block of its own, is added to the merged rows. */
  lemma MergedStep(blocks: seq<seq<seq<Row>>>, group: seq<Row>)
    ensures Merged(blocks + [[group]]) == Merged(blocks) + [group]
    ensures blocks != [] ==>
      Merged(Joined(blocks, group)) == Init(Merged(blocks)) + [Last(Merged(blocks)) + group]
    ensures blocks != [] ==> |Last(Merged(blocks))| == Total(RowCount, Last(blocks))
  {
    assert Init(blocks + [[group]]) == blocks;
    FlattenOne(group);
    if blocks != [] {
      assert Init(Joined(blocks, group)) == Init(blocks);
      FlattenLast(Last(blocks), group);
      TotalIsLength(Last(blocks));
    }
  }

  function Blocks(rows: seq<Row>): seq<seq<seq<Row>>> { Greedy(RowCount, MAX_TABLE_ROWS, GroupList(rows)) }

  function Chunks(rows: seq<Row>): seq<seq<Row>> { Merged(Blocks(rows)) }

  lemma {:induction false} TotalIsLength(groups: seq<seq<Row>>)
    ensures |Flatten(groups)| == Total(RowCount, groups)
  {
    if groups != [] { TotalIsLength(Init(groups)); }
  }

  /** The chunks of the first `i` groups. */
  ghost function ChunksOf(gs: seq<seq<Row>>, i: nat): seq<seq<Row>>
    requires i <= |gs|
  {
    Merged(Greedy(RowCount, MAX_TABLE_ROWS, gs[..i]))
  }

  function Appended(chunks: seq<seq<Row>>, group: seq<Row>): seq<seq<Row>> {
    if chunks != [] && |Last(chunks)| + |group| <= MAX_TABLE_ROWS then Init(chunks) + [Last(chunks) + group]
    else chunks + [group]
  }

  lemma MergedPlaced(blocks: seq<seq<seq<Row>>>, group: seq<Row>)
    ensures Merged(Placed(RowCount, MAX_TABLE_ROWS, blocks, group)) == Appended(Merged(blocks), group)
  {
    MergedStep(blocks, group);
  }

  lemma ChunksOneMore(gs: seq<seq<Row>>, i: nat)
    requires i < |gs|
    ensures ChunksOf(gs, i + 1) == Appended(ChunksOf(gs, i), gs[i])
  {
    GreedyOneMore(RowCount, MAX_TABLE_ROWS, gs, i);
    MergedPlaced(Greedy(RowCount, MAX_TABLE_ROWS, gs[..i]), gs[i]);
  }

  lemma ChunksOfNoneAndAll(rows: seq<Row>, gs: seq<seq<Row>>)
    requires gs == GroupList(rows)
    ensures ChunksOf(gs, 0) == [] && ChunksOf(gs, |gs|) == Chunks(rows) && |gs| == |GroupsOf(rows).order|
  {
    assert gs[..|gs|] == gs;
    FieldsAt(rows, GroupsOf(rows).order);
  }

  method ChunkRows(rows: seq<Row>) returns (chunks: seq<seq<Row>>)
    ensures chunks == Chunks(rows)
  {
    var groups := GroupRows(rows);
    ghost var gs := GroupList(rows);
    ChunksOfNoneAndAll(rows, gs);
    chunks := [];
    for i := 0 to |groups.order|
      invariant chunks == ChunksOf(gs, i)
    {
      var group := GroupAt(rows, groups, i);
      ChunksOneMore(gs, i);
      if chunks != [] && |chunks[|chunks| - 1]| + |group| <= MAX_TABLE_ROWS {
        chunks := chunks[..|chunks| - 1] + [chunks[|chunks| - 1] + group];
      } else {
        chunks := chunks + [group];
      }
    }
  }

  method GroupAt(ghost rows: seq<Row>, groups: Groups, i: nat) returns (group: seq<Row>)
    requires groups == GroupsOf(rows) && i < |groups.order|
    ensures i < |GroupList(rows)| && group == GroupList(rows)[i]
  {
    GroupsAreFields(rows);
    FieldsAt(rows, groups.order);
    assert groups.order[i] in groups.order;
    group := groups.held[groups.order[i]];
  }

  // ----- what the chunks promise -----

  lemma {:induction false} FieldOfConcat(a: seq<Row>, b: seq<Row>, field: string)
    ensures Field(a + b, field) == Field(a, field) + Field(b, field)
  {
    if b == [] {
      assert a + b == a;
    } else {
      assert Init(a + b) == a + Init(b);
      FieldOfConcat(a, Init(b), field);
    }
  }

  /** Picking a field out of a field's own rows gives all of them, out of another's none. */
  lemma {:induction false} FieldOfField(rows: seq<Row>, inner: string, outer: string)
    ensures Field(Field(rows, inner), outer) == if inner == outer then Field(rows, inner) else []
  {
    if rows != [] {
      FieldOfField(Init(rows), inner, outer);
      FieldOfConcat(Field(Init(rows), inner), [Last(rows)], outer);
      assert Init([Last(rows)]) == [];
      if TopLevel(Last(rows).path) != inner { assert Field(rows, inner) == Field(Init(rows), inner); }
    }
  }

  /** Groups of distinct fields together hold exactly the rows of those fields. */
  lemma {:induction false} FieldOfGroups(rows: seq<Row>, order: seq<string>, field: string)
    requires Distinct(order)
    ensures Field(Flatten(Fields(rows, order)), field) == if field in order then Field(rows, field) else []
  {
    if order != [] {
      var front, k := Init(order), Last(order);
      LastIsNew(order, field);
      FieldOfGroups(rows, front, field);
      FlattenLast(Fields(rows, front), Field(rows, k));
      FieldOfConcat(Flatten(Fields(rows, front)), Field(rows, k), field);
      FieldOfField(rows, k, field);
    }
  }

  lemma LastIsNew<T>(s: seq<T>, x: T)
    requires s != [] && Distinct(s)
    ensures Distinct(Init(s)) && Last(s) !in Init(s) && (x in s <==> x in Init(s) || x == Last(s))
  {
    assert s == Init(s) + [Last(s)];
  }

  lemma FlattenOne<T>(block: seq<T>)
    ensures Flatten([block]) == block
  {
    assert [block][..0] == [];
  }

  lemma {:induction false} FlattenMerged(blocks: seq<seq<seq<Row>>>)
    ensures Flatten(Merged(blocks)) == Flatten(Flatten(blocks))
  {
    if blocks != [] {
      FlattenMerged(Init(blocks));
      assert Init(Merged(blocks)) == Merged(Init(blocks));
      FlattenConcat(Flatten(Init(blocks)), Last(blocks));
    }
  }

  lemma {:induction false} FlattenConcat<T>(a: seq<seq<T>>, b: seq<seq<T>>)
    ensures Flatten(a + b) == Flatten(a) + Flatten(b)
  {
    if b == [] {
      assert a + b == a;
    } else {
      FlattenConcat(a, Init(b));
      FlattenLast(a + Init(b), Last(b));
      assert a + Init(b) + [Last(b)] == a + b;
      ConcatAssociates(Flatten(a), Flatten(Init(b)), Last(b));
    }
  }

  /** The chunks, one after another, hold every field's rows once each and in their order. */
  lemma NothingLost(rows: seq<Row>, field: string)
    ensures Field(Flatten(Chunks(rows)), field) == Field(rows, field)
  {
    var gs := GroupList(rows);
    GreedyCuts(RowCount, MAX_TABLE_ROWS, gs);
    FlattenMerged(Blocks(rows));
    GroupsAreFields(rows);
    FieldOfGroups(rows, GroupsOf(rows).order, field);
  }

  lemma {:induction false} CountInField(rows: seq<Row>, row: Row)
    ensures Count(Field(rows, TopLevel(row.path)), row) == Count(rows, row)
  {
    if rows != [] {
      CountInField(Init(rows), row);
      CountLast(rows, row);
      var field := Field(rows, TopLevel(row.path));
      if TopLevel(Last(rows).path) == TopLevel(row.path) {
        CountLast(field, row);
        assert Init(field) == Field(Init(rows), TopLevel(row.path));
      }
    }
  }

  /** No row is lost or duplicated. */
  lemma EveryRowOnce(rows: seq<Row>, row: Row)
    ensures Count(Flatten(Chunks(rows)), row) == Count(rows, row)
  {
    NothingLost(rows, TopLevel(row.path));
    CountInField(rows, row);
    CountInField(Flatten(Chunks(rows)), row);
  }

  /** Where block `i` starts among the items. */
  function Offset<T>(blocks: seq<seq<T>>, i: nat): nat
    requires i <= |blocks|
  {
    |Flatten(blocks[..i])|
  }

  lemma {:induction false} ItemAt<T>(blocks: seq<seq<T>>, i: nat, a: nat)
    requires i < |blocks| && a < |blocks[i]|
    ensures Offset(blocks, i) + a < |Flatten(blocks)| && Flatten(blocks)[Offset(blocks, i) + a] == blocks[i][a]
    ensures forall j :: i < j <= |blocks| ==> Offset(blocks, i) + a < Offset(blocks, j)
  {
    OffsetsRise(blocks, i);
    assert blocks[..i + 1] == blocks[..i] + [blocks[i]] && blocks == blocks[..i + 1] + blocks[i + 1..];
    FlattenLast(blocks[..i], blocks[i]);
    FlattenConcat(blocks[..i + 1], blocks[i + 1..]);
    assert blocks[..|blocks|] == blocks;
  }

  lemma OffsetsRise<T>(blocks: seq<seq<T>>, i: nat)
    requires i < |blocks|
    ensures forall j :: i < j <= |blocks| ==> Offset(blocks, i) + |blocks[i]| <= Offset(blocks, j)
  {
    forall j | i < j <= |blocks| ensures Offset(blocks, i) + |blocks[i]| <= Offset(blocks, j) {
      assert blocks[..j] == blocks[..i + 1] + blocks[i + 1..j] && blocks[..i + 1] == blocks[..i] + [blocks[i]];
      FlattenConcat(blocks[..i + 1], blocks[i + 1..j]);
      FlattenLast(blocks[..i], blocks[i]);
    }
  }

  lemma {:induction false} InFlattened<T>(blocks: seq<seq<T>>, x: T) returns (i: nat)
    requires x in Flatten(blocks)
    ensures i < |blocks| && x in blocks[i]
  {
    if x in Last(blocks) {
      i := |blocks| - 1;
    } else {
      i := InFlattened(Init(blocks), x);
    }
  }

  /** The group a block's row comes from. */
  lemma GroupOfRow(rows: seq<Row>, order: seq<string>, blocks: seq<seq<seq<Row>>>, i: nat, row: Row) returns (p: nat)
    requires Flatten(blocks) == Fields(rows, order) && i < |blocks| && row in Flatten(blocks[i])
    ensures p < |order| && order[p] == TopLevel(row.path) && Offset(blocks, i) <= p
    ensures forall j :: i < j <= |blocks| ==> p < Offset(blocks, j)
  {
    var a := InFlattened(blocks[i], row);
    ItemAt(blocks, i, a);
    p := Offset(blocks, i) + a;
    FieldsAt(rows, order);
    InField(rows, order[p], row);
  }

  lemma BlocksShareNothing(rows: seq<Row>, order: seq<string>, blocks: seq<seq<seq<Row>>>, i: nat, j: nat,
                           row: Row, other: Row)
    requires Distinct(order) && Flatten(blocks) == Fields(rows, order) && i < j < |blocks|
    requires row in Flatten(blocks[i]) && other in Flatten(blocks[j])
    ensures TopLevel(row.path) != TopLevel(other.path)
  {
    var p := GroupOfRow(rows, order, blocks, i, row);
    var q := GroupOfRow(rows, order, blocks, j, other);
    assert p < Offset(blocks, j) <= q;
  }

  /** Two chunks never share a top-level field. */
  lemma FieldsStayTogether(rows: seq<Row>, i: nat, j: nat, row: Row, other: Row)
    requires i < j < |Chunks(rows)| && row in Chunks(rows)[i] && other in Chunks(rows)[j]
    ensures TopLevel(row.path) != TopLevel(other.path)
  {
    GroupsAreFields(rows);
    GreedyCuts(RowCount, MAX_TABLE_ROWS, GroupList(rows));
    MergedAt(Blocks(rows), i);
    MergedAt(Blocks(rows), j);
    BlocksShareNothing(rows, GroupsOf(rows).order, Blocks(rows), i, j, row, other);
  }

  // ----- the order of the fields -----

  /** The first row of a field. */
  ghost predicate FirstAt(rows: seq<Row>, field: string, p: nat) {
    p < |rows| && TopLevel(rows[p].path) == field && forall i :: 0 <= i < p ==> TopLevel(rows[i].path) != field
  }

  lemma {:induction false} FieldIsEmpty(rows: seq<Row>, field: string)
    ensures Field(rows, field) == [] <==> forall i :: 0 <= i < |rows| ==> TopLevel(rows[i].path) != field
  {
    if rows != [] {
      FieldIsEmpty(Init(rows), field);
      assert forall i :: 0 <= i < |rows| - 1 ==> Init(rows)[i] == rows[i];
    }
  }

  lemma OrderOneMore(rows: seq<Row>)
    requires rows != []
    ensures var (before, top) := (GroupsOf(Init(rows)), TopLevel(Last(rows).path));
      GroupsOf(rows).order == if top in before.held then before.order else before.order + [top]
  {}

  /** The first row of a field already met is no later for one row more. */
  lemma FirstIsEarlier(rows: seq<Row>, field: string, p: nat)
    requires rows != [] && FirstAt(rows, field, p)
    ensures if Field(Init(rows), field) == [] then p == |rows| - 1 else p < |rows| - 1 && FirstAt(Init(rows), field, p)
  {
    FieldIsEmpty(Init(rows), field);
    assert forall i :: 0 <= i < |rows| - 1 ==> Init(rows)[i] == rows[i];
  }

  /** Fields are listed by their first rows. */
  lemma {:induction false} OrderedByFirst(rows: seq<Row>, a: nat, b: nat, p: nat, q: nat)
    requires a < b < |GroupsOf(rows).order|
    requires FirstAt(rows, GroupsOf(rows).order[a], p) && FirstAt(rows, GroupsOf(rows).order[b], q)
    ensures p < q
  {
    var (order, before) := (GroupsOf(rows).order, GroupsOf(Init(rows)));
    GroupsAreFields(Init(rows));
    OrderOneMore(rows);
    FirstIsEarlier(rows, order[a], p);
    FirstIsEarlier(rows, order[b], q);
    assert order[a] == before.order[a] && order[a] in before.order;
    if b < |before.order| {
      assert order[b] in before.order;
      OrderedByFirst(Init(rows), a, b, p, q);
    }
  }

  lemma InLastBlock(rows: seq<Row>, order: seq<string>, i: nat)
    requires order != [] && i < |Flatten(Fields(rows, order))|
    ensures var (front, out) := (Flatten(Fields(rows, Init(order))), Flatten(Fields(rows, order)));
      if i < |front| then out[i] == front[i] else TopLevel(out[i].path) == Last(order)
  {
    var (front, last) := (Flatten(Fields(rows, Init(order))), Field(rows, Last(order)));
    FlattenLast(Fields(rows, Init(order)), last);
    if i >= |front| {
      assert (front + last)[i] == last[i - |front|];
      InField(rows, Last(order), last[i - |front|]);
    }
  }

  lemma {:induction false} InFieldBlock(rows: seq<Row>, order: seq<string>, i: nat)
    requires i < |Flatten(Fields(rows, order))|
    ensures TopLevel(Flatten(Fields(rows, order))[i].path) in order
  {
    if order != [] {
      InLastBlock(rows, order, i);
      if i < |Flatten(Fields(rows, Init(order)))| { InFieldBlock(rows, Init(order), i); }
    }
  }

  /** Rows of an earlier field stand before those of a later one. */
  lemma {:induction false} BlocksInOrder(rows: seq<Row>, order: seq<string>, a: nat, b: nat, i: nat, j: nat)
    requires Distinct(order) && a < b < |order|
    requires i < |Flatten(Fields(rows, order))| && TopLevel(Flatten(Fields(rows, order))[i].path) == order[a]
    requires j < |Flatten(Fields(rows, order))| && TopLevel(Flatten(Fields(rows, order))[j].path) == order[b]
    ensures i < j
  {
    var front := Flatten(Fields(rows, Init(order)));
    InLastBlock(rows, order, i);
    InLastBlock(rows, order, j);
    if j < |front| {
      InFieldBlock(rows, Init(order), j);
      assert order[b] in Init(order);
      BlocksInOrder(rows, Init(order), a, b, i, j);
    }
  }

  lemma ChunksAreGroups(rows: seq<Row>)
    ensures Flatten(Chunks(rows)) == Flatten(Fields(rows, GroupsOf(rows).order)) && Distinct(GroupsOf(rows).order)
  {
    GreedyCuts(RowCount, MAX_TABLE_ROWS, GroupList(rows));
    FlattenMerged(Blocks(rows));
    GroupsAreFields(rows);
  }

  lemma PlaceInOrder(rows: seq<Row>, field: string, p: nat) returns (a: nat)
    requires FirstAt(rows, field, p)
    ensures a < |GroupsOf(rows).order| && GroupsOf(rows).order[a] == field
  {
    GroupsAreFields(rows);
    FieldIsEmpty(rows, field);
    assert field in GroupsOf(rows).order;
    a :| 0 <= a < |GroupsOf(rows).order| && GroupsOf(rows).order[a] == field;
  }

  /** The tables list the fields in the order of their first rows: when one field's first row stands
      before another's, all its rows do in the tables. */
  lemma FirstFieldFirst(rows: seq<Row>, f: string, g: string, p: nat, q: nat, i: nat, j: nat)
    requires FirstAt(rows, f, p) && FirstAt(rows, g, q) && p < q
    requires i < |Flatten(Chunks(rows))| && TopLevel(Flatten(Chunks(rows))[i].path) == f
    requires j < |Flatten(Chunks(rows))| && TopLevel(Flatten(Chunks(rows))[j].path) == g
    ensures i < j
  {
    ChunksAreGroups(rows);
    var a := PlaceInOrder(rows, f, p);
    var b := PlaceInOrder(rows, g, q);
    if a < b {
      BlocksInOrder(rows, GroupsOf(rows).order, a, b, i, j);
    } else if b < a {
      OrderedByFirst(rows, b, a, q, p);
    }
  }

  /** No row of another field stands between two rows of one. */
  ghost predicate Together(rows: seq<Row>) {
    forall i, k, j :: 0 <= i < k < j < |rows| && TopLevel(rows[i].path) == TopLevel(rows[j].path) ==>
      TopLevel(rows[k].path) == TopLevel(rows[i].path)
  }

  lemma TogetherBefore(rows: seq<Row>)
    requires rows != [] && Together(rows)
    ensures Together(Init(rows))
  {
    assert forall i :: 0 <= i < |rows| - 1 ==> Init(rows)[i] == rows[i];
  }

  /** The field of the last row is the last one met, or new. */
  lemma {:induction false} LastFieldLast(rows: seq<Row>)
    requires rows != [] && Together(rows)
    ensures GroupsOf(rows).order != [] && Last(GroupsOf(rows).order) == TopLevel(Last(rows).path)
  {
    var (before, top) := (GroupsOf(Init(rows)), TopLevel(Last(rows).path));
    OrderOneMore(rows);
    if top in before.held {
      GroupsAreFields(Init(rows));
      FieldIsEmpty(Init(rows), top);
      assert Init(rows) != [];
      var i :| 0 <= i < |Init(rows)| && TopLevel(Init(rows)[i].path) == top;
      assert rows[i] == Init(rows)[i] && TopLevel(Last(Init(rows)).path) == top;
      TogetherBefore(rows);
      LastFieldLast(Init(rows));
    }
  }

  /** Rows of other fields are picked as without the last row. */
  lemma {:induction false} FieldsWithoutLast(rows: seq<Row>, order: seq<string>)
    requires rows != [] && TopLevel(Last(rows).path) !in order
    ensures Fields(rows, order) == Fields(Init(rows), order)
  {
    if order != [] {
      FieldsWithoutLast(rows, Init(order));
      AddNone(Field(Init(rows), Last(order)));
    }
  }

  lemma AddNone<T>(s: seq<T>)
    ensures s + [] == s
  {}

  /** One row more of the last field, or the first row of a new one, comes last. */
  lemma OneMoreInPlace(rows: seq<Row>, front: seq<Row>, order: seq<string>, top: string, last: Row)
    requires rows != [] && front == Init(rows) && last == Last(rows) && top == TopLevel(last.path) && top !in order
    ensures Flatten(Fields(rows, order + [top])) == Flatten(Fields(front, order + [top])) + [last]
    ensures Field(front, top) == [] ==> Flatten(Fields(front, order + [top])) == Flatten(Fields(front, order))
  {
    assert Init(order + [top]) == order;
    FieldsWithoutLast(rows, order);
    FlattenLast(Fields(rows, order), Field(rows, top));
    FlattenLast(Fields(front, order), Field(front, top));
    ConcatAssociates(Flatten(Fields(front, order)), Field(front, top), [last]);
    AddNone(Flatten(Fields(front, order)));
  }

  /** Where the last row's field stands in the order, of the rows with it and without it. */
  lemma LastInOrder(rows: seq<Row>) returns (others: seq<string>)
    requires rows != [] && Together(rows)
    ensures var top := TopLevel(Last(rows).path);
      && GroupsOf(rows).order == others + [top] && top !in others
      && GroupsOf(Init(rows)).order == (if Field(Init(rows), top) == [] then others else others + [top])
  {
    var (order, top) := (GroupsOf(rows).order, TopLevel(Last(rows).path));
    GroupsAreFields(Init(rows));
    GroupsAreFields(rows);
    OrderOneMore(rows);
    LastFieldLast(rows);
    LastIsNew(order, top);
    others := Init(order);
    assert order == others + [top];
    if top !in GroupsOf(Init(rows)).held { assert others == GroupsOf(Init(rows)).order; }
  }

  lemma {:induction false} GroupsInPlace(rows: seq<Row>)
    requires Together(rows)
    ensures Flatten(Fields(rows, GroupsOf(rows).order)) == rows
  {
    if rows != [] {
      var (front, last) := (Init(rows), Last(rows));
      assert front + [last] == rows;
      TogetherBefore(rows);
      GroupsInPlace(front);
      var others := LastInOrder(rows);
      OneMoreInPlace(rows, front, others, TopLevel(last.path), last);
    }
  }

  /** Rows that stand together by field already stay where they are. */
  lemma TogetherStays(rows: seq<Row>)
    requires Together(rows)
    ensures Flatten(Chunks(rows)) == rows
  {
    ChunksAreGroups(rows);
    GroupsInPlace(rows);
  }

  lemma BlockOverLimit(rows: seq<Row>, order: seq<string>, blocks: seq<seq<seq<Row>>>, i: nat)
    requires Flatten(blocks) == Fields(rows, order) && i < |blocks| && Allowed(RowCount, MAX_TABLE_ROWS, blocks[i])
    ensures Offset(blocks, i) < |order| && |Flatten(blocks[i])| >= |Field(rows, order[Offset(blocks, i)])|
    ensures |Flatten(blocks[i])| > MAX_TABLE_ROWS ==> Flatten(blocks[i]) == Field(rows, order[Offset(blocks, i)])
  {
    ItemAt(blocks, i, 0);
    FieldsAt(rows, order);
    TotalIsLength(blocks[i]);
    FlattenHolds(blocks[i], 0);
    if |blocks[i]| == 1 { FlattenOne(blocks[i][0]); }
  }

  /** A chunk is never empty, and one over the limit is a single field's rows. */
  lemma OverfullIsOneField(rows: seq<Row>, i: nat)
    requires i < |Chunks(rows)|
    ensures Chunks(rows)[i] != []
    ensures |Chunks(rows)[i]| > MAX_TABLE_ROWS ==>
      exists field :: field in GroupsOf(rows).order && Chunks(rows)[i] == Field(rows, field)
  {
    var blocks, order := Blocks(rows), GroupsOf(rows).order;
    GreedyCuts(RowCount, MAX_TABLE_ROWS, GroupList(rows));
    MergedAt(blocks, i);
    BlockOverLimit(rows, order, blocks, i);
    GroupsAreFields(rows);
    assert order[Offset(blocks, i)] in order;
  }

  lemma {:induction false} FlattenHolds<T>(blocks: seq<seq<T>>, i: nat)
    requires i < |blocks|
    ensures |Flatten(blocks)| >= |blocks[i]|
  {
    if i < |blocks| - 1 { FlattenHolds(Init(blocks), i); }
  }

  /** No other way of cutting the groups into consecutive tables, each within the limit or a
      single group, needs fewer tables. */
  lemma FewestTables(rows: seq<Row>, blocks: seq<seq<seq<Row>>>)
    requires Cuts(RowCount, MAX_TABLE_ROWS, GroupList(rows), blocks)
    ensures |Chunks(rows)| <= |blocks|
  {
    GreedyIsFewest(RowCount, MAX_TABLE_ROWS, GroupList(rows), blocks);
  }

  lemma {:induction false} FlattenBegins<T>(blocks: seq<seq<T>>)
    requires blocks != [] && blocks[0] != []
    ensures Flatten(blocks) != [] && Flatten(blocks)[0] == blocks[0][0]
  {
    if |blocks| > 1 {
      FlattenBegins(Init(blocks));
    } else {
      FlattenOne(blocks[0]);
      assert blocks == [blocks[0]];
    }
  }

  /** A table is only begun for a field that the table before had no room for. */
  lemma NextFieldHadNoRoom(rows: seq<Row>, i: nat)
    requires i + 1 < |Chunks(rows)|
    ensures Chunks(rows)[i + 1] != []
    ensures |Chunks(rows)[i]| + |Field(rows, TopLevel(Chunks(rows)[i + 1][0].path))| > MAX_TABLE_ROWS
  {
    var blocks, order := Blocks(rows), GroupsOf(rows).order;
    GreedyIsFull(RowCount, MAX_TABLE_ROWS, GroupList(rows));
    GreedyCuts(RowCount, MAX_TABLE_ROWS, GroupList(rows));
    GroupsAreFields(rows);
    assert FullBefore(RowCount, MAX_TABLE_ROWS, blocks[i], blocks[i + 1]);
    MergedAt(blocks, i);
    MergedAt(blocks, i + 1);
    TotalIsLength(blocks[i]);
    var field := GroupAtStart(rows, blocks, i + 1);
    FlattenBegins(blocks[i + 1]);
    InField(rows, field, blocks[i + 1][0][0]);
  }

  /** The first group of a block is a field's rows, at least one of them. */
  lemma GroupAtStart(rows: seq<Row>, blocks: seq<seq<seq<Row>>>, i: nat) returns (field: string)
    requires Flatten(blocks) == GroupList(rows) && i < |blocks| && blocks[i] != []
    ensures blocks[i][0] == Field(rows, field) != []
  {
    var order := GroupsOf(rows).order;
    GroupsAreFields(rows);
    ItemAt(blocks, i, 0);
    FieldsAt(rows, order);
    field := order[Offset(blocks, i)];
    assert field in order;
  }

  // ----- pages -----

  function SectionRows(s: Section): nat { s.rows }

  method Used(group: seq<Section>) returns (sum: nat)
    ensures sum == Total(SectionRows, group)
  {
    sum := 0;
    for i := 0 to |group|
      invariant sum == Total(SectionRows, group[..i])
    {
      assert group[..i + 1] == group[..i] + [group[i]];
      TotalLast(SectionRows, group[..i], group[i]);
      sum := sum + group[i].rows;
    }
    assert group[..|group|] == group;
  }

  /** The pages hold the sections in order, none over the limit unless it is one section, and no
      other such paging has fewer pages. */
  method Pack(sections: seq<Section>) returns (groups: seq<seq<Section>>)
    ensures Cuts(SectionRows, MAX_PAGE_ROWS, sections, groups)
    ensures forall pages :: Cuts(SectionRows, MAX_PAGE_ROWS, sections, pages) ==> |groups| <= |pages|
    ensures Full(SectionRows, MAX_PAGE_ROWS, groups)
  {
    groups := [];
    for i := 0 to |sections|
      invariant groups == Greedy(SectionRows, MAX_PAGE_ROWS, sections[..i])
    {
      GreedyOneMore(SectionRows, MAX_PAGE_ROWS, sections, i);
      var used := 0;
      if groups != [] { used := Used(groups[|groups| - 1]); }
      if groups != [] && used + sections[i].rows <= MAX_PAGE_ROWS {
        groups := groups[..|groups| - 1] + [groups[|groups| - 1] + [sections[i]]];
      } else {
        groups := groups + [[sections[i]]];
      }
    }
    assert sections[..|sections|] == sections;
    GreedyCuts(SectionRows, MAX_PAGE_ROWS, sections);
    GreedyIsFull(SectionRows, MAX_PAGE_ROWS, sections);
    forall pages | Cuts(SectionRows, MAX_PAGE_ROWS, sections, pages) ensures |groups| <= |pages| {
      GreedyIsFewest(SectionRows, MAX_PAGE_ROWS, sections, pages);
    }
  }
}
