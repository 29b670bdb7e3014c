/** `packIco` and `embeddedPngs`: icon files written into a buffer and read back. */
module Ico {
  import opened InsertionMaps
  import opened Sequences

  newtype Byte = x: int | 0 <= x < 256

  // ----- little-endian numbers -----

  /** The `n` low bytes of `v`, the lowest first. */
  function LeBytes(v: nat, n: nat): (r: seq<Byte>)
    ensures |r| == n
  {
    if n == 0 then [] else [(v % 256) as Byte] + LeBytes(v / 256, n - 1)
  }

  function LeValue(bytes: seq<Byte>): nat { if bytes == [] then 0 else bytes[0] as int + 256 * LeValue(bytes[1..]) }

  function Bound(n: nat): nat { if n == 0 then 1 else 256 * Bound(n - 1) }

  /** Whatever fits into its bytes is what they stand for. */
  lemma {:induction false} LeValueOfBytes(v: nat, n: nat)
    requires v < Bound(n)
    ensures LeValue(LeBytes(v, n)) == v
  {
    if n > 0 { LeValueOfBytes(v / 256, n - 1); }
  }

  lemma Bounds()
    ensures Bound(2) == 0x1_0000 && Bound(4) == 0x1_0000_0000
  {
    assert Bound(3) == 256 * Bound(2);
  }

  lemma LowBytes(v: nat)
    ensures LeBytes(v, 2) == [(v % 256) as Byte, (v / 256 % 256) as Byte]
    ensures LeBytes(v, 4) ==
      [(v % 256) as Byte, (v / 256 % 256) as Byte, (v / 256 / 256 % 256) as Byte, (v / 256 / 256 / 256 % 256) as Byte]
  {
    var w := v / 256 / 256;
    assert LeBytes(v / 256, 1) == [(v / 256 % 256) as Byte] + LeBytes(w, 0);
    assert LeBytes(w, 2) == [(w % 256) as Byte] + LeBytes(w / 256, 1);
    assert LeBytes(w / 256, 1) == [(w / 256 % 256) as Byte] + LeBytes(w / 256 / 256, 0);
    assert LeBytes(v / 256, 3) == [(v / 256 % 256) as Byte] + LeBytes(w, 2);
  }

  // ----- the file -----

  /** One directory entry: the size twice, one plane, 32 bits, the length and the offset. */
  function Entry(size: int, length: int, offset: int): (r: seq<Byte>)
    requires 0 <= size < 256 && 0 <= length < 0x1_0000_0000 && 0 <= offset < 0x1_0000_0000
    ensures |r| == 16
  {
    [size as Byte, size as Byte, 0, 0, 1, 0, 32, 0] + LeBytes(length, 4) + LeBytes(offset, 4)
  }

  /** The image for the i-th size, empty where there is none. */
  function ImageAt(images: seq<seq<Byte>>, i: nat): seq<Byte> { if i < |images| then images[i] else [] }

  /** How long the first `i` of these images are together. */
  function Before(images: seq<seq<Byte>>, i: nat): nat {
    if i == 0 then 0 else Before(images, i - 1) + |ImageAt(images, i - 1)|
  }

  function OffsetAt(sizes: seq<int>, images: seq<seq<Byte>>, i: nat): nat {
    6 + 16 * |sizes| + Before(images, i)
  }

  /** The i-th entry can be written. */
  predicate EntryFits(sizes: seq<int>, images: seq<seq<Byte>>, i: nat)
    requires i < |sizes|
  {
    0 <= sizes[i] < 256 && |ImageAt(images, i)| < 0x1_0000_0000 && OffsetAt(sizes, images, i) < 0x1_0000_0000
  }

  function EntryOf(sizes: seq<int>, images: seq<seq<Byte>>, i: nat): (r: seq<Byte>)
    requires i < |sizes| && EntryFits(sizes, images, i)
    ensures |r| == 16
  {
    Entry(sizes[i], |ImageAt(images, i)|, OffsetAt(sizes, images, i))
  }

  predicate FirstFit(sizes: seq<int>, images: seq<seq<Byte>>, n: nat)
    requires n <= |sizes|
  {
    forall i {:trigger EntryFits(sizes, images, i)} :: 0 <= i < n ==> EntryFits(sizes, images, i)
  }

  predicate Fits(sizes: seq<int>, images: seq<seq<Byte>>) {
    |sizes| < 0x1_0000 && FirstFit(sizes, images, |sizes|)
  }

  /** The first `n` directory entries. */
  function Directory(sizes: seq<int>, images: seq<seq<Byte>>, n: nat): (r: seq<seq<Byte>>)
    requires n <= |sizes| && FirstFit(sizes, images, n)
    ensures |r| == n && Sixteens(r)
  {
    if n == 0 then [] else Directory(sizes, images, n - 1) + [EntryOf(sizes, images, n - 1)]
  }

  predicate Sixteens(chunks: seq<seq<Byte>>) { forall i :: 0 <= i < |chunks| ==> |chunks[i]| == 16 }

  function Start(n: nat): (r: seq<Byte>)
    requires n < 0x1_0000
    ensures |r| == 6
  {
    [0, 0, 1, 0] + LeBytes(n, 2)
  }

  function File(sizes: seq<int>, images: seq<seq<Byte>>): seq<Byte>
    requires Fits(sizes, images)
  {
    Start(|sizes|) + Flatten(Directory(sizes, images, |sizes|)) + Flatten(images)
  }

  // ----- reading -----

  /** Node's readers throw past the end of the buffer. */
  function ReadUInt16LE(b: seq<Byte>, at: nat): Option<nat> {
    if at + 2 <= |b| then Some(LeValue(b[at..at + 2])) else None
  }

  function ReadUInt32LE(b: seq<Byte>, at: nat): Option<nat> {
    if at + 4 <= |b| then Some(LeValue(b[at..at + 4])) else None
  }

  /** A subarray is cut off at the end of the buffer. */
  function Subarray(b: seq<Byte>, start: nat, end: nat): seq<Byte> {
    var to := if end > |b| then |b| else end;
    if start >= to then [] else b[start..to]
  }

  function EmbeddedPng(ico: seq<Byte>, index: nat): Option<seq<Byte>> {
    var entry := 6 + index * 16;
    var start, length := ReadUInt32LE(ico, entry + 12), ReadUInt32LE(ico, entry + 8);
    if start.Some? && length.Some? then Some(Subarray(ico, start.value, start.value + length.value)) else None
  }

  /** The first `n` images, if none of their entries lies past the end. */
  function FirstPngs(ico: seq<Byte>, n: nat): Option<seq<seq<Byte>>> {
    if n == 0 then Some([])
    else
      var rest, png := FirstPngs(ico, n - 1), EmbeddedPng(ico, n - 1);
      if rest.Some? && png.Some? then Some(rest.value + [png.value]) else None
  }

  function EmbeddedPngs(ico: seq<Byte>): Option<seq<seq<Byte>>> {
    var count := ReadUInt16LE(ico, 4);
    if count == None then None else FirstPngs(ico, count.value)
  }

  // ----- writing -----

  /** Node's writers throw when the value does not fit. */
  method WriteUInt8(b: array<Byte>, value: int, at: nat) returns (ok: bool)
    requires at < b.Length
    modifies b
    ensures ok <==> 0 <= value < 256
    ensures ok ==> b[..] == old(b[..])[at := value as Byte]
    ensures !ok ==> b[..] == old(b[..])
  {
    if !(0 <= value < 256) { return false; }
    b[at] := value as Byte;
    return true;
  }

  /** `bytes` in place of what stood at `at`. */
  function Overwritten(s: seq<Byte>, at: nat, bytes: seq<Byte>): (r: seq<Byte>)
    requires at + |bytes| <= |s|
    ensures |r| == |s|
  {
    s[..at] + bytes + s[at + |bytes|..]
  }

  method WriteUInt16LE(b: array<Byte>, value: int, at: nat) returns (ok: bool)
    requires at + 2 <= b.Length
    modifies b
    ensures ok <==> 0 <= value < 0x1_0000
    ensures ok ==> b[..] == Overwritten(old(b[..]), at, LeBytes(value, 2))
  {
    if !(0 <= value < 0x1_0000) { return false; }
    LowBytes(value);
    b[at] := (value % 256) as Byte;
    b[at + 1] := (value / 256) as Byte;
    return true;
  }

  method WriteUInt32LE(b: array<Byte>, value: int, at: nat) returns (ok: bool)
    requires at + 4 <= b.Length
    modifies b
    ensures ok <==> 0 <= value < 0x1_0000_0000
    ensures ok ==> b[..] == Overwritten(old(b[..]), at, LeBytes(value, 4))
  {
    if !(0 <= value < 0x1_0000_0000) { return false; }
    LowBytes(value);
    b[at] := (value % 256) as Byte;
    b[at + 1] := (value / 256 % 256) as Byte;
    b[at + 2] := (value / 256 / 256 % 256) as Byte;
    b[at + 3] := (value / 256 / 256 / 256 % 256) as Byte;
    return true;
  }

  function Zeros(n: nat): (r: seq<Byte>)
    ensures |r| == n && forall i :: 0 <= i < n ==> r[i] == 0
  {
    if n == 0 then [] else Zeros(n - 1) + [0]
  }

  /** One directory entry, over zeros. */
  method WriteEntry(b: array<Byte>, size: int, length: int, offset: int, entry: nat) returns (ok: bool)
    requires entry + 16 <= b.Length && b[entry..entry + 16] == Zeros(16)
    modifies b
    ensures ok <==> 0 <= size < 256 && 0 <= length < 0x1_0000_0000 && 0 <= offset < 0x1_0000_0000
    ensures ok ==> b[..] == Overwritten(old(b[..]), entry, Entry(size, length, offset))
  {
    ghost var was := b[..];
    assert was[entry..entry + 16] == Zeros(16);
    ok := WriteUInt8(b, size, entry);
    if !ok { return; }
    ok := WriteUInt8(b, size, entry + 1);
    ok := WriteUInt16LE(b, 1, entry + 4);
    ok := WriteUInt16LE(b, 32, entry + 6);
    ghost var half := b[..];
    HalfEntry(was, half, entry, size as Byte);
    ok := WriteUInt32LE(b, length, entry + 8);
    if !ok { return; }
    ok := WriteUInt32LE(b, offset, entry + 12);
    if ok {
      WholeEntry(was, entry, [size as Byte, size as Byte, 0, 0, 1, 0, 32, 0], LeBytes(length, 4), LeBytes(offset, 4));
    }
  }

  lemma HalfEntry(was: seq<Byte>, half: seq<Byte>, entry: nat, size: Byte)
    requires entry + 16 <= |was| && was[entry..entry + 16] == Zeros(16)
    requires half == Overwritten(Overwritten(was[entry := size][entry + 1 := size], entry + 4, LeBytes(1, 2)), entry + 6, LeBytes(32, 2))
    ensures half == Overwritten(was, entry, [size, size, 0, 0, 1, 0, 32, 0])
  {
    assert was[entry + 2] == was[entry..entry + 16][2] && was[entry + 3] == was[entry..entry + 16][3];
    LowBytes(1);
    LowBytes(32);
  }

  lemma WholeEntry(was: seq<Byte>, entry: nat, first: seq<Byte>, length: seq<Byte>, offset: seq<Byte>)
    requires entry + 16 <= |was| && |first| == 8 && |length| == |offset| == 4
    ensures Overwritten(Overwritten(Overwritten(was, entry, first), entry + 8, length), entry + 12, offset)
      == Overwritten(was, entry, first + length + offset)
  {
    var one := was[..entry] + first + was[entry + 8..];
    var two := was[..entry] + first + length + was[entry + 12..];
    assert one[..entry + 8] == was[..entry] + first && one[entry + 12..] == was[entry + 12..];
    assert Overwritten(one, entry + 8, length) == two;
    assert two[..entry + 12] == was[..entry] + first + length && two[entry + 16..] == was[entry + 16..];
    assert was[..entry] + first + length + offset == was[..entry] + (first + length + offset);
  }

  /** The header of `total` entries with the first ones written. */
  function HeaderSoFar(start: seq<Byte>, entries: seq<seq<Byte>>, total: nat): seq<Byte>
    requires |entries| <= total
  {
    start + Flatten(entries) + Zeros(16 * (total - |entries|))
  }

  lemma {:induction false} ZerosSplit(a: nat, b: nat)
    ensures Zeros(a + b) == Zeros(a) + Zeros(b)
  {
    if b > 0 { ZerosSplit(a, b - 1); }
  }

  lemma {:induction false} FlattenLength(chunks: seq<seq<Byte>>)
    requires Sixteens(chunks)
    ensures |Flatten(chunks)| == 16 * |chunks|
  {
    if chunks != [] { FlattenLength(Init(chunks)); }
  }

  lemma NextEntry(start: seq<Byte>, entries: seq<seq<Byte>>, total: nat, e: seq<Byte>)
    requires |start| == 6 && Sixteens(entries) && |entries| < total && |e| == 16
    ensures var header, at := HeaderSoFar(start, entries, total), 6 + 16 * |entries|;
      && at + 16 <= |header| && header[at..at + 16] == Zeros(16)
      && Overwritten(header, at, e) == HeaderSoFar(start, entries + [e], total)
  {
    var header, at, rest := HeaderSoFar(start, entries, total), 6 + 16 * |entries|, 16 * (total - |entries| - 1);
    FlattenLength(entries);
    FlattenLast(entries, e);
    ZerosSplit(16, rest);
    var front := start + Flatten(entries);
    assert header == front + Zeros(16) + Zeros(rest) && |front| == at;
    assert Overwritten(header, at, e) == front + e + Zeros(rest);
  }

  /** The header with the first `n` directory entries written. */
  function HeaderOf(start: seq<Byte>, sizes: seq<int>, images: seq<seq<Byte>>, n: nat): seq<Byte>
    requires n <= |sizes| && FirstFit(sizes, images, n)
  {
    HeaderSoFar(start, Directory(sizes, images, n), |sizes|)
  }

  lemma HeaderHasRoom(start: seq<Byte>, sizes: seq<int>, images: seq<seq<Byte>>, i: nat)
    requires i < |sizes| && FirstFit(sizes, images, i) && |start| == 6
    ensures var header, at := HeaderOf(start, sizes, images, i), 6 + i * 16;
      at + 16 <= |header| && header[at..at + 16] == Zeros(16)
  {
    NextEntry(start, Directory(sizes, images, i), |sizes|, Zeros(16));
  }

  lemma DirectoryGrows(sizes: seq<int>, images: seq<seq<Byte>>, i: nat)
    requires i < |sizes| && FirstFit(sizes, images, i) && EntryFits(sizes, images, i)
    ensures FirstFit(sizes, images, i + 1)
    ensures Directory(sizes, images, i + 1) == Directory(sizes, images, i) + [EntryOf(sizes, images, i)]
  {}

  lemma HeaderGrows(start: seq<Byte>, sizes: seq<int>, images: seq<seq<Byte>>, i: nat)
    requires i < |sizes| && FirstFit(sizes, images, i) && EntryFits(sizes, images, i) && |start| == 6
    ensures 6 + i * 16 + 16 <= |HeaderOf(start, sizes, images, i)| && FirstFit(sizes, images, i + 1)
    ensures Overwritten(HeaderOf(start, sizes, images, i), 6 + i * 16, EntryOf(sizes, images, i))
         == HeaderOf(start, sizes, images, i + 1)
  {
    DirectoryGrows(sizes, images, i);
    NextEntry(start, Directory(sizes, images, i), |sizes|, EntryOf(sizes, images, i));
  }

  lemma EmptyHeader(count: seq<Byte>, total: nat)
    requires |count| == 2
    ensures Overwritten(Overwritten(Zeros(6 + total * 16), 2, [1, 0]), 4, count)
      == HeaderSoFar([0, 0, 1, 0] + count, [], total)
  {
    ZerosSplit(6, 16 * total);
    var zeros := Zeros(6 + total * 16);
    assert Overwritten(zeros, 2, [1, 0]) == [0, 0, 1, 0, 0, 0] + Zeros(16 * total);
  }

  /** The header of an icon file of so many entries, all of them zeros, if the count fits. */
  method NewHeader(count: nat) returns (header: array<Byte>, ok: bool)
    ensures fresh(header) && header.Length == 6 + count * 16
    ensures ok <==> count < 0x1_0000
    ensures ok ==> header[..] == HeaderSoFar(Start(count), [], count)
  {
    header := new Byte[6 + count * 16](_ => 0);
    assert header[..] == Zeros(6 + count * 16);
    ok := WriteUInt16LE(header, 1, 2);
    ok := WriteUInt16LE(header, count, 4);
    LowBytes(1);
    EmptyHeader(LeBytes(count, 2), count);
  }

  lemma HeaderIsWhole(sizes: seq<int>, images: seq<seq<Byte>>)
    requires Fits(sizes, images)
    ensures HeaderOf(Start(|sizes|), sizes, images, |sizes|) + Flatten(images) == File(sizes, images)
  {
    assert Zeros(0) == [];
  }

  /** The file, unless something does not fit where it has to be written. */
  method PackIco(sizes: seq<int>, images: seq<seq<Byte>>) returns (r: Option<seq<Byte>>)
    ensures r.Some? <==> Fits(sizes, images)
    ensures r.Some? ==> r.value == File(sizes, images)
  {
    var header, ok := NewHeader(|sizes|);
    if !ok { return None; }
    var offset: nat := header.Length;
    for i := 0 to |sizes|
      invariant FirstFit(sizes, images, i)
      invariant offset == OffsetAt(sizes, images, i)
      invariant header[..] == HeaderOf(Start(|sizes|), sizes, images, i)
    {
      ok, offset := PackEntry(header, Start(|sizes|), sizes, images, i, offset);
      if !ok { return None; }
    }
    var all := Joined(images);
    r := Some(header[..] + all);
    HeaderIsWhole(sizes, images);
  }

  /** One entry and where the next image goes. */
  method PackEntry(header: array<Byte>, ghost start: seq<Byte>, sizes: seq<int>, images: seq<seq<Byte>>, i: nat,
                   offset: nat)
    returns (ok: bool, next: nat)
    requires i < |sizes| && FirstFit(sizes, images, i) && |start| == 6
    requires offset == OffsetAt(sizes, images, i)
    requires header[..] == HeaderOf(start, sizes, images, i)
    modifies header
    ensures ok <==> EntryFits(sizes, images, i)
    ensures ok ==> FirstFit(sizes, images, i + 1) && next == OffsetAt(sizes, images, i + 1)
    ensures ok ==> header[..] == HeaderOf(start, sizes, images, i + 1)
  {
    var image := ImageAt(images, i);
    HeaderHasRoom(start, sizes, images, i);
    next := offset + |image|;
    ok := WriteEntry(header, sizes[i], |image|, offset, 6 + i * 16);
    if ok {
      assert EntryFits(sizes, images, i) && Entry(sizes[i], |image|, offset) == EntryOf(sizes, images, i);
      HeaderGrows(start, sizes, images, i);
    }
  }

  method Joined(images: seq<seq<Byte>>) returns (all: seq<Byte>)
    ensures all == Flatten(images)
  {
    all := [];
    for i := 0 to |images|
      invariant all == Flatten(images[..i])
    {
      FlattenPrefix(images, i);
      all := all + images[i];
    }
    assert images[..|images|] == images;
  }

  // ----- what the file promises -----

  /** `bytes` stand at `at`. */
  predicate Holds(s: seq<Byte>, at: nat, bytes: seq<Byte>) { at + |bytes| <= |s| && s[at..at + |bytes|] == bytes }

  lemma HoldsIn(before: seq<Byte>, s: seq<Byte>, after: seq<Byte>, at: nat, bytes: seq<Byte>)
    requires Holds(s, at, bytes)
    ensures Holds(before + s + after, |before| + at, bytes)
  {
    var all := before + s + after;
    assert all[|before|..|before| + |s|] == s;
    assert all[|before| + at..|before| + at + |bytes|] == all[|before|..|before| + |s|][at..at + |bytes|];
  }

  lemma HoldsPart(s: seq<Byte>, at: nat, first: seq<Byte>, second: seq<Byte>)
    requires Holds(s, at, first + second)
    ensures Holds(s, at, first) && Holds(s, at + |first|, second)
  {
    var both := s[at..at + |first + second|];
    assert s[at..at + |first|] == both[..|first|];
    assert s[at + |first|..at + |first| + |second|] == both[|first|..];
  }

  /** A block stands where the blocks before it end. */
  lemma {:induction false} BlockIsThere(blocks: seq<seq<Byte>>, i: nat)
    requires i < |blocks|
    ensures Holds(Flatten(blocks), |Flatten(blocks[..i])|, blocks[i])
  {
    var (rest, last) := (Flatten(Init(blocks)), Last(blocks));
    if i < |blocks| - 1 {
      BlockIsThere(Init(blocks), i);
      assert Init(blocks)[..i] == blocks[..i];
      HoldsIn([], rest, last, |Flatten(blocks[..i])|, blocks[i]);
    } else {
      HoldsIn(rest, last, [], 0, last);
      assert rest + last + [] == Flatten(blocks);
    }
    assert [] + rest + last == Flatten(blocks);
  }

  lemma ChunkIsThere(chunks: seq<seq<Byte>>, i: nat)
    requires Sixteens(chunks) && i < |chunks|
    ensures Holds(Flatten(chunks), 16 * i, chunks[i])
  {
    FlattenLength(chunks[..i]);
    BlockIsThere(chunks, i);
  }

  lemma {:induction false} DirectoryAt(sizes: seq<int>, images: seq<seq<Byte>>, n: nat, i: nat)
    requires i < n <= |sizes| && FirstFit(sizes, images, n)
    ensures EntryFits(sizes, images, i) && Directory(sizes, images, n)[i] == EntryOf(sizes, images, i)
  {
    if i < n - 1 { DirectoryAt(sizes, images, n - 1, i); }
  }

  lemma ReadsBack(s: seq<Byte>, at: nat, v: nat)
    requires v < 0x1_0000_0000 && Holds(s, at, LeBytes(v, 4))
    ensures ReadUInt32LE(s, at) == Some(v)
  {
    Bounds();
    LeValueOfBytes(v, 4);
  }

  /** The bytes of a directory entry before its length. */
  lemma ReadsKind(f: seq<Byte>, entry: nat, size: Byte, length: nat, offset: nat)
    requires length < 0x1_0000_0000 && offset < 0x1_0000_0000 && Holds(f, entry, Entry(size as int, length, offset))
    ensures entry + 16 <= |f| && f[entry] == f[entry + 1] == size && f[entry + 2] == f[entry + 3] == 0
    ensures ReadUInt16LE(f, entry + 4) == Some(1) && ReadUInt16LE(f, entry + 6) == Some(32)
  {
    var first := [size, size, 0, 0, 1, 0, 32, 0];
    var rest := LeBytes(length, 4) + LeBytes(offset, 4);
    assert Entry(size as int, length, offset) == first + rest;
    HoldsPart(f, entry, first, rest);
    var here := f[entry..entry + 8];
    assert forall k :: 0 <= k < 8 ==> here[k] == f[entry + k];
    assert here[0] == f[entry] && here[1] == f[entry + 1] && here[2] == f[entry + 2] && here[3] == f[entry + 3];
    assert here[4] == f[entry + 4] && here[5] == f[entry + 5] && here[6] == f[entry + 6] && here[7] == f[entry + 7];
    PairStands(f, entry + 4, 1);
    PairStands(f, entry + 6, 32);
  }

  /** A small number and a zero byte are read as that number. */
  lemma PairStands(f: seq<Byte>, at: nat, v: Byte)
    requires at + 2 <= |f| && f[at] == v && f[at + 1] == 0
    ensures ReadUInt16LE(f, at) == Some(v as int)
  {
    assert f[at..at + 2] == [v, 0];
    TwoBytes(v);
  }

  lemma TwoBytes(v: Byte)
    ensures LeValue([v, 0]) == v as int
  {
    assert [v, 0][1..] == [0] && [0][1..] == [];
    assert LeValue([0]) == 0 + 256 * LeValue([]);
  }

  /** The header says that this is an icon file of so many images. */
  lemma RecordedHeader(sizes: seq<int>, images: seq<seq<Byte>>)
    requires Fits(sizes, images)
    ensures var f := File(sizes, images);
      ReadUInt16LE(f, 0) == Some(0) && ReadUInt16LE(f, 2) == Some(1) && ReadUInt16LE(f, 4) == Some(|sizes|)
  {
    var f := File(sizes, images);
    StartStands(|sizes|, Flatten(Directory(sizes, images, |sizes|)) + Flatten(images));
    assert f == Start(|sizes|) + (Flatten(Directory(sizes, images, |sizes|)) + Flatten(images));
    TwoBytes(0);
    TwoBytes(1);
    Bounds();
    LeValueOfBytes(|sizes|, 2);
  }

  lemma StartStands(n: nat, rest: seq<Byte>)
    requires n < 0x1_0000
    ensures var f := Start(n) + rest; f[0..2] == [0, 0] && f[2..4] == [1, 0] && f[4..6] == LeBytes(n, 2)
  {}

  /** Each directory entry says the size of its image twice, no palette, one plane and 32 bits. */
  lemma RecordedKind(sizes: seq<int>, images: seq<seq<Byte>>, i: nat)
    requires Fits(sizes, images) && i < |sizes|
    ensures var (f, entry) := (File(sizes, images), 6 + i * 16);
      && entry + 16 <= |f| && f[entry] as int == f[entry + 1] as int == sizes[i] && f[entry + 2] == f[entry + 3] == 0
      && ReadUInt16LE(f, entry + 4) == Some(1) && ReadUInt16LE(f, entry + 6) == Some(32)
  {
    EntryStands(sizes, images, i);
    ReadsKind(File(sizes, images), 6 + i * 16, sizes[i] as Byte, |ImageAt(images, i)|, OffsetAt(sizes, images, i));
  }

  lemma EntryStands(sizes: seq<int>, images: seq<seq<Byte>>, i: nat)
    requires Fits(sizes, images) && i < |sizes|
    ensures EntryFits(sizes, images, i) && Holds(File(sizes, images), 6 + i * 16, EntryOf(sizes, images, i))
  {
    var entries := Directory(sizes, images, |sizes|);
    DirectoryAt(sizes, images, |sizes|, i);
    ChunkIsThere(entries, i);
    HoldsIn(Start(|sizes|), Flatten(entries), Flatten(images), 16 * i, entries[i]);
  }

  /** The recorded range of the i-th image. */
  lemma RecordedRange(sizes: seq<int>, images: seq<seq<Byte>>, i: nat)
    requires Fits(sizes, images) && i < |sizes|
    ensures var entry := 6 + i * 16;
      && ReadUInt32LE(File(sizes, images), entry + 8) == Some(|ImageAt(images, i)|)
      && ReadUInt32LE(File(sizes, images), entry + 12) == Some(OffsetAt(sizes, images, i))
  {
    EntryStands(sizes, images, i);
    ReadsEntry(File(sizes, images), 6 + i * 16, sizes[i] as Byte, |ImageAt(images, i)|,
               OffsetAt(sizes, images, i));
  }

  lemma ReadsEntry(f: seq<Byte>, entry: nat, size: Byte, length: nat, offset: nat)
    requires length < 0x1_0000_0000 && offset < 0x1_0000_0000 && Holds(f, entry, Entry(size as int, length, offset))
    ensures ReadUInt32LE(f, entry + 8) == Some(length) && ReadUInt32LE(f, entry + 12) == Some(offset)
  {
    var first := [size, size, 0, 0, 1, 0, 32, 0];
    assert Entry(size as int, length, offset) == first + (LeBytes(length, 4) + LeBytes(offset, 4));
    HoldsPart(f, entry, first, LeBytes(length, 4) + LeBytes(offset, 4));
    HoldsPart(f, entry + 8, LeBytes(length, 4), LeBytes(offset, 4));
    ReadsBack(f, entry + 8, length);
    ReadsBack(f, entry + 12, offset);
  }

  /** Image `i` is where its range says. */
  lemma ImageIsThere(images: seq<seq<Byte>>, i: nat)
    requires i < |images|
    ensures Holds(Flatten(images), Before(images, i), images[i])
  {
    BeforeIs(images, i);
    BlockIsThere(images, i);
  }

  lemma {:induction false} BeforeIs(images: seq<seq<Byte>>, i: nat)
    requires i <= |images|
    ensures Before(images, i) == |Flatten(images[..i])|
  {
    if i > 0 {
      BeforeIs(images, i - 1);
      FlattenPrefix(images, i - 1);
    }
  }

  lemma FlattenPrefix(images: seq<seq<Byte>>, i: nat)
    requires i < |images|
    ensures Flatten(images[..i + 1]) == Flatten(images[..i]) + images[i]
  {
    assert images[..i + 1] == images[..i] + [images[i]];
    FlattenLast(images[..i], images[i]);
  }

  lemma {:induction false} BeforeAll(images: seq<seq<Byte>>, n: nat)
    requires |images| <= n
    ensures Before(images, n) == |Flatten(images)|
  {
    if n > |images| {
      BeforeAll(images, n - 1);
    } else {
      BeforeIs(images, n);
      assert images[..n] == images;
    }
  }

  /** The ranges tile the file: the first begins after the header, each begins where the one
      before it ends, and the last ends with the file. */
  lemma RangesTile(sizes: seq<int>, images: seq<seq<Byte>>)
    requires Fits(sizes, images) && |images| <= |sizes|
    ensures OffsetAt(sizes, images, 0) == 6 + 16 * |sizes|
    ensures forall i :: 0 <= i < |sizes| ==>
      OffsetAt(sizes, images, i) + |ImageAt(images, i)| == OffsetAt(sizes, images, i + 1)
    ensures OffsetAt(sizes, images, |sizes|) == |File(sizes, images)|
  {
    BeforeAll(images, |sizes|);
    FlattenLength(Directory(sizes, images, |sizes|));
  }

  lemma ImageInFile(header: seq<Byte>, images: seq<seq<Byte>>, i: nat)
    requires i < |images|
    ensures Holds(header + Flatten(images), |header| + Before(images, i), images[i])
  {
    ImageIsThere(images, i);
    HoldsIn(header, Flatten(images), [], Before(images, i), images[i]);
    assert header + Flatten(images) + [] == header + Flatten(images);
  }

  lemma PngIsImage(sizes: seq<int>, images: seq<seq<Byte>>, i: nat)
    requires Fits(sizes, images) && i < |sizes|
    ensures EmbeddedPng(File(sizes, images), i) == Some(ImageAt(images, i))
  {
    RecordedRange(sizes, images, i);
    var entries := Directory(sizes, images, |sizes|);
    FlattenLength(entries);
    if i < |images| { ImageInFile(Start(|sizes|) + Flatten(entries), images, i); }
    PngAt(File(sizes, images), i, OffsetAt(sizes, images, i), ImageAt(images, i));
  }

  lemma PngAt(f: seq<Byte>, i: nat, start: nat, image: seq<Byte>)
    requires ReadUInt32LE(f, 6 + i * 16 + 8) == Some(|image|) && ReadUInt32LE(f, 6 + i * 16 + 12) == Some(start)
    requires image == [] || Holds(f, start, image)
    ensures EmbeddedPng(f, i) == Some(image)
  {
    SubarrayHolds(f, start, image);
  }

  lemma SubarrayHolds(s: seq<Byte>, at: nat, bytes: seq<Byte>)
    requires bytes == [] || Holds(s, at, bytes)
    ensures Subarray(s, at, at + |bytes|) == bytes
  {}

  function Images(images: seq<seq<Byte>>, n: nat): seq<seq<Byte>> {
    if n == 0 then [] else Images(images, n - 1) + [ImageAt(images, n - 1)]
  }

  lemma {:induction false} FirstPngsAreImages(f: seq<Byte>, images: seq<seq<Byte>>, n: nat)
    requires forall i {:trigger EmbeddedPng(f, i)} :: 0 <= i < n ==> EmbeddedPng(f, i) == Some(ImageAt(images, i))
    ensures FirstPngs(f, n) == Some(Images(images, n))
  {
    if n > 0 { FirstPngsAreImages(f, images, n - 1); }
  }

  lemma {:induction false} ImagesPrefix(images: seq<seq<Byte>>, n: nat)
    requires n <= |images|
    ensures Images(images, n) == images[..n]
  {
    if n > 0 { ImagesPrefix(images, n - 1); }
  }

  /** What was packed is what is found: the image of each size, empty where there was none. */
  lemma RoundTrip(sizes: seq<int>, images: seq<seq<Byte>>)
    requires Fits(sizes, images)
    ensures EmbeddedPngs(File(sizes, images)) == Some(Images(images, |sizes|))
    ensures |sizes| == |images| ==> EmbeddedPngs(File(sizes, images)) == Some(images)
  {
    var f := File(sizes, images);
    assert f[4..6] == LeBytes(|sizes|, 2);
    Bounds();
    LeValueOfBytes(|sizes|, 2);
    forall i | 0 <= i < |sizes| ensures EmbeddedPng(f, i) == Some(ImageAt(images, i)) {
      PngIsImage(sizes, images, i);
    }
    FirstPngsAreImages(f, images, |sizes|);
    if |sizes| == |images| {
      ImagesPrefix(images, |sizes|);
      assert images[..|images|] == images;
    }
  }

  lemma {:induction false} BeforeGrows(images: seq<seq<Byte>>, i: nat, n: nat)
    requires i <= n
    ensures Before(images, i) <= Before(images, n)
    ensures i < n ==> Before(images, i) + |ImageAt(images, i)| <= Before(images, n)
  {
    if i < n { BeforeGrows(images, i, n - 1); }
  }

  /** Packing succeeds whenever the sizes are bytes, there are few enough of them and the whole
      file stays below four gigabytes. */
  lemma SmallEnoughFits(sizes: seq<int>, images: seq<seq<Byte>>)
    requires |sizes| < 0x1_0000 && forall i :: 0 <= i < |sizes| ==> 0 <= sizes[i] < 256
    requires OffsetAt(sizes, images, |sizes|) < 0x1_0000_0000
    ensures Fits(sizes, images)
  {
    forall i | 0 <= i < |sizes| ensures EntryFits(sizes, images, i) {
      BeforeGrows(images, i, |sizes|);
    }
  }
}
