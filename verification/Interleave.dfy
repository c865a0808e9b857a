/** Splitting data codewords into blocks, interleaving them column by column with
    their check bytes, and the reader that puts the blocks back together. */
module Interleave {
  import opened Gf256
  import opened ReedSolomon

  /** Two groups of blocks, each group with its own block size. */
  datatype BlockLayout = BlockLayout(ecPerBlock: nat, g1Blocks: nat, g1Data: nat, g2Blocks: nat, g2Data: nat)

  function DataCodewords(layout: BlockLayout): nat {
    layout.g1Blocks * layout.g1Data + layout.g2Blocks * layout.g2Data
  }

  function BlockCount(layout: BlockLayout): nat {
    layout.g1Blocks + layout.g2Blocks
  }

  function Sizes(layout: BlockLayout): (sizes: seq<nat>)
    ensures |sizes| == BlockCount(layout)
  {
    seq(layout.g1Blocks, _ => layout.g1Data) + seq(layout.g2Blocks, _ => layout.g2Data)
  }

  function Max(a: nat, b: nat): nat {
    if a < b then b else a
  }

  // A group size of zero stands for an absent second group.
  function MaxData(layout: BlockLayout): nat {
    Max(layout.g1Data, if layout.g2Data == 0 then layout.g1Data else layout.g2Data)
  }

  function Sum(sizes: seq<nat>): nat {
    if sizes == [] then 0 else Sum(sizes[..|sizes| - 1]) + sizes[|sizes| - 1]
  }

  lemma {:induction false} SumOfConstant(count: nat, size: nat)
    ensures Sum(seq(count, _ => size)) == count * size
  {
    if count > 0 {
      var all := seq(count, _ => size);
      assert all[..count - 1] == seq(count - 1, _ => size);
      SumOfConstant(count - 1, size);
      assert count * size == (count - 1) * size + size;
    }
  }

  lemma {:induction false} SumConcat(a: seq<nat>, b: seq<nat>)
    ensures Sum(a + b) == Sum(a) + Sum(b)
  {
    if b == [] {
      assert a + b == a;
    } else {
      var k := |b| - 1;
      assert (a + b)[..|a| + k] == a + b[..k];
      SumConcat(a, b[..k]);
    }
  }

  lemma SumOfSizes(layout: BlockLayout)
    ensures Sum(Sizes(layout)) == DataCodewords(layout)
  {
    var g1, g2 := seq(layout.g1Blocks, _ => layout.g1Data), seq(layout.g2Blocks, _ => layout.g2Data);
    SumConcat(g1, g2);
    SumOfConstant(layout.g1Blocks, layout.g1Data);
    SumOfConstant(layout.g2Blocks, layout.g2Data);
  }

  lemma {:induction false} SumPrefix(sizes: seq<nat>, k: nat)
    requires k <= |sizes|
    ensures Sum(sizes[..k]) <= Sum(sizes)
    decreases |sizes| - k
  {
    if k < |sizes| {
      SumPrefix(sizes, k + 1);
      assert sizes[..k + 1][..k] == sizes[..k];
    } else {
      assert sizes[..k] == sizes;
    }
  }

  // ---------------------------------------------------------------------------
  // Rows: the blocks, cut from the data one after the other

  function Split(data: seq<bv8>, sizes: seq<nat>): (rows: seq<seq<bv8>>)
    requires Sum(sizes) == |data|
    ensures |rows| == |sizes| && forall b :: 0 <= b < |rows| ==> |rows[b]| == sizes[b]
    decreases |sizes|
  {
    if sizes == [] then []
    else
      var k := |sizes| - 1;
      Split(data[..Sum(sizes[..k])], sizes[..k]) + [data[Sum(sizes[..k])..]]
  }

  function Join(rows: seq<seq<bv8>>): seq<bv8> {
    if rows == [] then [] else Join(rows[..|rows| - 1]) + rows[|rows| - 1]
  }

  lemma {:induction false} JoinSplit(data: seq<bv8>, sizes: seq<nat>)
    requires Sum(sizes) == |data|
    ensures Join(Split(data, sizes)) == data
    decreases |sizes|
  {
    if sizes != [] {
      var k := |sizes| - 1;
      JoinSplit(data[..Sum(sizes[..k])], sizes[..k]);
      assert Split(data, sizes)[..k] == Split(data[..Sum(sizes[..k])], sizes[..k]);
    }
  }

  lemma SumNext(sizes: seq<nat>, k: nat)
    requires k < |sizes|
    ensures Sum(sizes[..k + 1]) == Sum(sizes[..k]) + sizes[k] <= Sum(sizes)
  {
    SumPrefix(sizes, k + 1);
    assert sizes[..k + 1][..k] == sizes[..k];
  }

  // The first k blocks do not depend on what follows them.
  lemma SplitNext(data: seq<bv8>, sizes: seq<nat>, k: nat)
    requires Sum(sizes) == |data| && k < |sizes|
    requires Sum(sizes[..k + 1]) == Sum(sizes[..k]) + sizes[k] <= |data|
    ensures Split(data[..Sum(sizes[..k + 1])], sizes[..k + 1])
         == Split(data[..Sum(sizes[..k])], sizes[..k]) + [data[Sum(sizes[..k])..Sum(sizes[..k + 1])]]
  {
    var front, upTo := data[..Sum(sizes[..k + 1])], sizes[..k + 1];
    assert upTo[..k] == sizes[..k];
    assert front[..Sum(sizes[..k])] == data[..Sum(sizes[..k])];
    assert front[Sum(sizes[..k])..] == data[Sum(sizes[..k])..Sum(sizes[..k + 1])];
    SplitSnoc(front, upTo);
  }

  lemma SplitSnoc(data: seq<bv8>, sizes: seq<nat>)
    requires Sum(sizes) == |data| && sizes != []
    ensures var k := |sizes| - 1;
      Sum(sizes[..k]) <= |data|
      && Split(data, sizes) == Split(data[..Sum(sizes[..k])], sizes[..k]) + [data[Sum(sizes[..k])..]]
  {}

  // ---------------------------------------------------------------------------
  // Columns: entry `index` of every row that is long enough

  function Column(rows: seq<seq<bv8>>, index: nat): seq<bv8> {
    if rows == [] then []
    else
      var last := rows[|rows| - 1];
      Column(rows[..|rows| - 1], index) + (if index < |last| then [last[index]] else [])
  }

  function Columns(rows: seq<seq<bv8>>, count: nat): seq<bv8> {
    if count == 0 then [] else Columns(rows, count - 1) + Column(rows, count - 1)
  }

  /** How many of the sizes reach past index. */
  function Reaching(sizes: seq<nat>, index: nat): nat {
    if sizes == [] then 0
    else Reaching(sizes[..|sizes| - 1], index) + (if index < sizes[|sizes| - 1] then 1 else 0)
  }

  /** How many entries the first count columns hold. */
  function Before(sizes: seq<nat>, count: nat): nat {
    if count == 0 then 0 else Before(sizes, count - 1) + Reaching(sizes, count - 1)
  }

  ghost predicate HasSizes(rows: seq<seq<bv8>>, sizes: seq<nat>) {
    |rows| == |sizes| && forall b :: 0 <= b < |rows| ==> |rows[b]| == sizes[b]
  }

  lemma {:induction false} ColumnLength(rows: seq<seq<bv8>>, sizes: seq<nat>, index: nat)
    requires HasSizes(rows, sizes)
    ensures |Column(rows, index)| == Reaching(sizes, index)
  {
    if rows != [] {
      var k := |rows| - 1;
      ColumnLength(rows[..k], sizes[..k], index);
    }
  }

  lemma {:induction false} ColumnEntry(rows: seq<seq<bv8>>, sizes: seq<nat>, index: nat, b: nat)
    requires HasSizes(rows, sizes) && b < |rows| && index < sizes[b]
    ensures Reaching(sizes[..b], index) < |Column(rows, index)|
    ensures Column(rows, index)[Reaching(sizes[..b], index)] == rows[b][index]
    decreases |rows|
  {
    var k := |rows| - 1;
    if b < k {
      ColumnEntry(rows[..k], sizes[..k], index, b);
      assert sizes[..k][..b] == sizes[..b];
    } else {
      ColumnLength(rows[..k], sizes[..k], index);
    }
  }

  lemma {:induction false} ColumnsLength(rows: seq<seq<bv8>>, sizes: seq<nat>, count: nat)
    requires HasSizes(rows, sizes)
    ensures |Columns(rows, count)| == Before(sizes, count)
  {
    hide Column, Reaching;
    if count > 0 {
      ColumnsLength(rows, sizes, count - 1);
      ColumnLength(rows, sizes, count - 1);
    }
  }

  lemma {:induction false} ColumnsEntry(rows: seq<seq<bv8>>, sizes: seq<nat>, count: nat, b: nat, index: nat)
    requires HasSizes(rows, sizes) && b < |rows| && index < sizes[b] && index < count
    ensures Before(sizes, index) + Reaching(sizes[..b], index) < |Columns(rows, count)|
    ensures Columns(rows, count)[Before(sizes, index) + Reaching(sizes[..b], index)] == rows[b][index]
    decreases count
  {
    hide Column, Reaching;
    if index < count - 1 {
      ColumnsEntry(rows, sizes, count - 1, b, index);
    } else {
      ColumnsLength(rows, sizes, index);
      ColumnEntry(rows, sizes, index, b);
    }
  }

  // ---------------------------------------------------------------------------
  // The reader

  /** Block b read from a stream of columns: entry i is behind the i earlier columns
      and the longer blocks before b. Missing entries read as zero. */
  function ReadRow(stream: seq<bv8>, sizes: seq<nat>, b: nat): (row: seq<bv8>)
    requires b < |sizes|
    ensures |row| == sizes[b]
  {
    seq(sizes[b], i requires 0 <= i < sizes[b] =>
      var position := Before(sizes, i) + Reaching(sizes[..b], i);
      if position < |stream| then stream[position] else 0)
  }

  function ReadRows(stream: seq<bv8>, sizes: seq<nat>): (rows: seq<seq<bv8>>)
    ensures |rows| == |sizes|
  {
    seq(|sizes|, b requires 0 <= b < |sizes| => ReadRow(stream, sizes, b))
  }

  /** Reading a stream of columns, whatever follows it, gives back the rows. */
  lemma RowsReadBack(rows: seq<seq<bv8>>, sizes: seq<nat>, count: nat, rest: seq<bv8>)
    requires HasSizes(rows, sizes) && forall b :: 0 <= b < |sizes| ==> sizes[b] <= count
    ensures ReadRows(Columns(rows, count) + rest, sizes) == rows
  {
    var stream := Columns(rows, count) + rest;
    forall b | 0 <= b < |sizes|
      ensures ReadRow(stream, sizes, b) == rows[b]
    {
      forall i | 0 <= i < sizes[b]
        ensures ReadRow(stream, sizes, b)[i] == rows[b][i]
      {
        ColumnsEntry(rows, sizes, count, b, i);
      }
    }
  }

  // ---------------------------------------------------------------------------
  // The columns are a permutation of the rows

  function Truncate(rows: seq<seq<bv8>>, count: nat): (short: seq<seq<bv8>>)
    ensures |short| == |rows|
  {
    seq(|rows|, b requires 0 <= b < |rows| => Prefix(rows[b], count))
  }

  function Prefix(row: seq<bv8>, count: nat): seq<bv8> {
    if count < |row| then row[..count] else row
  }

  function Entry(row: seq<bv8>, index: nat): seq<bv8> {
    if index < |row| then [row[index]] else []
  }

  lemma PrefixOneMore(row: seq<bv8>, count: nat)
    ensures Prefix(row, count + 1) == Prefix(row, count) + Entry(row, count)
  {}

  lemma JoinSnoc(rows: seq<seq<bv8>>, row: seq<bv8>)
    ensures Join(rows + [row]) == Join(rows) + row
  {
    assert (rows + [row])[..|rows|] == rows;
  }

  lemma TruncateSnoc(rows: seq<seq<bv8>>, row: seq<bv8>, count: nat)
    ensures Truncate(rows + [row], count) == Truncate(rows, count) + [Prefix(row, count)]
  {}

  lemma ColumnSnoc(rows: seq<seq<bv8>>, row: seq<bv8>, index: nat)
    ensures Column(rows + [row], index) == Column(rows, index) + Entry(row, index)
  {
    assert (rows + [row])[..|rows|] == rows;
  }

  lemma {:induction false} TruncateOneMore(rows: seq<seq<bv8>>, count: nat)
    ensures multiset(Join(Truncate(rows, count + 1)))
         == multiset(Join(Truncate(rows, count))) + multiset(Column(rows, count))
  {
    hide Prefix, Entry;
    if rows != [] {
      hide Truncate, Join, Column;
      var front, row := rows[..|rows| - 1], rows[|rows| - 1];
      assert rows == front + [row];
      TruncateOneMore(front, count);
      TruncateSnoc(front, row, count);
      TruncateSnoc(front, row, count + 1);
      JoinSnoc(Truncate(front, count), Prefix(row, count));
      JoinSnoc(Truncate(front, count + 1), Prefix(row, count + 1));
      PrefixOneMore(row, count);
      ColumnSnoc(front, row, count);
    }
  }

  lemma {:induction false} TruncateToNothing(rows: seq<seq<bv8>>)
    ensures Join(Truncate(rows, 0)) == []
  {
    if rows != [] {
      var k := |rows| - 1;
      TruncateToNothing(rows[..k]);
      assert Truncate(rows, 0)[..k] == Truncate(rows[..k], 0);
    }
  }

  lemma {:induction false} ColumnsPermute(rows: seq<seq<bv8>>, count: nat)
    ensures multiset(Columns(rows, count)) == multiset(Join(Truncate(rows, count)))
  {
    hide Truncate, Join, Column;
    if count == 0 {
      TruncateToNothing(rows);
    } else {
      ColumnsPermute(rows, count - 1);
      TruncateOneMore(rows, count - 1);
    }
  }

  // ---------------------------------------------------------------------------
  // The interleaved codeword sequence

  ghost function CheckRows(rows: seq<seq<bv8>>, ecPerBlock: nat): (checks: seq<seq<bv8>>)
    requires ecPerBlock >= 1
    ensures |checks| == |rows| && forall b :: 0 <= b < |rows| ==> |checks[b]| == ecPerBlock
  {
    seq(|rows|, b requires 0 <= b < |rows| => CheckBytes(rows[b], Generator(ecPerBlock)[1..]))
  }

  ghost function Interleaved(data: seq<bv8>, layout: BlockLayout): seq<bv8>
    requires |data| == DataCodewords(layout) && layout.ecPerBlock >= 1
  {
    SumOfSizes(layout);
    var rows := Split(data, Sizes(layout));
    Columns(rows, MaxData(layout)) + Columns(CheckRows(rows, layout.ecPerBlock), layout.ecPerBlock)
  }

  lemma SizesAreBounded(layout: BlockLayout)
    ensures forall b :: 0 <= b < BlockCount(layout) ==> Sizes(layout)[b] <= MaxData(layout)
  {}

  lemma DataPartLength(data: seq<bv8>, layout: BlockLayout)
    requires |data| == DataCodewords(layout)
    ensures Sum(Sizes(layout)) == |data|
    ensures |Columns(Split(data, Sizes(layout)), MaxData(layout))| == |data|
    ensures multiset(Columns(Split(data, Sizes(layout)), MaxData(layout))) == multiset(data)
  {
    hide Columns, Split;
    SumOfSizes(layout);
    SizesAreBounded(layout);
    var rows := Split(data, Sizes(layout));
    var part := Columns(rows, MaxData(layout));
    ColumnsPermute(rows, MaxData(layout));
    assert Truncate(rows, MaxData(layout)) == rows;
    JoinSplit(data, Sizes(layout));
    assert |part| == |multiset(part)| == |multiset(data)| == |data|;
  }

  /** The data part is a permutation of the data codewords. */
  lemma DataPartPermutes(data: seq<bv8>, layout: BlockLayout)
    requires |data| == DataCodewords(layout) && layout.ecPerBlock >= 1
    ensures |Interleaved(data, layout)| >= |data|
    ensures multiset(Interleaved(data, layout)[..|data|]) == multiset(data)
  {
    hide Columns, Split, MaxData, Sizes;
    DataPartLength(data, layout);
    var part := Columns(Split(data, Sizes(layout)), MaxData(layout));
    assert Interleaved(data, layout)[..|data|] == part;
  }

  lemma {:induction false} ReachingAll(count: nat, size: nat, index: nat)
    requires index < size
    ensures Reaching(seq(count, _ => size), index) == count
  {
    if count > 0 {
      assert seq(count, _ => size)[..count - 1] == seq(count - 1, _ => size);
      ReachingAll(count - 1, size, index);
    }
  }

  lemma {:induction false} BeforeAll(count: nat, size: nat, columns: nat)
    requires columns <= size
    ensures Before(seq(count, _ => size), columns) == count * columns
  {
    if columns > 0 {
      BeforeAll(count, size, columns - 1);
      ReachingAll(count, size, columns - 1);
      assert count * columns == count * (columns - 1) + count;
    }
  }

  /** As long as the data codewords plus the check bytes of every block. */
  lemma InterleavedLength(data: seq<bv8>, layout: BlockLayout)
    requires |data| == DataCodewords(layout) && layout.ecPerBlock >= 1
    ensures |Interleaved(data, layout)| == DataCodewords(layout) + BlockCount(layout) * layout.ecPerBlock
  {
    hide Columns, Split, MaxData, DataCodewords, Before;
    DataPartLength(data, layout);
    var rows := Split(data, Sizes(layout));
    var n := BlockCount(layout);
    ColumnsLength(CheckRows(rows, layout.ecPerBlock), seq(n, _ => layout.ecPerBlock), layout.ecPerBlock);
    BeforeAll(n, layout.ecPerBlock, layout.ecPerBlock);
  }

  /** A receiver that reads the data part block by block gets the data codewords
      back, and reading what follows gives the check bytes of every block. */
  lemma InterleavedReadsBack(data: seq<bv8>, layout: BlockLayout, rest: seq<bv8>)
    requires |data| == DataCodewords(layout) && layout.ecPerBlock >= 1
    ensures |Interleaved(data, layout)| >= |data|
    ensures Join(ReadRows(Interleaved(data, layout) + rest, Sizes(layout))) == data
    ensures ReadRows(Interleaved(data, layout)[|data|..] + rest, seq(BlockCount(layout), _ => layout.ecPerBlock))
         == CheckRows(ReadRows(Interleaved(data, layout) + rest, Sizes(layout)), layout.ecPerBlock)
  {
    hide Columns, Split, ReadRows, Join, DataCodewords, CheckBytes, Generator;
    DataPartLength(data, layout);
    SizesAreBounded(layout);
    var sizes := Sizes(layout);
    var rows := Split(data, sizes);
    var checks := CheckRows(rows, layout.ecPerBlock);
    var part := Columns(rows, MaxData(layout));
    var tail := Columns(checks, layout.ecPerBlock);
    RowsReadBack(rows, sizes, MaxData(layout), tail + rest);
    assert part + (tail + rest) == Interleaved(data, layout) + rest;
    JoinSplit(data, sizes);
    assert Interleaved(data, layout)[|data|..] == tail;
    RowsReadBack(checks, seq(BlockCount(layout), _ => layout.ecPerBlock), layout.ecPerBlock, rest);
  }

  // ---------------------------------------------------------------------------
  // The loops of the encoder

  datatype Block = Block(data: seq<bv8>, ecc: seq<bv8>)

  function DataRows(blocks: seq<Block>): (rows: seq<seq<bv8>>)
    ensures |rows| == |blocks|
  {
    seq(|blocks|, b requires 0 <= b < |blocks| => blocks[b].data)
  }

  function EccRows(blocks: seq<Block>): (rows: seq<seq<bv8>>)
    ensures |rows| == |blocks|
  {
    seq(|blocks|, b requires 0 <= b < |blocks| => blocks[b].ecc)
  }

  method CutBlocks(t: Tables, data: seq<bv8>, layout: BlockLayout) returns (blocks: seq<Block>)
    requires IsFieldTables(t) && |data| == DataCodewords(layout) && 1 <= layout.ecPerBlock <= 512
    ensures Sum(Sizes(layout)) == |data|
    ensures DataRows(blocks) == Split(data, Sizes(layout))
    ensures EccRows(blocks) == CheckRows(DataRows(blocks), layout.ecPerBlock)
  {
    hide CheckBytes, Generator, Split, IsFieldTables, DataCodewords, Sizes;
    SumOfSizes(layout);
    var sizes := Sizes(layout);
    blocks := [];
    var offset := 0;
    SplitEmpty(data);
    for k := 0 to |sizes|
      invariant offset == Sum(sizes[..k]) <= |data|
      invariant |blocks| == k
      invariant DataRows(blocks) == Split(data[..offset], sizes[..k])
      invariant forall b :: 0 <= b < k ==> blocks[b].ecc == CheckBytes(blocks[b].data, Generator(layout.ecPerBlock)[1..])
    {
      SumNext(sizes, k);
      SplitNext(data, sizes, k);
      var block := data[offset..offset + sizes[k]];
      offset := offset + sizes[k];
      var ecc := CheckBytesOf(t, block, layout.ecPerBlock);
      ghost var earlier := blocks;
      blocks := blocks + [Block(block, ecc)];
      assert DataRows(blocks) == DataRows(earlier) + [block];
    }
    assert sizes[..|sizes|] == sizes && data[..|data|] == data;
  }

  lemma SplitEmpty(data: seq<bv8>)
    ensures Split(data[..0], []) == []
  {}

  lemma ColumnNext(rows: seq<seq<bv8>>, k: nat, index: nat)
    requires k < |rows|
    ensures Column(rows[..k + 1], index)
         == Column(rows[..k], index) + (if index < |rows[k]| then [rows[k][index]] else [])
  {
    assert rows[..k + 1][..k] == rows[..k];
  }

  method InterleaveBlocks(t: Tables, data: seq<bv8>, layout: BlockLayout) returns (out: seq<bv8>)
    requires IsFieldTables(t) && |data| == DataCodewords(layout) && 1 <= layout.ecPerBlock <= 512
    ensures out == Interleaved(data, layout)
  {
    hide CheckBytes, Generator, Split, Column, IsFieldTables;
    var blocks := CutBlocks(t, data, layout);
    ghost var rows, checks := DataRows(blocks), EccRows(blocks);
    out := [];
    for index := 0 to MaxData(layout)
      invariant out == Columns(rows, index)
    {
      ghost var before := out;
      ColumnEmpty(rows, index);
      for k := 0 to |blocks|
        invariant out == before + Column(rows[..k], index)
      {
        ColumnNext(rows, k, index);
        var block := blocks[k];
        if index < |block.data| {
          out := out + [block.data[index]];
        }
      }
      assert rows[..|blocks|] == rows;
    }
    ghost var part := out;
    for index := 0 to layout.ecPerBlock
      invariant out == part + Columns(checks, index)
    {
      ghost var before := out;
      ColumnEmpty(checks, index);
      for k := 0 to |blocks|
        invariant out == before + Column(checks[..k], index)
      {
        ColumnNext(checks, k, index);
        out := out + [blocks[k].ecc[index]];
      }
      assert checks[..|blocks|] == checks;
    }
  }

  lemma ColumnEmpty(rows: seq<seq<bv8>>, index: nat)
    ensures Column(rows[..0], index) == []
  {}
}
