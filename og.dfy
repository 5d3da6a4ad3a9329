/**
 * The node table of the original reporter, nodestat-og.py: the nodes sorted by partition
 * (a stable sort, so nodes of one partition keep their dictionary order), each with its free
 * CPUs, free GPUs and free memory in whole gigabytes.
 */
module Og {
  import opened Wrappers
  import opened PyStr
  import opened Dicts
  import opened Order
  import opened Grouping
  import opened Tres
  import opened NodeInfo
  import Report

  // ---------------------------------------------------------------------------------------
  // The order of the rows

  /** `sorted(node_info.items(), key=lambda x: x[1]['partition'])`: Python's sort is stable,
      so this lists the nodes partition by partition, over the partitions in ascending order,
      and each partition's nodes in dictionary order. */
  function Sorted(info: Dict<Record>): seq<string>
    requires Valid(info)
  {
    var labels := Report.Labels(info);
    Grouped(info.keys, labels, SortedSet(Report.PartitionsOf(info.keys, labels)))
  }

  /** The sort lists every node exactly once, in ascending order of partition, and keeps the
      dictionary order of the nodes of each partition. */
  lemma SortedContract(info: Dict<Record>)
    requires Valid(info)
    ensures multiset(Sorted(info)) == multiset(info.keys)
    ensures Labelled(Sorted(info), Report.Labels(info))
    ensures forall i, j :: 0 <= i < j < |Sorted(info)| ==>
      !Below(Report.Labels(info)[Sorted(info)[j]], Report.Labels(info)[Sorted(info)[i]])
    ensures forall g :: Pick(Sorted(info), Report.Labels(info), {g}) == Pick(info.keys, Report.Labels(info), {g})
  {
    var labels := Report.Labels(info);
    var groups := SortedSet(Report.PartitionsOf(info.keys, labels));
    SortedIsDistinct(groups);
    GroupedIsPermutation(info.keys, labels, groups);
    GroupedIsSorted(info.keys, labels, groups);
    forall g ensures Pick(Sorted(info), labels, {g}) == Pick(info.keys, labels, {g}) {
      GroupedIsStable(info.keys, labels, groups, g);
    }
  }

  // ---------------------------------------------------------------------------------------
  // One node

  /** `float(v[0:-1])` succeeds: the value less its last character (the unit) is a decimal
      numeral, with optional surrounding whitespace. */
  predicate MemReadable(v: string) {
    |v| >= 1 && IsNumeral(Strip(v[..|v| - 1]))
  }

  /** `float(v[0:-1])`: the number before the unit, whatever the unit (0 where `MemReadable`
      rules the value out). */
  function Magnitude(v: string): nat {
    if MemReadable(v) then NatOf(Strip(v[..|v| - 1])) else 0
  }

  /** Every amount the row reads from a TRES record can be read. */
  predicate Counted(t: Tres) {
    CpuKey in t && GpuKey in t && MemKey in t
    && IsNumeral(Strip(t[CpuKey])) && IsNumeral(Strip(t[GpuKey])) && MemReadable(t[MemKey])
  }

  /** Showing the node does not raise. The original does not fill in a missing `gres/gpu` in
      the configured TRES, so a node whose `CfgTRES` lists no GPU is ruled out here. */
  predicate Shown(r: Record) {
    r.partition.Some? && r.cfg.Some? && r.alloc.Some? && Counted(r.cfg.value) && Counted(r.alloc.value)
  }

  /** Every node can be shown. */
  predicate AllShown(vals: map<string, Record>) {
    forall k {:trigger Shown(vals[k])} :: k in vals ==> Shown(vals[k])
  }

  /** The configured and allocated amounts of a node, memory as the number before its unit. */
  datatype Usage = Usage(cpu: nat, usedCpu: nat, gpu: nat, usedGpu: nat, mem: nat, usedMem: nat)

  function UsageOf(r: Record): Usage {
    var cfg := if r.cfg.Some? then r.cfg.value else map[];
    var alloc := if r.alloc.Some? then r.alloc.value else map[];
    Usage(Report.Number(cfg, CpuKey), Report.Number(alloc, CpuKey), Report.Number(cfg, GpuKey),
          Report.Number(alloc, GpuKey), Magnitude(if MemKey in cfg then cfg[MemKey] else ""),
          Magnitude(if MemKey in alloc then alloc[MemKey] else ""))
  }

  /** `int(x)` of a float: truncation toward zero (Dafny's `/` rounds down). */
  function TruncDiv(x: int, d: nat): (q: int)
    requires d > 0
    ensures x >= 0 ==> 0 <= q && q * d <= x < q * d + d
    ensures x < 0 ==> q <= 0 && -x - d < -q * d <= -x
  {
    if x >= 0 then
      DivBounds(x, d);
      x / d
    else
      DivBounds(-x, d);
      -((-x) / d)
  }

  /** The quotient of a natural division, times the divisor, is within one divisor of the
      dividend. */
  lemma DivBounds(x: nat, d: nat)
    requires d > 0
    ensures 0 <= x / d && (x / d) * d <= x < (x / d) * d + d
  {
    assert x == d * (x / d) + x % d;
  }

  /** One row: the partition, the node, free CPUs, free GPUs, and free memory in gigabytes. */
  datatype Row = Row(partition: string, node: string, cpu: int, gpu: int, mem: int)

  /** The row of a node with amounts `u`: configured minus allocated, and the memory
      difference divided by 1024 and truncated toward zero. */
  function RowFrom(name: string, partition: string, u: Usage): (row: Row)
    ensures row.cpu + u.usedCpu == u.cpu && row.gpu + u.usedGpu == u.gpu
    ensures u.mem >= u.usedMem ==> row.mem >= 0 && row.mem * 1024 <= u.mem - u.usedMem < row.mem * 1024 + 1024
    ensures u.mem < u.usedMem ==> row.mem <= 0 && u.usedMem - u.mem - 1024 < -row.mem * 1024 <= u.usedMem - u.mem
  {
    Row(partition, name, u.cpu - u.usedCpu, u.gpu - u.usedGpu, TruncDiv(u.mem - u.usedMem, 1024))
  }

  /** The row of every node. */
  function RowTable(vals: map<string, Record>): map<string, Row> {
    map k | k in vals :: RowFrom(k, Report.PartitionOf(vals[k]), UsageOf(vals[k]))
  }

  /** The row of a node (a zero one for a name that is not a node). */
  function RowAt(table: map<string, Row>, name: string): Row {
    if name in table then table[name] else Row("", name, 0, 0, 0)
  }

  /** The rows of the nodes `names`, in order. */
  function Rows(names: seq<string>, table: map<string, Row>): (rows: seq<Row>)
    ensures |rows| == |names|
  {
    if names == [] then []
    else Rows(names[..|names| - 1], table) + [RowAt(table, names[|names| - 1])]
  }

  /** `str(available_mem) + " G"` */
  function MemText(g: int): string {
    IntText(g) + " G"
  }

  /** `str(i)` for an integer. */
  function IntText(i: int): (s: string)
    ensures s != [] && (s[0] == '-' <==> i < 0)
  {
    if i < 0 then "-" + NatToString(-i) else NatToString(i)
  }

  /** `int(s)` for an optionally signed numeral. */
  function IntOf(s: string): int
    requires s != [] && (if s[0] == '-' then IsNumeral(s[1..]) else IsNumeral(s))
  {
    if s[0] == '-' then 0 - NatOf(s[1..]) else NatOf(s)
  }

  /** The number a row prints reads back as the number. */
  lemma IntTextRoundTrip(i: int)
    ensures var s := IntText(i); (if s[0] == '-' then IsNumeral(s[1..]) else IsNumeral(s)) && IntOf(s) == i
  {
    if i < 0 {
      var s := IntText(i);
      assert s[1..] == NatToString(-i);
      NatOfNatToString(-i);
    } else {
      NatOfNatToString(i);
    }
  }

  /** The memory cell is the number followed by ` G`, and the number reads back. */
  lemma MemTextReadsBack(g: int)
    ensures var s := MemText(g);
      |s| > 2 && s[|s| - 2..] == " G" && s[..|s| - 2] == IntText(g) && IntOf(IntText(g)) == g
  {
    IntTextRoundTrip(g);
    var s := MemText(g);
    assert s[..|s| - 2] == IntText(g);
  }

  // ---------------------------------------------------------------------------------------
  // The table

  /** The `int(...)` and `float(...)` reads of a node's TRES records. */
  method ReadAmounts(r: Record) returns (u: Usage)
    requires Shown(r)
    ensures u == UsageOf(r)
  {
    var cfg, alloc := r.cfg.value, r.alloc.value;
    u := Usage(ToInt(cfg[CpuKey]), ToInt(alloc[CpuKey]), ToInt(cfg[GpuKey]), ToInt(alloc[GpuKey]),
               Magnitude(cfg[MemKey]), Magnitude(alloc[MemKey]));
  }

  /** The body of the loop, once the node's amounts are read. */
  method ShowNode(name: string, partition: string, u: Usage) returns (row: Row)
    ensures row == RowFrom(name, partition, u)
  {
    var availableCpu := u.cpu - u.usedCpu;
    var availableGpu := u.gpu - u.usedGpu;
    var availableMem := u.mem - u.usedMem;
    availableMem := TruncDiv(availableMem, 1024);
    row := Row(partition, name, availableCpu, availableGpu, availableMem);
  }

  /** The `for node_name, info in sorted(...)` loop of the original reporter. */
  method OgReport(info: Dict<Record>) returns (rows: seq<Row>)
    requires Valid(info) && AllShown(info.vals)
    ensures rows == Rows(Sorted(info), RowTable(info.vals))
  {
    var order := Sorted(info);
    ghost var table := RowTable(info.vals);
    SortedNodes(info);
    rows := [];
    for i := 0 to |order|
      invariant rows == Rows(order[..i], table)
    {
      var name := order[i];
      var r := info.vals[name];
      var u := ReadAmounts(r);
      var row := ShowNode(name, r.partition.value, u);
      RowsSnoc(order, i, table);
      ListedNode(info.vals, name, u);
      rows := rows + [row];
    }
    Report.Whole(order);
  }

  /** Every name the sort lists is a node that can be shown. */
  lemma SortedNodes(info: Dict<Record>)
    requires Valid(info) && AllShown(info.vals)
    ensures forall k :: 0 <= k < |Sorted(info)| ==> Sorted(info)[k] in info.vals && Shown(info.vals[Sorted(info)[k]])
  {
    var order := Sorted(info);
    SortedContract(info);
    forall k | 0 <= k < |order| ensures order[k] in info.vals && Shown(info.vals[order[k]]) {
      assert order[k] in multiset(order);
    }
  }

  /** The row of node `name` is the one the loop computes. */
  lemma ListedNode(vals: map<string, Record>, name: string, u: Usage)
    requires name in vals && Shown(vals[name]) && u == UsageOf(vals[name])
    ensures RowAt(RowTable(vals), name) == RowFrom(name, vals[name].partition.value, u)
  {
  }

  /** The rows of one more name. */
  lemma RowsSnoc(names: seq<string>, i: nat, table: map<string, Row>)
    requires i < |names|
    ensures Rows(names[..i + 1], table) == Rows(names[..i], table) + [RowAt(table, names[i])]
  {
    var b := names[..i + 1];
    assert b[..|b| - 1] == names[..i];
  }

  // ---------------------------------------------------------------------------------------
  // Memory in mixed units

  /** The free memory the original shows for a configured and an allocated `mem` value: the
      numbers before the units are subtracted, whatever the units. */
  function FreeMemory(cfg: string, alloc: string): int {
    TruncDiv(Magnitude(cfg) - Magnitude(alloc), 1024)
  }

  /** A `mem` value in kilobytes, by its unit; a value with another unit is read as megabytes,
      as the original reads every value. */
  function Kilobytes(v: string): nat {
    var n := Magnitude(v);
    var unit := if v == [] then 'M' else v[|v| - 1];
    if unit == 'K' then n
    else if unit == 'G' then n * 1048576
    else if unit == 'T' then n * 1073741824
    else n * 1024
  }

  /** Free memory in gigabytes with both values brought to one unit first. */
  function FreeMemoryInUnits(cfg: string, alloc: string): int {
    TruncDiv(Kilobytes(cfg) - Kilobytes(alloc), 1048576)
  }

  /** With both values in megabytes the two readings agree. */
  lemma UnitsAgreeOnMegabytes(cfg: string, alloc: string)
    requires EndsWith(cfg, "M") && EndsWith(alloc, "M")
    ensures FreeMemoryInUnits(cfg, alloc) == FreeMemory(cfg, alloc)
  {
    var x := Magnitude(cfg) - Magnitude(alloc);
    assert cfg[|cfg| - 1] == 'M' && alloc[|alloc| - 1] == 'M';
    assert Kilobytes(cfg) - Kilobytes(alloc) == x * 1024;
    TruncScale(x);
  }

  /** Megabytes to gigabytes and kilobytes to gigabytes truncate alike. */
  lemma TruncScale(x: int)
    ensures TruncDiv(x * 1024, 1048576) == TruncDiv(x, 1024)
  {
    if x >= 0 {
      DivScale(x);
    } else {
      DivScale(-x);
    }
  }

  lemma DivScale(x: nat)
    ensures (x * 1024) / 1048576 == x / 1024
  {
    var q, r := x / 1024, x % 1024;
    assert x == q * 1024 + r && 0 <= r < 1024;
    assert x * 1024 == q * 1048576 + r * 1024;
  }

  /** With the units taken into account, `1G` reads as `1024M`. */
  lemma UnitInvariance(g: string, m: string)
    requires MemReadable(g) && g[|g| - 1] == 'G'
    requires MemReadable(m) && m[|m| - 1] == 'M' && Magnitude(m) == 1024 * Magnitude(g)
    ensures Kilobytes(g) == Kilobytes(m)
  {
  }

  /** A numeral has no whitespace to strip. */
  lemma NumeralStrip(s: string)
    requires IsNumeral(s)
    ensures Strip(s) == s
  {
    assert NoSpace(s) by {
      forall i | 0 <= i < |s| ensures !IsSpace(s[i]) {
        assert IsDigit(s[i]);
      }
    }
  }

  /** A fully allocated node whose `n` gigabytes are configured in megabytes and allocated in
      gigabytes: the original subtracts `n` from `1024 * n` and shows free memory from two
      gigabytes on, where there is none. */
  lemma MixedUnits(cfg: string, alloc: string)
    requires MemReadable(cfg) && cfg[|cfg| - 1] == 'M'
    requires MemReadable(alloc) && alloc[|alloc| - 1] == 'G'
    requires Magnitude(cfg) == 1024 * Magnitude(alloc) && Magnitude(alloc) >= 2
    ensures FreeMemory(cfg, alloc) > 0
    ensures FreeMemoryInUnits(cfg, alloc) == 0
  {
    UnitInvariance(alloc, cfg);
  }

  /** Slurm prints each amount in the largest unit that divides it, so a node configured with
      `515000M` can be half allocated as `250G`. The original then shows 502 G free, subtracting
      250 from 515000; with both in one unit, 252 G are free. */
  lemma MixedUnitsExample(cfg: string, alloc: string)
    requires MemReadable(cfg) && cfg[|cfg| - 1] == 'M' && Magnitude(cfg) == 515000
    requires MemReadable(alloc) && alloc[|alloc| - 1] == 'G' && Magnitude(alloc) == 250
    ensures FreeMemory(cfg, alloc) == 502
    ensures FreeMemoryInUnits(cfg, alloc) == 252
  {
    DivBounds(514750, 1024);
    assert Kilobytes(cfg) - Kilobytes(alloc) == 265216000;
    DivBounds(265216000, 1048576);
  }
}
