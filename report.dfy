/**
 * The node table of `main` in the current reporter: the nodes (only those of the reservation,
 * when one is named) are listed partition by partition, partitions in ascending order with
 * `cpu` moved to the end; each row shows free and configured CPUs, GPUs and memory, or a
 * label for a node that cannot take jobs; and the `TOTAL` row adds up every listed node.
 */
module Report {
  import opened Wrappers
  import opened PyStr
  import opened Dicts
  import opened Order
  import opened Grouping
  import opened Tres
  import opened NodeInfo

  /** The partition listed after all others. */
  const CpuPartition: string := "cpu"

  // ---------------------------------------------------------------------------------------
  // The order of the partitions

  /** `list.remove(x)` on a list that holds `x` at most once: the list without `x`. */
  function Without(s: seq<string>, x: string): (r: seq<string>)
    ensures forall y :: y in r ==> y in s
  {
    if s == [] then []
    else if s[0] == x then s[1..]
    else [s[0]] + Without(s[1..], x)
  }

  /** Removing an element from a strictly sorted list keeps it sorted and drops exactly that
      element. */
  lemma {:induction false} WithoutSorted(s: seq<string>, x: string)
    requires StrictlySorted(s)
    ensures StrictlySorted(Without(s, x))
    ensures forall y :: y in Without(s, x) <==> y in s && y != x
  {
    if s != [] {
      var tail := s[1..];
      assert StrictlySorted(tail) by {
        forall i, j | 0 <= i < j < |tail| ensures Below(tail[i], tail[j]) {
          assert tail[i] == s[i + 1] && tail[j] == s[j + 1];
        }
      }
      assert forall y :: y in s <==> y == s[0] || y in tail by {
        assert s == [s[0]] + tail;
      }
      assert s[0] !in tail by {
        forall j | 0 <= j < |tail| ensures tail[j] != s[0] {
          assert Below(s[0], s[j + 1]);
          BelowIrreflexive(s[0]);
        }
      }
      if s[0] != x {
        WithoutSorted(tail, x);
        var rest := Without(tail, x);
        var r := [s[0]] + rest;
        forall i, j | 0 <= i < j < |r| ensures Below(r[i], r[j]) {
          if i == 0 {
            assert r[j] in rest;
            var m :| 0 <= m < |tail| && tail[m] == r[j];
            assert Below(s[0], s[m + 1]);
          } else {
            assert r[i] == rest[i - 1] && r[j] == rest[j - 1];
          }
        }
      }
    }
  }

  /** `sorted(set(parts))`, with `cpu` removed and appended when it is there. */
  function PartitionOrder(parts: seq<string>): seq<string> {
    var sorted := SortedSet(parts);
    if CpuPartition in sorted then Without(sorted, CpuPartition) + [CpuPartition] else sorted
  }

  /** Every partition comes once; `cpu`, when some node is in it, comes last; the others come
      in ascending order. */
  lemma PartitionOrderContract(parts: seq<string>)
    ensures Distinct(PartitionOrder(parts))
    ensures forall p :: p in PartitionOrder(parts) <==> p in parts
    ensures CpuPartition in parts ==>
      var r := PartitionOrder(parts);
      r[|r| - 1] == CpuPartition && StrictlySorted(r[..|r| - 1]) && CpuPartition !in r[..|r| - 1]
    ensures CpuPartition !in parts ==> StrictlySorted(PartitionOrder(parts))
  {
    var sorted := SortedSet(parts);
    if CpuPartition in sorted {
      WithoutSorted(sorted, CpuPartition);
      var front := Without(sorted, CpuPartition);
      var r := front + [CpuPartition];
      SortedIsDistinct(front);
      assert r[..|r| - 1] == front;
      forall i, j | 0 <= i < j < |r| ensures r[i] != r[j] {
        if j < |front| {
          assert r[i] == front[i] && r[j] == front[j];
        } else {
          assert r[i] == front[i];
        }
      }
    } else {
      SortedIsDistinct(sorted);
    }
  }

  // ---------------------------------------------------------------------------------------
  // The order of the nodes

  /** The partition a node is listed under (`""` for a record without one, which `Shown`
      rules out). */
  function PartitionOf(r: Record): string {
    if r.partition.Some? then r.partition.value else ""
  }

  /** Each node's partition. */
  function Labels(info: Dict<Record>): (labels: map<string, string>)
    ensures forall k :: k in info.vals ==> k in labels && labels[k] == PartitionOf(info.vals[k])
  {
    map k | k in info.vals :: PartitionOf(info.vals[k])
  }

  /** Some node of `keys` is in partition `p`. */
  predicate Used(keys: seq<string>, labels: map<string, string>, p: string) {
    exists k :: k in keys && k in labels && labels[k] == p
  }

  /** `[info['partition'] for node_name, info in node_info.items()]` */
  function PartitionsOf(keys: seq<string>, labels: map<string, string>): (r: seq<string>)
    ensures forall k :: k in keys && k in labels ==> labels[k] in r
    ensures forall p :: p in r ==> Used(keys, labels, p)
  {
    if keys == [] then []
    else
      var init, k := keys[..|keys| - 1], keys[|keys| - 1];
      assert keys == init + [k];
      PartitionsOf(init, labels) + if k in labels then [labels[k]] else []
  }

  /** The partitions in the order the table lists them. */
  function Sections(info: Dict<Record>): seq<string> {
    PartitionOrder(PartitionsOf(info.keys, Labels(info)))
  }

  /** The nodes in the order the table lists them: partition by partition, and within a
      partition in dictionary order. */
  function Displayed(info: Dict<Record>): seq<string>
    requires Valid(info)
  {
    Grouped(info.keys, Labels(info), Sections(info))
  }

  /** The partitions the table lists are exactly those of the nodes, each once. */
  lemma OrderContract(info: Dict<Record>)
    requires Valid(info)
    ensures Distinct(Sections(info))
    ensures forall k :: k in info.keys ==> Labels(info)[k] in Sections(info)
    ensures forall p :: p in Sections(info) ==> Used(info.keys, Labels(info), p)
  {
    PartitionOrderContract(PartitionsOf(info.keys, Labels(info)));
  }

  /** Every node is listed exactly once, and the nodes of one partition keep their
      dictionary order. */
  lemma DisplayedContract(info: Dict<Record>)
    requires Valid(info)
    ensures multiset(Displayed(info)) == multiset(info.keys)
    ensures |Displayed(info)| == |info.keys|
    ensures Labelled(Displayed(info), Labels(info))
    ensures forall g :: Pick(Displayed(info), Labels(info), {g}) == Pick(info.keys, Labels(info), {g})
  {
    var labels := Labels(info);
    OrderContract(info);
    GroupedIsPermutation(info.keys, labels, Sections(info));
    assert |multiset(Displayed(info))| == |multiset(info.keys)|;
    forall g ensures Pick(Displayed(info), labels, {g}) == Pick(info.keys, labels, {g}) {
      GroupedIsStable(info.keys, labels, Sections(info), g);
    }
  }

  /** In a grouped listing, the keys labelled `last` come after all others, and the others come
      in ascending order of label. */
  predicate LastThenSorted(d: seq<string>, labels: map<string, string>, last: string)
    requires Labelled(d, labels)
  {
    forall i, j :: 0 <= i < j < |d| ==>
      (labels[d[i]] == last ==> labels[d[j]] == last)
      && (labels[d[j]] != last ==> !Below(labels[d[j]], labels[d[i]]))
  }

  /** Grouping over ascending labels and then `last` lists the keys labelled `last` at the end,
      the others in ascending order of label. */
  lemma GroupedLast(keys: seq<string>, labels: map<string, string>, front: seq<string>, last: string)
    requires Labelled(keys, labels) && StrictlySorted(front) && last !in front
    ensures Labelled(Grouped(keys, labels, front + [last]), labels)
    ensures LastThenSorted(Grouped(keys, labels, front + [last]), labels, last)
  {
    var groups := front + [last];
    assert groups[..|groups| - 1] == front && groups[|groups| - 1] == last;
    GroupedIsSorted(keys, labels, front);
    var head := Grouped(keys, labels, front);
    var tail := Pick(keys, labels, {last});
    var d := head + tail;
    forall i, j | 0 <= i < j < |d|
      ensures labels[d[i]] == last ==> labels[d[j]] == last
      ensures labels[d[j]] != last ==> !Below(labels[d[j]], labels[d[i]])
    {
      if j < |head| {
        assert d[i] == head[i] && d[j] == head[j];
        assert head[i] in head;
      } else {
        assert d[j] == tail[j - |head|];
        assert d[j] in tail;
      }
    }
  }

  /** Grouping over ascending labels without `last` lists the keys in ascending order of label,
      and none is labelled `last`. */
  lemma GroupedNoLast(keys: seq<string>, labels: map<string, string>, groups: seq<string>, last: string)
    requires Labelled(keys, labels) && StrictlySorted(groups) && last !in groups
    ensures Labelled(Grouped(keys, labels, groups), labels)
    ensures LastThenSorted(Grouped(keys, labels, groups), labels, last)
  {
    GroupedIsSorted(keys, labels, groups);
    var d := Grouped(keys, labels, groups);
    forall i | 0 <= i < |d| ensures labels[d[i]] != last {
      assert d[i] in d;
    }
  }

  /** The nodes of partition `cpu` come after all others, and the others come in ascending
      order of partition. */
  lemma DisplayedOrder(info: Dict<Record>)
    requires Valid(info)
    ensures Labelled(Displayed(info), Labels(info))
    ensures LastThenSorted(Displayed(info), Labels(info), CpuPartition)
  {
    var labels := Labels(info);
    var parts := PartitionsOf(info.keys, labels);
    PartitionOrderContract(parts);
    var r := Sections(info);
    if CpuPartition in parts {
      var front := r[..|r| - 1];
      assert r == front + [CpuPartition];
      GroupedLast(info.keys, labels, front, CpuPartition);
    } else {
      GroupedNoLast(info.keys, labels, r, CpuPartition);
    }
  }

  // ---------------------------------------------------------------------------------------
  // One node

  /** `int(t[key])` (0 where the value is missing or not a numeral, which `Shown` rules out). */
  function Number(t: Tres, key: string): nat {
    if key in t && IsNumeral(Strip(t[key])) then ToInt(t[key]) else 0
  }

  /** `parse_mem(t['mem'])`, in gigabytes (0 where `Shown` rules the value out). */
  function Memory(t: Tres): nat {
    if MemKey in t && IsMem(t[MemKey]) then ParseMem(t[MemKey]) else 0
  }

  /** Every amount the row reads from the record can be read. */
  predicate Counted(t: Tres) {
    CpuKey in t && GpuKey in t && MemKey in t
    && IsNumeral(Strip(t[CpuKey])) && IsNumeral(Strip(t[GpuKey])) && IsMem(t[MemKey])
  }

  /** Showing the node does not raise: it has a partition, a state, and readable configured
      and allocated amounts. */
  predicate Shown(r: Record) {
    r.partition.Some? && r.state.Some? && r.cfg.Some? && r.alloc.Some?
    && Counted(r.cfg.value) && Counted(r.alloc.value)
  }

  /** Every node can be shown. */
  predicate AllShown(vals: map<string, Record>) {
    forall k {:trigger Shown(vals[k])} :: k in vals ==> Shown(vals[k])
  }

  /** The configured and allocated amounts of a node. */
  datatype Usage = Usage(cpu: nat, usedCpu: nat, gpu: nat, usedGpu: nat, mem: nat, usedMem: nat)

  function UsageOf(r: Record): Usage {
    var cfg := if r.cfg.Some? then r.cfg.value else map[];
    var alloc := if r.alloc.Some? then r.alloc.value else map[];
    Usage(Number(cfg, CpuKey), Number(alloc, CpuKey), Number(cfg, GpuKey), Number(alloc, GpuKey),
          Memory(cfg), Memory(alloc))
  }

  /** One resource column of a row: `free/total` (red when nothing is free, green otherwise);
      the `-` of a node without GPUs; the grey `RESERVED` or `SUSPENDED` label of a node that
      takes no jobs; or the blank that goes with that label. */
  datatype Cell = Count(free: int, total: nat) | Dash | Label(reserved: bool) | Hidden

  /** A count shown in red: nothing is free. Any other count, negative ones included, is shown
      in green. */
  predicate Exhausted(c: Cell) {
    c.Count? && c.free == 0
  }

  datatype Row = Row(partition: string, node: string, cpu: Cell, gpu: Cell, mem: Cell)

  /** The states in which a node's amounts are shown. */
  predicate Schedulable(state: string) {
    state == "IDLE" || state == "MIXED" || state == "ALLOCATED"
  }

  /** The state of a node (`""` for a record without one, which `Shown` rules out). */
  function StateOf(r: Record): string {
    if r.state.Some? then r.state.value else ""
  }

  /** The row of a node in partition `partition`, in state `state`, with amounts `u`;
      `filtered` says whether a reservation was named. */
  function RowFrom(name: string, partition: string, state: string, u: Usage, filtered: bool): (row: Row)
    ensures row.partition == partition && row.node == name
    ensures row.cpu.Label? <==> !Schedulable(state) && !filtered
    ensures row.cpu.Label? ==> (row.cpu.reserved <==> Contains(state, "RESERVED")) && row.gpu == Hidden && row.mem == Hidden
    ensures !row.cpu.Label? ==>
      row.cpu == Count(u.cpu - u.usedCpu, u.cpu) && row.mem == Count(u.mem - u.usedMem, u.mem)
      && (row.gpu == Dash <==> u.gpu == 0) && (row.gpu != Dash ==> row.gpu == Count(u.gpu - u.usedGpu, u.gpu))
    ensures row.gpu.Count? ==> row.gpu.total > 0
  {
    if Schedulable(state) || filtered then
      Row(partition, name, Count(u.cpu - u.usedCpu, u.cpu),
          if u.gpu == 0 then Dash else Count(u.gpu - u.usedGpu, u.gpu),
          Count(u.mem - u.usedMem, u.mem))
    else
      Row(partition, name, Label(Contains(state, "RESERVED")), Hidden, Hidden)
  }

  /** The row of a node. */
  function RowOf(name: string, r: Record, filtered: bool): Row {
    RowFrom(name, PartitionOf(r), StateOf(r), UsageOf(r), filtered)
  }

  /** The `int(...)` and `parse_mem(...)` reads of a node's TRES records. */
  method ReadAmounts(r: Record) returns (u: Usage)
    requires Shown(r)
    ensures u == UsageOf(r)
  {
    var cfg, alloc := r.cfg.value, r.alloc.value;
    u := Usage(ToInt(cfg[CpuKey]), ToInt(alloc[CpuKey]), ToInt(cfg[GpuKey]), ToInt(alloc[GpuKey]),
               ParseMem(cfg[MemKey]), ParseMem(alloc[MemKey]));
  }

  /** The body of the node loop, once the node's amounts are read: its row and the running
      totals after it. */
  method ShowNode(name: string, partition: string, state: string, u: Usage, filtered: bool, before: Totals)
    returns (row: Row, after: Totals)
    ensures row == RowFrom(name, partition, state, u, filtered)
    ensures after == Add(before, u)
  {
    var nodes := before.nodes + 1;
    var availableCpu := u.cpu - u.usedCpu;
    var totalCpu := u.cpu;
    var cpu := Count(availableCpu, totalCpu);
    var availableGpu := u.gpu - u.usedGpu;
    var totalGpu := u.gpu;
    var gpu := Count(availableGpu, totalGpu);
    if u.gpu == 0 {
      gpu := Dash;
    }
    var availableMem := u.mem - u.usedMem;
    var totalMem := u.mem;
    var mem := Count(availableMem, totalMem);
    if state != "IDLE" && state != "MIXED" && state != "ALLOCATED" {
      if !filtered {
        cpu := Label(Contains(state, "RESERVED"));
        gpu := Hidden;
        mem := Hidden;
      }
    }
    after := Totals(nodes, before.freeCpu + availableCpu, before.cpu + totalCpu,
                    before.freeGpu + availableGpu, before.gpu + totalGpu,
                    before.freeMem + availableMem, before.mem + totalMem);
    row := Row(partition, name, cpu, gpu, mem);
  }

  // ---------------------------------------------------------------------------------------
  // Rows and totals

  /** The running totals: nodes, then free and configured CPUs, GPUs and gigabytes. */
  datatype Totals = Totals(nodes: nat, freeCpu: int, cpu: nat, freeGpu: int, gpu: nat, freeMem: int, mem: nat)

  const NoTotals: Totals := Totals(0, 0, 0, 0, 0, 0, 0)

  /** The totals after one more node. */
  function Add(t: Totals, u: Usage): Totals {
    Totals(t.nodes + 1, t.freeCpu + (u.cpu - u.usedCpu), t.cpu + u.cpu,
           t.freeGpu + (u.gpu - u.usedGpu), t.gpu + u.gpu, t.freeMem + (u.mem - u.usedMem), t.mem + u.mem)
  }

  /** The amounts of every node. */
  function Amounts(vals: map<string, Record>): map<string, Usage>
  {
    map k | k in vals :: UsageOf(vals[k])
  }

  /** The row of every node. */
  function RowTable(vals: map<string, Record>, filtered: bool): map<string, Row>
  {
    map k | k in vals :: RowOf(k, vals[k], filtered)
  }

  /** The amounts of a node (none for a name that is not a node). */
  function UsageAt(amounts: map<string, Usage>, name: string): Usage {
    if name in amounts then amounts[name] else Usage(0, 0, 0, 0, 0, 0)
  }

  /** The totals after the nodes `names`, starting from `start`. */
  function Tally(start: Totals, names: seq<string>, amounts: map<string, Usage>): (t: Totals)
    ensures t.nodes == start.nodes + |names|
  {
    if names == [] then start
    else Add(Tally(start, names[..|names| - 1], amounts), UsageAt(amounts, names[|names| - 1]))
  }

  /** The row of a node (a blank one for a name that is not a node). */
  function RowAt(table: map<string, Row>, name: string): Row {
    if name in table then table[name] else Row("", name, Hidden, Hidden, Hidden)
  }

  /** The rows of the nodes `names`, in order. */
  function Rows(names: seq<string>, table: map<string, Row>): (rows: seq<Row>)
    ensures |rows| == |names|
  {
    if names == [] then []
    else Rows(names[..|names| - 1], table) + [RowAt(table, names[|names| - 1])]
  }

  /** The nodes the table lists: those of the reservation, when one is named. */
  function Listed(all: Dict<Record>, reservation: Option<seq<string>>): (info: Dict<Record>)
    requires Valid(all)
    ensures Valid(info)
    ensures forall k :: k in info.vals ==> k in all.vals && info.vals[k] == all.vals[k]
    ensures reservation.Some? ==>
      (forall k :: k in info.vals <==> k in all.vals && k in reservation.value)
      && info.keys == Keep(all.keys, reservation.value)
    ensures reservation.None? ==> info == all
  {
    if reservation.Some? then Restrict(all, reservation.value) else all
  }

  /** The table and the totals of `main`. `reservation` holds the nodes of the reservation
      named on the command line, if one is. */
  method Report(all: Dict<Record>, reservation: Option<seq<string>>) returns (rows: seq<Row>, totals: Totals)
    requires Valid(all) && AllShown(Listed(all, reservation).vals)
    ensures var info := Listed(all, reservation);
      rows == Rows(Displayed(info), RowTable(info.vals, reservation.Some?))
      && totals == Tally(NoTotals, Displayed(info), Amounts(info.vals))
  {
    var info := all;
    if reservation.Some? {
      info := Restrict(all, reservation.value);
    }
    rows, totals := ReportNodes(info, reservation.Some?);
  }

  /** The `for partition in partitions` loop. */
  method ReportNodes(info: Dict<Record>, filtered: bool) returns (rows: seq<Row>, totals: Totals)
    requires Valid(info) && AllShown(info.vals)
    ensures rows == Rows(Displayed(info), RowTable(info.vals, filtered))
    ensures totals == Tally(NoTotals, Displayed(info), Amounts(info.vals))
  {
    var labels := Labels(info);
    var partitions := Sections(info);
    ghost var table, amounts := RowTable(info.vals, filtered), Amounts(info.vals);
    rows, totals := [], NoTotals;
    for p := 0 to |partitions|
      invariant rows == Rows(Grouped(info.keys, labels, partitions[..p]), table)
      invariant totals == Tally(NoTotals, Grouped(info.keys, labels, partitions[..p]), amounts)
    {
      var members := Pick(info.keys, labels, {partitions[p]});
      PartitionStep(info.keys, labels, partitions, p, table, amounts);
      MembersShown(info, labels, partitions[p]);
      rows, totals := ReportPartition(members, info.vals, filtered, rows, totals);
    }
    Whole(partitions);
  }

  /** The `for node_name, info in info_partition` loop over the nodes of one partition. */
  method ReportPartition(members: seq<string>, vals: map<string, Record>, filtered: bool,
                         rows0: seq<Row>, totals0: Totals) returns (rows: seq<Row>, totals: Totals)
    requires forall k :: 0 <= k < |members| ==> members[k] in vals && Shown(vals[members[k]])
    ensures rows == rows0 + Rows(members, RowTable(vals, filtered))
    ensures totals == Tally(totals0, members, Amounts(vals))
  {
    ghost var table, amounts := RowTable(vals, filtered), Amounts(vals);
    rows, totals := rows0, totals0;
    for j := 0 to |members|
      invariant rows == rows0 + Rows(members[..j], table)
      invariant totals == Tally(totals0, members[..j], amounts)
    {
      var row;
      FoldStep(members, j, table, amounts, totals0);
      var r := vals[members[j]];
      var u := ReadAmounts(r);
      ListedNode(vals, members[j], filtered, u);
      row, totals := ShowNode(members[j], r.partition.value, r.state.value, u, filtered, totals);
      Regroup(rows0, Rows(members[..j], table), row);
      rows := rows + [row];
    }
    Whole(members);
  }

  lemma Whole<T>(s: seq<T>)
    ensures s[..|s|] == s
  {
  }

  lemma Regroup<T>(a: seq<T>, b: seq<T>, x: T)
    ensures a + b + [x] == a + (b + [x])
  {
  }

  /** The row and amounts of a listed node, from its record and the amounts read from it. */
  lemma ListedNode(vals: map<string, Record>, name: string, filtered: bool, u: Usage)
    requires name in vals && Shown(vals[name]) && u == UsageOf(vals[name])
    ensures RowAt(RowTable(vals, filtered), name) == RowFrom(name, vals[name].partition.value, vals[name].state.value, u, filtered)
    ensures UsageAt(Amounts(vals), name) == u
  {
  }

  /** The rows and totals after one more partition. */
  lemma PartitionStep(keys: seq<string>, labels: map<string, string>, groups: seq<string>, p: nat,
                      table: map<string, Row>, amounts: map<string, Usage>)
    requires Labelled(keys, labels) && p < |groups|
    ensures var done, members := Grouped(keys, labels, groups[..p]), Pick(keys, labels, {groups[p]});
      Rows(Grouped(keys, labels, groups[..p + 1]), table) == Rows(done, table) + Rows(members, table)
      && Tally(NoTotals, Grouped(keys, labels, groups[..p + 1]), amounts) == Tally(Tally(NoTotals, done, amounts), members, amounts)
  {
    var done, members := Grouped(keys, labels, groups[..p]), Pick(keys, labels, {groups[p]});
    GroupedStep(keys, labels, groups, p);
    RowsConcat(done, members, table);
    TallyConcat(NoTotals, done, members, amounts);
  }

  /** Every node of a partition can be shown. */
  lemma MembersShown(info: Dict<Record>, labels: map<string, string>, g: string)
    requires Valid(info) && labels == Labels(info) && AllShown(info.vals)
    ensures var members := Pick(info.keys, labels, {g});
      forall k :: 0 <= k < |members| ==> members[k] in info.vals && Shown(info.vals[members[k]])
  {
    var members := Pick(info.keys, labels, {g});
    forall k | 0 <= k < |members| ensures members[k] in info.vals && Shown(info.vals[members[k]]) {
      assert members[k] in members;
    }
  }

  /** Grouping over one more partition appends that partition's nodes. */
  lemma GroupedStep(keys: seq<string>, labels: map<string, string>, groups: seq<string>, p: nat)
    requires Labelled(keys, labels) && p < |groups|
    ensures Grouped(keys, labels, groups[..p + 1]) == Grouped(keys, labels, groups[..p]) + Pick(keys, labels, {groups[p]})
  {
    var g := groups[..p + 1];
    assert g[..|g| - 1] == groups[..p] && g[|g| - 1] == groups[p];
  }

  /** The rows and totals of one more node. */
  lemma FoldStep(names: seq<string>, j: nat, table: map<string, Row>, amounts: map<string, Usage>, start: Totals)
    requires j < |names|
    ensures Rows(names[..j + 1], table) == Rows(names[..j], table) + [RowAt(table, names[j])]
    ensures Tally(start, names[..j + 1], amounts) == Add(Tally(start, names[..j], amounts), UsageAt(amounts, names[j]))
  {
    var b := names[..j + 1];
    assert b[..|b| - 1] == names[..j] && b[|b| - 1] == names[j];
  }

  lemma {:induction false} RowsConcat(a: seq<string>, b: seq<string>, table: map<string, Row>)
    ensures Rows(a + b, table) == Rows(a, table) + Rows(b, table)
  {
    if b != [] {
      var init := b[..|b| - 1];
      assert (a + b)[..|a + b| - 1] == a + init && (a + b)[|a + b| - 1] == b[|b| - 1];
      RowsConcat(a, init, table);
    } else {
      assert a + b == a;
    }
  }

  lemma {:induction false} TallyConcat(start: Totals, a: seq<string>, b: seq<string>, amounts: map<string, Usage>)
    ensures Tally(start, a + b, amounts) == Tally(Tally(start, a, amounts), b, amounts)
  {
    if b != [] {
      var init := b[..|b| - 1];
      assert (a + b)[..|a + b| - 1] == a + init && (a + b)[|a + b| - 1] == b[|b| - 1];
      TallyConcat(start, a, init, amounts);
    } else {
      assert a + b == a;
    }
  }

  // ---------------------------------------------------------------------------------------
  // The totals do not depend on the order of the nodes

  /** Leaving node `i` out of the tally and adding it last gives the same totals. */
  lemma {:induction false} TallyRemove(start: Totals, b: seq<string>, i: nat, amounts: map<string, Usage>)
    requires i < |b|
    ensures Tally(start, b, amounts) == Add(Tally(start, b[..i] + b[i + 1..], amounts), UsageAt(amounts, b[i]))
  {
    var init := b[..|b| - 1];
    if i == |b| - 1 {
      assert b[..i] + b[i + 1..] == init;
    } else {
      var last := b[|b| - 1];
      TallyRemove(start, init, i, amounts);
      var rest := init[..i] + init[i + 1..];
      assert b[..i] + b[i + 1..] == rest + [last];
      assert (rest + [last])[..|rest + [last]| - 1] == rest;
    }
  }

  /** Taking the last element off one of two permutations of each other, and the same element
      off the other, leaves permutations of each other. */
  lemma RemoveOne<T>(a: seq<T>, b: seq<T>, i: nat)
    requires a != [] && i < |b| && multiset(a) == multiset(b) && b[i] == a[|a| - 1]
    ensures multiset(a[..|a| - 1]) == multiset(b[..i] + b[i + 1..])
  {
    var init, x, rest := a[..|a| - 1], a[|a| - 1], b[..i] + b[i + 1..];
    assert a == init + [x];
    assert b == b[..i] + [x] + b[i + 1..];
    assert multiset(b) == multiset(b[..i]) + multiset{x} + multiset(b[i + 1..]);
    assert multiset(rest) == multiset(b[..i]) + multiset(b[i + 1..]);
    assert multiset(init) == multiset(a) - multiset{x};
  }

  /** Two listings of the same nodes have the same totals. */
  lemma {:induction false} TallyPermutation(start: Totals, a: seq<string>, b: seq<string>, amounts: map<string, Usage>)
    requires multiset(a) == multiset(b)
    ensures Tally(start, a, amounts) == Tally(start, b, amounts)
  {
    if a == [] {
      assert |b| == |multiset(b)| == 0;
    } else {
      var init, x := a[..|a| - 1], a[|a| - 1];
      assert x in multiset(b) by {
        assert a == init + [x];
      }
      var i :| 0 <= i < |b| && b[i] == x;
      var rest := b[..i] + b[i + 1..];
      RemoveOne(a, b, i);
      TallyPermutation(start, init, rest, amounts);
      TallyRemove(start, b, i, amounts);
    }
  }

  /** The `TOTAL` row adds up every listed node, whatever the order of the table: it counts
      the nodes, and sums configured and free amounts over them, those of nodes whose row
      shows only a label included. */
  lemma TotalsContract(info: Dict<Record>)
    requires Valid(info)
    ensures Tally(NoTotals, Displayed(info), Amounts(info.vals)) == Tally(NoTotals, info.keys, Amounts(info.vals))
    ensures Tally(NoTotals, Displayed(info), Amounts(info.vals)).nodes == |info.keys|
  {
    DisplayedContract(info);
    TallyPermutation(NoTotals, Displayed(info), info.keys, Amounts(info.vals));
  }

  /** The `TOTAL` row: every column is a count of the totals' free over configured amounts,
      even a GPU column with nothing configured, and each is red exactly when nothing of it is
      free. */
  function TotalRow(t: Totals): (row: Row)
    ensures row.partition == "TOTAL"
    ensures row.cpu == Count(t.freeCpu, t.cpu) && row.gpu == Count(t.freeGpu, t.gpu) && row.mem == Count(t.freeMem, t.mem)
    ensures (Exhausted(row.cpu) <==> t.freeCpu == 0) && (Exhausted(row.gpu) <==> t.freeGpu == 0)
      && (Exhausted(row.mem) <==> t.freeMem == 0)
  {
    Row("TOTAL", " ", Count(t.freeCpu, t.cpu), Count(t.freeGpu, t.gpu), Count(t.freeMem, t.mem))
  }
}
