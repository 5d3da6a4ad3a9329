# nodestat in Dafny

nodestat prints the state of a Slurm cluster as a table. Each node gets one row, listed
partition by partition, showing free and configured CPUs, GPUs and memory. A node that takes no
jobs shows a `RESERVED` or `SUSPENDED` label. Optional extras are:

- the jobs running on each node, coloured against the node's `slurm.conf` defaults;
- the pending jobs of each partition;
- a `TOTAL` row;
- a restriction to the nodes of one reservation.

The repository also keeps `nodestat-og.py`, the original reporter. It prints free CPUs, GPUs
and memory per node, with the nodes sorted by partition.

This project models what both scripts compute, and proves what that computation promises. The
commands' outputs (`scontrol show node`, `scontrol show job`, `scontrol show res`, `squeue`)
and the lines of `slurm.conf` are parameters. Each reader takes them as text and is proved to
compute a specification function of that text. The lemmas then state what those functions
promise:

- which keys a TRES record holds, and which item wins;
- one record per node, in first-seen order;
- the last node line wins for a node's defaults;
- the expansion of `base[a-b,c]`;
- partitions sorted with `cpu` last, and every node listed exactly once in a stable order;
- the row's amounts and labels;
- totals that do not depend on the order of the listing;
- job annotations and queue lines joined as the source joins them.

Modules, one per concern:

- `Wrappers`: `Option`, and the `Some`s of a list of options.
- `PyStr`: the Python string operations the source uses. These are `strip`, `split`,
  `startswith`, `in`, `replace`, `join`, `int()` on decimal numerals and `str()`.
- `Dicts`: `Dict`, an insertion-ordered dictionary.
- `Order`: lexicographic string order and `sorted(set(...))`.
- `Grouping`: the stable grouping by partition that both scripts' node orders reduce to.
- `Tres`: `parse_tres` of both revisions and `parse_mem`.
- `NodeInfo`: `get_slurm_node_info` of both revisions.
- `Jobs`: `get_slurm_jobs`.
- `SlurmConf`: `get_node_default_values`.
- `Reservation`: `get_nodes_in_reservation`.
- `Report`: the node table of `main`, covering partition order, rows, labels, the reservation
  filter and totals.
- `Annotate`: the `-j`/`-m` job annotations and the `-q` queue line.
- `Og`: the table of `nodestat-og.py`.

Methods carry the source's loops. Each one's `ensures` ties its result to the specification
function, and the lemmas beside it state that function's properties.

## Model

| member | source | states |
|---|---|---|
| Tres.AssignItems | nodestat.py:11-13 | The item loop, which splits each item at `=` and stores the value under its key, yields the dictionary `Assign` of the items. |
| Tres.ParseTres | nodestat.py:8-20 | `parse_tres` of the current revision yields `TresOf(s)`: the items, stripped, over the three defaults. |
| Tres.ParseTresOg | nodestat-og.py:4-9 | `parse_tres` of the original revision yields the raw items, with no defaults. |
| Tres.WithDefaults | nodestat.py:14-19 | The keys are those given plus `cpu`, `mem` and `gres/gpu`. Every given value is kept. A missing key gets `0`, `0G` or `0`. |
| Tres.AssignKeys | nodestat.py:11-13 | The dictionary holds exactly the keys of the items. |
| Tres.AssignLastWins | nodestat.py:11-13 | A key holds the value of the last item that names it. |
| Tres.ParseTresContract | nodestat.py:8-20 | The three keys are always present. The keys are the items' keys plus the defaults' keys. Each key has the last item's stripped value. A default appears only where no item gives that key. |
| Tres.ParseTresOgContract | nodestat-og.py:4-9 | Exactly the items' keys are present, each with the raw value of the last item naming it. |
| Tres.TresOfTwo | nodestat.py:8-20 | `k1=v1,k2=v2` with distinct keys parses to those two entries over the defaults. |
| Tres.TresOfThree | nodestat.py:8-20 | Three items with distinct keys parse to those three stripped entries over the defaults. |
| Tres.ParseMem | nodestat.py:55-62 | Whole gigabytes: `M` values divided by 1000 and `K` values by 1000000, both truncated. With any other unit the number before the last character is taken as it is. |
| Tres.ParseMemExamples | nodestat.py:55-62 | `2048M` gives 2, `512M` gives 0 and `128G` gives 128. `128`, which has no unit, gives 12. |
| NodeInfo.ParseNodeInfo | nodestat.py:22-53 | Reading `scontrol show node` of either revision yields `Run` of its lines, which the lemmas below characterise. |
| NodeInfo.ReadLines | nodestat-og.py:16-42 | The line loop yields the parser state after every line's event, in order. |
| NodeInfo.ReadLine | nodestat.py:28-51 | One line's body moves the parser to `Apply` of the line's event. |
| NodeInfo.ReadEvent | nodestat.py:28-50 | The `if`/`elif` chain classifies the stripped line. Only the current revision reads `State`. |
| NodeInfo.Store | nodestat.py:30-51 | `NodeName` starts a fresh record and makes it current. An attribute line writes into the current record. |
| NodeInfo.ReadCfg | nodestat.py:36-39 | A `CfgTRES` list is read by the revision's `parse_tres`. |
| NodeInfo.ReadAlloc | nodestat-og.py:30-42 | An empty `AllocTRES` list reads as all zero. Otherwise the list goes through `parse_tres`, and the original fills in the three defaults by hand. |
| NodeInfo.PlayKeys | nodestat.py:29-31 | One dictionary entry per node name, in first-seen order. A repeated `NodeName` line does not move its entry. |
| NodeInfo.PlayBlock | nodestat.py:27-51 | A `NodeName` line followed by attribute lines gives that node a fresh record, filled in by those lines. Every other record is unchanged. |
| NodeInfo.PlayConcat | nodestat.py:27-51 | Reading two stretches of lines one after the other is reading them together. |
| NodeInfo.RunFilled | nodestat.py:36-47 | Every allocation record has `cpu`, `mem` and `gres/gpu`. In the current revision every configuration record has them too. The original revision never records a state. |
| NodeInfo.RunKeys | nodestat.py:29-31 | The parsed listing has one entry per distinct `NodeName`, in first-seen order. |
| Jobs.ParseJobs | nodestat.py:64-84 | Reading `scontrol show job` yields `Table` of its blank-line separated blocks. |
| Jobs.ReadBlocks | nodestat.py:68-82 | The block loop yields the table of every block read, a later block replacing an earlier one with the same id. |
| Jobs.ReadBlock | nodestat.py:69-71 | A block is skipped unless its stripped text names a `JobId=`. |
| Jobs.ReadJob | nodestat.py:72-82 | Reads the id, nodes, state, user and TRES of a job block. A `null` TRES list is replaced by the zero list. |
| Jobs.TableContract | nodestat.py:64-84 | The table holds exactly the ids of the blocks that name a job. Each id's job comes from the last block naming it. |
| Jobs.NullTresIsZero | nodestat.py:79-81 | The replacement list `cpu=0,mem=0G,gres/gpu=0` parses to the all-zero record. |
| Jobs.JobTres | nodestat.py:78-82 | Every job's TRES has the three keys. A `null` list gives all zero. Any other list gives `TresOf` of the `TRES=` field. |
| Jobs.JobFields | nodestat.py:72-76 | The job id stops at the first space. The user name stops at the first `(`. |
| SlurmConf.ReadDefaults | nodestat.py:86-101 | The loop over the lines of `slurm.conf` yields `DefaultsOf(lines)`. |
| SlurmConf.ReadConfLine | nodestat.py:91-100 | A `Nodes=` line sets its `DefMemPerCPU` and `DefCpuPerGPU`, each 0 when absent, for every node it names. Any other line changes nothing. |
| SlurmConf.AssignNames | nodestat.py:99-100 | The inner loop gives every listed name the line's defaults and keeps every other entry. |
| SlurmConf.Override | nodestat.py:99-100 | The keys are the old ones plus the listed names. The listed names get the new defaults. The others keep theirs. |
| SlurmConf.DefaultsContract | nodestat.py:86-101 | The table holds exactly the nodes listed on some `Nodes=` line. Each node has the defaults of the last line listing it. |
| Reservation.NodeLines | nodestat.py:106 | A line is kept iff its stripped form starts with `Nodes=`. The result is empty iff no line does. |
| Reservation.NodeLinesConcat | nodestat.py:106 | The filter keeps order: the `Nodes=` lines of `a + b` are those of `a` followed by those of `b`. |
| Reservation.NodeLinesCount | nodestat.py:106 | Each `Nodes=` line is kept as often as it occurs, and no other line is kept. |
| Reservation.GetNodesInReservation | nodestat.py:103-126 | Reading `scontrol show res` yields `Reserved`: the names on the first `Nodes=` line, or none. |
| Reservation.ExpandRanges | nodestat.py:115-120 | The item loop yields the names of the items, item after item. |
| Reservation.SpanNames | nodestat.py:117-118 | The range `lo-hi` stands for exactly the names `base + str(i)` with `lo <= i <= hi`, each once, `hi - lo + 1` of them. |
| Reservation.ItemExamples | nodestat.py:116-120 | An item without `-` is the single name `base + item`. A decimal item `a-b` is the span from `a` to `b`. |
| Reservation.BracketExample | nodestat.py:112-120 | `base[a-b,c]` expands to the span `a..b` followed by `base + str(c)`. |
| Reservation.NodeRangeExample | nodestat.py:112-120 | `node[1-2,5]` expands to `node1`, `node2` and `node5`, for any base name. |
| Reservation.ReservedFromFirst | nodestat.py:106-109 | The reserved nodes are those of the first `Nodes=` line. |
| Reservation.ReservedNone | nodestat.py:126 | Without a `Nodes=` line no node is reserved. |
| Reservation.TrailingFieldKept | nodestat.py:109 | As written, `Nodes=gpu1 NodeCnt=1` reads as the single name `gpu1 NodeCnt`. |
| Reservation.TrailingFieldCut | nodestat.py:109 | With the value cut at the first space, the same line reads as `[gpu1]`. |
| Reservation.ReservedNodesAreNames | nodestat.py:109 | With the value cut at the first space, no name read contains a space. |
| Report.WithoutSorted | nodestat.py:156 | Removing an element from a sorted list of distinct items keeps it sorted and drops exactly that element. |
| Report.PartitionOrderContract | nodestat.py:153-157 | Every partition comes exactly once. `cpu`, when used, comes last. The others come in strictly ascending order. |
| Report.OrderContract | nodestat.py:153-157 | The partitions listed are exactly those of the nodes, each once. |
| Report.DisplayedContract | nodestat.py:167-169 | Every node is listed exactly once, under its own partition. Within each partition the nodes keep their dictionary order. |
| Report.DisplayedOrder | nodestat.py:153-169 | The nodes of `cpu` come after all others. The others come in ascending order of partition. |
| Report.Listed | nodestat.py:147-149 | With a reservation, exactly the nodes it names that the listing holds remain, in the listing's order, with their records unchanged. Without one the listing is returned unchanged. |
| Report.RowFrom | nodestat.py:170-222 | Outside `IDLE`/`MIXED`/`ALLOCATED`, and with no reservation named, the row shows `RESERVED` iff the state contains `RESERVED`, otherwise `SUSPENDED`, and blanks. Otherwise each column shows free = configured - allocated over configured. The GPU column is a dash iff no GPUs are configured. |
| Report.ReadAmounts | nodestat.py:171-201 | The `int(...)` and `parse_mem(...)` reads of a node's records yield its `Usage`. |
| Report.ShowNode | nodestat.py:170-222 | The body of the node loop yields the node's row and adds its amounts to the running totals. |
| Report.Report | nodestat.py:147-224 | Only the listed nodes need to be readable. The table is the rows of the listed nodes in display order. The totals are the tally of those nodes. |
| Report.ReportNodes | nodestat.py:167-224 | The partition loop yields the rows and totals of all nodes, partition after partition. |
| Report.ReportPartition | nodestat.py:168-224 | The node loop appends the rows of one partition's nodes and adds their amounts. |
| Report.TotalsContract | nodestat.py:159-203 | The totals do not depend on the display order: they equal the tally over the dictionary, and count every listed node. Labelled nodes are included. |
| Report.TotalRow | nodestat.py:311-333 | The `TOTAL` row shows the totals' free over configured CPUs, GPUs and memory. Each count is red iff nothing of it is free, and green otherwise. |
| Annotate.JobKeyContract | nodestat.py:244 | An id without `_` is its own key. Otherwise the key is the text before the first `_`. |
| Annotate.RecommendedMem | nodestat.py:251 | The recommended memory is `DefMemPerCPU` times the CPUs, divided by 1000. |
| Annotate.Megabytes | nodestat.py:251 | `parse_mem(str(n) + "M")` is `n / 1000`. |
| Annotate.NoteContract | nodestat.py:236-266 | A row is annotated with its user and CPU text and its job's GPUs and memory. CPUs are within iff at most `DefCpuPerGPU` per GPU, or 2 without GPUs. Memory is within iff at most the recommended memory. The GPU count is grey iff it is `0`. |
| Annotate.AnnotateRow | nodestat.py:236-273 | One row's body yields its annotation, or none for a blank row. |
| Annotate.Judge | nodestat.py:249-266 | The recommendations and the comparisons give the annotation's colours. |
| Annotate.AnnotateRows | nodestat.py:235-273 | The row loop appends each annotation followed by `", "`. |
| Annotate.AnnotateNode | nodestat.py:231-274 | The annotation of a node row is the row text followed by its annotations, with the last `", "` cut. Output without a line break leaves the row as it is. |
| Annotate.CutCommaJoins | nodestat.py:273-274 | Appending each text followed by `", "` and then cutting the last `", "` joins the texts with `", "`. |
| Annotate.AnnotatedJoin | nodestat.py:234-274 | The node row is followed by the annotations of its non-blank rows, in order and joined with `", "`. |
| Annotate.QueuedRows | nodestat.py:283-292 | The queued jobs of `squeue`'s output are `Queued` of its rows. |
| Annotate.CollectQueued | nodestat.py:287-292 | The row loop keeps the stripped rows whose third word starts with `(`, in order. |
| Annotate.QueuedContract | nodestat.py:285-292 | A row is queued iff it is non-blank and its reason starts with `(`. Everything queued is the stripped text of some row. |
| Annotate.QueueReason | nodestat.py:299-301 | The reason shown is the reason words joined with spaces, without the opening `(` and without the last character. |
| Annotate.RenderQueue | nodestat.py:294-307 | The mark is followed by each queued job's `user(reason)` and then `-`. |
| Annotate.QueueSummary | nodestat.py:283-308 | A partition's queue line is `QueueLine` of `squeue`'s output. |
| Annotate.QueueLineJoin | nodestat.py:293-308 | There is a queue line iff some row is queued. It is the mark followed by the queued jobs' texts joined with `-`. |
| Og.SortedContract | nodestat-og.py:49 | The stable sort lists every node once, in ascending order of partition, and keeps each partition's dictionary order. |
| Og.TruncDiv | nodestat-og.py:53 | `int(x / d)` truncates toward zero: for `x >= 0`, `q*d <= x < q*d + d`, and symmetrically for `x < 0`. |
| Og.RowFrom | nodestat-og.py:50-53 | Free CPUs plus allocated CPUs equal configured CPUs, and the same for GPUs. Free memory is the difference of the numbers before the units, divided by 1024 and truncated toward zero. |
| Og.ReadAmounts | nodestat-og.py:50-52 | The `int(...)` and `float(v[0:-1])` reads of a node's records yield its `Usage`. |
| Og.ShowNode | nodestat-og.py:50-53 | The loop body yields the node's row. |
| Og.OgReport | nodestat-og.py:49-56 | The table is the row of every node, in the sorted order. |
| Og.IntTextRoundTrip | nodestat-og.py:54 | The printed free memory reads back as the number. |
| Og.MemTextReadsBack | nodestat-og.py:54 | The memory cell is the number's text followed by ` G`, and that text reads back as the number. |
| Og.UnitsAgreeOnMegabytes | nodestat-og.py:52-53 | When both values are in megabytes, the unit-aware reading and the original one agree. |
| Og.UnitInvariance | nodestat-og.py:52 | With units taken into account, `nG` and `(1024n)M` are the same amount. |
| Og.MixedUnits | nodestat-og.py:52-53 | Configured `(1024n)M` and allocated `nG` with `n >= 2`: the original shows free memory where the unit-aware reading shows 0. |
| Og.MixedUnitsExample | nodestat-og.py:52-53 | Configured `515000M` and allocated `250G`: the original shows 502 G free, where the unit-aware reading shows 252 G. |

## Left out

- Terminal colours, column padding, the header line and `print` are not modelled. Cells and
  annotations carry their colour as a value (`Exhausted`, `Fit`, `GpuShade`, `Label`).
- Running `scontrol`, `squeue` and reading `/etc/slurm/slurm.conf` are not modelled. Their
  outputs are parameters.
- Choosing the `squeue` command by `-j`/`-m` is left out, because it changes only which text
  is read.
- Parsing the command-line options is left out. The reservation node list and the `filtered`
  flag are parameters of `Report.Report`.
- `Report.Report` does not compose the annotations into the node loop. `Annotate.AnnotateNode`
  and `Annotate.QueueSummary` are the per-node and per-partition steps that `main` runs after
  each row and after each partition.
- `float()` is not modelled. Memory values are whole decimal numerals, and the float
  quotients are replaced by integer division:
  - `parse_mem` divides by 1000 or by 1000 twice and then truncates. The model takes
    `n / 1000` and `n / 1000000`.
  - The original divides by 1024 and truncates toward zero. The model uses `Og.TruncDiv`.
  - The float quotients are rounded. The model assumes that truncating the rounded float
    gives the integer quotient, which holds for amounts below 2^53 because the rounding error
    never crosses an integer there.
  - Decimal points, exponents, `inf` and `nan` are not accepted.
- `int()` accepts only an optionally space-padded decimal numeral here. Signs and `_`
  separators are not accepted.
- Job and defaults tables are `map`s. Their key order is never observed by the reporter.
- Input the source raises on is excluded by `requires` predicates (`Readable`, `Shown`,
  `Parsable`, `RowReadable`, `QueueRowReadable`). On such input the helper functions behind
  those predicates (`Report.Number`, `Report.Memory`, `Annotate.NoteOf`,
  `Annotate.QueueText`, `Reservation.ItemNames`) return a placeholder, where Python raises.
- Og.Shown: a configuration record without `gres/gpu` raises a `KeyError` in the original,
  because only allocation records get defaults there. The model requires the key instead.
- The queued job's id (`jobid` at nodestat.py:298) is computed but never shown, so it is not
  modelled.
- `setup.py` is packaging only and is not part of this model.

## Findings

| source | as written | input that shows it | evidently intended | confidence | as-written member | corrected member |
|---|---|---|---|---|---|---|
| nodestat.py:109 | `split('=')[1].strip()` keeps everything up to the next `=`, so the `NodeCnt` field that `scontrol show res` prints on the same line ends up in the last name | `Nodes=gpu1 NodeCnt=1` reads as `["gpu1 NodeCnt"]`, so the reservation filter drops `gpu1` | cut the value at the first space, as every other field reader of the tool does: `["gpu1"]` | high, not executed | Reservation.TrailingFieldKept | Reservation.TrailingFieldCut |
| nodestat-og.py:52-53 | `float(v[0:-1])` drops the unit of each `mem` value and subtracts the bare numbers, though Slurm prints each amount in the largest unit that divides it | configured `mem=515000M` with allocated `mem=250G` shows `502 G` free | bring both values to one unit before subtracting: `252 G` | medium, not executed | Og.MixedUnitsExample | Og.UnitsAgreeOnMegabytes |
