# linux_rx_tune affinity engine, in Dafny

This project models the affinity engine of `linux_rx_tune`, a tool that
spreads a multi-queue NIC's interrupts and queues over the CPU cores of a
two-node NUMA machine and writes the result as kernel affinity masks.
The engine has five parts:

- **Digits** (`digits.dfy`): the numerals underneath Ruby's `to_i(base)`,
  `to_s` and `sprintf("%0Nb")` / `sprintf("%.Nx")`. It covers values,
  fixed-width padding and uniqueness of representations.
- **Codec** (`codec.dfy`): the bitmap and hexmap conversions of the
  `Topology` helper. They are `hex_to_dec`, `dec_to_bin`, `dec_to_hex`,
  `cores_to_bin`, `bin_to_cores`, `core_list_to_hexmap` and the decode half
  of `hexmap_to_core_list`.
- **Numa** (`numa.dfy`): the NUMA partitioner. It covers
  `get_numa_cores`, `is_numa0?`/`is_numa1?`, `get_numa_split`,
  `hexmap_to_core_list` and the sibling lookups `get_numa0_hex` and
  friends. The CPU topology table, which the tool keeps in a process-wide
  singleton filled from sysfs, is a parameter: entry i describes core i.
- **Affinity** (`affinity.dfy`): the round-robin assignor. It covers
  `assign_affinity`, `enable_rss_numa_per_core`,
  `enable_rss_numa_all_cores`, `enable_rps_numa0`, `enable_xps_numa0` and
  `enable_xps_numa1`. The interrupt table (interface name to irq per
  channel, in discovery order) is a parameter with unique names, as the
  keys of a Ruby Hash are.
- **Report** (`report.dfy`): the row logic of `show_net_affinity`. The text
  of each irq's `smp_affinity` file is a parameter.

The model follows the code as written. Several behaviours of the code are
easy to misread:

- `core_list_to_hexmap` inserts **no** comma. It returns the bare
  zero-padded hex digits, as the tests pin (`"0040000400"`).
- `hex_to_dec` uses `gsub!`. On a mask with no comma, `gsub!` returns nil
  and the conversion fails. The model returns `Err(MissingComma)` there, so
  a mask the encoder wrote is always rejected by the decoder
  (`Codec.EncodedMaskIsRejected`).
- `bin_to_cores` counts positions from the **left**. `cores_to_bin`
  writes the highest core on the left. Decoding encode(S) as it stands fails
  (see above). With a comma put in, decoding it gives not S but S's mirror
  image, core i standing for core_cnt-1-i (`Codec.DecodeMirrors`,
  `Numa.HexmapToCoreListMirrors`). The model keeps the left count. Of the
  repository's tests, only spec/linux_rx_tune_spec.rb:50 (`[10,30]`) agrees
  with the code. The expectations at spec/linux_rx_tune_spec.rb:49, :51 and
  :55 contradict it: they read the bitmap as numbered 1-based from the
  right. On the 40-character `'0…01'` of line 49 the loop gives `[39]`, not
  `[1]` (`Codec.LowBitIsLast`).
- `assign_affinity` with an empty core list does not fail. Each irq gets
  the all-zero mask of `[nil]` and the core `nil`
  (`Affinity.SlotAffinitySpec`).
- In a per-core plan the second element of each value is the single core
  `cores[cidx]` (bin/linux_rx_tune.rb:251), not a one-element list. The
  model stores the core as well (`Affinity.SlotAffinitySpec`). The
  expectations at spec/linux_rx_tune_spec.rb:84-97 write it as a list
  (`[21]`), so they do not match the code.
- An invalid NUMA selector warns and gives an empty core list: `warned` in
  `Affinity.SelectCores`.

Out-of-range array reads in Ruby give nil. The model returns
`Option.None` from `Affinity.Get` for them, and a hash key that is
assigned twice keeps its last value.

## Model

| member | source | states |
|---|---|---|
| Digits.ToDigits | bin/linux_rx_tune.rb:52-62 | `to_s`/`to_i`'s numeral: at least one lower-case digit of the base, with no leading zero: 0 is written "0" and nothing else starts with '0' |
| Digits.FromToDigits | bin/linux_rx_tune.rb:52-62 | reading back the digits that `to_s`/`sprintf` write gives the same number |
| Digits.ToDigitsInjective | bin/linux_rx_tune.rb:52-62 | two numbers with the same minimal numeral are equal |
| Digits.DigitsUnique | bin/linux_rx_tune.rb:60-62 | two lower-case numerals of one width and one value are the same string |
| Digits.FixedWidth | bin/linux_rx_tune.rb:56-62 | a value below base^w, zero-padded to w, has exactly w lower-case digits and keeps its value |
| Digits.ZeroPadValue | bin/linux_rx_tune.rb:56-62 | left zero-padding does not change the value of a numeral |
| Digits.FromDigitsBound | bin/linux_rx_tune.rb:52-62 | a numeral of k digits is worth less than base^k |
| Digits.TopDigitsValue | bin/linux_rx_tune.rb:99-102 | k digits of base-1 (all `f` in hex) are worth base^k - 1 |
| Codec.RemoveCommas | bin/linux_rx_tune.rb:53 | the stripped text has exactly the non-comma characters, and a comma-free text is unchanged; Codec.RemoveCommasAppend fixes their order and count |
| Codec.RemoveCommasAppend | bin/linux_rx_tune.rb:53 | stripping a concatenation strips each part in turn and appends the results, so the characters that remain keep their order and number |
| Codec.HexToDec | bin/linux_rx_tune.rb:52-54 | fails exactly when the mask has no comma; otherwise a decimal numeral with the value of the comma-stripped hex digits and no leading zero, as `Integer#to_s` writes it |
| Codec.DecToBin | bin/linux_rx_tune.rb:56-58 | a binary numeral of the decimal's value, at least core_cnt wide, exactly core_cnt wide when the value fits, and with no leading zero when wider, as `%0Nb` pads only up to N |
| Codec.DecToHex | bin/linux_rx_tune.rb:60-62 | a lower-case hex numeral of the decimal's value, at least core_cnt/4 wide, exactly that wide when the value fits, and with no leading zero when wider, as `%.Nx` pads only up to N |
| Codec.BitmapAt | bin/linux_rx_tune.rb:90-96 | character k of the bitmap is '1' exactly when core core_cnt-1-k is in the list |
| Codec.BitmapValue | bin/linux_rx_tune.rb:90-96 | the bitmap read in base 2 is the sum of 2^c over the listed cores below core_cnt |
| Codec.MaskBound | bin/linux_rx_tune.rb:90-96 | the mask value is below 2^core_cnt |
| Codec.BitmapSameMembers | bin/linux_rx_tune.rb:90-96 | two lists with the same members below core_cnt give the same bitmap and mask, whatever their order or duplicates |
| Codec.MaskSingle | bin/linux_rx_tune.rb:90-96 | a one-core list is worth 2^c, or 0 when the core is not below core_cnt |
| Codec.MaskEmpty | bin/linux_rx_tune.rb:90-96 | the empty list is worth 0 |
| Codec.MaskFull | bin/linux_rx_tune.rb:90-96 | a list holding every core below core_cnt is worth 2^core_cnt - 1 |
| Codec.CoresToBin | bin/linux_rx_tune.rb:90-96 | the per-index loop over `Array.new(core_cnt, 0)` followed by `reverse.join` yields Bitmap |
| Codec.OnesUpToSpec | bin/linux_rx_tune.rb:64-69 | helper of Codec.OnesSpec: the positions found among the first k characters are strictly ascending and are exactly those holding '1' |
| Codec.OnesUpToZeros | bin/linux_rx_tune.rb:64-69 | helper of Codec.LowBitIsLast: no position is found among leading '0' characters |
| Codec.LowBitIsLast | bin/linux_rx_tune.rb:64-69 | a bitmap k+1 wide whose only '1' is its last character gives exactly [k] |
| Codec.OnesSpec | bin/linux_rx_tune.rb:64-69 | bin_to_cores returns, ascending, exactly the left-counted positions of '1' |
| Codec.BinToCores | bin/linux_rx_tune.rb:64-69 | the `each_index` loop pushing i when `c[i] == "1"` yields Ones |
| Codec.HexWidth | bin/linux_rx_tune.rb:99-102 | a value below 2^core_cnt prints in exactly core_cnt/4 hex digits when core_cnt is a multiple of 4 |
| Codec.CoreListToHexmap | bin/linux_rx_tune.rb:99-102 | `sprintf("%.Nx")` of the bitmap read in base 2; its contract is stated by Codec.CoreListToHexmapSpec |
| Codec.CoreListToHexmapSpec | bin/linux_rx_tune.rb:99-102 | comma-free lower-case hex worth the list's mask, at least core_cnt/4 digits, exactly core_cnt/4 when core_cnt is a multiple of 4, and with no leading zero when wider than core_cnt/4 |
| Codec.HexmapToCores | bin/linux_rx_tune.rb:82-87 | the decode fails exactly when the mask has no comma |
| Codec.DecodeMirrors | bin/linux_rx_tune.rb:82-102 | decoding the encoder's digits (with a comma put in) succeeds, ascending, and holds position i exactly when i is below core_cnt and core core_cnt-1-i was encoded |
| Codec.DecodedBitmap | bin/linux_rx_tune.rb:52-58 | the bitmap the decode rebuilds is exactly the one cores_to_bin wrote |
| Codec.EncodedMaskIsRejected | bin/linux_rx_tune.rb:52-54 | a mask core_list_to_hexmap wrote, fed back unchanged, makes hex_to_dec fail |
| Codec.EmptyListMask | bin/linux_rx_tune.rb:99-102 | with no core the mask is core_cnt/4 zeros, or a single "0" below four cores |
| Codec.FullListMask | bin/linux_rx_tune.rb:99-102 | a list naming every core gives core_cnt/4 `f` digits |
| Numa.NodeCoresSpec | bin/linux_rx_tune.rb:127-141 | a node's core list is strictly ascending and holds exactly the indices whose record names that node |
| Numa.NodeCoresDisjoint | bin/linux_rx_tune.rb:127-141 | two nodes' lists share no core |
| Numa.NodeCoresCover | bin/linux_rx_tune.rb:127-141 | when every core is on node 0 or 1, the two lists together count every core |
| Numa.GetNumaCores | bin/linux_rx_tune.rb:127-132 | the `each_index` loop pushing matching indices yields NodeCores |
| Numa.IsNumaSpec | bin/linux_rx_tune.rb:144-152 | is_numa? holds exactly when the core is in the table and its record names that node |
| Numa.OnNodeSpec | bin/linux_rx_tune.rb:73-80 | `map … compact!` keeps the input order and exactly the listed cores on the node, each as many times as the input lists it, and never grows the list |
| Numa.OnNodeOrder | bin/linux_rx_tune.rb:75-78 | helper of Numa.OnNodeSpec: order, membership and length of the filtered list |
| Numa.OnNodeCounts | bin/linux_rx_tune.rb:75-78 | helper of Numa.OnNodeSpec: a core on the node is kept as often as it is listed, any other core never |
| Numa.OnNodeCount | bin/linux_rx_tune.rb:73-80 | when every listed core is on node 0 or 1, the two sides together keep every element |
| Numa.NumaSplit | bin/linux_rx_tune.rb:73-80 | the node-0 and node-1 filters of the list; its contract is stated by Numa.NumaSplitSpec |
| Numa.NumaSplitSpec | bin/linux_rx_tune.rb:73-80 | each side keeps the list's order and exactly the cores on its node, each as many times as the list holds it; no core is on both, and nothing is dropped when all cores are on nodes 0 and 1 |
| Numa.NodeSide | bin/linux_rx_tune.rb:75-78 | helper of Numa.NumaSplitSpec: one side's order, members and multiplicities, with the node test read off the table |
| Numa.TwoNodeCount | bin/linux_rx_tune.rb:73-80 | helper of Numa.NumaSplitSpec: on a two-node list the sides' lengths add up to the list's |
| Numa.HexmapToCoreList | bin/linux_rx_tune.rb:82-87 | fails exactly when the mask has no comma |
| Numa.HexmapToCoreListMirrors | bin/linux_rx_tune.rb:82-102 | decoding an encoded list succeeds and puts position i on a node's side exactly when core core_cnt-1-i was encoded and core i is on that node |
| Numa.OnNodeMirrors | bin/linux_rx_tune.rb:73-80 | splitting the mirrored positions keeps on each side exactly the mirrored positions on that node |
| Numa.NodeRecordsAt | bin/linux_rx_tune.rb:159-173 | the node's records are one per node core, in core order |
| Numa.SiblingsHex | bin/linux_rx_tune.rb:159-169 | the `siblings_hex` of the node's records in core order; its contract is stated by Numa.SiblingsInCoreOrder and Numa.NodeRecordsAt |
| Numa.SiblingsStr | bin/linux_rx_tune.rb:163-173 | the `siblings_str` of the node's records in core order; its contract is stated by Numa.SiblingsInCoreOrder and Numa.NodeRecordsAt |
| Numa.SiblingsInCoreOrder | bin/linux_rx_tune.rb:159-173 | the k-th sibling mask and list describe the k-th core of get_numa_cores for that node |
| Affinity.Selected | bin/linux_rx_tune.rb:260-272 | the cores the `case numa` picks; its contract is stated by Affinity.SelectedSpec |
| Affinity.SelectedSpec | bin/linux_rx_tune.rb:258-273 | the selection holds exactly the wanted cores, without duplicates, is empty for an invalid selector, and for -1 on a two-node machine counts every core |
| Affinity.SelectCores | bin/linux_rx_tune.rb:260-272 | the `case numa` yields Selected and warns exactly on an invalid selector |
| Affinity.IrqPathInjective | bin/linux_rx_tune.rb:251 | two irqs have the same `/proc/irq/N/smp_affinity` path exactly when they are the same irq |
| Affinity.SlotRounds | bin/linux_rx_tune.rb:247-252 | helper of Affinity.SlotMod: on a non-empty list step i is position Slot of round Rounds, Slot below the length |
| Affinity.SlotRoundsStep | bin/linux_rx_tune.rb:247-252 | helper of Affinity.LoadRounds: one step of the counter moves to the next position, or from the last back to 0 and into a new round |
| Affinity.SlotMod | bin/linux_rx_tune.rb:247-252 | on a non-empty list the counter's position at step i is i mod the length, and the rounds i div the length |
| Affinity.CounterStep | bin/linux_rx_tune.rb:249-252 | helper of Affinity.AssignAffinity: after the reset the counter names slot i, and one past it is the counter at step i+1 |
| Affinity.LoadRounds | bin/linux_rx_tune.rb:247-252 | over m slots the r-th core is used once per completed round, plus once if the current round has passed it |
| Affinity.SlotHit | bin/linux_rx_tune.rb:247-252 | slot i gets the r-th core exactly when i mod len is r |
| Affinity.LoadBalanced | bin/linux_rx_tune.rb:247-252 | over m slots the r-th core is used m div len times, plus one when r < m mod len |
| Affinity.LoadOutside | bin/linux_rx_tune.rb:247-252 | a core not in the list is never used |
| Affinity.LoadWithinOne | bin/linux_rx_tune.rb:247-252 | every listed core is used between m div len and m div len + 1 times |
| Affinity.IrqPathsSnoc | bin/linux_rx_tune.rb:251 | helper of Affinity.IrqMapKeys: one more irq adds exactly its smp_affinity path |
| Affinity.IrqMapKeys | bin/linux_rx_tune.rb:248-253 | helper of Affinity.PerCoreMapKeys: the files written for the first k irqs are exactly their smp_affinity paths |
| Affinity.IrqMapAt | bin/linux_rx_tune.rb:248-253 | helper of Affinity.PerCoreMapAt: an irq not repeated later keeps the value written at its own position |
| Affinity.SlotsAt | bin/linux_rx_tune.rb:249-251 | helper of Affinity.PerCoreMapAt: the i-th planned pair is the mask and core of slot i |
| Affinity.PerCoreStep | bin/linux_rx_tune.rb:248-253 | helper of Affinity.AssignAffinity: the plan of the first i+1 irqs is that of the first i with irq i's file set to slot i |
| Affinity.PerCoreMapKeys | bin/linux_rx_tune.rb:245-255 | the map's paths are exactly the `/proc/irq/N/smp_affinity` paths of the listed irqs |
| Affinity.PerCoreMapAt | bin/linux_rx_tune.rb:245-255 | the last occurrence of an irq decides its entry: the mask and core of its slot |
| Affinity.SlotAffinitySpec | bin/linux_rx_tune.rb:249-251 | with no cores every slot gets the all-zero mask and nil; otherwise slot i gets core cores[i mod len] and a mask worth 2^core (0 beyond core_cnt) |
| Affinity.AssignAffinity | bin/linux_rx_tune.rb:245-255 | the reset-on-length counter loop yields PerCoreMap |
| Affinity.NamesSnoc | bin/linux_rx_tune.rb:275-277 | helper of Affinity.EnableRssPerCore: one more interface adds its name, which is not among the earlier ones |
| Affinity.EnableRssPerCore | bin/linux_rx_tune.rb:258-279 | warns exactly on an invalid selector; one entry per interface, each the per-core map of the selected cores over its irqs |
| Affinity.SameForEveryIrq | bin/linux_rx_tune.rb:298-302 | the plan holds exactly the irqs' smp_affinity files, each mapped to the one shared value |
| Affinity.EnableRssAllCores | bin/linux_rx_tune.rb:281-305 | warns exactly on an invalid selector; one entry per interface, whose paths are its irqs' paths, each mapped to the mask of the whole selection and the selection |
| Affinity.AllCoresMaskIsFull | bin/linux_rx_tune.rb:281-295 | on a two-node machine with core_cnt a multiple of 4, selector -1 writes the all-`f` mask |
| Affinity.LastDashAppend | bin/linux_rx_tune.rb:311-357 | helper of Affinity.QueueSuffix: the last '-' of a path is the one ending the queue directory when the suffix has none |
| Affinity.QueueSuffix | bin/linux_rx_tune.rb:311-357 | after the last '-' a queue path holds exactly the queue number and the cpus file name |
| Affinity.QueuePathInjective | bin/linux_rx_tune.rb:311-357 | two queues have the same sysfs path exactly when they have the same interface and index |
| Affinity.QueuePrefixLength | bin/linux_rx_tune.rb:320 | helper of Affinity.QueuePathInjective: two queues with the same path have directory parts of the same length |
| Affinity.QueuePrefixInjective | bin/linux_rx_tune.rb:320 | helper of Affinity.QueuePathInjective: two interfaces with the same queue-directory prefix are the same interface |
| Affinity.FilesSpec | bin/linux_rx_tune.rb:311-357 | every planned queue's path maps to its value, and every path comes from a planned queue |
| Affinity.SteeringFiles | bin/linux_rx_tune.rb:311-357 | a plan holding exactly the table's queues with their round-robin values renders to exactly their paths and values |
| Affinity.InTableSnoc | bin/linux_rx_tune.rb:315-323 | helper of Affinity.EnableQueueSteering: the queues of the first i+1 interfaces are those of the first i and the channels of interface i |
| Affinity.SteerQueues | bin/linux_rx_tune.rb:317-322 | the queues of one interface are added, each with the value of its round-robin slot, and every other entry is kept |
| Affinity.EnableQueueSteering | bin/linux_rx_tune.rb:311-357 | every queue of every interface gets its path mapped to the node's sibling mask and list at its round-robin slot, and no other path is written |
| Affinity.QueueValueSpec | bin/linux_rx_tune.rb:313-320 | a queue gets nil and nil when the node has no cores, otherwise the siblings of the node's core at idx mod its core count |
| Report.PadLeft | bin/linux_rx_tune.rb:229-238 | `%Ns` right-aligns: the text ends the result, spaces fill the rest, and nothing is cut |
| Report.CountAppend | bin/linux_rx_tune.rb:237-238 | helper of Report.CoreCellSpec: counting commas in a concatenation adds the counts |
| Report.JoinCommas | bin/linux_rx_tune.rb:237-238 | helper of Report.CoreCellSpec: joining n comma-free items with "," puts in n-1 commas |
| Report.FieldsJoin | bin/linux_rx_tune.rb:229-238 | helper of Report.CoreCellSpec and Report.LineColumns: splitting separator-free items joined with the separator gives the items back |
| Report.FieldsPrefix | bin/linux_rx_tune.rb:229-238 | helper of Report.FieldsJoin: a separator-free start of a text lengthens the text's first field and nothing else |
| Report.JoinAvoids | bin/linux_rx_tune.rb:229-238 | helper of Report.LineColumns: joining texts free of a character with a separator free of it gives a text free of it |
| Report.PadLeftAvoids | bin/linux_rx_tune.rb:229-238 | helper of Report.LineColumns: padding with spaces brings in no other character |
| Report.DigitsAvoidTab | bin/linux_rx_tune.rb:236 | helper of Report.LineColumns: a numeral holds no tab |
| Report.CoreCellAvoidsTab | bin/linux_rx_tune.rb:237-238 | helper of Report.LineColumns: a core cell holds no tab |
| Report.TabColumns | bin/linux_rx_tune.rb:229-238 | helper of Report.LineColumns: five tab-free columns joined with tabs split back into the five |
| Report.Header | bin/linux_rx_tune.rb:229 | the `%10s\t%3s\t%4s\t%20s\t%20s` title line; its contract is stated by Report.HeaderColumns |
| Report.HeaderColumns | bin/linux_rx_tune.rb:229 | the header's tab-separated columns are `iface`, `ch`, `irq`, `numa0` and `numa1`, right-aligned in 10, 3, 4, 20 and 20 columns |
| Report.Decoded | bin/linux_rx_tune.rb:233-234 | the node split `hexmap_to_core_list` gives for a channel's mask, with the table's length as core_cnt; its contract is stated by Numa.HexmapToCoreList and Numa.NumaSplitSpec. The `([], [])` fallback is unreachable for a table whose masks are hex digits and commas (`HexMasks`) when the mask has a comma, and `ShowNetAffinity` and `ReportInterface` produce lines only when every mask has one |
| Report.Line | bin/linux_rx_tune.rb:236-238 | one channel's `%10s\t%3d\t%4d\t%20s\t%20s` row; its contract is stated by Report.LineColumns |
| Report.LineColumns | bin/linux_rx_tune.rb:236-238 | a row's tab-separated columns are the interface, the channel and the irq in decimal, right-aligned in 10, 3 and 4 columns, then the two core cells in 20 each (for an interface name without a tab) |
| Report.CoreCellFields | bin/linux_rx_tune.rb:237-238 | helper of Report.CoreCellSpec: a non-empty cell's fields are the cores in decimal, in order, each reading back as its core |
| Report.CoreCellSpec | bin/linux_rx_tune.rb:237-238 | a cell is "-" exactly when the node has no decoded core; otherwise its comma-separated fields are the cores in decimal, in order, each reading back as its core, with one comma between neighbours |
| Report.EntriesSpec | bin/linux_rx_tune.rb:230-232 | the report's entries are exactly the channels of the table's interfaces with their irqs |
| Report.RowsSnoc | bin/linux_rx_tune.rb:230-238 | helper of Report.ShowNetAffinity: one more channel adds its line at the end |
| Report.RowsAppend | bin/linux_rx_tune.rb:230-240 | helper of Report.ShowNetAffinity: the lines of two runs of channels are the first run's lines, then the second's |
| Report.EntriesSnoc | bin/linux_rx_tune.rb:230-232 | helper of Report.ShowNetAffinity: the entries of one more interface are the earlier entries, then its channels in order |
| Report.ChannelDecodable | bin/linux_rx_tune.rb:233-234 | helper of Report.ReportInterface: one more channel whose mask has a comma keeps every channel so far decodable |
| Report.ChannelStep | bin/linux_rx_tune.rb:236-238 | helper of Report.ReportInterface: pushing a channel's line extends the report of the channels before it |
| Report.ReportInterface | bin/linux_rx_tune.rb:231-239 | one interface's block fails exactly when one of its channels has a mask without a comma; otherwise it appends one line per channel, in order |
| Report.ReportStep | bin/linux_rx_tune.rb:230-240 | helper of Report.ShowNetAffinity: the lines of one more interface extend the report of the interfaces before it |
| Report.MissingComma | bin/linux_rx_tune.rb:233-234 | helper of Report.ShowNetAffinity: an interface with a mask lacking a comma makes the whole table undecodable |
| Report.ShowNetAffinity | bin/linux_rx_tune.rb:220-242 | fails exactly when some channel's mask has no comma; otherwise the header and one line per channel, joined with newlines |

## Left out

- Reading sysfs and procfs (`read_cpu_topology`, `scan_proc_interrupts`, `get_irq_cpu_map`) is left out. The topology table, the interrupt table and the `smp_affinity` text are parameters.
- `get_irq_cpu_map` uses `chomp!`, which gives nil when the file has no line end. The model takes the file text after its line end has been removed.
- The process-wide singleton, the logger, `set_kernelfs`, `dry?`, `tty?` and `source_root` are left out. They are environment and I/O.
- The Thor command line, `puts` of the plans, and the `func1`/`func2`/`start` stubs are left out. The plans are returned instead of printed.
- `warn` is modelled as a returned flag, not as output on standard error.
- Codec.HexToDec: Ruby's `to_i(16)` and `to_i` stop at the first non-digit. The model requires the comma-stripped mask, and every decimal, to be all digits.
- Codec.HexToDec: `gsub!` also strips the commas from the caller's own string in place. The model does not capture that mutation of the argument.
- Codec.CoreListToHexmap: `sprintf("%.0x", 0)` below four cores is taken to print "0".
- Gaps in an interface's irq array are not modelled: an array filled with `nil` holes by out-of-order channels is taken as a dense list of irqs.
- Affinity.EnableQueueSteering: the method builds its plan keyed by (interface, queue index) and then renders each key to its sysfs path. `Affinity.QueuePathInjective` shows this gives the same map as keying by path directly; the literal string-keyed update is not modelled.
- Report.ShowNetAffinity: requires every `smp_affinity` text to be hex digits and commas, as the kernel writes it. Other text is not modelled (see Codec.HexToDec above).
- A `cpu_topology` with a hole (a missing cpuN entry leaves nil) makes `t[i][:numa_node]` raise (bin/linux_rx_tune.rb:130, :160). The topology is a dense sequence and cannot express a hole.
- The plan Hashes keep insertion order, in which `set_rss` prints them (bin/linux_rx_tune.rb:440-445). Dafny maps have no order, so the model does not capture the printing order.
- The exception Ruby raises in `hex_to_dec` is modelled as an `Err` result, which `show_net_affinity` returns. The model does not follow the exception as it unwinds.
