# memory_dff in Dafny

A model of yosys' `memory_dff` netlist rewrite: the `MemoryDffWorker` of
`passes/memory/memory_dff.cc`. For one module the worker collects the bits
that carry an initial value, indexes the module (users count of every
canonical bit, the `$dff` cells, the `$mux` cells by their A and B inputs,
the inverter outputs), and then folds `$dff` registers into memory ports:

- in front of an asynchronous `$memwr` port, on ADDR, DATA and EN together,
  threading one clock through the three traces, or not at all;
- around an asynchronous `$memrd` port, after DATA (through a chain of
  `$mux` read-enable cells, or directly), or else before ADDR.

A merged port gets CLK, CLK_ENABLE, CLK_POLARITY, EN and TRANSPARENT set,
and a read-data merge moves the register outputs onto a fresh wire
(`disconnect_dff`).

The project has five modules:

- `Rtlil` (`rtlil.dfy`): bits, signals, the alias table behind `SigMap`,
  the `SigSpec` operations the pass calls (extract, replace,
  sort_and_unify, extend_u0), cells, wires, and a `Module` class whose wire
  and cell lists are updated in place.
- `Tracing` (`trace.dfy`): `find_sig_before_dff` as a function of the
  worker's indexes, with what a trace promises: full replacement through a
  `$dff` that holds the bit once, first match wins, one clock for all
  replaced bits (except registers clocked by the constant x, see below),
  inverter normalisation of the clock, initial-value vetoes.
- `Index` (`index.dfy`): `init_bits`, `sigbit_users_count`, `dff_cells`,
  `mux_cells_a`/`mux_cells_b` and `invbits` as functions of the wire and
  cell lists, and what each holds.
- `Merge` (`merge.dfy`): the decisions of `handle_wr_cell` and
  `handle_rd_cell`, the mux-chain walk with its enable terms, the read-port
  strategies in the order the code tries them, `disconnect_dff`, and the
  module each of them leaves.
- `MemoryDff` (`worker.dfy`): the `Worker` class with the fields of
  `MemoryDffWorker` and one method per loop or function of the source,
  each proved against the functions of the other modules.

Behaviours of the code the model keeps:

- A mux-chain step's enable is inverted when DATA enters the `$mux` on A,
  because `Y = S ? B : A` (memory_dff.cc:190,194).
- The walk steps to the canonical Y of the `$mux`; the held input on the
  other side goes to `check_q` (memory_dff.cc:192-193).
- The first mux-map lookup uses DATA as it is on the port, while the map
  keys are canonical (memory_dff.cc:184, 262-263).
- When DATA feeds a `$mux` but the chain strategy fails, the direct
  strategy is not tried (memory_dff.cc:184-231).
- Forward-merged registers are skipped only by traces after a port, so a
  write port may reuse a register another write port merged
  (memory_dff.cc:66-67).
- The tracer uses the constant x both as "no clock fixed yet" and as a
  clock value (memory_dff.cc:77-83, 95). A `$dff` whose clock is x can be
  matched while no clock is fixed, and leaves the clock unfixed, so a port
  can merge it together with registers on a real clock
  (`Merge.WrMergeAdmitsUndefClock`).

## Model

| member | source | states |
|---|---|---|
| MemoryDff.Worker.constructor | passes/memory/memory_dff.cc:39-50 | `init_bits` is `InitBits` of the wires, every other index is empty |
| Index.InitBitsExactly | passes/memory/memory_dff.cc:41-49 | a bit is in `init_bits` iff it is the canonical bit of a wire position below both the wire width and the init width whose init value is 0 or 1 |
| Rtlil.Canon | passes/memory/memory_dff.cc:54 | `sigmap(sig)` keeps the width and maps every bit to its representative |
| Rtlil.CanonIdempotent | passes/memory/memory_dff.cc:54 | applying the SigMap twice gives the same signal as once |
| Rtlil.ExtractSingle | passes/memory/memory_dff.cc:84-89 | `extract` yields one bit only when the wire bit occurs exactly once in the searched side, and then it is the bit at the opposite position |
| Tracing.FindMatch | passes/memory/memory_dff.cc:64-99 | the result is the first `$dff` in `dff_cells` order that is not skipped, whose inverter-normalised clock fits a fixed clock, and which holds the bit once; None iff no `$dff` is eligible |
| MemoryDff.Worker.FindDff | passes/memory/memory_dff.cc:64-99 | the inner loop over `dff_cells` returns exactly `FindMatch` |
| Tracing.TraceReplaces | passes/memory/memory_dff.cc:52-106 | a successful trace keeps the width and replaces every canonical bit: constants stay, each wire bit comes from a `$dff` that holds it once, clocked by the returned clock and polarity or by the constant x, with no initial value moved across |
| MemoryDff.Worker.FindSigBeforeDff | passes/memory/memory_dff.cc:52-106 | the bit loop returns the verdict, signal, clock and polarity of `Trace`, and `candidate_dffs` grows by exactly the `$dff`s the trace used |
| Tracing.TraceKeepsFixedClock | passes/memory/memory_dff.cc:77-96 | a clock fixed on entry comes out unchanged with its polarity, whether the trace succeeds or not |
| Tracing.TraceAllConstant | passes/memory/memory_dff.cc:56-59 | a signal of constants traces to itself, leaves the clock as it was and uses no `$dff` |
| Tracing.TracePreInitVeto | passes/memory/memory_dff.cc:61-62 | a trace before a port fails when any canonical wire bit has an initial value |
| Tracing.TraceUsedDffs | passes/memory/memory_dff.cc:64-97 | every recorded candidate is an indexed `$dff`, and a trace after a port never records a forward-merged one |
| MemoryDff.Worker.CountBits | passes/memory/memory_dff.cc:254-255 | each bit's users count grows by its number of occurrences in the signal |
| MemoryDff.Worker.CountOutputPorts | passes/memory/memory_dff.cc:252-256 | the users count grows by `WireUsers`: the occurrences of each bit on module outputs |
| MemoryDff.Worker.CountCellUsers | passes/memory/memory_dff.cc:275-278 | the users count grows by the occurrences of each bit on the cell's input ports, or on all its ports when its type is unknown |
| MemoryDff.Worker.AddInverter | passes/memory/memory_dff.cc:272-273 | `invbits` is extended by output bit i to input bit i for every position both sides have |
| Rtlil.ExtendU0 | passes/memory/memory_dff.cc:268-271 | `extend_u0` gives exactly the requested width and keeps the bits below it |
| MemoryDff.Worker.IndexCell | passes/memory/memory_dff.cc:259-278 | one pass of the cell loop extends `dff_cells`, both mux maps, `invbits` and the users count by that cell alone |
| Index.IndexPrefix | passes/memory/memory_dff.cc:258-279 | every index of the first k+1 cells is that of the first k extended by cell k |
| MemoryDff.Worker.IndexCells | passes/memory/memory_dff.cc:258-279 | after the cell loop each index equals the function of the whole cell list that defines it |
| MemoryDff.Worker.IndexModule | passes/memory/memory_dff.cc:252-279 | after both indexing loops the worker holds exactly the indexes of the module |
| Index.DffCellsExactly | passes/memory/memory_dff.cc:258-260 | `dff_cells` lists exactly the `$dff` cells, in increasing cell order |
| Index.MuxMapLast | passes/memory/memory_dff.cc:261-264 | a signal is a key of a mux map iff some `$mux` has it as canonical input on that side, and it maps to the last such `$mux` |
| Index.InvBitsSource | passes/memory/memory_dff.cc:265-274 | every `invbits` entry maps an output bit of a `$not`, `$_NOT_` or 1-bit-input `$logic_not` to the input bit at the same position |
| Index.InvBitsCovers | passes/memory/memory_dff.cc:265-274 | every output bit of every inverter, at a position its input also has, is a key of `invbits` |
| Index.UsersAtLeastTwo | passes/memory/memory_dff.cc:275-278 | a bit read by two cells through counted ports has a users count of at least two |
| Index.OutputAndCellShared | passes/memory/memory_dff.cc:252-278 | a bit on a module output that a cell also reads has a users count of at least two |
| Merge.WrMergeSound | passes/memory/memory_dff.cc:108-148 | a write merge has a concrete clock, and ADDR, DATA and EN were each replaced in full through `$dff`s of that clock and polarity, or whose clock is the constant x |
| Merge.WrMergeAdmitsUndefClock | passes/memory/memory_dff.cc:77-96 | an ADDR bit whose `$dff` is clocked by the constant x and another whose `$dff` is clocked by wire bit 9.0 merge together under clock 9.0, both `$dff`s becoming candidates |
| Merge.WrInitVeto | passes/memory/memory_dff.cc:116-132 | an initial value on any canonical wire bit of ADDR, DATA or EN prevents the write merge |
| Merge.WrConstantPortsNoMerge | passes/memory/memory_dff.cc:112-134 | ports driven only by constants never fix a clock, so nothing merges and no candidate is recorded |
| Merge.WrUsedDffs | passes/memory/memory_dff.cc:114-137 | the `$dff`s a write port marks as forward-merged are indexed `$dff` cells |
| Merge.CommitWrReadsBack | passes/memory/memory_dff.cc:139-144 | the commit sets CLK, ADDR, DATA and EN with CLK_ENABLE=1 and the traced CLK_POLARITY, and leaves every other port and parameter and the type as they were |
| MemoryDff.Worker.CommitWrite | passes/memory/memory_dff.cc:139-144 | the port's cell becomes `CommitWr` of it and nothing else in the module changes |
| MemoryDff.Worker.HandleWrCell | passes/memory/memory_dff.cc:108-151 | `candidate_dffs` is cleared and holds the used `$dff`s; on a full success under a concrete clock the port is rewritten and exactly those `$dff`s join `forward_merged_dffs`; otherwise no cell and no forward-merged mark changes |
| Merge.CommitWrFrame | passes/memory/memory_dff.cc:134-148 | a write-port handler changes at most its own cell, keeps its type, and sets CLK_ENABLE when it merges |
| Rtlil.SortAndUnify | passes/memory/memory_dff.cc:156 | `sort_and_unify` is strictly sorted and holds exactly the bits of its input |
| Rtlil.Replace | passes/memory/memory_dff.cc:166 | `replace` keeps the width and swaps each wire bit of the pattern for the bit at its position in the replacement |
| Merge.DisconnectExact | passes/memory/memory_dff.cc:153-169 | one fresh wire as wide as the distinct canonical bits is added; each `$dff` keeps its Q width and has exactly the Q wire bits that occur in the signal moved onto the fresh wire; all other cells stay |
| Merge.DisconnectPosition | passes/memory/memory_dff.cc:155-166 | the j-th distinct bit in bit order goes to bit j of the fresh wire |
| MemoryDff.Worker.DisconnectDff | passes/memory/memory_dff.cc:153-169 | the module becomes `Disconnect` of the module before |
| Rtlil.Module.AddWire | passes/memory/memory_dff.cc:161 | a fresh wire of the given width is appended and its bits are returned |
| MemoryDff.Worker.HasSharedBit | passes/memory/memory_dff.cc:180-182 | true iff some bit of the signal has more than one user |
| Merge.RdSharedDataVeto | passes/memory/memory_dff.cc:180-182 | when a canonical DATA bit has another user no chain is walked and at most the address strategy merges |
| Merge.RdChainExcludesDirect | passes/memory/memory_dff.cc:184-231 | when DATA is a key of a mux map the direct strategy never merges |
| Merge.Keeps | passes/memory/memory_dff.cc:192 | `check_q` has one entry per step, the held input of that step's `$mux` |
| MemoryDff.Worker.FollowMux | passes/memory/memory_dff.cc:190-194 | one walk step returns the held input and the canonical Y of the `$mux` the maps give, and the enable term: S when the data entered on B, the output of a new `$logic_not` of S when it entered on A |
| Rtlil.Module.AddLogicNot | passes/memory/memory_dff.cc:194 | a `$logic_not` of the signal driving a fresh 1-bit wire is appended |
| Merge.WalkSnoc | passes/memory/memory_dff.cc:189-195 | one more step appends its term to EN and, for an A-side step, one NOT cell and wire |
| Merge.EnableTermOfStep | passes/memory/memory_dff.cc:189-195 | each step's enable term sits in EN right after the terms of the steps before it |
| Merge.NotCellOfStep | passes/memory/memory_dff.cc:194 | the NOT cell of an A-side step inverts its S onto the wire its enable term names |
| Merge.WalkStepsOn | passes/memory/memory_dff.cc:189-195 | cells appended by the walk do not change the step or the next signal read from the mux maps |
| MemoryDff.Worker.WalkStep | passes/memory/memory_dff.cc:189-195 | one pass of the do/while advances the walk by one step and grows the netlist, EN and `check_q` by exactly that step |
| MemoryDff.Worker.WalkMuxChain | passes/memory/memory_dff.cc:184-195 | the loop yields the chain `Walk` defines: its last signal, `check_q` = its held inputs, EN = its enable terms, and one NOT cell per A-side step |
| Merge.PlanAddrSound | passes/memory/memory_dff.cc:231-245 | the address strategy merges only as an address merge with a concrete clock, ADDR replaced in full before the port |
| Merge.RdChainMergeSound | passes/memory/memory_dff.cc:184-213 | a chain merge happens only with no shared DATA bit, DATA a mux-map key, no shared bit at the chain's end, a concrete clock, every `check_q` entry equal to the traced signal, the end traced in full after the port, and no forward-merged `$dff` used |
| Merge.RdDirectMergeSound | passes/memory/memory_dff.cc:215-228 | a direct merge happens only with no shared DATA bit, DATA in no mux map, a concrete clock and DATA traced in full after the port |
| Merge.RdAddrMergeSound | passes/memory/memory_dff.cc:231-245 | an address merge has a concrete clock and ADDR traced in full before the port |
| Merge.CommitRdReadsBack | passes/memory/memory_dff.cc:204-242 | every read commit sets CLK_ENABLE=1, the traced CLK and polarity, TRANSPARENT=1 only for the address strategy, EN=1 except for the chain, DATA or ADDR as traced, and leaves other ports alone |
| Rtlil.Module.AddReduceAnd | passes/memory/memory_dff.cc:206 | a `$reduce_and` of the signal driving a fresh 1-bit wire is appended |
| Rtlil.GetSetConn | passes/memory/memory_dff.cc:139-142 | after `setPort(p, v)` port p reads v and every other port reads as before |
| MemoryDff.Worker.RewriteReadPort | passes/memory/memory_dff.cc:205-210 | the port's cell becomes `CommitRd` of it and nothing else changes |
| MemoryDff.Worker.CommitRead | passes/memory/memory_dff.cc:204-242 | the module becomes `MergeRd`: disconnect for a data merge, a `$reduce_and` for a chain EN wider than one bit, then the port rewrite |
| Merge.MergeRdFrame | passes/memory/memory_dff.cc:204-244 | a read commit only appends wires and cells, sets CLK_ENABLE on the port, and among the other cells changes only `$dff`s |
| MemoryDff.Worker.DecideChain | passes/memory/memory_dff.cc:197-213 | the chain strategy after the walk merges exactly as `PlanChain` decides, or hands the address strategy the polarity and candidates `PlanChain` leaves |
| MemoryDff.Worker.MergeReadChain | passes/memory/memory_dff.cc:184-213 | with DATA unshared and a mux-map key, either the module becomes `ApplyRd` of `PlanRd`, or `PlanRd` is the address strategy and only the walk's NOT cells were added |
| MemoryDff.Worker.MergeReadDirect | passes/memory/memory_dff.cc:215-229 | with DATA unshared and in no mux map, either the module becomes `ApplyRd` of `PlanRd`, or `PlanRd` is the address strategy and the module is unchanged |
| MemoryDff.Worker.MergeReadData | passes/memory/memory_dff.cc:175-229 | the data strategies end either with the merge of `PlanRd` applied or with `PlanRd` being the address strategy from the polarity they left |
| MemoryDff.Worker.HandleRdCell | passes/memory/memory_dff.cc:171-248 | the module becomes `ApplyRd` of the plan `PlanRd` makes, and `candidate_dffs` gains the `$dff`s of every trace that ran |
| Merge.ApplyRdFrame | passes/memory/memory_dff.cc:171-248 | a read-port handler only appends wires and cells, keeps every cell's type, changes among the other cells only `$dff`s, and leaves its port unchanged or with CLK_ENABLE set |
| MemoryDff.Worker.HandleWritePorts | passes/memory/memory_dff.cc:281-283 | only the selected `$memwr` ports with CLK_ENABLE clear change, each to a port with CLK_ENABLE set; only indexed `$dff`s become forward-merged |
| MemoryDff.Worker.HandleReadPorts | passes/memory/memory_dff.cc:285-288 | wires and cells are only appended; among the cells present only `$dff`s and the selected `$memrd` ports with CLK_ENABLE clear change, the latter each to a port with CLK_ENABLE set |
| MemoryDff.Worker.Run | passes/memory/memory_dff.cc:250-289 | the indexes are those of the module as it was; cells keep their types; a cell that is neither a `$dff` nor a targeted port is unchanged; a targeted port is unchanged or has CLK_ENABLE set, so a second run skips it; only `$dff` cells are forward-merged |

## Left out

- `MemoryDffPass` (help text, `-nordff` and `-wr_only` parsing, module
  iteration, `log_header`): outside the worker. `flag_wr_only` and the
  selection are parameters of `Run`.
- All `log(...)` calls: diagnostics only.
- `SigMap` is a fixed alias table (a map from a wire bit to its
  representative). The pass never connects signals, so the table does not
  change while it runs. How yosys builds it is not part of this model.
- `SigSpec::extract`, `replace`, `sort_and_unify` and `extend_u0` are
  library code. They are modelled by their documented behaviour.
- Wire and cell names (`NEW_ID`, `autoidx`, `$memory_dff_disconnected$N`):
  wires and cells are identified by their position in the module's lists.
- Iteration order: `module->wires()` and `module->cells()` are taken in
  list order. `sort_and_unify` orders wire bits by wire index, where yosys
  orders them by wire name.
- The parameters of the `$logic_not` and `$reduce_and` cells the pass
  creates (widths, signedness): cells carry only the parameters the pass
  reads.
- Parameters are read as truth values. The side effect of
  `parameters[...]` inserting a missing CLK_POLARITY or CLK_ENABLE, and of
  `sigbit_users_count[bit]` inserting a zero count, is not modelled.
  Missing entries read as false or zero.
- A missing port reads as the empty signal, where yosys' `Cell::getPort`
  fails. This matters only for malformed cells.
- A `$dff` whose CLK is not one bit wide is treated as having no inverter
  on its clock. The source would convert the signal to a single bit and
  stop with an assertion.
- An inverter whose A has fewer bits than its (adjusted) Y contributes
  only the positions both have. In the source that is an out-of-range
  read, and it does not occur for well-formed `$not`, `$_NOT_` and
  `$logic_not` cells.
- Walk: the do/while walk of the mux chain is cut after as many steps as
  the module has cells, where the source would loop forever on a cyclic
  chain. The model does not prove that an acyclic netlist never reaches
  this bound.
- CommitRead: builds the `$reduce_and` before it sets CLK, where the
  source sets CLK first. Appending a cell does not touch the port, so the
  resulting module is the same.
- Run: requires a fresh worker (empty indexes, nothing forward-merged), as
  the constructor leaves it. Its contract states the frame of the whole
  pass (unchanged, or CLK_ENABLE set); the exact result of each port is
  stated by `HandleWrCell` and `HandleRdCell`, not repeated in `Run`.
- HandleWritePorts: states only that each targeted port is unchanged or has
  CLK_ENABLE set. The exact rewrite is the contract of `HandleWrCell`.
- HandleReadPorts: states only that each targeted port is unchanged or has
  CLK_ENABLE set, and that other cells change only if they are `$dff`s.
  The exact rewrite is the contract of `HandleRdCell`.
