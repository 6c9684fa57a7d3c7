/** The merge decisions of memory_dff as functions of the worker's indexes:
    handle_wr_cell (all three traces threading one clock, or nothing), the mux
    chain walk of handle_rd_cell with its enable terms, the three read-port
    strategies in the order the code tries them, disconnect_dff, and the
    resulting module state. */
module Merge {
  import opened Rtlil
  import opened Tracing

  /** The wire and cell lists of a module, as values. */
  datatype Netlist = Netlist(wires: seq<Wire>, cells: seq<Cell>)

  // ---------------------------------------------------------------------------
  // Write ports (handle_wr_cell)
  // ---------------------------------------------------------------------------

  datatype WrMerge = WrMerge(clk: Sig, pol: bool, addr: Sig, data: Sig, en: Sig)

  /** The merge handle_wr_cell commits, if any, and candidate_dffs afterwards. */
  datatype WrPlan = WrPlan(merge: Option<WrMerge>, used: set<nat>)

  function PlanWr(ctx: Ctx, cell: Cell): WrPlan
  {
    var ta := Trace(ctx, false, GetPort(cell, Addr), Undef, false);
    if !ta.ok then WrPlan(None, ta.used)
    else
      var td := Trace(ctx, false, GetPort(cell, Data), ta.clk, ta.pol);
      if !td.ok then WrPlan(None, ta.used + td.used)
      else
        var te := Trace(ctx, false, GetPort(cell, En), td.clk, td.pol);
        var used := ta.used + td.used + te.used;
        if !te.ok || te.clk == Undef then WrPlan(None, used)
        else WrPlan(Some(WrMerge(te.clk, te.pol, ta.sig, td.sig, te.sig)), used)
  }

  /** The write port after the commit. */
  function CommitWr(cell: Cell, m: WrMerge): Cell
  {
    var c := SetPort(SetPort(SetPort(SetPort(cell, Clk, m.clk), Addr, m.addr), Data, m.data), En, m.en);
    c.(params := cell.params[ClkEnable := true][ClkPolarity := m.pol])
  }

  /** Every bit of port p of `cell` was replaced, as `traced`, under (clk, pol). */
  predicate PortReplaced(ctx: Ctx, after: bool, orig: Sig, traced: Sig, clk: Sig, pol: bool)
  {
    |traced| == |orig|
    && forall k :: 0 <= k < |orig| ==> BitReplaced(ctx, after, CanonBit(ctx.sigmap, orig[k]), traced[k], clk, pol)
  }

  lemma PortReplacedLift(ctx: Ctx, after: bool, orig: Sig, traced: Sig, clk: Sig, pol: bool, clk': Sig, pol': bool)
    requires PortReplaced(ctx, after, orig, traced, clk, pol)
    requires clk != Undef ==> clk' == clk && pol' == pol
    ensures PortReplaced(ctx, after, orig, traced, clk', pol')
  {
    forall k | 0 <= k < |orig|
      ensures BitReplaced(ctx, after, CanonBit(ctx.sigmap, orig[k]), traced[k], clk', pol')
    {
      BitReplacedLift(ctx, after, CanonBit(ctx.sigmap, orig[k]), traced[k], clk, pol, clk', pol');
    }
  }

  /** Write port is all-or-nothing, under one clock: a merge is committed only
      with a concrete clock, and then ADDR, DATA and EN were each replaced in
      full through $dffs clocked by that clock and polarity, or by the
      constant x, which the tracer cannot tell from "no clock fixed yet"
      (see WrMergeAdmitsUndefClock). */
  lemma WrMergeSound(ctx: Ctx, cell: Cell)
    requires PlanWr(ctx, cell).merge.Some?
    ensures var m := PlanWr(ctx, cell).merge.value;
      && m.clk != Undef
      && PortReplaced(ctx, false, GetPort(cell, Addr), m.addr, m.clk, m.pol)
      && PortReplaced(ctx, false, GetPort(cell, Data), m.data, m.clk, m.pol)
      && PortReplaced(ctx, false, GetPort(cell, En), m.en, m.clk, m.pol)
  {
    var ta := Trace(ctx, false, GetPort(cell, Addr), Undef, false);
    var td := Trace(ctx, false, GetPort(cell, Data), ta.clk, ta.pol);
    var te := Trace(ctx, false, GetPort(cell, En), td.clk, td.pol);
    TraceReplaces(ctx, false, GetPort(cell, Addr), Undef, false);
    TraceReplaces(ctx, false, GetPort(cell, Data), ta.clk, ta.pol);
    TraceReplaces(ctx, false, GetPort(cell, En), td.clk, td.pol);
    if ta.clk != Undef {
      TraceKeepsFixedClock(ctx, false, GetPort(cell, Data), ta.clk, ta.pol);
    }
    if td.clk != Undef {
      TraceKeepsFixedClock(ctx, false, GetPort(cell, En), td.clk, td.pol);
    }
    PortReplacedLift(ctx, false, GetPort(cell, Addr), ta.sig, ta.clk, ta.pol, te.clk, te.pol);
    PortReplacedLift(ctx, false, GetPort(cell, Data), td.sig, td.clk, td.pol, te.clk, te.pol);
  }

  /** Two $dffs feeding a write port's two ADDR bits: the first clocked by
      the constant x, the second by wire bit 9.0 on the falling edge. */
  function XClockCtx(): Ctx
  {
    Ctx(map[], map[], {},
        [DffView(0, Undef, false, [WireBit(2, 0)], [WireBit(1, 0)]),
         DffView(1, [WireBit(9, 0)], false, [WireBit(3, 0)], [WireBit(1, 1)])],
        {})
  }

  lemma XClockMatches()
    ensures FindMatch(XClockCtx(), false, WireBit(1, 0), Undef, false, 0) == Some(Match(0, WireBit(2, 0), Undef, false))
    ensures FindMatch(XClockCtx(), false, WireBit(1, 1), Undef, false, 0) == Some(Match(1, WireBit(3, 0), [WireBit(9, 0)], false))
  {
    assert Canon(map[], [WireBit(1, 0)]) == [WireBit(1, 0)];
    assert Canon(map[], [WireBit(1, 1)]) == [WireBit(1, 1)];
    assert Extract([WireBit(1, 0)], WireBit(1, 0), [WireBit(2, 0)]) == [WireBit(2, 0)];
    assert Extract([WireBit(1, 0)], WireBit(1, 1), [WireBit(2, 0)]) == [];
    assert Extract([WireBit(1, 1)], WireBit(1, 1), [WireBit(3, 0)]) == [WireBit(3, 0)];
  }

  lemma XClockTrace()
    ensures Trace(XClockCtx(), false, [WireBit(1, 0), WireBit(1, 1)], Undef, false)
         == Outcome(true, [WireBit(2, 0), WireBit(3, 0)], [WireBit(9, 0)], false, {0, 1})
  {
    var ctx := XClockCtx();
    var addr := [WireBit(1, 0), WireBit(1, 1)];
    var s1 := [WireBit(2, 0), WireBit(1, 1)];
    var s2 := [WireBit(2, 0), WireBit(3, 0)];
    XClockMatches();
    assert Canon(map[], addr) == addr;
    assert s1[1 := WireBit(3, 0)] == s2;
    assert TraceFrom(ctx, false, s1, 1, Undef, false, {0})
        == TraceFrom(ctx, false, s2, 2, [WireBit(9, 0)], false, {0, 1});
    assert addr[0 := WireBit(2, 0)] == s1;
  }

  /** The exception WrMergeSound admits: a $dff whose clock is the constant x
      is matched while no clock is fixed and leaves it unfixed, so a later
      bit fixes a real clock and the port merges both registers under it. */
  lemma WrMergeAdmitsUndefClock()
    ensures EffClk(XClockCtx().invbits, XClockCtx().dffs[0]) == Undef
    ensures var cell := Cell(MemWr, [Conn(Addr, [WireBit(1, 0), WireBit(1, 1)]), Conn(Data, []), Conn(En, [])], map[]);
      PlanWr(XClockCtx(), cell)
        == WrPlan(Some(WrMerge([WireBit(9, 0)], false, [WireBit(2, 0), WireBit(3, 0)], [], [])), {0, 1})
  {
    var cell := Cell(MemWr, [Conn(Addr, [WireBit(1, 0), WireBit(1, 1)]), Conn(Data, []), Conn(En, [])], map[]);
    XClockTrace();
    assert GetPort(cell, Addr) == [WireBit(1, 0), WireBit(1, 1)];
    assert GetPort(cell, Data) == [] && GetPort(cell, En) == [];
  }

  /** An initial value on any canonical wire bit of ADDR, DATA or EN vetoes the merge. */
  lemma WrInitVeto(ctx: Ctx, cell: Cell, p: PortName, k: nat)
    requires ValidSigMap(ctx.sigmap)
    requires p == Addr || p == Data || p == En
    requires k < |GetPort(cell, p)|
    requires CanonBit(ctx.sigmap, GetPort(cell, p)[k]).WireBit?
    requires CanonBit(ctx.sigmap, GetPort(cell, p)[k]) in ctx.initBits
    ensures PlanWr(ctx, cell).merge.None?
  {
    var ta := Trace(ctx, false, GetPort(cell, Addr), Undef, false);
    var td := Trace(ctx, false, GetPort(cell, Data), ta.clk, ta.pol);
    if p == Addr {
      TracePreInitVeto(ctx, GetPort(cell, Addr), Undef, false, k);
    } else if p == Data {
      TracePreInitVeto(ctx, GetPort(cell, Data), ta.clk, ta.pol, k);
    } else {
      TracePreInitVeto(ctx, GetPort(cell, En), td.clk, td.pol, k);
    }
  }

  /** Ports driven by constants alone never fix a clock, so nothing is merged. */
  lemma WrConstantPortsNoMerge(ctx: Ctx, cell: Cell)
    requires forall k :: 0 <= k < |GetPort(cell, Addr)| ==> CanonBit(ctx.sigmap, GetPort(cell, Addr)[k]).Const?
    requires forall k :: 0 <= k < |GetPort(cell, Data)| ==> CanonBit(ctx.sigmap, GetPort(cell, Data)[k]).Const?
    requires forall k :: 0 <= k < |GetPort(cell, En)| ==> CanonBit(ctx.sigmap, GetPort(cell, En)[k]).Const?
    ensures PlanWr(ctx, cell) == WrPlan(None, {})
  {
    TraceAllConstant(ctx, false, GetPort(cell, Addr), Undef, false);
    TraceAllConstant(ctx, false, GetPort(cell, Data), Undef, false);
    TraceAllConstant(ctx, false, GetPort(cell, En), Undef, false);
  }

  /** The $dffs a write port marks as forward-merged are $dff cells of the index. */
  lemma WrUsedDffs(ctx: Ctx, cell: Cell)
    ensures forall x :: x in PlanWr(ctx, cell).used ==> UsableId(ctx, false, x)
  {
    var ta := Trace(ctx, false, GetPort(cell, Addr), Undef, false);
    var td := Trace(ctx, false, GetPort(cell, Data), ta.clk, ta.pol);
    TraceUsedDffs(ctx, false, GetPort(cell, Addr), Undef, false);
    TraceUsedDffs(ctx, false, GetPort(cell, Data), ta.clk, ta.pol);
    TraceUsedDffs(ctx, false, GetPort(cell, En), td.clk, td.pol);
  }

  /** The commit sets CLK, ADDR, DATA and EN together with CLK_ENABLE=1 and
      CLK_POLARITY, and leaves every other port and parameter as it was. */
  lemma CommitWrReadsBack(cell: Cell, m: WrMerge, q: PortName, r: ParamName)
    ensures GetPort(CommitWr(cell, m), q) ==
      if q == Clk then m.clk else if q == Addr then m.addr else if q == Data then m.data
      else if q == En then m.en else GetPort(cell, q)
    ensures ParamBool(CommitWr(cell, m), ClkEnable)
    ensures ParamBool(CommitWr(cell, m), ClkPolarity) == m.pol
    ensures r != ClkEnable && r != ClkPolarity ==> ParamBool(CommitWr(cell, m), r) == ParamBool(cell, r)
    ensures CommitWr(cell, m).kind == cell.kind
  {
    var c1 := SetPort(cell, Clk, m.clk);
    var c2 := SetPort(c1, Addr, m.addr);
    var c3 := SetPort(c2, Data, m.data);
    GetSetConn(cell.conns, Clk, m.clk, q);
    GetSetConn(c1.conns, Addr, m.addr, q);
    GetSetConn(c2.conns, Data, m.data, q);
    GetSetConn(c3.conns, En, m.en, q);
  }

  // ---------------------------------------------------------------------------
  // The mux chain of a read port
  // ---------------------------------------------------------------------------

  /** One $mux of the chain: the canonical input on the side the data does not
      enter (the value held when not enabled), S, and whether the data
      entered on A, which makes the read enable !S (Y = S ? B : A). */
  datatype Step = Step(keep: Sig, sel: Sig, invert: bool)

  datatype Chain = Chain(steps: seq<Step>, last: Sig)

  predicate MapsInto(m: map<Sig, nat>, n: nat)
  {
    forall s :: s in m ==> m[s] < n
  }

  /** The $mux the walk reaches from s: the one with s on A if there is one
      (the data then enters on A), else the one with s on B. */
  function MuxOf(cells: seq<Cell>, muxA: map<Sig, nat>, muxB: map<Sig, nat>, s: Sig): Cell
    requires MapsInto(muxA, |cells|) && MapsInto(muxB, |cells|)
    requires s in muxA || s in muxB
  {
    cells[if s in muxA then muxA[s] else muxB[s]]
  }

  /** The step the walk records at s. */
  function StepAt(sm: SigMap, cells: seq<Cell>, muxA: map<Sig, nat>, muxB: map<Sig, nat>, s: Sig): Step
    requires MapsInto(muxA, |cells|) && MapsInto(muxB, |cells|)
    requires s in muxA || s in muxB
  {
    var invert := s in muxA;
    var mux := MuxOf(cells, muxA, muxB, s);
    Step(Canon(sm, GetPort(mux, if invert then B else A)), GetPort(mux, S), invert)
  }

  /** Where the walk goes from s: the canonical Y of that $mux. */
  function NextAt(sm: SigMap, cells: seq<Cell>, muxA: map<Sig, nat>, muxB: map<Sig, nat>, s: Sig): Sig
    requires MapsInto(muxA, |cells|) && MapsInto(muxB, |cells|)
    requires s in muxA || s in muxB
  {
    Canon(sm, GetPort(MuxOf(cells, muxA, muxB, s), Y))
  }

  /** The do/while walk from signal s: look s up in mux_cells_a, then in
      mux_cells_b, step to the canonical Y of that $mux, and repeat while the
      signal is a key, for at most `fuel` steps. */
  function Walk(sm: SigMap, cells: seq<Cell>, muxA: map<Sig, nat>, muxB: map<Sig, nat>, s: Sig, fuel: nat): Chain
    requires MapsInto(muxA, |cells|) && MapsInto(muxB, |cells|)
    decreases fuel
  {
    if fuel == 0 || !(s in muxA || s in muxB) then Chain([], s)
    else
      var rest := Walk(sm, cells, muxA, muxB, NextAt(sm, cells, muxA, muxB, s), fuel - 1);
      Chain([StepAt(sm, cells, muxA, muxB, s)] + rest.steps, rest.last)
  }

  /** The signals the walk must see its traced Q on (check_q), in order. */
  function Keeps(steps: seq<Step>): (r: seq<Sig>)
    ensures |r| == |steps| && forall i :: 0 <= i < |steps| ==> r[i] == steps[i].keep
  {
    if |steps| == 0 then [] else Keeps(steps[..|steps| - 1]) + [steps[|steps| - 1].keep]
  }

  lemma KeepsSnoc(steps: seq<Step>, t: Step)
    ensures Keeps(steps + [t]) == Keeps(steps) + [t.keep]
  {
    assert (steps + [t])[..|steps|] == steps;
  }

  /** The enable term of one step, `w` being the wire its NOT gate would drive. */
  function Term(t: Step, w: nat): Sig
  {
    if t.invert then WireSig(w, 1) else t.sel
  }

  /** The $logic_not cell built for an inverted step. */
  function NotCell(sel: Sig, w: nat): Cell
  {
    Cell(LogicNot, [Conn(A, sel), Conn(Y, WireSig(w, 1))], map[])
  }

  function InvCount(steps: seq<Step>): nat
  {
    if |steps| == 0 then 0
    else InvCount(steps[..|steps| - 1]) + (if steps[|steps| - 1].invert then 1 else 0)
  }

  /** `en` after the walk: the terms of all steps, in order, NOT gates driving
      fresh wires numbered from w. */
  function EnTerms(steps: seq<Step>, w: nat): Sig
  {
    if |steps| == 0 then []
    else
      var n := |steps| - 1;
      EnTerms(steps[..n], w) + Term(steps[n], w + InvCount(steps[..n]))
  }

  /** The NOT cells the walk adds, in order. */
  function NotCells(steps: seq<Step>, w: nat): seq<Cell>
  {
    if |steps| == 0 then []
    else
      var n := |steps| - 1;
      NotCells(steps[..n], w) + (if steps[n].invert then [NotCell(steps[n].sel, w + InvCount(steps[..n]))] else [])
  }

  function NotWires(steps: seq<Step>): seq<Wire>
  {
    seq(InvCount(steps), _ => Wire(1, false, None))
  }

  lemma {:induction false} NotCellsLength(steps: seq<Step>, w: nat)
    ensures |NotCells(steps, w)| == InvCount(steps)
  {
    if |steps| > 0 {
      NotCellsLength(steps[..|steps| - 1], w);
    }
  }

  /** One more step of the walk: its term is appended to EN, and when the
      data entered on A one more NOT cell and wire are appended. */
  lemma WalkSnoc(steps: seq<Step>, t: Step, w: nat)
    ensures InvCount(steps + [t]) == InvCount(steps) + (if t.invert then 1 else 0)
    ensures EnTerms(steps + [t], w) == EnTerms(steps, w) + Term(t, w + InvCount(steps))
    ensures NotCells(steps + [t], w) == NotCells(steps, w) + (if t.invert then [NotCell(t.sel, w + InvCount(steps))] else [])
    ensures NotWires(steps + [t]) == NotWires(steps) + (if t.invert then [Wire(1, false, None)] else [])
  {
    assert (steps + [t])[..|steps|] == steps;
  }

  /** EN built from a prefix of the steps is a prefix of EN. */
  lemma {:induction false} EnTermsPrefix(steps: seq<Step>, w: nat, j: nat)
    requires j <= |steps|
    ensures |EnTerms(steps[..j], w)| <= |EnTerms(steps, w)|
    ensures EnTerms(steps, w)[..|EnTerms(steps[..j], w)|] == EnTerms(steps[..j], w)
    decreases |steps|
  {
    if j == |steps| {
      assert steps[..j] == steps;
    } else {
      var n := |steps| - 1;
      assert steps[..n][..j] == steps[..j];
      EnTermsPrefix(steps[..n], w, j);
    }
  }

  /** The NOT cells built for a prefix of the steps are a prefix of them. */
  lemma {:induction false} NotCellsPrefix(steps: seq<Step>, w: nat, j: nat)
    requires j <= |steps|
    ensures |NotCells(steps[..j], w)| <= |NotCells(steps, w)|
    ensures NotCells(steps, w)[..|NotCells(steps[..j], w)|] == NotCells(steps[..j], w)
    decreases |steps|
  {
    if j == |steps| {
      assert steps[..j] == steps;
    } else {
      var n := |steps| - 1;
      assert steps[..n][..j] == steps[..j];
      NotCellsPrefix(steps[..n], w, j);
    }
  }

  /** Each step contributes its term at its place in EN: EN starts with the
      terms of the steps before it followed by its own, which is S itself when
      the data entered on B, and when it entered on A the output of a fresh
      NOT cell of S. */
  lemma EnableTermOfStep(steps: seq<Step>, w: nat, i: nat)
    requires i < |steps|
    ensures EnTerms(steps[..i], w) + Term(steps[i], w + InvCount(steps[..i])) <= EnTerms(steps, w)
  {
    var pre := steps[..i + 1];
    assert pre[..i] == steps[..i] && pre[i] == steps[i];
    assert EnTerms(pre, w) == EnTerms(steps[..i], w) + Term(steps[i], w + InvCount(steps[..i]));
    EnTermsPrefix(steps, w, i + 1);
  }

  /** The NOT cell of a step that entered on A sits among the walk's NOT
      cells at the count of inverted steps before it, inverting S onto the
      wire that step's enable term names. */
  lemma NotCellOfStep(steps: seq<Step>, w: nat, i: nat)
    requires i < |steps| && steps[i].invert
    ensures InvCount(steps[..i]) < |NotCells(steps, w)|
    ensures NotCells(steps, w)[InvCount(steps[..i])] == NotCell(steps[i].sel, w + InvCount(steps[..i]))
    ensures Term(steps[i], w + InvCount(steps[..i])) == WireSig(w + InvCount(steps[..i]), 1)
  {
    var pre := steps[..i + 1];
    assert pre[..i] == steps[..i];
    NotCellsPrefix(steps, w, i + 1);
    NotCellsLength(steps[..i], w);
    NotCellsLength(pre, w);
    var np := NotCells(pre, w);
    assert np[InvCount(steps[..i])] == NotCells(steps, w)[..|np|][InvCount(steps[..i])];
  }

  // ---------------------------------------------------------------------------
  // Read ports (handle_rd_cell)
  // ---------------------------------------------------------------------------

  datatype RdMerge =
    | ChainMerge(clk: Sig, pol: bool, data: Sig)
    | DirectMerge(clk: Sig, pol: bool, data: Sig)
    | AddrMerge(clk: Sig, pol: bool, addr: Sig)

  /** What handle_rd_cell does: the mux chain it walked (when it walked one),
      the merge it commits (if any), and the candidates it recorded. */
  datatype RdPlan = RdPlan(chain: Option<Chain>, merge: Option<RdMerge>, used: set<nat>)

  /** sigbit_users_count[b], which reads 0 for a bit never counted. */
  function UsersOf(counts: map<Bit, int>, b: Bit): int
  {
    if b in counts then counts[b] else 0
  }

  /** Some bit of s has more than one user. */
  predicate Shared(counts: map<Bit, int>, s: Sig)
  {
    exists i :: 0 <= i < |s| && UsersOf(counts, s[i]) > 1
  }

  /** The address strategy: a trace before ADDR from a fresh undefined clock
      (the polarity carried over from the data attempt). */
  function PlanAddr(ctx: Ctx, cell: Cell, pol: bool, chain: Option<Chain>, used: set<nat>): RdPlan
  {
    var t := Trace(ctx, false, GetPort(cell, Addr), Undef, pol);
    RdPlan(chain, if t.ok && t.clk != Undef then Some(AddrMerge(t.clk, t.pol, t.sig)) else None, used + t.used)
  }

  predicate KeepsAll(steps: seq<Step>, s: Sig)
  {
    forall i :: 0 <= i < |steps| ==> steps[i].keep == s
  }

  /** The mux-chain strategy once the walk has given chain ch: the fan-out
      check on the signal reached, then a trace after the port from it, which
      merges when every check_q entry is the traced Q. */
  function PlanChain(ctx: Ctx, counts: map<Bit, int>, cell: Cell, ch: Chain): RdPlan
  {
    if Shared(counts, ch.last) then PlanAddr(ctx, cell, false, Some(ch), {})
    else
      var t := Trace(ctx, true, ch.last, Undef, false);
      if t.ok && t.clk != Undef && KeepsAll(ch.steps, t.sig) then
        RdPlan(Some(ch), Some(ChainMerge(t.clk, t.pol, t.sig)), t.used)
      else PlanAddr(ctx, cell, t.pol, Some(ch), t.used)
  }

  function PlanRd(ctx: Ctx, counts: map<Bit, int>, muxA: map<Sig, nat>, muxB: map<Sig, nat>,
                  cells: seq<Cell>, cell: Cell, fuel: nat): RdPlan
    requires MapsInto(muxA, |cells|) && MapsInto(muxB, |cells|)
  {
    var data := GetPort(cell, Data);
    if Shared(counts, Canon(ctx.sigmap, data)) then PlanAddr(ctx, cell, false, None, {})
    else if data in muxA || data in muxB then PlanChain(ctx, counts, cell, Walk(ctx.sigmap, cells, muxA, muxB, data, fuel))
    else
      var t := Trace(ctx, true, data, Undef, false);
      if t.ok && t.clk != Undef then RdPlan(None, Some(DirectMerge(t.clk, t.pol, t.sig)), t.used)
      else PlanAddr(ctx, cell, t.pol, None, t.used)
  }

  lemma PlanAddrSound(ctx: Ctx, cell: Cell, pol: bool, chain: Option<Chain>, used: set<nat>)
    ensures var p := PlanAddr(ctx, cell, pol, chain, used);
      p.chain == chain && (p.merge.None? || p.merge.value.AddrMerge?)
    ensures var p := PlanAddr(ctx, cell, pol, chain, used);
      p.merge.Some? ==>
        p.merge.value.clk != Undef
        && PortReplaced(ctx, false, GetPort(cell, Addr), p.merge.value.addr, p.merge.value.clk, p.merge.value.pol)
  {
    TraceReplaces(ctx, false, GetPort(cell, Addr), Undef, pol);
  }

  /** Fan-out veto on read data: when a canonical DATA bit has another user, no
      data-side strategy runs; at most the address strategy merges. */
  lemma RdSharedDataVeto(ctx: Ctx, counts: map<Bit, int>, muxA: map<Sig, nat>, muxB: map<Sig, nat>,
                         cells: seq<Cell>, cell: Cell, fuel: nat)
    requires MapsInto(muxA, |cells|) && MapsInto(muxB, |cells|)
    requires Shared(counts, Canon(ctx.sigmap, GetPort(cell, Data)))
    ensures var p := PlanRd(ctx, counts, muxA, muxB, cells, cell, fuel);
      p.chain.None? && (p.merge.None? || p.merge.value.AddrMerge?)
  {
    PlanAddrSound(ctx, cell, false, None, {});
  }

  /** When DATA feeds a mux, the direct strategy is never tried: a failed
      chain falls through to the address strategy. */
  lemma RdChainExcludesDirect(ctx: Ctx, counts: map<Bit, int>, muxA: map<Sig, nat>, muxB: map<Sig, nat>,
                              cells: seq<Cell>, cell: Cell, fuel: nat)
    requires MapsInto(muxA, |cells|) && MapsInto(muxB, |cells|)
    requires GetPort(cell, Data) in muxA || GetPort(cell, Data) in muxB
    ensures var p := PlanRd(ctx, counts, muxA, muxB, cells, cell, fuel);
      p.merge.None? || !p.merge.value.DirectMerge?
  {
    var data := GetPort(cell, Data);
    if !Shared(counts, Canon(ctx.sigmap, data)) {
      var ch := Walk(ctx.sigmap, cells, muxA, muxB, data, fuel);
      var t := Trace(ctx, true, ch.last, Undef, false);
      PlanAddrSound(ctx, cell, false, Some(ch), {});
      PlanAddrSound(ctx, cell, t.pol, Some(ch), t.used);
    } else {
      PlanAddrSound(ctx, cell, false, None, {});
    }
  }

  /** Mux-chain commit: the chain's final signal has no other user, its
      registers were traced after the port under one concrete clock (never a
      forward-merged $dff, never onto a bit with an initial value), and every
      held value along the chain is exactly the registered signal. */
  lemma RdChainMergeSound(ctx: Ctx, counts: map<Bit, int>, muxA: map<Sig, nat>, muxB: map<Sig, nat>,
                          cells: seq<Cell>, cell: Cell, fuel: nat)
    requires MapsInto(muxA, |cells|) && MapsInto(muxB, |cells|)
    requires var p := PlanRd(ctx, counts, muxA, muxB, cells, cell, fuel);
      p.merge.Some? && p.merge.value.ChainMerge?
    ensures var p := PlanRd(ctx, counts, muxA, muxB, cells, cell, fuel);
      var m := p.merge.value;
      && !Shared(counts, Canon(ctx.sigmap, GetPort(cell, Data)))
      && (GetPort(cell, Data) in muxA || GetPort(cell, Data) in muxB)
      && p.chain == Some(Walk(ctx.sigmap, cells, muxA, muxB, GetPort(cell, Data), fuel))
      && !Shared(counts, p.chain.value.last)
      && m.clk != Undef
      && KeepsAll(p.chain.value.steps, m.data)
      && PortReplaced(ctx, true, p.chain.value.last, m.data, m.clk, m.pol)
      && p.used !! ctx.forwardMerged
  {
    var data := GetPort(cell, Data);
    if Shared(counts, Canon(ctx.sigmap, data)) {
      PlanAddrSound(ctx, cell, false, None, {});
    } else if data in muxA || data in muxB {
      var ch := Walk(ctx.sigmap, cells, muxA, muxB, data, fuel);
      if Shared(counts, ch.last) {
        PlanAddrSound(ctx, cell, false, Some(ch), {});
      } else {
        var t := Trace(ctx, true, ch.last, Undef, false);
        TraceReplaces(ctx, true, ch.last, Undef, false);
        TraceUsedDffs(ctx, true, ch.last, Undef, false);
        if !(t.ok && t.clk != Undef && KeepsAll(ch.steps, t.sig)) {
          PlanAddrSound(ctx, cell, t.pol, Some(ch), t.used);
        }
      }
    } else {
      var t := Trace(ctx, true, data, Undef, false);
      if !(t.ok && t.clk != Undef) {
        PlanAddrSound(ctx, cell, t.pol, None, t.used);
      }
    }
  }

  /** Direct-register commit: DATA feeds no mux and has no other user, and its
      registers were traced after the port under one concrete clock. */
  lemma RdDirectMergeSound(ctx: Ctx, counts: map<Bit, int>, muxA: map<Sig, nat>, muxB: map<Sig, nat>,
                           cells: seq<Cell>, cell: Cell, fuel: nat)
    requires MapsInto(muxA, |cells|) && MapsInto(muxB, |cells|)
    requires var p := PlanRd(ctx, counts, muxA, muxB, cells, cell, fuel);
      p.merge.Some? && p.merge.value.DirectMerge?
    ensures var p := PlanRd(ctx, counts, muxA, muxB, cells, cell, fuel);
      var m := p.merge.value;
      && !Shared(counts, Canon(ctx.sigmap, GetPort(cell, Data)))
      && !(GetPort(cell, Data) in muxA || GetPort(cell, Data) in muxB)
      && p.chain.None?
      && m.clk != Undef
      && PortReplaced(ctx, true, GetPort(cell, Data), m.data, m.clk, m.pol)
      && p.used !! ctx.forwardMerged
  {
    var data := GetPort(cell, Data);
    if Shared(counts, Canon(ctx.sigmap, data)) {
      PlanAddrSound(ctx, cell, false, None, {});
    } else if data in muxA || data in muxB {
      RdChainExcludesDirect(ctx, counts, muxA, muxB, cells, cell, fuel);
    } else {
      var t := Trace(ctx, true, data, Undef, false);
      TraceReplaces(ctx, true, data, Undef, false);
      TraceUsedDffs(ctx, true, data, Undef, false);
      if !(t.ok && t.clk != Undef) {
        PlanAddrSound(ctx, cell, t.pol, None, t.used);
      }
    }
  }

  /** Address-register commit: ADDR was traced before the port, in full, under
      one concrete clock. */
  lemma RdAddrMergeSound(ctx: Ctx, counts: map<Bit, int>, muxA: map<Sig, nat>, muxB: map<Sig, nat>,
                         cells: seq<Cell>, cell: Cell, fuel: nat)
    requires MapsInto(muxA, |cells|) && MapsInto(muxB, |cells|)
    requires var p := PlanRd(ctx, counts, muxA, muxB, cells, cell, fuel);
      p.merge.Some? && p.merge.value.AddrMerge?
    ensures var m := PlanRd(ctx, counts, muxA, muxB, cells, cell, fuel).merge.value;
      m.clk != Undef && PortReplaced(ctx, false, GetPort(cell, Addr), m.addr, m.clk, m.pol)
  {
    var data := GetPort(cell, Data);
    if Shared(counts, Canon(ctx.sigmap, data)) {
      PlanAddrSound(ctx, cell, false, None, {});
    } else if data in muxA || data in muxB {
      var ch := Walk(ctx.sigmap, cells, muxA, muxB, data, fuel);
      var t := Trace(ctx, true, ch.last, Undef, false);
      PlanAddrSound(ctx, cell, false, Some(ch), {});
      PlanAddrSound(ctx, cell, t.pol, Some(ch), t.used);
    } else {
      var t := Trace(ctx, true, data, Undef, false);
      PlanAddrSound(ctx, cell, t.pol, None, t.used);
    }
  }

  /** The read port after a commit, `en` being the enable signal the chain
      strategy built (unused by the other two). */
  function CommitRd(cell: Cell, m: RdMerge, en: Sig): Cell
  {
    match m
    case ChainMerge(clk, pol, data) =>
      SetPort(SetPort(SetPort(cell, Clk, clk), En, en), Data, data)
        .(params := cell.params[ClkEnable := true][ClkPolarity := pol][Transparent := false])
    case DirectMerge(clk, pol, data) =>
      SetPort(SetPort(SetPort(cell, Clk, clk), En, [Const(S1)]), Data, data)
        .(params := cell.params[ClkEnable := true][ClkPolarity := pol][Transparent := false])
    case AddrMerge(clk, pol, addr) =>
      SetPort(SetPort(SetPort(cell, Clk, clk), En, [Const(S1)]), Addr, addr)
        .(params := cell.params[ClkEnable := true][ClkPolarity := pol][Transparent := true])
  }

  /** Every read-port commit sets CLK_ENABLE (so a rerun skips the port), keeps
      the port transparent only for the address strategy, enables it always
      except through a mux chain, and leaves the other ports alone. */
  lemma CommitRdReadsBack(cell: Cell, m: RdMerge, en: Sig, q: PortName)
    ensures var c := CommitRd(cell, m, en);
      && c.kind == cell.kind
      && ParamBool(c, ClkEnable)
      && ParamBool(c, ClkPolarity) == m.pol
      && ParamBool(c, Transparent) == m.AddrMerge?
      && GetPort(c, Clk) == m.clk
      && GetPort(c, En) == (if m.ChainMerge? then en else [Const(S1)])
      && (m.AddrMerge? ==> GetPort(c, Addr) == m.addr && GetPort(c, Data) == GetPort(cell, Data))
      && (!m.AddrMerge? ==> GetPort(c, Data) == m.data && GetPort(c, Addr) == GetPort(cell, Addr))
      && (q != Clk && q != En && q != Addr && q != Data ==> GetPort(c, q) == GetPort(cell, q))
  {
    var en' := if m.ChainMerge? then en else [Const(S1)];
    var last := if m.AddrMerge? then Addr else Data;
    var v := if m.AddrMerge? then m.addr else m.data;
    var c1 := SetPort(cell, Clk, m.clk);
    var c2 := SetPort(c1, En, en');
    forall p: PortName
      ensures GetPort(SetPort(c2, last, v), p) ==
        if p == last then v else if p == En then en' else if p == Clk then m.clk else GetPort(cell, p)
    {
      GetSetConn(cell.conns, Clk, m.clk, p);
      GetSetConn(c1.conns, En, en', p);
      GetSetConn(c2.conns, last, v, p);
    }
    assert GetPort(CommitRd(cell, m, en), q) == GetPort(SetPort(c2, last, v), q);
    assert GetPort(CommitRd(cell, m, en), Clk) == GetPort(SetPort(c2, last, v), Clk);
    assert GetPort(CommitRd(cell, m, en), En) == GetPort(SetPort(c2, last, v), En);
    assert GetPort(CommitRd(cell, m, en), Addr) == GetPort(SetPort(c2, last, v), Addr);
    assert GetPort(CommitRd(cell, m, en), Data) == GetPort(SetPort(c2, last, v), Data);
  }

  // ---------------------------------------------------------------------------
  // disconnect_dff
  // ---------------------------------------------------------------------------

  /** The Q of every $dff with the bits of `pattern` replaced by `fresh`. */
  function DisconnectCells(cells: seq<Cell>, pattern: Sig, newBits: Sig): (r: seq<Cell>)
    requires |pattern| == |newBits|
    ensures |r| == |cells|
  {
    seq(|cells|, j requires 0 <= j < |cells| =>
      if cells[j].kind == Dff then SetPort(cells[j], Q, Replace(GetPort(cells[j], Q), pattern, newBits))
      else cells[j])
  }

  /** disconnect_dff(sig): a fresh wire as wide as the distinct canonical bits
      of sig, and every $dff output bit equal to one of them moved onto it. */
  function Disconnect(sm: SigMap, nl: Netlist, sig: Sig): Netlist
  {
    var pattern := SortAndUnify(Canon(sm, sig));
    Netlist(nl.wires + [Wire(|pattern|, false, None)],
            DisconnectCells(nl.cells, pattern, WireSig(|nl.wires|, |pattern|)))
  }

  /** disconnect_dff keeps each $dff's Q width, moves exactly the Q wire bits
      that occur in the canonical signal (the j-th distinct one in bit order
      going to bit j of the fresh wire), and leaves everything else as it was. */
  lemma DisconnectExact(sm: SigMap, nl: Netlist, sig: Sig, k: nat, i: nat)
    requires k < |nl.cells|
    ensures var pattern := SortAndUnify(Canon(sm, sig));
      var nl' := Disconnect(sm, nl, sig);
      && nl'.wires == nl.wires + [Wire(|pattern|, false, None)]
      && (forall x :: x in pattern <==> x in Canon(sm, sig))
      && (forall a, b :: 0 <= a < b < |pattern| ==> pattern[a] != pattern[b])
      && |nl'.cells| == |nl.cells| && nl'.cells[k].kind == nl.cells[k].kind
      && (nl.cells[k].kind != Dff ==> nl'.cells[k] == nl.cells[k])
      && (nl.cells[k].kind == Dff ==>
            var q := GetPort(nl.cells[k], Q);
            var q' := GetPort(nl'.cells[k], Q);
            && |q'| == |q|
            && (i < |q| ==>
                  if q[i].WireBit? && q[i] in pattern then q'[i] == WireBit(|nl.wires|, IndexOf(pattern, q[i]))
                  else q'[i] == q[i]))
  {
    var pattern := SortAndUnify(Canon(sm, sig));
    forall a, b | 0 <= a < b < |pattern| ensures pattern[a] != pattern[b] {
      SortedDistinct(pattern, a, b);
    }
    GetSetConn(nl.cells[k].conns, Q, Replace(GetPort(nl.cells[k], Q), pattern, WireSig(|nl.wires|, |pattern|)), Q);
  }

  /** Bit j of the sorted pattern is moved to bit j of the fresh wire. */
  lemma DisconnectPosition(sm: SigMap, sig: Sig, j: nat)
    requires j < |SortAndUnify(Canon(sm, sig))|
    ensures IndexOf(SortAndUnify(Canon(sm, sig)), SortAndUnify(Canon(sm, sig))[j]) == j
  {
    SortedIndexOf(SortAndUnify(Canon(sm, sig)), j);
  }

  // ---------------------------------------------------------------------------
  // The module after handle_rd_cell
  // ---------------------------------------------------------------------------

  /** The netlist after a read-port merge m, from the netlist `nl` the walk
      left: on a data commit the disconnect, then for more than one enable
      bit the $reduce_and, then the port rewrite of cell k. */
  function MergeRd(sm: SigMap, nl: Netlist, k: nat, m: RdMerge, en: Sig): Netlist
    requires k < |nl.cells|
  {
    var nl2 := if m.AddrMerge? then nl else Disconnect(sm, nl, m.data);
    var reduce := m.ChainMerge? && |en| > 1;
    var enSig := if reduce then WireSig(|nl2.wires|, 1) else en;
    var nl3 :=
      if reduce then Netlist(nl2.wires + [Wire(1, false, None)],
                             nl2.cells + [Cell(ReduceAnd, [Conn(A, en), Conn(Y, enSig)], map[])])
      else nl2;
    Netlist(nl3.wires, nl3.cells[k := CommitRd(nl3.cells[k], m, enSig)])
  }

  /** The netlist after the mux-chain walk: one NOT cell per step the data
      entered on A. */
  function WalkNetlist(nl: Netlist, steps: seq<Step>): Netlist
  {
    Netlist(nl.wires + NotWires(steps), nl.cells + NotCells(steps, |nl.wires|))
  }

  lemma WalkNetlistSnoc(nl: Netlist, steps: seq<Step>, t: Step)
    ensures WalkNetlist(WalkNetlist(nl, steps), [t]) == WalkNetlist(nl, steps + [t])
  {
    WalkSnoc(steps, t, |nl.wires|);
    WalkSnoc([], t, |nl.wires| + InvCount(steps));
    assert [] + [t] == [t];
  }

  /** One iteration of the walk loop on the netlist: appending step t to the
      walk so far is building t's NOT gate (if any) on the current netlist,
      and t's enable term names the next fresh wire. */
  lemma WalkAdvance(nl0: Netlist, steps: seq<Step>, t: Step, nl: Netlist)
    requires nl == WalkNetlist(nl0, steps)
    ensures WalkNetlist(nl, [t]) == WalkNetlist(nl0, steps + [t])
    ensures EnTerms(steps + [t], |nl0.wires|) == EnTerms(steps, |nl0.wires|) + Term(t, |nl.wires|)
  {
    WalkNetlistSnoc(nl0, steps, t);
    WalkSnoc(steps, t, |nl0.wires|);
  }

  /** `steps` is the part of the walk from `data` (with `fuel0` steps
      allowed) already taken, and `last` with `fuel` steps left is where the
      rest of it starts. */
  predicate WalkReaches(sm: SigMap, cells: seq<Cell>, muxA: map<Sig, nat>, muxB: map<Sig, nat>,
                        data: Sig, fuel0: nat, steps: seq<Step>, last: Sig, fuel: nat)
    requires MapsInto(muxA, |cells|) && MapsInto(muxB, |cells|)
  {
    var rest := Walk(sm, cells, muxA, muxB, last, fuel);
    Walk(sm, cells, muxA, muxB, data, fuel0) == Chain(steps + rest.steps, rest.last)
  }

  /** The walk loop starts with nothing taken and the whole fuel left. */
  lemma WalkStarts(sm: SigMap, cells: seq<Cell>, muxA: map<Sig, nat>, muxB: map<Sig, nat>, data: Sig, fuel0: nat)
    requires MapsInto(muxA, |cells|) && MapsInto(muxB, |cells|)
    ensures WalkReaches(sm, cells, muxA, muxB, data, fuel0, [], data, fuel0)
  {
    assert [] + Walk(sm, cells, muxA, muxB, data, fuel0).steps == Walk(sm, cells, muxA, muxB, data, fuel0).steps;
  }

  /** When the walk loop stops (no fuel, or a signal that is no key), what
      it took is the whole chain and where it stopped is the chain's end. */
  lemma WalkEnds(sm: SigMap, cells: seq<Cell>, muxA: map<Sig, nat>, muxB: map<Sig, nat>,
                 data: Sig, fuel0: nat, steps: seq<Step>, last: Sig, fuel: nat)
    requires MapsInto(muxA, |cells|) && MapsInto(muxB, |cells|)
    requires WalkReaches(sm, cells, muxA, muxB, data, fuel0, steps, last, fuel)
    requires fuel == 0 || !(last in muxA || last in muxB)
    ensures Walk(sm, cells, muxA, muxB, data, fuel0) == Chain(steps, last)
  {
    assert steps + [] == steps;
  }

  /** One iteration of the walk loop on the chain: the step at `last` (read
      in any netlist that extends the one the maps index) is the next one of
      the chain. */
  lemma WalkStepsOn(sm: SigMap, cells0: seq<Cell>, cells: seq<Cell>, muxA: map<Sig, nat>, muxB: map<Sig, nat>,
                    data: Sig, fuel0: nat, steps: seq<Step>, last: Sig, fuel: nat)
    requires MapsInto(muxA, |cells0|) && MapsInto(muxB, |cells0|)
    requires |cells0| <= |cells| && cells[..|cells0|] == cells0
    requires fuel > 0 && (last in muxA || last in muxB)
    requires WalkReaches(sm, cells0, muxA, muxB, data, fuel0, steps, last, fuel)
    ensures MapsInto(muxA, |cells|) && MapsInto(muxB, |cells|)
    ensures StepAt(sm, cells, muxA, muxB, last) == StepAt(sm, cells0, muxA, muxB, last)
    ensures NextAt(sm, cells, muxA, muxB, last) == NextAt(sm, cells0, muxA, muxB, last)
    ensures WalkReaches(sm, cells0, muxA, muxB, data, fuel0, steps + [StepAt(sm, cells0, muxA, muxB, last)],
                        NextAt(sm, cells0, muxA, muxB, last), fuel - 1)
  {
    var i := if last in muxA then muxA[last] else muxB[last];
    assert cells[i] == cells0[i];
    assert MuxOf(cells, muxA, muxB, last) == MuxOf(cells0, muxA, muxB, last);
    var t := StepAt(sm, cells0, muxA, muxB, last);
    var rest := Walk(sm, cells0, muxA, muxB, NextAt(sm, cells0, muxA, muxB, last), fuel - 1);
    assert steps + ([t] + rest.steps) == (steps + [t]) + rest.steps;
  }

  /** The module state after handle_rd_cell(k) with plan p: the walk's NOT
      cells (built whether or not anything merges), then the merge. */
  function ApplyRd(sm: SigMap, nl: Netlist, k: nat, p: RdPlan): Netlist
    requires k < |nl.cells|
  {
    var steps := if p.chain.Some? then p.chain.value.steps else [];
    var nl1 := WalkNetlist(nl, steps);
    match p.merge
    case None => nl1
    case Some(m) => MergeRd(sm, nl1, k, m, EnTerms(steps, |nl.wires|))
  }

  /** handle_rd_cell only appends wires and cells; it rewrites the port itself,
      which afterwards has CLK_ENABLE set when something merged, and the Q of
      $dffs; every other cell it leaves as it was. */
  lemma ApplyRdFrame(sm: SigMap, nl: Netlist, k: nat, p: RdPlan, j: nat)
    requires k < |nl.cells| && j < |nl.cells|
    ensures var nl' := ApplyRd(sm, nl, k, p);
      && |nl'.cells| >= |nl.cells| && |nl'.wires| >= |nl.wires|
      && nl'.wires[..|nl.wires|] == nl.wires
      && nl'.cells[j].kind == nl.cells[j].kind
      && (j != k && nl.cells[j].kind != Dff ==> nl'.cells[j] == nl.cells[j])
      && (p.merge.None? ==> nl'.cells[k] == nl.cells[k])
      && (p.merge.Some? ==> ParamBool(nl'.cells[k], ClkEnable))
  {
    var steps := if p.chain.Some? then p.chain.value.steps else [];
    var nl1 := WalkNetlist(nl, steps);
    assert nl1.cells[j] == nl.cells[j] && nl1.cells[k] == nl.cells[k];
    assert nl1.wires[..|nl.wires|] == nl.wires;
    if p.merge.Some? {
      var en := EnTerms(steps, |nl.wires|);
      var nl' := MergeRd(sm, nl1, k, p.merge.value, en);
      MergeRdFrame(sm, nl1, k, p.merge.value, en, j);
      MergeRdFrame(sm, nl1, k, p.merge.value, en, k);
      assert nl'.wires[..|nl.wires|] == nl'.wires[..|nl1.wires|][..|nl.wires|];
    }
  }

  /** The merge step of handle_rd_cell only appends wires and cells, sets
      CLK_ENABLE on the port, and among the other cells changes only $dffs. */
  lemma MergeRdFrame(sm: SigMap, nl: Netlist, k: nat, m: RdMerge, en: Sig, j: nat)
    requires k < |nl.cells| && j < |nl.cells|
    ensures var nl' := MergeRd(sm, nl, k, m, en);
      && |nl'.cells| >= |nl.cells| && |nl'.wires| >= |nl.wires|
      && nl'.wires[..|nl.wires|] == nl.wires
      && nl'.cells[j].kind == nl.cells[j].kind
      && (j != k && nl.cells[j].kind != Dff ==> nl'.cells[j] == nl.cells[j])
      && ParamBool(nl'.cells[k], ClkEnable)
  {
    var nl2 := if m.AddrMerge? then nl else Disconnect(sm, nl, m.data);
    if !m.AddrMerge? {
      DisconnectExact(sm, nl, m.data, j, 0);
      DisconnectExact(sm, nl, m.data, k, 0);
    }
    assert nl2.wires[..|nl.wires|] == nl.wires;
    var reduce := m.ChainMerge? && |en| > 1;
    var enSig := if reduce then WireSig(|nl2.wires|, 1) else en;
    CommitRdReadsBack(if reduce then (nl2.cells + [Cell(ReduceAnd, [Conn(A, en), Conn(Y, enSig)], map[])])[k] else nl2.cells[k], m, enSig, Clk);
  }

  /** handle_wr_cell changes at most the port itself, keeping its type, and
      sets CLK_ENABLE when it merges. */
  lemma CommitWrFrame(cells: seq<Cell>, k: nat, p: WrPlan, j: nat)
    requires k < |cells| && j < |cells|
    ensures var cells' := if p.merge.Some? then cells[k := CommitWr(cells[k], p.merge.value)] else cells;
      && |cells'| == |cells|
      && cells'[j].kind == cells[j].kind
      && (j != k ==> cells'[j] == cells[j])
      && (p.merge.Some? ==> ParamBool(cells'[k], ClkEnable))
  {
    if p.merge.Some? {
      CommitWrReadsBack(cells[k], p.merge.value, Clk, ClkPolarity);
    }
  }
}
