/** MemoryDffWorker: the state memory_dff keeps for one module, and the
    operations that fill it and then merge $dff cells into the module's
    memory ports, each proved against the functions of Index, Tracing and
    Merge that say what it computes. */
module MemoryDff {
  import opened Rtlil
  import opened Tracing
  import opened Index
  import opened Merge

  /** What the tracer reads of the $dff at cell index id. */
  function View(id: nat, c: Cell): DffView
  {
    DffView(id, GetPort(c, Clk), ParamBool(c, ClkPolarity), GetPort(c, D), GetPort(c, Q))
  }

  predicate IndexesInto(ids: seq<nat>, n: nat)
  {
    forall i :: 0 <= i < |ids| ==> ids[i] < n
  }

  function Views(cells: seq<Cell>, ids: seq<nat>): seq<DffView>
    requires IndexesInto(ids, |cells|)
  {
    seq(|ids|, i requires 0 <= i < |ids| => View(ids[i], cells[ids[i]]))
  }

  /** Cells appended after the indexed ones do not change what the tracer sees. */
  lemma ViewsAppend(cells: seq<Cell>, extra: seq<Cell>, ids: seq<nat>)
    requires IndexesInto(ids, |cells|)
    ensures IndexesInto(ids, |cells + extra|)
    ensures Views(cells + extra, ids) == Views(cells, ids)
  {
    assert forall i :: 0 <= i < |ids| ==> (cells + extra)[ids[i]] == cells[ids[i]];
  }

  /** A $dff a trace may use is one of the indexed $dff cells. */
  lemma UsableListed(cells: seq<Cell>, ids: seq<nat>, ctx: Ctx, x: nat)
    requires IndexesInto(ids, |cells|) && ctx.dffs == Views(cells, ids)
    requires exists after :: UsableId(ctx, after, x)
    ensures x in ids
  {
    var after :| UsableId(ctx, after, x);
    var j :| 0 <= j < |ctx.dffs| && ctx.dffs[j].id == x && !Skipped(ctx, after, j);
    assert ids[j] == x;
  }

  /** A memory port the two loops of `run` hand to handle_wr_cell or
      handle_rd_cell: selected, of the right type, CLK_ENABLE still clear. */
  predicate Targeted(c: Cell, k: nat, selected: set<nat>, wrOnly: bool)
  {
    k in selected && !ParamBool(c, ClkEnable) && (c.kind == MemWr || (c.kind == MemRd && !wrOnly))
  }

  /** A port the pass handed to a handler: unchanged, or now with CLK_ENABLE set. */
  predicate Touched(before: Cell, after: Cell)
  {
    after == before || ParamBool(after, ClkEnable)
  }

  class Worker {
    const mod: Module
    /** The SigMap of the module, built from its alias table. */
    const sigmap: SigMap
    var initBits: set<Bit>
    var usersCount: map<Bit, int>
    /** dff_cells, as cell indexes in discovery order. */
    var dffCells: seq<nat>
    var muxCellsA: map<Sig, nat>
    var muxCellsB: map<Sig, nat>
    var invbits: map<Bit, Bit>
    var forwardMerged: set<nat>
    var candidates: set<nat>

    predicate Valid()
      reads this, mod
    {
      && mod.Valid() && sigmap == mod.aliases
      && IndexesInto(dffCells, |mod.cells|)
      && MapsInto(muxCellsA, |mod.cells|) && MapsInto(muxCellsB, |mod.cells|)
    }

    /** The part of the worker state a trace reads. */
    function TraceCtx(): Ctx
      reads this`invbits, this`initBits, this`dffCells, this`forwardMerged, mod
      requires IndexesInto(dffCells, |mod.cells|)
    {
      Ctx(sigmap, invbits, initBits, Views(mod.cells, dffCells), forwardMerged)
    }

    /** MemoryDffWorker(module): collects the canonical bits that carry an
        initial value of 0 or 1; every other index starts empty. */
    constructor (mod: Module)
      requires mod.Valid()
      ensures Valid() && this.mod == mod && sigmap == mod.aliases
      ensures initBits == InitBits(mod.aliases, mod.wires)
      ensures usersCount == map[] && dffCells == [] && invbits == map[]
      ensures muxCellsA == map[] && muxCellsB == map[]
      ensures forwardMerged == {} && candidates == {}
    {
      var bits: set<Bit> := {};
      var w := 0;
      while w < |mod.wires|
        invariant 0 <= w <= |mod.wires|
        invariant bits == InitBits(mod.aliases, mod.wires[..w])
      {
        var wire := mod.wires[w];
        ghost var before := bits;
        if wire.init.Some? {
          var sig := Canon(mod.aliases, WireSig(w, wire.width));
          var initval := wire.init.value;
          var i := 0;
          while i < |sig| && i < |initval|
            invariant 0 <= i <= |sig|
            invariant bits == before + set i' | 0 <= i' < i && HasInit(wire, i') :: CanonBit(mod.aliases, WireBit(w, i'))
          {
            if initval[i] == S0 || initval[i] == S1 {
              bits := bits + {sig[i]};
            }
            i := i + 1;
          }
        }
        assert bits == before + WireInitBits(mod.aliases, w, wire);
        assert mod.wires[..w + 1][..w] == mod.wires[..w];
        w := w + 1;
      }
      assert mod.wires[..w] == mod.wires;
      this.mod := mod;
      sigmap := mod.aliases;
      initBits := bits;
      usersCount := map[];
      dffCells := [];
      muxCellsA := map[];
      muxCellsB := map[];
      invbits := map[];
      forwardMerged := {};
      candidates := {};
    }

    /** sigbit_users_count[bit]++ for every bit of s. */
    method CountBits(s: Sig)
      modifies this`usersCount
      ensures forall b :: UsersOf(usersCount, b) == UsersOf(old(usersCount), b) + Occurrences(s, b)
    {
      var i := 0;
      while i < |s|
        invariant 0 <= i <= |s|
        invariant forall b :: UsersOf(usersCount, b) == UsersOf(old(usersCount), b) + Occurrences(s[..i], b)
      {
        OccurrencesSnoc(s, i);
        usersCount := usersCount[s[i] := UsersOf(usersCount, s[i]) + 1];
        i := i + 1;
      }
      assert s[..i] == s;
    }

    /** The inner loop of find_sig_before_dff over dff_cells: the first $dff
        that is not passed over (forward-merged, after a port), whose clock
        seen through an inverter fits the fixed one, and whose searched side
        holds the bit exactly once; with the bit opposite it and its clock. */
    method FindDff(bit: Bit, clk: Sig, pol: bool, after: bool) returns (found: Option<Match>)
      requires Valid()
      ensures found == FindMatch(TraceCtx(), after, bit, clk, pol, 0)
    {
      ghost var ctx := TraceCtx();
      found := None;
      var j := 0;
      while found.None? && j < |dffCells|
        invariant 0 <= j <= |dffCells|
        invariant found.None? ==> FindMatch(ctx, after, bit, clk, pol, 0) == FindMatch(ctx, after, bit, clk, pol, j)
        invariant found.Some? ==> FindMatch(ctx, after, bit, clk, pol, 0) == found
      {
        var id := dffCells[j];
        var cell := mod.cells[id];
        assert ctx.dffs[j] == View(id, cell);
        var thisClk := GetPort(cell, Clk);
        var thisPol := ParamBool(cell, ClkPolarity);
        if |thisClk| == 1 && thisClk[0] in invbits {
          thisClk := [invbits[thisClk[0]]];
          thisPol := !thisPol;
        }
        var qNorm := Canon(sigmap, GetPort(cell, if after then D else Q));
        var d := Extract(qNorm, bit, GetPort(cell, if after then Q else D));
        var fits := !(after && id in forwardMerged) && (clk != Undef ==> thisClk == clk && thisPol == pol) && |d| == 1;
        assert thisClk == EffClk(ctx.invbits, ctx.dffs[j]) && thisPol == EffPol(ctx.invbits, ctx.dffs[j]);
        assert d == Pick(ctx, after, bit, j);
        assert fits == Eligible(ctx, after, bit, clk, pol, j);
        if fits {
          found := Some(Match(j, d[0], thisClk, thisPol));
        } else {
          j := j + 1;
        }
      }
    }

    /** find_sig_before_dff(sig, clk, clk_polarity, after): the loop over the
        canonical bits of sig. The result, the rewritten signal and the clock
        are those of Trace, and candidate_dffs gains exactly the $dffs the
        trace used. */
    method FindSigBeforeDff(sig: Sig, clk: Sig, pol: bool, after: bool)
      returns (ok: bool, traced: Sig, clk': Sig, pol': bool)
      requires Valid()
      modifies this`candidates
      ensures var o := Trace(TraceCtx(), after, sig, clk, pol);
        ok == o.ok && traced == o.sig && clk' == o.clk && pol' == o.pol
        && candidates == old(candidates) + o.used
    {
      ghost var ctx := TraceCtx();
      ghost var used: set<nat> := {};
      var inits, ids := initBits, dffCells;
      traced, clk', pol' := Canon(sigmap, sig), clk, pol;
      var i := 0;
      while i < |traced|
        invariant 0 <= i <= |traced|
        invariant inits == ctx.initBits && |ids| == |ctx.dffs| && ctx == TraceCtx()
        invariant Trace(ctx, after, sig, clk, pol) == TraceFrom(ctx, after, traced, i, clk', pol', used)
        invariant candidates == old(candidates) + used
      {
        var bit := traced[i];
        if bit.Const? {
          i := i + 1;
          continue;
        }
        if !after && CanonBit(sigmap, bit) in inits {
          return false, traced, clk', pol';
        }
        var found := FindDff(bit, clk', pol', after);
        if found.None? {
          return false, traced, clk', pol';
        }
        var m := found.value;
        if after && m.bit in inits {
          return false, traced, clk', pol';
        }
        assert ids[m.pos] == ctx.dffs[m.pos].id;
        traced := traced[i := m.bit];
        clk', pol' := m.clk, m.pol;
        candidates := candidates + {ids[m.pos]};
        used := used + {ids[m.pos]};
        i := i + 1;
      }
      ok := true;
    }

    /** The first loop of `run`: every bit of a module output is one user. */
    method CountOutputPorts()
      requires Valid()
      modifies this`usersCount
      ensures forall b :: UsersOf(usersCount, b) == UsersOf(old(usersCount), b) + WireUsers(sigmap, mod.wires, b)
    {
      var w := 0;
      while w < |mod.wires|
        invariant 0 <= w <= |mod.wires|
        invariant forall b :: UsersOf(usersCount, b) == UsersOf(old(usersCount), b) + WireUsers(sigmap, mod.wires[..w], b)
      {
        if mod.wires[w].portOutput {
          CountBits(Canon(sigmap, WireSig(w, mod.wires[w].width)));
        }
        assert mod.wires[..w + 1][..w] == mod.wires[..w];
        w := w + 1;
      }
      assert mod.wires[..w] == mod.wires;
    }

    /** The users a cell adds: every bit of a connection that is an input of
        the cell, or of any connection when the cell type is unknown. */
    method CountCellUsers(c: Cell)
      modifies this`usersCount
      ensures forall b :: UsersOf(usersCount, b) == UsersOf(old(usersCount), b) + ConnUsers(sigmap, c.kind, c.conns, b)
    {
      var j := 0;
      while j < |c.conns|
        invariant 0 <= j <= |c.conns|
        invariant forall b :: UsersOf(usersCount, b) == UsersOf(old(usersCount), b) + ConnUsers(sigmap, c.kind, c.conns[..j], b)
      {
        var conn := c.conns[j];
        if !IsKnown(c.kind) || IsInput(c.kind, conn.port) {
          CountBits(Canon(sigmap, conn.sig));
        }
        assert c.conns[..j + 1][..j] == c.conns[..j];
        j := j + 1;
      }
      assert c.conns[..j] == c.conns;
    }

    /** invbits[sig_y[i]] = sig_a[i] for every position of the output. */
    method AddInverter(sigY: Sig, sigA: Sig)
      modifies this`invbits
      ensures invbits == AddPairs(old(invbits), sigY, sigA, |sigY|)
    {
      var i := 0;
      while i < |sigY|
        invariant 0 <= i <= |sigY|
        invariant invbits == AddPairs(old(invbits), sigY, sigA, i)
      {
        if i < |sigA| {
          invbits := invbits[sigY[i] := sigA[i]];
        }
        i := i + 1;
      }
    }

    /** The body of the cell loop of `run` for cell k: dff_cells, the two mux
        maps, invbits and the users count, each extended by cell k. */
    method IndexCell(k: nat)
      requires Valid() && k < |mod.cells|
      modifies this`dffCells, this`muxCellsA, this`muxCellsB, this`invbits, this`usersCount
      ensures var c := mod.cells[k];
        && dffCells == old(dffCells) + (if c.kind == Dff then [k] else [])
        && muxCellsA == (if c.kind == Mux then old(muxCellsA)[Canon(sigmap, GetPort(c, A)) := k] else old(muxCellsA))
        && muxCellsB == (if c.kind == Mux then old(muxCellsB)[Canon(sigmap, GetPort(c, B)) := k] else old(muxCellsB))
        && invbits == (if IsInverter(c) then AddPairs(old(invbits), InvOutput(c), InvInput(c), |InvOutput(c)|) else old(invbits))
        && forall b :: UsersOf(usersCount, b) == UsersOf(old(usersCount), b) + ConnUsers(sigmap, c.kind, c.conns, b)
    {
      var cell := mod.cells[k];
      if cell.kind == Dff {
        dffCells := dffCells + [k];
      }
      if cell.kind == Mux {
        muxCellsA := muxCellsA[Canon(sigmap, GetPort(cell, A)) := k];
        muxCellsB := muxCellsB[Canon(sigmap, GetPort(cell, B)) := k];
      }
      if cell.kind == Not || cell.kind == NotGate || (cell.kind == LogicNot && |GetPort(cell, A)| == 1) {
        var sigA := GetPort(cell, A);
        var sigY := GetPort(cell, Y);
        if cell.kind == Not {
          sigA := ExtendU0(sigA, |sigY|, ParamBool(cell, ASigned));
        }
        if cell.kind == LogicNot {
          sigY := ExtendU0(sigY, 1, false);
        }
        AddInverter(sigY, sigA);
      }
      CountCellUsers(cell);
    }

    /** The cell loop of `run`: afterwards each index is the function of the
        cell list that defines it. */
    method IndexCells()
      requires Valid()
      requires dffCells == [] && muxCellsA == map[] && muxCellsB == map[] && invbits == map[]
      modifies this`dffCells, this`muxCellsA, this`muxCellsB, this`invbits, this`usersCount
      ensures Valid()
      ensures dffCells == DffCells(mod.cells)
      ensures muxCellsA == MuxMap(sigmap, mod.cells, A) && muxCellsB == MuxMap(sigmap, mod.cells, B)
      ensures invbits == InvBits(mod.cells)
      ensures forall b :: UsersOf(usersCount, b) == UsersOf(old(usersCount), b) + CellUsers(sigmap, mod.cells, b)
    {
      ghost var cells := mod.cells;
      var k := 0;
      while k < |mod.cells|
        invariant 0 <= k <= |cells| && mod.cells == cells
        invariant Valid()
        invariant dffCells == DffCells(cells[..k])
        invariant muxCellsA == MuxMap(sigmap, cells[..k], A) && muxCellsB == MuxMap(sigmap, cells[..k], B)
        invariant invbits == InvBits(cells[..k])
        invariant forall b :: UsersOf(usersCount, b) == UsersOf(old(usersCount), b) + CellUsers(sigmap, cells[..k], b)
      {
        IndexCell(k);
        IndexPrefix(sigmap, cells, k);
        k := k + 1;
      }
      assert cells[..k] == cells;
    }

    /** The commit of handle_wr_cell: CLK, ADDR, DATA and EN set, CLK_ENABLE
        set and CLK_POLARITY taken from the trace. */
    method CommitWrite(k: nat, m: WrMerge)
      requires Valid() && k < |mod.cells|
      modifies mod
      ensures Valid()
      ensures mod.wires == old(mod.wires)
      ensures mod.cells == old(mod.cells)[k := CommitWr(old(mod.cells[k]), m)]
    {
      mod.SetCellPort(k, Clk, m.clk);
      mod.SetCellPort(k, Addr, m.addr);
      mod.SetCellPort(k, Data, m.data);
      mod.SetCellPort(k, En, m.en);
      mod.SetCellParam(k, ClkEnable, true);
      mod.SetCellParam(k, ClkPolarity, m.pol);
    }

    /** handle_wr_cell(cell k): traces ADDR, DATA and EN before the port,
        threading one clock, with candidate_dffs cleared first; on a full
        success under a concrete clock it rewrites the port as CommitWr says
        and marks the used $dffs forward-merged, otherwise it changes no cell. */
    method HandleWrCell(k: nat)
      requires Valid() && k < |mod.cells|
      modifies mod, this`candidates, this`forwardMerged
      ensures Valid()
      ensures var p := PlanWr(old(TraceCtx()), old(mod.cells[k]));
        && candidates == p.used
        && mod.wires == old(mod.wires)
        && mod.cells == (if p.merge.Some? then old(mod.cells)[k := CommitWr(old(mod.cells[k]), p.merge.value)] else old(mod.cells))
        && forwardMerged == (if p.merge.Some? then old(forwardMerged) + p.used else old(forwardMerged))
      ensures forall x :: x in forwardMerged ==> x in old(forwardMerged) || x in dffCells
    {
      ghost var ctx := TraceCtx();
      var cell := mod.cells[k];
      ghost var ta := Trace(ctx, false, GetPort(cell, Addr), Undef, false);
      ghost var td := Trace(ctx, false, GetPort(cell, Data), ta.clk, ta.pol);
      ghost var te := Trace(ctx, false, GetPort(cell, En), td.clk, td.pol);
      ghost var plan := PlanWr(ctx, cell);
      WrUsedDffs(ctx, cell);
      forall x | x in plan.used
        ensures x in dffCells
      {
        UsableListed(mod.cells, dffCells, ctx, x);
      }
      candidates := {};
      var ok, sigAddr, clk, pol := FindSigBeforeDff(GetPort(cell, Addr), Undef, false, false);
      assert ok == ta.ok && sigAddr == ta.sig && clk == ta.clk && pol == ta.pol && candidates == ta.used;
      if !ok {
        assert plan == WrPlan(None, ta.used);
        return;
      }
      var sigData;
      ok, sigData, clk, pol := FindSigBeforeDff(GetPort(cell, Data), clk, pol, false);
      assert ok == td.ok && sigData == td.sig && clk == td.clk && pol == td.pol && candidates == ta.used + td.used;
      if !ok {
        assert plan == WrPlan(None, ta.used + td.used);
        return;
      }
      var sigEn;
      ok, sigEn, clk, pol := FindSigBeforeDff(GetPort(cell, En), clk, pol, false);
      assert ok == te.ok && sigEn == te.sig && clk == te.clk && pol == te.pol && candidates == plan.used;
      if !ok {
        assert plan == WrPlan(None, ta.used + td.used + te.used);
        return;
      }
      if clk != Undef {
        assert plan.merge == Some(WrMerge(clk, pol, sigAddr, sigData, sigEn));
        forwardMerged := forwardMerged + candidates;
        CommitWrite(k, WrMerge(clk, pol, sigAddr, sigData, sigEn));
      } else {
        assert plan.merge == None;
      }
    }

    /** disconnect_dff(sig): adds a wire as wide as the distinct canonical
        bits of sig and moves every $dff output bit that is one of them onto
        it, which is the netlist Disconnect describes. */
    method DisconnectDff(sig: Sig)
      requires Valid()
      modifies mod
      ensures Valid()
      ensures Netlist(mod.wires, mod.cells) == Disconnect(sigmap, old(Netlist(mod.wires, mod.cells)), sig)
    {
      var pattern := SortAndUnify(Canon(sigmap, sig));
      ghost var cells0 := mod.cells;
      var newSig := mod.AddWire(|pattern|);
      ghost var target := DisconnectCells(cells0, pattern, newSig);
      var k := 0;
      while k < |mod.cells|
        invariant 0 <= k <= |mod.cells| == |cells0|
        invariant mod.wires == old(mod.wires) + [Wire(|pattern|, false, None)]
        invariant forall j :: 0 <= j < k ==> mod.cells[j] == target[j]
        invariant forall j :: k <= j < |cells0| ==> mod.cells[j] == cells0[j]
      {
        if mod.cells[k].kind == Dff {
          var q := GetPort(mod.cells[k], Q);
          q := Replace(q, pattern, newSig);
          mod.SetCellPort(k, Q, q);
        }
        k := k + 1;
      }
      assert mod.cells == target;
    }

    /** The fan-out checks of handle_rd_cell: whether some bit of s has more
        than one user. */
    method HasSharedBit(s: Sig) returns (shared: bool)
      ensures shared <==> Shared(usersCount, s)
    {
      shared := false;
      var i := 0;
      while i < |s| && !shared
        invariant 0 <= i <= |s|
        invariant shared <==> exists j :: 0 <= j < i && UsersOf(usersCount, s[j]) > 1
      {
        shared := UsersOf(usersCount, s[i]) > 1;
        i := i + 1;
      }
    }

    /** One pass of the do/while body of handle_rd_cell at signal `last`:
        the held input of the $mux for check_q, its canonical Y, and the enable
        term, which is S, or the output of a new $logic_not of S when the data
        entered on A. */
    method FollowMux(last: Sig) returns (keep: Sig, next: Sig, term: Sig)
      requires Valid() && (last in muxCellsA || last in muxCellsB)
      modifies mod
      ensures Valid()
      ensures var t := StepAt(sigmap, old(mod.cells), muxCellsA, muxCellsB, last);
        && keep == t.keep
        && next == NextAt(sigmap, old(mod.cells), muxCellsA, muxCellsB, last)
        && term == Term(t, |old(mod.wires)|)
        && Netlist(mod.wires, mod.cells) == WalkNetlist(old(Netlist(mod.wires, mod.cells)), [t])
    {
      var enableInvert := last in muxCellsA;
      var mux := mod.cells[if enableInvert then muxCellsA[last] else muxCellsB[last]];
      keep := Canon(sigmap, GetPort(mux, if enableInvert then B else A));
      next := Canon(sigmap, GetPort(mux, Y));
      WalkSnoc([], Step(keep, GetPort(mux, S), enableInvert), |mod.wires|);
      assert [] + [Step(keep, GetPort(mux, S), enableInvert)] == [Step(keep, GetPort(mux, S), enableInvert)];
      if enableInvert {
        term := mod.AddLogicNot(GetPort(mux, S));
      } else {
        term := GetPort(mux, S);
      }
    }

    /** One pass of the do/while walk, at signal `last` with `fuel` steps
        left, after `steps` taken from `data` on netlist nl0: follows the
        $mux, and the walk, the netlist, EN and check_q each grow by step t. */
    method WalkStep(ghost nl0: Netlist, ghost data: Sig, ghost fuel0: nat, ghost steps: seq<Step>, last: Sig, ghost fuel: nat)
      returns (keep: Sig, next: Sig, term: Sig, ghost t: Step)
      requires Valid() && MapsInto(muxCellsA, |nl0.cells|) && MapsInto(muxCellsB, |nl0.cells|)
      requires fuel > 0 && (last in muxCellsA || last in muxCellsB)
      requires WalkReaches(sigmap, nl0.cells, muxCellsA, muxCellsB, data, fuel0, steps, last, fuel)
      requires Netlist(mod.wires, mod.cells) == WalkNetlist(nl0, steps)
      modifies mod
      ensures Valid()
      ensures WalkReaches(sigmap, nl0.cells, muxCellsA, muxCellsB, data, fuel0, steps + [t], next, fuel - 1)
      ensures Netlist(mod.wires, mod.cells) == WalkNetlist(nl0, steps + [t])
      ensures EnTerms(steps + [t], |nl0.wires|) == EnTerms(steps, |nl0.wires|) + term
      ensures Keeps(steps + [t]) == Keeps(steps) + [keep]
    {
      t := StepAt(sigmap, nl0.cells, muxCellsA, muxCellsB, last);
      ghost var nl := Netlist(mod.wires, mod.cells);
      assert nl.cells[..|nl0.cells|] == nl0.cells;
      WalkStepsOn(sigmap, nl0.cells, nl.cells, muxCellsA, muxCellsB, data, fuel0, steps, last, fuel);
      WalkAdvance(nl0, steps, t, nl);
      KeepsSnoc(steps, t);
      keep, next, term := FollowMux(last);
    }

    /** The do/while walk of handle_rd_cell from DATA through the mux maps
        (entered only when DATA is a key, so a while loop), collecting
        check_q and the enable. A cyclic chain is cut after as many steps as
        there are cells. */
    method WalkMuxChain(data: Sig) returns (en: Sig, checkQ: seq<Sig>, last: Sig)
      requires Valid()
      modifies mod
      ensures Valid()
      ensures var ch := Walk(sigmap, old(mod.cells), muxCellsA, muxCellsB, data, |old(mod.cells)|);
        && Netlist(mod.wires, mod.cells) == WalkNetlist(old(Netlist(mod.wires, mod.cells)), ch.steps)
        && en == EnTerms(ch.steps, |old(mod.wires)|)
        && last == ch.last
        && checkQ == Keeps(ch.steps)
    {
      ghost var nl0 := Netlist(mod.wires, mod.cells);
      ghost var fuel0 := |mod.cells|;
      ghost var steps: seq<Step> := [];
      var fuel: nat := |mod.cells|;
      en, checkQ, last := [], [], data;
      WalkStarts(sigmap, nl0.cells, muxCellsA, muxCellsB, data, fuel0);
      while fuel > 0 && (last in muxCellsA || last in muxCellsB)
        invariant fuel <= fuel0
        invariant Valid() && MapsInto(muxCellsA, |nl0.cells|) && MapsInto(muxCellsB, |nl0.cells|)
        invariant WalkReaches(sigmap, nl0.cells, muxCellsA, muxCellsB, data, fuel0, steps, last, fuel)
        invariant Netlist(mod.wires, mod.cells) == WalkNetlist(nl0, steps)
        invariant en == EnTerms(steps, |nl0.wires|)
        invariant checkQ == Keeps(steps)
        decreases fuel
      {
        var keep, next, term, t := WalkStep(nl0, data, fuel0, steps, last, fuel);
        checkQ := checkQ + [keep];
        en := en + term;
        last := next;
        steps := steps + [t];
        fuel := fuel - 1;
      }
      WalkEnds(sigmap, nl0.cells, muxCellsA, muxCellsB, data, fuel0, steps, last, fuel);
    }

    /** The port rewrite of a read-port commit: CLK, EN, DATA or ADDR, and
        the parameters CLK_ENABLE, CLK_POLARITY and TRANSPARENT. */
    method RewriteReadPort(k: nat, m: RdMerge, enSig: Sig)
      requires Valid() && k < |mod.cells|
      modifies mod
      ensures Valid()
      ensures mod.wires == old(mod.wires)
      ensures mod.cells == old(mod.cells)[k := CommitRd(old(mod.cells[k]), m, enSig)]
    {
      mod.SetCellPort(k, Clk, m.clk);
      mod.SetCellPort(k, En, if m.ChainMerge? then enSig else [Const(S1)]);
      if m.AddrMerge? {
        mod.SetCellPort(k, Addr, m.addr);
      } else {
        mod.SetCellPort(k, Data, m.data);
      }
      mod.SetCellParam(k, ClkEnable, true);
      mod.SetCellParam(k, ClkPolarity, m.pol);
      mod.SetCellParam(k, Transparent, m.AddrMerge?);
    }

    /** The three commit blocks of handle_rd_cell: for a data merge the
        disconnect first; for the chain a $reduce_and of the enable when it
        has more than one bit; then the port rewrite. (The source sets CLK
        before it builds the $reduce_and; appending a cell does not touch the
        port, so the resulting module is the same.) */
    method CommitRead(k: nat, m: RdMerge, en: Sig)
      requires Valid() && k < |mod.cells|
      modifies mod
      ensures Valid()
      ensures Netlist(mod.wires, mod.cells) == MergeRd(sigmap, old(Netlist(mod.wires, mod.cells)), k, m, en)
    {
      if !m.AddrMerge? {
        DisconnectDff(m.data);
      }
      var enSig := en;
      if m.ChainMerge? && |en| > 1 {
        enSig := mod.AddReduceAnd(en);
      }
      RewriteReadPort(k, m, enSig);
    }

    /** The mux-chain strategy after the walk that gave chain ch (with
        check_q and the signal reached): the fan-out check on that signal, the
        trace after the port from it, and the check_q comparison. Yields the
        read-port merge PlanChain makes, if any, or else the polarity and
        candidates the address strategy starts from. */
    method DecideChain(cell: Cell, ghost ch: Chain, checkQ: seq<Sig>, last: Sig)
      returns (merge: Option<RdMerge>, pol: bool, ghost used: set<nat>)
      requires Valid() && checkQ == Keeps(ch.steps) && last == ch.last
      modifies this`candidates
      ensures var p := PlanChain(TraceCtx(), usersCount, cell, ch);
        && candidates == old(candidates) + used
        && (merge.Some? ==> merge.value.ChainMerge? && p == RdPlan(Some(ch), merge, used))
        && (merge.None? ==> p == PlanAddr(TraceCtx(), cell, pol, Some(ch), used))
    {
      ghost var ctx := TraceCtx();
      var shared := HasSharedBit(last);
      if shared {
        return None, false, {};
      }
      var ok, traced, clk;
      ok, traced, clk, pol := FindSigBeforeDff(last, Undef, false, true);
      used := Trace(ctx, true, ch.last, Undef, false).used;
      if ok && clk != Undef && forall i :: 0 <= i < |checkQ| ==> checkQ[i] == traced {
        return Some(ChainMerge(clk, pol, traced)), pol, used;
      }
      if ok && clk != Undef {
        assert !KeepsAll(ch.steps, traced) by {
          var i :| 0 <= i < |checkQ| && checkQ[i] != traced;
          assert ch.steps[i].keep != traced;
        }
      }
      merge := None;
    }

    /** The mux-chain strategy of handle_rd_cell, for a DATA without shared
        bits that is a key of a mux map. */
    method MergeReadChain(k: nat) returns (done: bool, pol: bool, ghost chain: Option<Chain>, ghost used: set<nat>)
      requires Valid() && k < |mod.cells|
      requires !Shared(usersCount, Canon(sigmap, GetPort(mod.cells[k], Data)))
      requires GetPort(mod.cells[k], Data) in muxCellsA || GetPort(mod.cells[k], Data) in muxCellsB
      modifies mod, this`candidates
      ensures Valid()
      ensures var p := PlanRd(old(TraceCtx()), usersCount, muxCellsA, muxCellsB, old(mod.cells), old(mod.cells[k]), |old(mod.cells)|);
        && (done ==> Netlist(mod.wires, mod.cells) == ApplyRd(sigmap, old(Netlist(mod.wires, mod.cells)), k, p)
                     && candidates == old(candidates) + p.used)
        && (!done ==> p == PlanAddr(old(TraceCtx()), old(mod.cells[k]), pol, chain, used)
                      && Netlist(mod.wires, mod.cells) == WalkNetlist(old(Netlist(mod.wires, mod.cells)), if chain.Some? then chain.value.steps else [])
                      && mod.cells[k] == old(mod.cells[k])
                      && candidates == old(candidates) + used)
    {
      ghost var ctx := TraceCtx();
      ghost var nl0 := Netlist(mod.wires, mod.cells);
      var cell := mod.cells[k];
      var sigData := GetPort(cell, Data);
      ghost var ch := Walk(sigmap, nl0.cells, muxCellsA, muxCellsB, sigData, |nl0.cells|);
      var en, checkQ, last := WalkMuxChain(sigData);
      ViewsAppend(nl0.cells, NotCells(ch.steps, |nl0.wires|), dffCells);
      assert TraceCtx() == ctx;
      assert mod.cells[k] == cell;
      var merge;
      merge, pol, used := DecideChain(cell, ch, checkQ, last);
      chain := Some(ch);
      if merge.Some? {
        CommitRead(k, merge.value, en);
        return true, pol, chain, used;
      }
      done := false;
    }

    /** The direct strategy of handle_rd_cell, for a DATA without shared bits
        that is no key of either mux map. */
    method MergeReadDirect(k: nat) returns (done: bool, pol: bool, ghost chain: Option<Chain>, ghost used: set<nat>)
      requires Valid() && k < |mod.cells|
      requires !Shared(usersCount, Canon(sigmap, GetPort(mod.cells[k], Data)))
      requires !(GetPort(mod.cells[k], Data) in muxCellsA || GetPort(mod.cells[k], Data) in muxCellsB)
      modifies mod, this`candidates
      ensures Valid()
      ensures var p := PlanRd(old(TraceCtx()), usersCount, muxCellsA, muxCellsB, old(mod.cells), old(mod.cells[k]), |old(mod.cells)|);
        && (done ==> Netlist(mod.wires, mod.cells) == ApplyRd(sigmap, old(Netlist(mod.wires, mod.cells)), k, p)
                     && candidates == old(candidates) + p.used)
        && (!done ==> p == PlanAddr(old(TraceCtx()), old(mod.cells[k]), pol, chain, used)
                      && Netlist(mod.wires, mod.cells) == WalkNetlist(old(Netlist(mod.wires, mod.cells)), if chain.Some? then chain.value.steps else [])
                      && mod.cells[k] == old(mod.cells[k])
                      && candidates == old(candidates) + used)
    {
      ghost var ctx := TraceCtx();
      ghost var nl0 := Netlist(mod.wires, mod.cells);
      var cell := mod.cells[k];
      ghost var plan := PlanRd(ctx, usersCount, muxCellsA, muxCellsB, nl0.cells, cell, |nl0.cells|);
      assert WalkNetlist(nl0, []) == nl0 by {
        assert NotWires([]) == [] && NotCells([], |nl0.wires|) == [];
      }
      chain := None;
      var sigData := GetPort(cell, Data);
      var ok, traced, clk;
      ok, traced, clk, pol := FindSigBeforeDff(sigData, Undef, false, true);
      used := Trace(ctx, true, sigData, Undef, false).used;
      if ok && clk != Undef {
        assert plan == RdPlan(None, Some(DirectMerge(clk, pol, traced)), used);
        CommitRead(k, DirectMerge(clk, pol, traced), []);
        return true, pol, chain, used;
      }
      return false, pol, chain, used;
    }

    /** handle_rd_cell up to its skip_ff_after_read_merging label: the
        fan-out check on DATA, then either the mux-chain strategy or the
        direct one. When one of them merges, the port is done; otherwise what
        remains is the address strategy of PlanAddr, from the polarity the
        data trace left and with the candidates recorded so far. */
    method MergeReadData(k: nat) returns (done: bool, pol: bool, ghost chain: Option<Chain>, ghost used: set<nat>)
      requires Valid() && k < |mod.cells|
      modifies mod, this`candidates
      ensures Valid()
      ensures var p := PlanRd(old(TraceCtx()), usersCount, muxCellsA, muxCellsB, old(mod.cells), old(mod.cells[k]), |old(mod.cells)|);
        && (done ==> Netlist(mod.wires, mod.cells) == ApplyRd(sigmap, old(Netlist(mod.wires, mod.cells)), k, p)
                     && candidates == old(candidates) + p.used)
        && (!done ==> p == PlanAddr(old(TraceCtx()), old(mod.cells[k]), pol, chain, used)
                      && Netlist(mod.wires, mod.cells) == WalkNetlist(old(Netlist(mod.wires, mod.cells)), if chain.Some? then chain.value.steps else [])
                      && mod.cells[k] == old(mod.cells[k])
                      && candidates == old(candidates) + used)
    {
      var sigData := GetPort(mod.cells[k], Data);
      var shared := HasSharedBit(Canon(sigmap, sigData));
      if shared {
        ghost var nl0 := Netlist(mod.wires, mod.cells);
        assert WalkNetlist(nl0, []) == nl0 by {
          assert NotWires([]) == [] && NotCells([], |nl0.wires|) == [];
        }
        return false, false, None, {};
      }
      if sigData in muxCellsA || sigData in muxCellsB {
        done, pol, chain, used := MergeReadChain(k);
      } else {
        done, pol, chain, used := MergeReadDirect(k);
      }
    }

    /** handle_rd_cell(cell k): the data strategies, then, when neither
        merged, a trace before ADDR from an undefined clock, committed under a
        concrete clock. The module ends as ApplyRd of the plan PlanRd makes,
        and candidate_dffs gains the $dffs of every trace that ran. */
    method HandleRdCell(k: nat)
      requires Valid() && k < |mod.cells|
      modifies mod, this`candidates
      ensures Valid()
      ensures var p := PlanRd(old(TraceCtx()), usersCount, muxCellsA, muxCellsB, old(mod.cells), old(mod.cells[k]), |old(mod.cells)|);
        && Netlist(mod.wires, mod.cells) == ApplyRd(sigmap, old(Netlist(mod.wires, mod.cells)), k, p)
        && candidates == old(candidates) + p.used
    {
      ghost var ctx := TraceCtx();
      ghost var nl0 := Netlist(mod.wires, mod.cells);
      ghost var cell := mod.cells[k];
      var done, pol, chain, used := MergeReadData(k);
      if done {
        return;
      }
      ghost var steps := if chain.Some? then chain.value.steps else [];
      ghost var nl1 := Netlist(mod.wires, mod.cells);
      ViewsAppend(nl0.cells, NotCells(steps, |nl0.wires|), dffCells);
      assert TraceCtx() == ctx;
      ghost var t := Trace(ctx, false, GetPort(cell, Addr), Undef, pol);
      var ok, sigAddr, clkAddr;
      ok, sigAddr, clkAddr, pol := FindSigBeforeDff(GetPort(mod.cells[k], Addr), Undef, pol, false);
      if ok && clkAddr != Undef {
        var m := AddrMerge(clkAddr, pol, sigAddr);
        assert MergeRd(sigmap, nl1, k, m, []) == MergeRd(sigmap, nl1, k, m, EnTerms(steps, |nl0.wires|));
        CommitRead(k, m, []);
      }
    }

    /** The indexes `run` builds, as functions of the module it indexed. */
    ghost predicate Indexed(wires: seq<Wire>, cells: seq<Cell>)
      reads this
    {
      && (forall b :: UsersOf(usersCount, b) == Users(sigmap, wires, cells, b))
      && dffCells == DffCells(cells)
      && muxCellsA == MuxMap(sigmap, cells, A) && muxCellsB == MuxMap(sigmap, cells, B)
      && invbits == InvBits(cells)
    }

    /** The two indexing loops of `run`, on a worker whose indexes are still empty. */
    method IndexModule()
      requires Valid()
      requires usersCount == map[] && dffCells == [] && muxCellsA == map[] && muxCellsB == map[] && invbits == map[]
      modifies this`usersCount, this`dffCells, this`muxCellsA, this`muxCellsB, this`invbits
      ensures Valid() && Indexed(mod.wires, mod.cells)
    {
      CountOutputPorts();
      IndexCells();
    }

    /** The $memwr loop of `run`: only the targeted write ports change, each
        to a port with CLK_ENABLE set or not at all. */
    method HandleWritePorts(selected: set<nat>)
      requires Valid()
      modifies mod, this`candidates, this`forwardMerged
      ensures Valid()
      ensures mod.wires == old(mod.wires) && |mod.cells| == |old(mod.cells)|
      ensures forall j :: 0 <= j < |mod.cells| ==> mod.cells[j].kind == old(mod.cells)[j].kind
      ensures forall j :: 0 <= j < |mod.cells| ==>
        if old(mod.cells)[j].kind == MemWr && Targeted(old(mod.cells)[j], j, selected, false)
        then Touched(old(mod.cells)[j], mod.cells[j])
        else mod.cells[j] == old(mod.cells)[j]
      ensures forall x :: x in forwardMerged ==> x in old(forwardMerged) || x in dffCells
    {
      ghost var cells0 := mod.cells;
      var n := |mod.cells|;
      var k := 0;
      while k < n
        invariant 0 <= k <= n == |mod.cells| && mod.wires == old(mod.wires)
        invariant Valid()
        invariant forall x :: x in forwardMerged ==> x in old(forwardMerged) || x in dffCells
        invariant forall j :: 0 <= j < n ==> mod.cells[j].kind == cells0[j].kind
        invariant forall j :: 0 <= j < n ==>
          if j < k && cells0[j].kind == MemWr && Targeted(cells0[j], j, selected, false)
          then Touched(cells0[j], mod.cells[j])
          else mod.cells[j] == cells0[j]
      {
        if k in selected && mod.cells[k].kind == MemWr && !ParamBool(mod.cells[k], ClkEnable) {
          ghost var before := mod.cells;
          ghost var p := PlanWr(TraceCtx(), before[k]);
          HandleWrCell(k);
          forall j | 0 <= j < n
            ensures mod.cells[j].kind == before[j].kind
            ensures j != k ==> mod.cells[j] == before[j]
            ensures j == k ==> Touched(before[j], mod.cells[j])
          {
            CommitWrFrame(before, k, p, j);
          }
        }
        k := k + 1;
      }
    }

    /** The $memrd loop of `run`, over the cells present when it starts:
        wires and cells are only appended, and among the cells present only
        $dffs and the targeted read ports change, the latter each to a port
        with CLK_ENABLE set or not at all. */
    method HandleReadPorts(selected: set<nat>)
      requires Valid()
      modifies mod, this`candidates
      ensures Valid()
      ensures |mod.wires| >= |old(mod.wires)| && mod.wires[..|old(mod.wires)|] == old(mod.wires)
      ensures |mod.cells| >= |old(mod.cells)|
      ensures forall j :: 0 <= j < |old(mod.cells)| ==> mod.cells[j].kind == old(mod.cells)[j].kind
      ensures forall j :: 0 <= j < |old(mod.cells)| && old(mod.cells)[j].kind != Dff ==>
        if old(mod.cells)[j].kind == MemRd && Targeted(old(mod.cells)[j], j, selected, false)
        then Touched(old(mod.cells)[j], mod.cells[j])
        else mod.cells[j] == old(mod.cells)[j]
    {
      ghost var wires0, cells0 := mod.wires, mod.cells;
      var n := |mod.cells|;
      var k := 0;
      while k < n
        invariant 0 <= k <= n <= |mod.cells| && |mod.wires| >= |wires0| && mod.wires[..|wires0|] == wires0
        invariant Valid()
        invariant forall j :: 0 <= j < n ==> mod.cells[j].kind == cells0[j].kind
        invariant forall j :: 0 <= j < n && cells0[j].kind != Dff ==>
          if j < k && cells0[j].kind == MemRd && Targeted(cells0[j], j, selected, false)
          then Touched(cells0[j], mod.cells[j])
          else mod.cells[j] == cells0[j]
      {
        if k in selected && mod.cells[k].kind == MemRd && !ParamBool(mod.cells[k], ClkEnable) {
          ghost var nl := Netlist(mod.wires, mod.cells);
          ghost var p := PlanRd(TraceCtx(), usersCount, muxCellsA, muxCellsB, nl.cells, nl.cells[k], |nl.cells|);
          HandleRdCell(k);
          forall j | 0 <= j < |nl.cells|
            ensures mod.cells[j].kind == nl.cells[j].kind
            ensures j != k && nl.cells[j].kind != Dff ==> mod.cells[j] == nl.cells[j]
            ensures j == k ==> Touched(nl.cells[j], mod.cells[j])
          {
            ApplyRdFrame(sigmap, nl, k, p, j);
          }
          ApplyRdFrame(sigmap, nl, k, p, k);
          assert mod.wires[..|wires0|] == mod.wires[..|nl.wires|][..|wires0|];
        }
        k := k + 1;
      }
    }

    /** run(flag_wr_only): index the module, then hand every selected $memwr
        whose CLK_ENABLE is clear to handle_wr_cell and, unless flag_wr_only,
        every such $memrd to handle_rd_cell. Afterwards the indexes are those
        of the module as it was; the cells present before keep their types;
        a cell that is neither a $dff nor such a port is unchanged; such a port
        is unchanged or has CLK_ENABLE set (so a second run skips it); and only
        $dff cells were marked forward-merged. */
    method Run(flagWrOnly: bool, selected: set<nat>)
      requires Valid()
      requires usersCount == map[] && dffCells == [] && muxCellsA == map[] && muxCellsB == map[] && invbits == map[]
      requires forwardMerged == {}
      modifies this`usersCount, this`dffCells, this`muxCellsA, this`muxCellsB, this`invbits
      modifies this`forwardMerged, this`candidates, mod
      ensures Valid()
      ensures Indexed(old(mod.wires), old(mod.cells))
      ensures |mod.cells| >= |old(mod.cells)| && |mod.wires| >= |old(mod.wires)|
      ensures mod.wires[..|old(mod.wires)|] == old(mod.wires)
      ensures forall j :: 0 <= j < |old(mod.cells)| ==> mod.cells[j].kind == old(mod.cells)[j].kind
      ensures forall j :: 0 <= j < |old(mod.cells)| && old(mod.cells)[j].kind != Dff ==>
        if Targeted(old(mod.cells)[j], j, selected, flagWrOnly)
        then Touched(old(mod.cells)[j], mod.cells[j])
        else mod.cells[j] == old(mod.cells)[j]
      ensures forall x :: x in forwardMerged ==> x < |old(mod.cells)| && old(mod.cells)[x].kind == Dff
    {
      ghost var wires0, cells0 := mod.wires, mod.cells;
      IndexModule();
      DffCellsExactly(cells0);
      HandleWritePorts(selected);
      ghost var cellsW := mod.cells;
      if !flagWrOnly {
        HandleReadPorts(selected);
      }
      assert mod.wires[..|wires0|] == wires0;
      forall j | 0 <= j < |cells0| && cells0[j].kind != Dff
        ensures if Targeted(cells0[j], j, selected, flagWrOnly)
          then Touched(cells0[j], mod.cells[j])
          else mod.cells[j] == cells0[j]
      {
        assert cellsW[j].kind == cells0[j].kind;
      }
    }
  }
}
