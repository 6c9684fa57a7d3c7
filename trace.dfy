/** The register tracer of memory_dff (find_sig_before_dff) as a function of
    the worker's indexes, and what it promises: every wire bit is replaced
    through a $dff that carries it exactly once, the first such $dff wins,
    all replaced bits share one clock (a $dff clocked by the constant x
    excepted, since x also marks "no clock fixed yet"), and initial values
    are never moved across a register. */
module Tracing {
  import opened Rtlil

  /** What the tracer reads of one $dff: its identity (cell index), its CLK
      port, its CLK_POLARITY parameter and its D and Q ports. */
  datatype DffView = DffView(id: nat, clk: Sig, pol: bool, d: Sig, q: Sig)

  /** The worker state a trace reads: the SigMap, the inverter map, the bits
      with an initial value, the $dff cells in discovery order, and the
      $dff cells already merged into a write port. */
  datatype Ctx = Ctx(
    sigmap: SigMap,
    invbits: map<Bit, Bit>,
    initBits: set<Bit>,
    dffs: seq<DffView>,
    forwardMerged: set<nat>)

  /** The clock of a $dff seen through an inverter on its CLK input. */
  function EffClk(inv: map<Bit, Bit>, dff: DffView): Sig
  {
    if |dff.clk| == 1 && dff.clk[0] in inv then [inv[dff.clk[0]]] else dff.clk
  }

  /** The polarity of that clock: flipped when CLK is an inverter output. */
  function EffPol(inv: map<Bit, Bit>, dff: DffView): bool
  {
    if |dff.clk| == 1 && dff.clk[0] in inv then !dff.pol else dff.pol
  }

  /** The side of a $dff that is searched for the bit (Q before, D after a
      port) and the side whose bit replaces it. */
  function Searched(dff: DffView, after: bool): Sig
  {
    if after then dff.d else dff.q
  }

  function Opposite(dff: DffView, after: bool): Sig
  {
    if after then dff.q else dff.d
  }

  /** q_norm.extract(bit, &other) for the $dff at position j. */
  function Pick(ctx: Ctx, after: bool, bit: Bit, j: nat): Sig
    requires j < |ctx.dffs|
  {
    Extract(Canon(ctx.sigmap, Searched(ctx.dffs[j], after)), bit, Opposite(ctx.dffs[j], after))
  }

  /** A forward-merged $dff is passed over by traces after a port. */
  predicate Skipped(ctx: Ctx, after: bool, j: nat)
    requires j < |ctx.dffs|
  {
    after && ctx.dffs[j].id in ctx.forwardMerged
  }

  /** A fixed clock admits only $dffs with that very clock and polarity. */
  predicate ClockFits(ctx: Ctx, j: nat, clk: Sig, pol: bool)
    requires j < |ctx.dffs|
  {
    clk != Undef ==> EffClk(ctx.invbits, ctx.dffs[j]) == clk && EffPol(ctx.invbits, ctx.dffs[j]) == pol
  }

  /** The $dff at position j may replace `bit` under the clock (clk, pol). */
  predicate Eligible(ctx: Ctx, after: bool, bit: Bit, clk: Sig, pol: bool, j: nat)
    requires j < |ctx.dffs|
  {
    !Skipped(ctx, after, j) && ClockFits(ctx, j, clk, pol) && |Pick(ctx, after, bit, j)| == 1
  }

  datatype Match = Match(pos: nat, bit: Bit, clk: Sig, pol: bool)

  /** The inner loop over dff_cells, from position j on: the first eligible
      $dff, the bit it substitutes, and its (inverter-normalised) clock. */
  function FindMatch(ctx: Ctx, after: bool, bit: Bit, clk: Sig, pol: bool, j: nat): (r: Option<Match>)
    decreases |ctx.dffs| - j
    ensures r.Some? ==>
      && j <= r.value.pos < |ctx.dffs|
      && Eligible(ctx, after, bit, clk, pol, r.value.pos)
      && Pick(ctx, after, bit, r.value.pos) == [r.value.bit]
      && r.value.clk == EffClk(ctx.invbits, ctx.dffs[r.value.pos])
      && r.value.pol == EffPol(ctx.invbits, ctx.dffs[r.value.pos])
    ensures r.Some? ==> forall i :: j <= i < r.value.pos ==> !Eligible(ctx, after, bit, clk, pol, i)
    ensures r.None? ==> forall i :: j <= i < |ctx.dffs| ==> !Eligible(ctx, after, bit, clk, pol, i)
  {
    if j >= |ctx.dffs| then None
    else if Eligible(ctx, after, bit, clk, pol, j) then
      var dff := ctx.dffs[j];
      Some(Match(j, Pick(ctx, after, bit, j)[0], EffClk(ctx.invbits, dff), EffPol(ctx.invbits, dff)))
    else
      FindMatch(ctx, after, bit, clk, pol, j + 1)
  }

  /** The result of a trace: success, the rewritten signal, the clock and
      polarity as left in the by-reference arguments, and candidate_dffs. */
  datatype Outcome = Outcome(ok: bool, sig: Sig, clk: Sig, pol: bool, used: set<nat>)

  /** The outer loop over the bits of `s`, from position i on. */
  function TraceFrom(ctx: Ctx, after: bool, s: Sig, i: nat, clk: Sig, pol: bool, used: set<nat>): Outcome
    requires i <= |s|
    decreases |s| - i
  {
    if i == |s| then Outcome(true, s, clk, pol, used)
    else if s[i].Const? then TraceFrom(ctx, after, s, i + 1, clk, pol, used)
    else if !after && CanonBit(ctx.sigmap, s[i]) in ctx.initBits then Outcome(false, s, clk, pol, used)
    else
      match FindMatch(ctx, after, s[i], clk, pol, 0)
      case None => Outcome(false, s, clk, pol, used)
      case Some(m) =>
        if after && m.bit in ctx.initBits then Outcome(false, s, clk, pol, used)
        else TraceFrom(ctx, after, s[i := m.bit], i + 1, m.clk, m.pol, used + {ctx.dffs[m.pos].id})
  }

  /** find_sig_before_dff(sig, clk, clk_polarity, after), starting with an
      empty candidate set. */
  function Trace(ctx: Ctx, after: bool, sig: Sig, clk: Sig, pol: bool): Outcome
  {
    TraceFrom(ctx, after, Canon(ctx.sigmap, sig), 0, clk, pol, {})
  }

  // ---------------------------------------------------------------------------
  // What a successful trace means
  // ---------------------------------------------------------------------------

  /** The $dff at position j holds canonical bit c exactly once on its
      searched side, and r sits opposite it. */
  predicate Carries(ctx: Ctx, after: bool, j: nat, c: Bit, r: Bit)
    requires j < |ctx.dffs|
  {
    !Skipped(ctx, after, j) && Pick(ctx, after, c, j) == [r]
  }

  /** The clock of the $dff at position j is (clk, pol), or is the undefined
      constant, which the tracer cannot tell from "no clock fixed yet". */
  predicate ClockAgrees(ctx: Ctx, j: nat, clk: Sig, pol: bool)
    requires j < |ctx.dffs|
  {
    EffClk(ctx.invbits, ctx.dffs[j]) == Undef
    || (EffClk(ctx.invbits, ctx.dffs[j]) == clk && EffPol(ctx.invbits, ctx.dffs[j]) == pol)
  }

  /** Canonical bit c came out as r: a constant passes through, a wire bit is
      replaced through a $dff that carries it under the clock (clk, pol), and
      no initial value is lost (the input bit before a port, the substituted
      bit after one). */
  predicate BitReplaced(ctx: Ctx, after: bool, c: Bit, r: Bit, clk: Sig, pol: bool)
  {
    if c.Const? then r == c
    else
      && (if after then r !in ctx.initBits else CanonBit(ctx.sigmap, c) !in ctx.initBits)
      && exists j :: 0 <= j < |ctx.dffs| && Carries(ctx, after, j, c, r) && ClockAgrees(ctx, j, clk, pol)
  }

  lemma BitReplacedLift(ctx: Ctx, after: bool, c: Bit, r: Bit, clk: Sig, pol: bool, clk': Sig, pol': bool)
    requires BitReplaced(ctx, after, c, r, clk, pol)
    requires clk != Undef ==> clk' == clk && pol' == pol
    ensures BitReplaced(ctx, after, c, r, clk', pol')
  {
    if c.WireBit? {
      var j :| 0 <= j < |ctx.dffs| && Carries(ctx, after, j, c, r) && ClockAgrees(ctx, j, clk, pol);
      assert ClockAgrees(ctx, j, clk', pol');
    }
  }

  lemma {:induction false} TraceFromReplaces(
    ctx: Ctx, after: bool, orig: Sig, s: Sig, i: nat, clk: Sig, pol: bool, used: set<nat>)
    requires |s| == |orig| && i <= |s|
    requires forall k :: i <= k < |s| ==> s[k] == orig[k]
    requires forall k :: 0 <= k < i ==> BitReplaced(ctx, after, orig[k], s[k], clk, pol)
    ensures var o := TraceFrom(ctx, after, s, i, clk, pol, used);
      && |o.sig| == |s|
      && (o.ok ==> forall k :: 0 <= k < |s| ==> BitReplaced(ctx, after, orig[k], o.sig[k], o.clk, o.pol))
    decreases |s| - i
  {
    if i == |s| {
    } else if s[i].Const? {
      TraceFromReplaces(ctx, after, orig, s, i + 1, clk, pol, used);
    } else if !after && CanonBit(ctx.sigmap, s[i]) in ctx.initBits {
    } else {
      match FindMatch(ctx, after, s[i], clk, pol, 0)
      case None =>
      case Some(m) =>
        if !(after && m.bit in ctx.initBits) {
          var s' := s[i := m.bit];
          forall k | 0 <= k < i + 1
            ensures BitReplaced(ctx, after, orig[k], s'[k], m.clk, m.pol)
          {
            if k < i {
              BitReplacedLift(ctx, after, orig[k], s[k], clk, pol, m.clk, m.pol);
            } else {
              assert Carries(ctx, after, m.pos, orig[k], s'[k]);
              assert ClockAgrees(ctx, m.pos, m.clk, m.pol);
            }
          }
          TraceFromReplaces(ctx, after, orig, s', i + 1, m.clk, m.pol, used + {ctx.dffs[m.pos].id});
        }
    }
  }

  /** Trace succeeds only on a full replacement: every canonical bit comes out
      replaced through a $dff that carries it once, clocked by the returned
      clock or by the constant x. */
  lemma TraceReplaces(ctx: Ctx, after: bool, sig: Sig, clk: Sig, pol: bool)
    ensures var o := Trace(ctx, after, sig, clk, pol);
      && |o.sig| == |sig|
      && (o.ok ==> forall k :: 0 <= k < |sig| ==>
            BitReplaced(ctx, after, CanonBit(ctx.sigmap, sig[k]), o.sig[k], o.clk, o.pol))
  {
    var c := Canon(ctx.sigmap, sig);
    TraceFromReplaces(ctx, after, c, c, 0, clk, pol, {});
  }

  lemma {:induction false} TraceFromFixedClock(
    ctx: Ctx, after: bool, s: Sig, i: nat, clk: Sig, pol: bool, used: set<nat>)
    requires i <= |s| && clk != Undef
    ensures var o := TraceFrom(ctx, after, s, i, clk, pol, used); o.clk == clk && o.pol == pol
    decreases |s| - i
  {
    if i < |s| && s[i].WireBit? && !(!after && CanonBit(ctx.sigmap, s[i]) in ctx.initBits) {
      match FindMatch(ctx, after, s[i], clk, pol, 0)
      case None =>
      case Some(m) =>
        if !(after && m.bit in ctx.initBits) {
          TraceFromFixedClock(ctx, after, s[i := m.bit], i + 1, m.clk, m.pol, used + {ctx.dffs[m.pos].id});
        }
    } else if i < |s| && s[i].Const? {
      TraceFromFixedClock(ctx, after, s, i + 1, clk, pol, used);
    }
  }

  /** A clock fixed on entry comes out unchanged, whether the trace succeeds or not. */
  lemma TraceKeepsFixedClock(ctx: Ctx, after: bool, sig: Sig, clk: Sig, pol: bool)
    requires clk != Undef
    ensures Trace(ctx, after, sig, clk, pol).clk == clk
    ensures Trace(ctx, after, sig, clk, pol).pol == pol
  {
    TraceFromFixedClock(ctx, after, Canon(ctx.sigmap, sig), 0, clk, pol, {});
  }

  lemma {:induction false} TraceFromConstant(
    ctx: Ctx, after: bool, s: Sig, i: nat, clk: Sig, pol: bool, used: set<nat>)
    requires i <= |s|
    requires forall k :: i <= k < |s| ==> s[k].Const?
    ensures TraceFrom(ctx, after, s, i, clk, pol, used) == Outcome(true, s, clk, pol, used)
    decreases |s| - i
  {
    if i < |s| {
      TraceFromConstant(ctx, after, s, i + 1, clk, pol, used);
    }
  }

  /** A signal of constants traces to itself without fixing a clock or
      touching a $dff. */
  lemma TraceAllConstant(ctx: Ctx, after: bool, sig: Sig, clk: Sig, pol: bool)
    requires forall k :: 0 <= k < |sig| ==> CanonBit(ctx.sigmap, sig[k]).Const?
    ensures Trace(ctx, after, sig, clk, pol) == Outcome(true, Canon(ctx.sigmap, sig), clk, pol, {})
  {
    TraceFromConstant(ctx, after, Canon(ctx.sigmap, sig), 0, clk, pol, {});
  }

  lemma {:induction false} TraceFromInitVeto(
    ctx: Ctx, s: Sig, i: nat, k: nat, clk: Sig, pol: bool, used: set<nat>)
    requires i <= k < |s|
    requires s[k].WireBit? && CanonBit(ctx.sigmap, s[k]) in ctx.initBits
    ensures !TraceFrom(ctx, false, s, i, clk, pol, used).ok
    decreases |s| - i
  {
    if i < k {
      if s[i].Const? {
        TraceFromInitVeto(ctx, s, i + 1, k, clk, pol, used);
      } else if CanonBit(ctx.sigmap, s[i]) !in ctx.initBits {
        match FindMatch(ctx, false, s[i], clk, pol, 0)
        case None =>
        case Some(m) =>
          TraceFromInitVeto(ctx, s[i := m.bit], i + 1, k, m.clk, m.pol, used + {ctx.dffs[m.pos].id});
      }
    }
  }

  /** A trace before a port fails when any canonical wire bit has an initial value. */
  lemma TracePreInitVeto(ctx: Ctx, sig: Sig, clk: Sig, pol: bool, k: nat)
    requires ValidSigMap(ctx.sigmap)
    requires k < |sig| && CanonBit(ctx.sigmap, sig[k]).WireBit?
    requires CanonBit(ctx.sigmap, sig[k]) in ctx.initBits
    ensures !Trace(ctx, false, sig, clk, pol).ok
  {
    CanonBitIdempotent(ctx.sigmap, sig[k]);
    TraceFromInitVeto(ctx, Canon(ctx.sigmap, sig), 0, k, clk, pol, {});
  }

  /** The $dff a position stands for may be named as a candidate. */
  predicate UsableId(ctx: Ctx, after: bool, x: nat)
  {
    exists j :: 0 <= j < |ctx.dffs| && ctx.dffs[j].id == x && !Skipped(ctx, after, j)
  }

  lemma {:induction false} TraceFromUsed(
    ctx: Ctx, after: bool, s: Sig, i: nat, clk: Sig, pol: bool, used: set<nat>)
    requires i <= |s|
    ensures var o := TraceFrom(ctx, after, s, i, clk, pol, used);
      used <= o.used && forall x :: x in o.used - used ==> UsableId(ctx, after, x)
    decreases |s| - i
  {
    if i < |s| && s[i].Const? {
      TraceFromUsed(ctx, after, s, i + 1, clk, pol, used);
    } else if i < |s| && !(!after && CanonBit(ctx.sigmap, s[i]) in ctx.initBits) {
      match FindMatch(ctx, after, s[i], clk, pol, 0)
      case None =>
      case Some(m) =>
        if !(after && m.bit in ctx.initBits) {
          var used' := used + {ctx.dffs[m.pos].id};
          TraceFromUsed(ctx, after, s[i := m.bit], i + 1, m.clk, m.pol, used');
          assert UsableId(ctx, after, ctx.dffs[m.pos].id);
        }
    }
  }

  /** The candidates a trace records are $dff cells of the index, and a trace
      after a port never records a forward-merged one. */
  lemma TraceUsedDffs(ctx: Ctx, after: bool, sig: Sig, clk: Sig, pol: bool)
    ensures forall x :: x in Trace(ctx, after, sig, clk, pol).used ==> UsableId(ctx, after, x)
    ensures after ==> Trace(ctx, after, sig, clk, pol).used !! ctx.forwardMerged
  {
    TraceFromUsed(ctx, after, Canon(ctx.sigmap, sig), 0, clk, pol, {});
  }
}
