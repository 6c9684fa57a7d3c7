/** The per-module indexes memory_dff builds before it looks at any port:
    the bits with an initial value (the worker's constructor), and, in `run`,
    the users count of every canonical bit, the $dff list, the two mux maps
    and the inverter map. Each is a function of the wire and cell lists,
    given as a recursion over their prefixes so that it follows the loops. */
module Index {
  import opened Rtlil

  // ---------------------------------------------------------------------------
  // init_bits
  // ---------------------------------------------------------------------------

  /** Position i of wire w carries an init value of 0 or 1. */
  predicate HasInit(wire: Wire, i: nat)
  {
    wire.init.Some? && i < wire.width && i < |wire.init.value|
    && (wire.init.value[i] == S0 || wire.init.value[i] == S1)
  }

  function WireInitBits(sm: SigMap, w: nat, wire: Wire): set<Bit>
  {
    set i | 0 <= i < wire.width && HasInit(wire, i) :: CanonBit(sm, WireBit(w, i))
  }

  function InitBits(sm: SigMap, wires: seq<Wire>): set<Bit>
  {
    if |wires| == 0 then {}
    else InitBits(sm, wires[..|wires| - 1]) + WireInitBits(sm, |wires| - 1, wires[|wires| - 1])
  }

  /** init_bits holds exactly the canonical bits of the wire positions, below
      both the wire width and the init width, whose init value is 0 or 1. */
  lemma {:induction false} InitBitsExactly(sm: SigMap, wires: seq<Wire>, b: Bit)
    ensures b in InitBits(sm, wires) <==>
      exists w, i :: 0 <= w < |wires| && HasInit(wires[w], i) && CanonBit(sm, WireBit(w, i)) == b
  {
    if |wires| > 0 {
      var n := |wires| - 1;
      InitBitsExactly(sm, wires[..n], b);
      if b in InitBits(sm, wires) {
        if b !in InitBits(sm, wires[..n]) {
          var i :| 0 <= i < wires[n].width && HasInit(wires[n], i) && CanonBit(sm, WireBit(n, i)) == b;
          assert HasInit(wires[n], i);
        } else {
          var w, i :| 0 <= w < n && HasInit(wires[..n][w], i) && CanonBit(sm, WireBit(w, i)) == b;
          assert HasInit(wires[w], i);
        }
      } else {
        forall w, i | 0 <= w < |wires| && HasInit(wires[w], i)
          ensures CanonBit(sm, WireBit(w, i)) != b
        {
          if w < n {
            assert HasInit(wires[..n][w], i);
          } else {
            assert CanonBit(sm, WireBit(n, i)) in WireInitBits(sm, n, wires[n]);
          }
        }
      }
    }
  }

  // ---------------------------------------------------------------------------
  // sigbit_users_count
  // ---------------------------------------------------------------------------

  /** A connection is counted when the cell type is unknown or the port is an input. */
  predicate Counted(t: CellType, p: PortName)
  {
    !IsKnown(t) || IsInput(t, p)
  }

  function WireUsers(sm: SigMap, wires: seq<Wire>, b: Bit): nat
  {
    if |wires| == 0 then 0
    else
      var n := |wires| - 1;
      WireUsers(sm, wires[..n], b)
      + (if wires[n].portOutput then Occurrences(Canon(sm, WireSig(n, wires[n].width)), b) else 0)
  }

  function ConnUsers(sm: SigMap, t: CellType, conns: seq<Conn>, b: Bit): nat
  {
    if |conns| == 0 then 0
    else
      var n := |conns| - 1;
      ConnUsers(sm, t, conns[..n], b)
      + (if Counted(t, conns[n].port) then Occurrences(Canon(sm, conns[n].sig), b) else 0)
  }

  function CellUsers(sm: SigMap, cells: seq<Cell>, b: Bit): nat
  {
    if |cells| == 0 then 0
    else
      var n := |cells| - 1;
      CellUsers(sm, cells[..n], b) + ConnUsers(sm, cells[n].kind, cells[n].conns, b)
  }

  /** The value sigbit_users_count has for b once `run` has indexed the module. */
  function Users(sm: SigMap, wires: seq<Wire>, cells: seq<Cell>, b: Bit): nat
  {
    WireUsers(sm, wires, b) + CellUsers(sm, cells, b)
  }

  /** The cell reads b through one of its counted connections. */
  predicate Consumes(sm: SigMap, c: Cell, b: Bit)
  {
    exists j :: 0 <= j < |c.conns| && Counted(c.kind, c.conns[j].port) && b in Canon(sm, c.conns[j].sig)
  }

  lemma OccurrencesPositive(s: Sig, b: Bit)
    requires b in s
    ensures Occurrences(s, b) >= 1
  {
    if s[0] != b {
      assert b in s[1..];
      OccurrencesPositive(s[1..], b);
    }
  }

  lemma {:induction false} ConnUsersPositive(sm: SigMap, c: Cell, b: Bit)
    requires Consumes(sm, c, b)
    ensures ConnUsers(sm, c.kind, c.conns, b) >= 1
  {
    var j :| 0 <= j < |c.conns| && Counted(c.kind, c.conns[j].port) && b in Canon(sm, c.conns[j].sig);
    ConnUsersAt(sm, c.kind, c.conns, b, j);
  }

  lemma {:induction false} ConnUsersAt(sm: SigMap, t: CellType, conns: seq<Conn>, b: Bit, j: nat)
    requires j < |conns| && Counted(t, conns[j].port) && b in Canon(sm, conns[j].sig)
    ensures ConnUsers(sm, t, conns, b) >= 1
  {
    var n := |conns| - 1;
    if j == n {
      OccurrencesPositive(Canon(sm, conns[n].sig), b);
    } else {
      assert conns[..n][j] == conns[j];
      ConnUsersAt(sm, t, conns[..n], b, j);
    }
  }

  lemma {:induction false} CellUsersMonotone(sm: SigMap, cells: seq<Cell>, m: nat, b: Bit)
    requires m <= |cells|
    ensures CellUsers(sm, cells[..m], b) <= CellUsers(sm, cells, b)
    decreases |cells|
  {
    if m < |cells| {
      var n := |cells| - 1;
      assert cells[..n][..m] == cells[..m];
      CellUsersMonotone(sm, cells[..n], m, b);
    } else {
      assert cells[..m] == cells;
    }
  }

  lemma CellUsersAt(sm: SigMap, cells: seq<Cell>, k: nat, b: Bit)
    requires k < |cells|
    ensures CellUsers(sm, cells[..k + 1], b) == CellUsers(sm, cells[..k], b) + ConnUsers(sm, cells[k].kind, cells[k].conns, b)
  {
    assert cells[..k + 1][..k] == cells[..k];
  }

  /** Sharing safety: a bit read by two different cells, or by a cell and a
      module output, has a users count of at least two. */
  lemma UsersAtLeastTwo(sm: SigMap, wires: seq<Wire>, cells: seq<Cell>, b: Bit, k1: nat, k2: nat)
    requires k1 < k2 < |cells|
    requires Consumes(sm, cells[k1], b) && Consumes(sm, cells[k2], b)
    ensures Users(sm, wires, cells, b) >= 2
  {
    ConnUsersPositive(sm, cells[k1], b);
    ConnUsersPositive(sm, cells[k2], b);
    CellUsersAt(sm, cells, k1, b);
    CellUsersAt(sm, cells, k2, b);
    assert cells[..k2][..k1 + 1] == cells[..k1 + 1];
    CellUsersMonotone(sm, cells[..k2], k1 + 1, b);
    CellUsersMonotone(sm, cells, k2 + 1, b);
  }

  lemma {:induction false} WireUsersAt(sm: SigMap, wires: seq<Wire>, w: nat, b: Bit)
    requires w < |wires| && wires[w].portOutput && b in Canon(sm, WireSig(w, wires[w].width))
    ensures WireUsers(sm, wires, b) >= 1
  {
    var n := |wires| - 1;
    if w == n {
      OccurrencesPositive(Canon(sm, WireSig(n, wires[n].width)), b);
    } else {
      assert wires[..n][w] == wires[w];
      WireUsersAt(sm, wires[..n], w, b);
    }
  }

  /** A bit on a module output that a cell also reads is shared. */
  lemma OutputAndCellShared(sm: SigMap, wires: seq<Wire>, cells: seq<Cell>, b: Bit, w: nat, k: nat)
    requires w < |wires| && wires[w].portOutput && b in Canon(sm, WireSig(w, wires[w].width))
    requires k < |cells| && Consumes(sm, cells[k], b)
    ensures Users(sm, wires, cells, b) >= 2
  {
    WireUsersAt(sm, wires, w, b);
    ConnUsersPositive(sm, cells[k], b);
    CellUsersAt(sm, cells, k, b);
    CellUsersMonotone(sm, cells, k + 1, b);
  }

  // ---------------------------------------------------------------------------
  // dff_cells
  // ---------------------------------------------------------------------------

  function DffCells(cells: seq<Cell>): seq<nat>
  {
    if |cells| == 0 then []
    else DffCells(cells[..|cells| - 1]) + (if cells[|cells| - 1].kind == Dff then [|cells| - 1] else [])
  }

  /** dff_cells lists exactly the $dff cells, in the module's cell order. */
  lemma {:induction false} DffCellsExactly(cells: seq<Cell>)
    ensures forall k: nat :: k in DffCells(cells) <==> k < |cells| && cells[k].kind == Dff
    ensures forall i, j :: 0 <= i < j < |DffCells(cells)| ==> DffCells(cells)[i] < DffCells(cells)[j]
  {
    if |cells| > 0 {
      var n := |cells| - 1;
      var pre := cells[..n];
      DffCellsExactly(pre);
      assert forall k: nat :: k < n ==> pre[k] == cells[k];
      var d := DffCells(pre);
      assert forall i :: 0 <= i < |d| ==> d[i] in d;
      assert forall i :: 0 <= i < |d| ==> d[i] < n;
      assert DffCells(cells) == d + (if cells[n].kind == Dff then [n] else []);
    }
  }

  // ---------------------------------------------------------------------------
  // mux_cells_a, mux_cells_b
  // ---------------------------------------------------------------------------

  /** The map from a $mux's canonical `side` input (A or B) to the $mux. */
  function MuxMap(sm: SigMap, cells: seq<Cell>, side: PortName): map<Sig, nat>
  {
    if |cells| == 0 then map[]
    else
      var n := |cells| - 1;
      var m := MuxMap(sm, cells[..n], side);
      if cells[n].kind == Mux then m[Canon(sm, GetPort(cells[n], side)) := n] else m
  }

  predicate MuxWithInput(sm: SigMap, cells: seq<Cell>, k: nat, side: PortName, key: Sig)
    requires k < |cells|
  {
    cells[k].kind == Mux && Canon(sm, GetPort(cells[k], side)) == key
  }

  /** A signal is a key exactly when some $mux has it as canonical input on
      that side, and it maps to the last such $mux (later ones overwrite). */
  lemma {:induction false} MuxMapLast(sm: SigMap, cells: seq<Cell>, side: PortName, key: Sig)
    ensures key in MuxMap(sm, cells, side) <==>
      exists k :: 0 <= k < |cells| && MuxWithInput(sm, cells, k, side, key)
    ensures key in MuxMap(sm, cells, side) ==>
      var k := MuxMap(sm, cells, side)[key];
      && k < |cells| && MuxWithInput(sm, cells, k, side, key)
      && forall k' :: k < k' < |cells| ==> !MuxWithInput(sm, cells, k', side, key)
  {
    if |cells| > 0 {
      var n := |cells| - 1;
      var pre := cells[..n];
      MuxMapLast(sm, pre, side, key);
      forall k | 0 <= k < n
        ensures MuxWithInput(sm, pre, k, side, key) == MuxWithInput(sm, cells, k, side, key)
      {
        assert pre[k] == cells[k];
      }
      if MuxWithInput(sm, cells, n, side, key) {
        assert MuxMap(sm, cells, side) == MuxMap(sm, pre, side)[key := n];
      } else if exists k :: 0 <= k < n && MuxWithInput(sm, cells, k, side, key) {
        var k :| 0 <= k < n && MuxWithInput(sm, cells, k, side, key);
        assert MuxWithInput(sm, pre, k, side, key);
        assert key in MuxMap(sm, pre, side);
        assert key in MuxMap(sm, cells, side) && MuxMap(sm, cells, side)[key] == MuxMap(sm, pre, side)[key];
      } else {
        assert key !in MuxMap(sm, pre, side);
      }
    }
  }

  // ---------------------------------------------------------------------------
  // invbits
  // ---------------------------------------------------------------------------

  /** $not, $_NOT_, and $logic_not with a 1-bit input. */
  predicate IsInverter(c: Cell)
  {
    c.kind == Not || c.kind == NotGate || (c.kind == LogicNot && |GetPort(c, A)| == 1)
  }

  /** The input side of an inverter, widened to Y for $not. */
  function InvInput(c: Cell): Sig
  {
    if c.kind == Not then ExtendU0(GetPort(c, A), |GetPort(c, Y)|, ParamBool(c, ASigned))
    else GetPort(c, A)
  }

  /** The output side of an inverter, cut to one bit for $logic_not. */
  function InvOutput(c: Cell): Sig
  {
    if c.kind == LogicNot then ExtendU0(GetPort(c, Y), 1, false) else GetPort(c, Y)
  }

  /** invbits[y[i]] = a[i] for the first n positions. */
  function AddPairs(m: map<Bit, Bit>, y: Sig, a: Sig, n: nat): map<Bit, Bit>
    requires n <= |y|
  {
    if n == 0 then m
    else
      var m' := AddPairs(m, y, a, n - 1);
      if n - 1 < |a| then m'[y[n - 1] := a[n - 1]] else m'
  }

  function InvBits(cells: seq<Cell>): map<Bit, Bit>
  {
    if |cells| == 0 then map[]
    else
      var n := |cells| - 1;
      var m := InvBits(cells[..n]);
      if IsInverter(cells[n]) then AddPairs(m, InvOutput(cells[n]), InvInput(cells[n]), |InvOutput(cells[n])|)
      else m
  }

  /** The inverter cell c has y at some output position and a at the same input position. */
  predicate InverterPair(c: Cell, y: Bit, a: Bit)
  {
    exists i :: 0 <= i < |InvOutput(c)| && i < |InvInput(c)| && InvOutput(c)[i] == y && InvInput(c)[i] == a
  }

  lemma {:induction false} AddPairsSource(m: map<Bit, Bit>, y: Sig, a: Sig, n: nat, b: Bit)
    requires n <= |y|
    requires b in AddPairs(m, y, a, n)
    ensures (b in m && AddPairs(m, y, a, n)[b] == m[b])
         || exists i :: 0 <= i < n && i < |a| && y[i] == b && a[i] == AddPairs(m, y, a, n)[b]
  {
    if n > 0 {
      var m' := AddPairs(m, y, a, n - 1);
      if n - 1 < |a| && y[n - 1] == b {
      } else {
        AddPairsSource(m, y, a, n - 1, b);
      }
    }
  }

  lemma {:induction false} AddPairsCovers(m: map<Bit, Bit>, y: Sig, a: Sig, n: nat)
    requires n <= |y|
    ensures forall i :: 0 <= i < n && i < |a| ==> y[i] in AddPairs(m, y, a, n)
    ensures m.Keys <= AddPairs(m, y, a, n).Keys
  {
    if n > 0 {
      AddPairsCovers(m, y, a, n - 1);
    }
  }

  /** The indexes of the first k+1 cells are those of the first k extended
      by cell k: the step of the cell loop of `run`. */
  lemma IndexPrefix(sm: SigMap, cells: seq<Cell>, k: nat)
    requires k < |cells|
    ensures var pre, c := cells[..k], cells[k];
      && DffCells(cells[..k + 1]) == DffCells(pre) + (if c.kind == Dff then [k] else [])
      && MuxMap(sm, cells[..k + 1], A)
         == (if c.kind == Mux then MuxMap(sm, pre, A)[Canon(sm, GetPort(c, A)) := k] else MuxMap(sm, pre, A))
      && MuxMap(sm, cells[..k + 1], B)
         == (if c.kind == Mux then MuxMap(sm, pre, B)[Canon(sm, GetPort(c, B)) := k] else MuxMap(sm, pre, B))
      && InvBits(cells[..k + 1])
         == (if IsInverter(c) then AddPairs(InvBits(pre), InvOutput(c), InvInput(c), |InvOutput(c)|) else InvBits(pre))
      && forall b :: CellUsers(sm, cells[..k + 1], b) == CellUsers(sm, pre, b) + ConnUsers(sm, c.kind, c.conns, b)
  {
    assert cells[..k + 1][..k] == cells[..k];
  }

  /** Clock through an inverter: every entry of invbits comes from an
      inverter cell, mapping one of its output bits to the input bit at the
      same position. */
  lemma {:induction false} InvBitsSource(cells: seq<Cell>, b: Bit)
    requires b in InvBits(cells)
    ensures exists k :: 0 <= k < |cells| && IsInverter(cells[k]) && InverterPair(cells[k], b, InvBits(cells)[b])
  {
    var n := |cells| - 1;
    var pre := cells[..n];
    var m := InvBits(pre);
    var c := cells[n];
    if IsInverter(c) {
      AddPairsSource(m, InvOutput(c), InvInput(c), |InvOutput(c)|, b);
      if b in m && InvBits(cells)[b] == m[b] {
        InvBitsSource(pre, b);
        var k :| 0 <= k < n && IsInverter(pre[k]) && InverterPair(pre[k], b, m[b]);
        assert cells[k] == pre[k];
      } else {
        assert InverterPair(c, b, InvBits(cells)[b]);
      }
    } else {
      InvBitsSource(pre, b);
      var k :| 0 <= k < n && IsInverter(pre[k]) && InverterPair(pre[k], b, m[b]);
      assert cells[k] == pre[k];
    }
  }

  /** Every output bit of every inverter cell (at a position its input also
      has) is an entry of invbits. */
  lemma {:induction false} InvBitsCovers(cells: seq<Cell>, k: nat, i: nat)
    requires k < |cells| && IsInverter(cells[k])
    requires i < |InvOutput(cells[k])| && i < |InvInput(cells[k])|
    ensures InvOutput(cells[k])[i] in InvBits(cells)
  {
    var n := |cells| - 1;
    var pre := cells[..n];
    var c := cells[n];
    if k < n {
      assert pre[k] == cells[k];
      InvBitsCovers(pre, k, i);
      if IsInverter(c) {
        AddPairsCovers(InvBits(pre), InvOutput(c), InvInput(c), |InvOutput(c)|);
      }
    } else {
      AddPairsCovers(InvBits(pre), InvOutput(c), InvInput(c), |InvOutput(c)|);
    }
  }
}
