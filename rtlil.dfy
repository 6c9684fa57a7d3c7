/** The slice of the RTLIL netlist container that the memory_dff rewrite reads
    and mutates: constant states, signal bits and signals, the alias map behind
    SigMap, cells with their connections and parameters, wires, and a Module
    object whose wire and cell lists the pass updates in place. */
module Rtlil {

  datatype Option<T> = None | Some(value: T)

  /** RTLIL::State: the constant values a bit can carry. */
  datatype State = S0 | S1 | Sx | Sz

  /** RTLIL::SigBit: either a constant, or bit `offset` of wire number `wire`. */
  datatype Bit = Const(state: State) | WireBit(wire: nat, offset: nat)

  /** RTLIL::SigSpec, unpacked to its bits (bit 0 first). */
  type Sig = seq<Bit>

  /** RTLIL::SigSpec(State::Sx), the marker for "no clock fixed yet". */
  const Undef: Sig := [Const(Sx)]

  // ---------------------------------------------------------------------------
  // SigMap: canonicalisation of aliased bits
  // ---------------------------------------------------------------------------

  /** The alias table a SigMap is built from: each wire bit that has been
      connected to another bit is mapped to its representative. */
  type SigMap = map<Bit, Bit>

  /** Only wire bits are remapped, and a representative maps to itself. */
  predicate ValidSigMap(sm: SigMap)
  {
    forall b :: b in sm ==> b.WireBit? && (sm[b] in sm ==> sm[sm[b]] == sm[b])
  }

  function CanonBit(sm: SigMap, b: Bit): Bit
  {
    if b in sm then sm[b] else b
  }

  /** sigmap(sig): every bit replaced by its representative. */
  function Canon(sm: SigMap, s: Sig): (r: Sig)
    ensures |r| == |s|
    ensures forall i :: 0 <= i < |s| ==> r[i] == CanonBit(sm, s[i])
  {
    seq(|s|, i requires 0 <= i < |s| => CanonBit(sm, s[i]))
  }

  lemma CanonBitIdempotent(sm: SigMap, b: Bit)
    requires ValidSigMap(sm)
    ensures CanonBit(sm, CanonBit(sm, b)) == CanonBit(sm, b)
    ensures b.Const? ==> CanonBit(sm, b) == b
  {
  }

  lemma CanonIdempotent(sm: SigMap, s: Sig)
    requires ValidSigMap(sm)
    ensures Canon(sm, Canon(sm, s)) == Canon(sm, s)
  {
    forall i | 0 <= i < |s| {
      CanonBitIdempotent(sm, s[i]);
    }
  }

  /** The bits of wire number `w`, which is `width` bits wide. */
  function WireSig(w: nat, width: nat): (r: Sig)
    ensures |r| == width
    ensures forall i :: 0 <= i < width ==> r[i] == WireBit(w, i)
  {
    seq(width, i requires 0 <= i < width => WireBit(w, i))
  }

  // ---------------------------------------------------------------------------
  // SigSpec library operations used by the pass
  // ---------------------------------------------------------------------------

  /** Number of positions of `s` that hold `b`. */
  function Occurrences(s: Sig, b: Bit): nat
  {
    if |s| == 0 then 0 else (if s[0] == b then 1 else 0) + Occurrences(s[1..], b)
  }

  lemma {:induction false} OccurrencesAppend(s: Sig, t: Sig, b: Bit)
    ensures Occurrences(s + t, b) == Occurrences(s, b) + Occurrences(t, b)
  {
    if |s| == 0 {
      assert s + t == t;
    } else {
      assert (s + t)[1..] == s[1..] + t;
      OccurrencesAppend(s[1..], t, b);
    }
  }

  /** Counting one more position of s adds one exactly for the bit found there. */
  lemma OccurrencesSnoc(s: Sig, i: nat)
    requires i < |s|
    ensures forall b :: Occurrences(s[..i + 1], b) == Occurrences(s[..i], b) + (if s[i] == b then 1 else 0)
  {
    forall b ensures Occurrences(s[..i + 1], b) == Occurrences(s[..i], b) + (if s[i] == b then 1 else 0) {
      assert s[..i + 1] == s[..i] + [s[i]];
      OccurrencesAppend(s[..i], [s[i]], b);
    }
  }

  /** s.extract(bit, &other): the bits of `other` at the positions where `s`
      holds the wire bit `bit` (positions past the end of `other` are ignored). */
  function Extract(s: Sig, bit: Bit, other: Sig): Sig
  {
    if |s| == 0 || |other| == 0 then []
    else (if s[0] == bit && bit.WireBit? then [other[0]] else []) + Extract(s[1..], bit, other[1..])
  }

  /** An extraction yields a single bit exactly when the wire bit occurs once
      among the positions both signals cover, and that bit is the one opposite. */
  lemma {:induction false} ExtractSingle(s: Sig, bit: Bit, other: Sig)
    requires |s| == |other|
    requires |Extract(s, bit, other)| == 1
    ensures bit.WireBit? && Occurrences(s, bit) == 1
    ensures exists i :: 0 <= i < |s| && s[i] == bit && Extract(s, bit, other) == [other[i]]
  {
    if s[0] == bit && bit.WireBit? {
      ExtractNone(s[1..], bit, other[1..]);
      assert Extract(s, bit, other) == [other[0]];
    } else {
      ExtractSingle(s[1..], bit, other[1..]);
      var i :| 0 <= i < |s[1..]| && s[1..][i] == bit && Extract(s[1..], bit, other[1..]) == [other[1..][i]];
      assert s[i + 1] == bit;
    }
  }

  lemma {:induction false} ExtractNone(s: Sig, bit: Bit, other: Sig)
    requires |s| == |other|
    requires |Extract(s, bit, other)| == 0
    ensures bit.WireBit? ==> Occurrences(s, bit) == 0
  {
    if |s| > 0 {
      ExtractNone(s[1..], bit, other[1..]);
    }
  }

  /** ext.extend_u0(width, is_signed): truncate to `width` bits, or pad with
      the sign bit (signed, non-empty), Sx (signed, empty) or S0 (unsigned). */
  function ExtendU0(s: Sig, width: nat, signed: bool): (r: Sig)
    ensures |r| == width
    ensures forall i :: 0 <= i < width && i < |s| ==> r[i] == s[i]
  {
    if |s| >= width then s[..width]
    else
      var pad := if !signed then Const(S0) else if |s| > 0 then s[|s| - 1] else Const(Sx);
      s + seq(width - |s|, _ => pad)
  }

  /** Position of the first occurrence of `b` in `s`. */
  function IndexOf(s: Sig, b: Bit): (r: nat)
    requires b in s
    ensures r < |s| && s[r] == b
    ensures forall i :: 0 <= i < r ==> s[i] != b
  {
    if s[0] == b then 0 else 1 + IndexOf(s[1..], b)
  }

  /** s.replace(pattern, with): each bit of `s` that is a wire bit of
      `pattern` becomes the bit of `with` at the same position. */
  function Replace(s: Sig, pattern: Sig, with: Sig): (r: Sig)
    requires |pattern| == |with|
    ensures |r| == |s|
  {
    seq(|s|, i requires 0 <= i < |s| =>
      if s[i].WireBit? && s[i] in pattern then with[IndexOf(pattern, s[i])] else s[i])
  }

  // ---------------------------------------------------------------------------
  // Bit order and sort_and_unify
  // ---------------------------------------------------------------------------

  function StateRank(s: State): nat
  {
    match s
    case S0 => 0
    case S1 => 1
    case Sx => 2
    case Sz => 3
  }

  /** SigBit::operator<: constants before wire bits, constants by state,
      wire bits by wire then offset. */
  predicate BitLess(a: Bit, b: Bit)
  {
    match (a, b)
    case (Const(x), Const(y)) => StateRank(x) < StateRank(y)
    case (Const(_), WireBit(_, _)) => true
    case (WireBit(_, _), Const(_)) => false
    case (WireBit(w1, o1), WireBit(w2, o2)) => w1 < w2 || (w1 == w2 && o1 < o2)
  }

  lemma BitLessTotal(a: Bit, b: Bit)
    ensures a == b || BitLess(a, b) || BitLess(b, a)
    ensures !(BitLess(a, b) && BitLess(b, a))
  {
  }

  predicate StrictlySorted(s: Sig)
  {
    forall i, j :: 0 <= i < j < |s| ==> BitLess(s[i], s[j])
  }

  lemma SortedDistinct(s: Sig, i: nat, j: nat)
    requires StrictlySorted(s) && i < |s| && j < |s| && i != j
    ensures s[i] != s[j]
  {
    if i < j { BitLessTotal(s[i], s[j]); } else { BitLessTotal(s[j], s[i]); }
  }

  /** In a strictly sorted signal every bit is found at its own position. */
  lemma SortedIndexOf(s: Sig, j: nat)
    requires StrictlySorted(s) && j < |s|
    ensures IndexOf(s, s[j]) == j
  {
    var k := IndexOf(s, s[j]);
    if k != j { SortedDistinct(s, k, j); }
  }

  function Insert(s: Sig, b: Bit): (r: Sig)
    requires StrictlySorted(s)
    ensures StrictlySorted(r)
    ensures forall x :: x in r <==> x in s || x == b
  {
    if |s| == 0 then [b]
    else if s[0] == b then s
    else if BitLess(b, s[0]) then
      assert forall x :: x in s[1..] ==> BitLess(s[0], x);
      [b] + s
    else
      BitLessTotal(b, s[0]);
      var t := Insert(s[1..], b);
      assert forall x :: x in s[1..] ==> BitLess(s[0], x);
      assert forall x :: x in t ==> BitLess(s[0], x);
      [s[0]] + t
  }

  /** sig.sort_and_unify(): the distinct bits of `s` in increasing order. */
  function SortAndUnify(s: Sig): (r: Sig)
    ensures StrictlySorted(r)
    ensures forall x :: x in r <==> x in s
  {
    if |s| == 0 then []
    else
      var r := Insert(SortAndUnify(s[..|s| - 1]), s[|s| - 1]);
      assert s == s[..|s| - 1] + [s[|s| - 1]];
      r
  }

  // ---------------------------------------------------------------------------
  // Cells and wires
  // ---------------------------------------------------------------------------

  datatype PortName = Clk | D | Q | A | B | S | Y | Addr | Data | En | NamedPort(name: string)

  datatype ParamName = ClkEnable | ClkPolarity | Transparent | ASigned | NamedParam(name: string)

  /** The cell types the pass recognises; every other type is `Other`, which
      records whether RTLIL knows the type and, if so, its input ports. */
  datatype CellType =
    | Dff | Mux | Not | NotGate | LogicNot | ReduceAnd | MemWr | MemRd
    | Other(known: bool, inputs: set<PortName>)

  datatype Conn = Conn(port: PortName, sig: Sig)

  /** A cell: its type, its connections in order, and its parameters, of
      which the pass only ever reads the truth value (Const::as_bool). */
  datatype Cell = Cell(kind: CellType, conns: seq<Conn>, params: map<ParamName, bool>)

  datatype Wire = Wire(width: nat, portOutput: bool, init: Option<seq<State>>)

  /** cell->getPort(p); a missing port reads as the empty signal. */
  function GetConn(conns: seq<Conn>, p: PortName): Sig
  {
    if |conns| == 0 then []
    else if conns[0].port == p then conns[0].sig
    else GetConn(conns[1..], p)
  }

  function GetPort(c: Cell, p: PortName): Sig
  {
    GetConn(c.conns, p)
  }

  /** The new connection list of cell->setPort(p, v). */
  function SetConn(conns: seq<Conn>, p: PortName, v: Sig): seq<Conn>
  {
    if |conns| == 0 then [Conn(p, v)]
    else if conns[0].port == p then [Conn(p, v)] + conns[1..]
    else [conns[0]] + SetConn(conns[1..], p, v)
  }

  /** After setPort(p, v), port p reads v and every other port reads as before. */
  lemma {:induction false} GetSetConn(conns: seq<Conn>, p: PortName, v: Sig, q: PortName)
    ensures GetConn(SetConn(conns, p, v), q) == if q == p then v else GetConn(conns, q)
  {
    if |conns| > 0 && conns[0].port != p {
      GetSetConn(conns[1..], p, v, q);
    }
  }

  function SetPort(c: Cell, p: PortName, v: Sig): Cell
  {
    c.(conns := SetConn(c.conns, p, v))
  }

  /** cell->parameters[p].as_bool(), a missing parameter reading false. */
  function ParamBool(c: Cell, p: ParamName): bool
  {
    p in c.params && c.params[p]
  }

  /** cell->known(): every type but an unknown `Other`. */
  predicate IsKnown(t: CellType)
  {
    !(t.Other? && !t.known)
  }

  /** cell->input(p) for a known cell type. */
  predicate IsInput(t: CellType, p: PortName)
  {
    match t
    case Dff => p == Clk || p == D
    case Mux => p == A || p == B || p == S
    case Not => p == A
    case NotGate => p == A
    case LogicNot => p == A
    case ReduceAnd => p == A
    case MemWr => p == Clk || p == En || p == Addr || p == Data
    case MemRd => p == Clk || p == En || p == Addr
    case Other(_, inputs) => p in inputs
  }

  /** A module: its alias table (fixed while the pass runs: the pass never
      calls connect), and its wire and cell lists, which the pass updates.
      A wire or a cell is identified by its position in its list. */
  class Module {
    const aliases: SigMap
    var wires: seq<Wire>
    var cells: seq<Cell>

    predicate Valid()
      reads this
    {
      ValidSigMap(aliases)
    }

    constructor (aliases: SigMap, wires: seq<Wire>, cells: seq<Cell>)
      requires ValidSigMap(aliases)
      ensures Valid()
      ensures this.aliases == aliases && this.wires == wires && this.cells == cells
    {
      this.aliases := aliases;
      this.wires := wires;
      this.cells := cells;
    }

    /** module->addWire(name, width): the bits of a fresh wire. */
    method AddWire(width: nat) returns (s: Sig)
      modifies this
      ensures wires == old(wires) + [Wire(width, false, None)] && cells == old(cells)
      ensures s == WireSig(|old(wires)|, width)
    {
      s := WireSig(|wires|, width);
      wires := wires + [Wire(width, false, None)];
    }

    method SetCellPort(k: nat, p: PortName, v: Sig)
      requires k < |cells|
      modifies this
      ensures cells == old(cells)[k := SetPort(old(cells)[k], p, v)] && wires == old(wires)
    {
      cells := cells[k := SetPort(cells[k], p, v)];
    }

    method SetCellParam(k: nat, p: ParamName, value: bool)
      requires k < |cells|
      modifies this
      ensures cells == old(cells)[k := old(cells)[k].(params := old(cells)[k].params[p := value])]
      ensures wires == old(wires)
    {
      cells := cells[k := cells[k].(params := cells[k].params[p := value])];
    }

    /** module->LogicNot(NEW_ID, a): a new $logic_not cell driving a fresh 1-bit wire. */
    method AddLogicNot(a: Sig) returns (y: Sig)
      modifies this
      ensures y == WireSig(|old(wires)|, 1)
      ensures wires == old(wires) + [Wire(1, false, None)]
      ensures cells == old(cells) + [Cell(LogicNot, [Conn(A, a), Conn(Y, y)], map[])]
    {
      y := AddWire(1);
      cells := cells + [Cell(LogicNot, [Conn(A, a), Conn(Y, y)], map[])];
    }

    /** module->ReduceAnd(NEW_ID, a): a new $reduce_and cell driving a fresh 1-bit wire. */
    method AddReduceAnd(a: Sig) returns (y: Sig)
      modifies this
      ensures y == WireSig(|old(wires)|, 1)
      ensures wires == old(wires) + [Wire(1, false, None)]
      ensures cells == old(cells) + [Cell(ReduceAnd, [Conn(A, a), Conn(Y, y)], map[])]
    {
      y := AddWire(1);
      cells := cells + [Cell(ReduceAnd, [Conn(A, a), Conn(Y, y)], map[])];
    }
  }
}
