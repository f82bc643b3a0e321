/** The simulated Falcon's memory ports (userspace/units/falcon/falcon_utf.c):
    writes and reads of a data register go through an auto-incrementing control
    register, and a stream of them is an array copy. */
module Falcon {
  import opened Bits

  // Offsets of the registers from flcn_base, and their fields
  // (drivers/gpu/nvgpu/include/nvgpu/hw/gm20b/hw_falcon_gm20b.h).
  const MAILBOX0: nat := 0x40
  const CPUCTL: nat := 0x100
  const IMEMC: nat := 0x180
  const IMEMD: nat := 0x184
  const DMEMC: nat := 0x1c0
  const DMEMD: nat := 0x1c4
  const HALT_INTR: nat := 0x10
  const STARTCPU: nat := 0x2
  const ADDR_MASK: nat := 0xfffc
  const OTHER_BITS: nat := 0xffff_0003  // ~ADDR_MASK
  const AINCW: nat := 0x100_0000
  const AINCR: nat := 0x200_0000

  const REG_SPACE: nat := 0x400
  const MEM_WORDS: nat := 0x7f00   // 127 * 1024 bytes
  const PORT_WORDS: nat := 0x4000  // what the 14 address bits reach

  type Word = w: int | 0 <= w < 0x1_0000_0000

  // ----- the control register -----

  /** ctrl & 0xfffc, the byte offset. */
  function Offset(ctrl: Word): (o: nat)
    ensures o % 4 == 0 && o < 0x10000
  {
    ctrl % 0x10000 - ctrl % 4
  }

  /** ctrl & ~0xfffc. */
  function Kept(ctrl: Word): Word {
    ctrl - Offset(ctrl)
  }

  predicate Bit(ctrl: Word, weight: nat)
    requires weight > 0
  {
    ctrl / weight % 2 == 1
  }

  predicate WriteIncrements(ctrl: Word) {
    Bit(ctrl, 0x100_0000)
  }

  predicate ReadIncrements(ctrl: Word) {
    Bit(ctrl, 0x200_0000)
  }

  /** (ctrl & ~0xfffc) | (offset + 4): the last offset carries into bit 16,
      which an OR sets and does not add. */
  function Advance(ctrl: Word): Word {
    var next := Offset(ctrl) + 4;
    if next < 0x10000 then Kept(ctrl) + next
    else if Bit(Kept(ctrl), 0x10000) then Kept(ctrl)
    else Kept(ctrl) + 0x10000
  }

  /** The word the port points at, of those it can reach. */
  function Cursor(ctrl: Word): (w: nat)
    ensures w < PORT_WORDS
  {
    Offset(ctrl) / 4
  }

  lemma HighParts(ctrl: Word, hi: nat, low: nat)
    requires ctrl == hi * 0x10000 + low && low < 0x10000
    ensures Bit(ctrl, 0x10000) <==> hi % 2 == 1
    ensures WriteIncrements(ctrl) <==> hi / 0x100 % 2 == 1
    ensures ReadIncrements(ctrl) <==> hi / 0x200 % 2 == 1
  {
    assert ctrl / 0x10000 == hi;
    assert ctrl / 0x100_0000 == hi / 0x100;
    assert ctrl / 0x200_0000 == hi / 0x200;
  }

  /** A control register from its parts: the flags and other high bits, the
      word the port points at, and the two low bits. */
  lemma Parts(ctrl: Word, hi: nat, mid: nat, lo: nat)
    requires ctrl == hi * 0x10000 + mid * 4 + lo && mid < PORT_WORDS && lo < 4
    ensures Cursor(ctrl) == mid && Kept(ctrl) == hi * 0x10000 + lo
    ensures Offset(ctrl) == 4 * mid
  {
    var low := mid * 4 + lo;
    assert ctrl % 0x10000 == low by { assert ctrl == hi * 0x10000 + low && low < 0x10000; }
    assert ctrl % 4 == lo by { assert ctrl == (hi * 0x4000 + mid) * 4 + lo; }
    assert Offset(ctrl) == 4 * mid;
  }

  function NextMid(mid: nat): nat {
    if mid + 1 < PORT_WORDS then mid + 1 else 0
  }

  function NextHi(hi: nat, mid: nat): nat {
    if mid + 1 < PORT_WORDS || hi % 2 == 1 then hi else hi + 1
  }

  lemma AdvanceParts(ctrl: Word, hi: nat, mid: nat, lo: nat)
    requires ctrl == hi * 0x10000 + mid * 4 + lo && mid < PORT_WORDS && lo < 4
    ensures Advance(ctrl) == NextHi(hi, mid) * 0x10000 + NextMid(mid) * 4 + lo
  {
    Parts(ctrl, hi, mid, lo);
    HighParts(Kept(ctrl), hi, lo);
    hide Offset;
    hide Kept;
    hide Bit;
  }

  /** A carry out of the address fills bit 16 and goes no further. */
  lemma CarryStays(hi: nat, mid: nat)
    ensures NextHi(hi, mid) / 0x100 == hi / 0x100 && NextHi(hi, mid) / 0x200 == hi / 0x200
    ensures NextHi(hi, mid) % 2 == 1 <==> hi % 2 == 1 || mid + 1 >= PORT_WORDS
  {
    if hi % 2 == 0 {
      var half := hi / 2;
      assert hi == 2 * half;
      assert (2 * half + 1) / 0x100 == half / 0x80 && (2 * half) / 0x100 == half / 0x80;
      assert (2 * half + 1) / 0x200 == half / 0x100 && (2 * half) / 0x200 == half / 0x100;
    }
  }

  lemma AdvanceIs(ctrl: Word)
    ensures Cursor(Advance(ctrl)) == (Cursor(ctrl) + 1) % 0x4000
    ensures WriteIncrements(Advance(ctrl)) == WriteIncrements(ctrl)
    ensures ReadIncrements(Advance(ctrl)) == ReadIncrements(ctrl)
    ensures Kept(Advance(ctrl)) ==
            if Cursor(ctrl) + 1 == PORT_WORDS && !Bit(ctrl, 0x10000) then Kept(ctrl) + 0x10000 else Kept(ctrl)
    ensures Bit(Advance(ctrl), 0x10000) <==> Bit(ctrl, 0x10000) || Cursor(ctrl) + 1 == PORT_WORDS
  {
    hide Cursor;
    hide Offset;
    hide Kept;
    hide Advance;
    hide Bit;
    hide WriteIncrements;
    hide ReadIncrements;
    hide NextHi;
    var hi, mid, lo := ctrl / 0x10000, ctrl % 0x10000 / 4, ctrl % 4;
    var hi', mid' := NextHi(hi, mid), NextMid(mid);
    SplitCtrl(ctrl);
    CarryStays(hi, mid);
    AdvanceParts(ctrl, hi, mid, lo);
    Parts(ctrl, hi, mid, lo);
    Parts(Advance(ctrl), hi', mid', lo);
    HighParts(ctrl, hi, mid * 4 + lo);
    HighParts(Advance(ctrl), hi', mid' * 4 + lo);
    NextCases(hi, mid);
  }

  lemma SplitCtrl(ctrl: Word)
    ensures ctrl == ctrl / 0x10000 * 0x10000 + ctrl % 0x10000 / 4 * 4 + ctrl % 4
    ensures ctrl % 0x10000 / 4 < PORT_WORDS
  {
  }

  lemma NextCases(hi: nat, mid: nat)
    requires mid < PORT_WORDS
    ensures NextMid(mid) == (mid + 1) % 0x4000
    ensures NextHi(hi, mid) == if mid + 1 == PORT_WORDS && hi % 2 == 0 then hi + 1 else hi
  {
  }

  /** `v` with one bit set. */
  function Raised(v: Word, weight: nat): Word
    requires weight == HALT_INTR || weight == STARTCPU
  {
    if Bit(v, weight) then v else v + weight
  }

  // ----- the same in the code's operators -----

  lemma AddressBits(hi: nat, mid: nat, lo: nat)
    requires mid < PORT_WORDS && lo < 4
    ensures And(hi * 0x10000 + mid * 4 + lo, ADDR_MASK) == 4 * mid
  {
    hide And;
    AndZero(hi);
    AndZero(lo);
    ShlIs(0);
    ShlIs(1);
    ShlIs(hi);
    ShlIs(mid);
    ShlIs(0x3fff);
    AndOnes(14, mid);
    AndBlock(2, mid, lo, 0x3fff, 0);
    AndBlock(16, hi, mid * 4 + lo, 0, 0xfffc);
    hide Shl;
  }

  lemma OtherBits(hi: nat, mid: nat, lo: nat)
    requires hi < 0x10000 && mid < PORT_WORDS && lo < 4
    ensures And(hi * 0x10000 + mid * 4 + lo, OTHER_BITS) == hi * 0x10000 + lo
  {
    hide And;
    AndZero(mid);
    ShlIs(0);
    ShlIs(1);
    ShlIs(hi);
    ShlIs(mid);
    ShlIs(0xffff);
    AndOnes(16, hi);
    AndOnes(2, lo);
    AndBlock(2, mid, lo, 0, 3);
    AndBlock(16, hi, mid * 4 + lo, 0xffff, 3);
    hide Shl;
  }

  lemma CarryBits(hi: nat, mid: nat, lo: nat)
    requires mid < PORT_WORDS && lo < 4
    ensures Or(hi * 0x10000 + lo, 4 * mid + 4) == NextHi(hi, mid) * 0x10000 + NextMid(mid) * 4 + lo
  {
    hide Or;
    OrZero(hi);
    OrZero(lo);
    OrZero(mid + 1);
    ShlIs(0);
    ShlIs(1);
    ShlIs(hi);
    ShlIs(mid + 1);
    ShlIs(NextHi(hi, mid));
    if mid + 1 < PORT_WORDS {
      OrBlock(2, 0, lo, mid + 1, 0);
      OrBlock(16, hi, lo, 0, 4 * mid + 4);
    } else {
      LowBit(hi);
      OrBlock(16, hi, lo, 1, 0);
    }
    hide Shl;
  }

  /** Offset, Kept and Advance are what the code computes with & and |. */
  lemma PortBits(ctrl: Word)
    ensures And(ctrl, ADDR_MASK) == Offset(ctrl) && And(ctrl, OTHER_BITS) == Kept(ctrl)
    ensures Or(And(ctrl, OTHER_BITS), And(ctrl, ADDR_MASK) + 4) == Advance(ctrl)
  {
    hide And;
    hide Or;
    hide Offset;
    hide Kept;
    hide Advance;
    hide NextHi;
    var hi, mid, lo := ctrl / 0x10000, ctrl % 0x10000 / 4, ctrl % 4;
    SplitCtrl(ctrl);
    Parts(ctrl, hi, mid, lo);
    AdvanceParts(ctrl, hi, mid, lo);
    AddressBits(hi, mid, lo);
    OtherBits(hi, mid, lo);
    CarryBits(hi, mid, lo);
  }

  /** So are the increment flags. */
  lemma FlagBits(ctrl: Word)
    ensures And(ctrl, AINCW) != 0 <==> WriteIncrements(ctrl)
    ensures And(ctrl, AINCR) != 0 <==> ReadIncrements(ctrl)
  {
    hide And;
    hide Or;
    var q, r := ctrl / 0x100_0000, ctrl % 0x100_0000;
    var q', r' := ctrl / 0x200_0000, ctrl % 0x200_0000;
    ShlIs(1);
    ShlIs(q);
    ShlIs(q');
    ShlIs(q % 2);
    ShlIs(q' % 2);
    OneBit(24, q, r);
    OneBit(25, q', r');
  }

  /** ... and the CPU commands. */
  lemma RaisedBits(v: Word)
    ensures Or(v, HALT_INTR) == Raised(v, HALT_INTR) && Or(v, STARTCPU) == Raised(v, STARTCPU)
  {
    hide And;
    hide Or;
    var q, r := v / 0x10, v % 0x10;
    var q', r' := v / 2, v % 2;
    ShlIs(1);
    ShlIs(q);
    ShlIs(q');
    ShlIs(q + (1 - q % 2));
    ShlIs(q' + (1 - q' % 2));
    OneBit(4, q, r);
    OneBit(1, q', r');
  }

  // ----- the state -----

  datatype Port = Imem | Dmem

  function ControlReg(p: Port): nat {
    if p.Imem? then IMEMC / 4 else DMEMC / 4
  }

  function DataReg(p: Port): nat {
    if p.Imem? then IMEMD / 4 else DMEMD / 4
  }

  /** The register space by word, and the two memories by word. */
  datatype State = State(regs: seq<Word>, imem: seq<Word>, dmem: seq<Word>) {
    predicate Valid() {
      |regs| == REG_SPACE / 4 && |imem| == MEM_WORDS && |dmem| == MEM_WORDS
    }

    function Mem(p: Port): seq<Word> {
      if p.Imem? then imem else dmem
    }

    function Control(p: Port): Word
      requires Valid()
    {
      regs[ControlReg(p)]
    }
  }

  /** The port moves on after an access. */
  function Moved(s: State, p: Port): (r: State)
    requires s.Valid()
    ensures r.Valid()
  {
    s.(regs := s.regs[ControlReg(p) := Advance(s.Control(p))])
  }

  function Stored(s: State, p: Port, v: Word): (r: State)
    requires s.Valid()
    ensures r.Valid()
  {
    var i := Cursor(s.Control(p));
    match p
    case Imem => s.(imem := s.imem[i := v])
    case Dmem => s.(dmem := s.dmem[i := v])
  }

  /** A write to the data register. */
  function WriteData(s: State, p: Port, v: Word): (r: State)
    requires s.Valid()
    ensures r.Valid()
  {
    var after := if WriteIncrements(s.Control(p)) then Moved(Stored(s, p, v), p) else s;
    after.(regs := after.regs[DataReg(p) := v])
  }

  /** A read of the data register into an access that holds `v`. */
  function ReadData(s: State, p: Port, v: Word): (r: (State, Word))
    requires s.Valid()
    ensures r.0.Valid()
  {
    if ReadIncrements(s.Control(p)) then (Moved(s, p), s.Mem(p)[Cursor(s.Control(p))]) else (s, v)
  }

  /** The CPU control register: the two commands are ORed in, and starting
      clears the mailbox. */
  function WriteCpuctl(s: State, v: Word): (r: State)
    requires s.Valid()
    ensures r.Valid()
  {
    var was := s.regs[CPUCTL / 4];
    if v == HALT_INTR then s.(regs := s.regs[CPUCTL / 4 := Raised(was, HALT_INTR)])
    else if v == STARTCPU then s.(regs := s.regs[CPUCTL / 4 := Raised(was, STARTCPU)][MAILBOX0 / 4 := 0])
    else s.(regs := s.regs[CPUCTL / 4 := v])
  }

  /** nvgpu_utf_falcon_writel_access_reg_fn. */
  function Writel(s: State, addr: nat, v: Word): (r: State)
    requires s.Valid() && addr < REG_SPACE
    ensures r.Valid()
  {
    if addr == IMEMD then WriteData(s, Imem, v)
    else if addr == DMEMD then WriteData(s, Dmem, v)
    else if addr == CPUCTL then WriteCpuctl(s, v)
    else s.(regs := s.regs[addr / 4 := v])
  }

  /** nvgpu_utf_falcon_readl_access_reg_fn; `injected` is the fault injection on
      the DMEM control register. */
  function Readl(s: State, addr: nat, v: Word, injected: bool): (r: (State, Word))
    requires s.Valid() && addr < REG_SPACE
    ensures r.0.Valid()
  {
    if addr == IMEMD then ReadData(s, Imem, v)
    else if addr == DMEMD then ReadData(s, Dmem, v)
    else if addr == DMEMC then (s, if injected then 0 else Offset(s.Control(Dmem)))
    else (s, s.regs[addr / 4])
  }

  // ----- single accesses -----

  /** A write that is not of a data register: what the CPU control register makes
      of the two commands, and that any other register just takes the value. */
  lemma RegisterWrite(s: State, addr: nat, v: Word)
    requires s.Valid() && addr < REG_SPACE && addr != 0x184 && addr != 0x1c4
    ensures var r, was := Writel(s, addr, v), s.regs[addr / 4];
            && r.imem == s.imem && r.dmem == s.dmem
            && r.regs[addr / 4] == (if addr == 0x100 && (v == 0x10 || v == 0x2) then Or(was, v) else v)
            && forall a :: 0 <= a < REG_SPACE / 4 && a != addr / 4 ==>
                 r.regs[a] == if addr == 0x100 && v == 0x2 && a == 0x40 / 4 then 0 else s.regs[a]
  {
    hide Or;
    hide Raised;
    RaisedBits(s.regs[addr / 4]);
  }

  /** A read that is not of a data register changes nothing; the DMEM control
      register shows the offset only, or 0 when a fault is injected. */
  lemma RegisterRead(s: State, addr: nat, v: Word, injected: bool)
    requires s.Valid() && addr < REG_SPACE && addr != 0x184 && addr != 0x1c4
    ensures var (r, value) := Readl(s, addr, v, injected);
            && r == s
            && value == if addr != 0x1c0 then s.regs[addr / 4]
                        else if injected then 0 else And(s.regs[addr / 4], 0xfffc)
  {
    hide And;
    hide Or;
    hide Advance;
    PortBits(s.regs[addr / 4]);
  }

  /** A data register holds what was last written to it.  Without the increment
      flag nothing else happens: no word is stored or fetched. */
  lemma WithoutIncrement(s: State, p: Port, v: Word)
    requires s.Valid()
    ensures var d := if p.Imem? then 0x184 else 0x1c4;
            && Writel(s, d, v).regs[d / 4] == v
            && (And(s.Control(p), 0x100_0000) == 0 ==> Writel(s, d, v) == s.(regs := s.regs[d / 4 := v]))
            && (And(s.Control(p), 0x200_0000) == 0 ==> Readl(s, d, v, false) == (s, v))
  {
    FlagBits(s.Control(p));
    hide And;
    hide Advance;
    hide Cursor;
  }

  // ----- streams -----

  function WriteAll(s: State, p: Port, words: seq<Word>): (r: State)
    requires s.Valid()
    ensures r.Valid()
    decreases |words|
  {
    if words == [] then s
    else WriteData(WriteAll(s, p, words[..|words| - 1]), p, words[|words| - 1])
  }

  function ReadAll(s: State, p: Port, k: nat): (r: (State, seq<Word>))
    requires s.Valid()
    ensures r.0.Valid() && |r.1| == k
    decreases k
  {
    if k == 0 then (s, [])
    else
      var before := ReadAll(s, p, k - 1);
      var one := ReadData(before.0, p, 0);
      (one.0, before.1 + [one.1])
  }

  /** The word the i-th access of a stream goes to. */
  function Cell(start: nat, i: nat): nat {
    (start + i) % 0x4000
  }

  lemma CellsDiffer(start: nat, i: nat, j: nat)
    requires i < j < i + PORT_WORDS
    ensures Cell(start, i) != Cell(start, j)
  {
  }

  /** After `n` steps from `start`, whatever they did to memory. */
  ghost predicate PortAt(ctrl0: Word, ctrl: Word, n: nat) {
    && Cursor(ctrl) == Cell(Cursor(ctrl0), n)
    && WriteIncrements(ctrl) == WriteIncrements(ctrl0)
    && ReadIncrements(ctrl) == ReadIncrements(ctrl0)
    && Kept(ctrl) == (if Cursor(ctrl0) + n >= PORT_WORDS && !Bit(ctrl0, 0x10000)
                      then Kept(ctrl0) + 0x10000 else Kept(ctrl0))
    && (Bit(ctrl, 0x10000) <==> Bit(ctrl0, 0x10000) || Cursor(ctrl0) + n >= PORT_WORDS)
  }

  lemma PortAtStep(ctrl0: Word, ctrl: Word, n: nat)
    requires PortAt(ctrl0, ctrl, n) && n < PORT_WORDS
    ensures PortAt(ctrl0, Advance(ctrl), n + 1)
  {
    AdvanceIs(ctrl);
    hide Advance;
    hide Kept;
    hide Bit;
    var c := Cursor(ctrl0);
    if c + n < PORT_WORDS {
      assert Cell(c, n) == c + n;
    } else {
      assert Cell(c, n) == c + n - PORT_WORDS;
    }
  }

  lemma {:induction false} WriteAllPort(s: State, p: Port, words: seq<Word>)
    requires s.Valid() && WriteIncrements(s.Control(p)) && |words| <= PORT_WORDS
    ensures PortAt(s.Control(p), WriteAll(s, p, words).Control(p), |words|)
  {
    if words != [] {
      hide Advance;
      var before := words[..|words| - 1];
      WriteAllPort(s, p, before);
      PortAtStep(s.Control(p), WriteAll(s, p, before).Control(p), |before|);
    }
  }

  /** What a stream of writes leaves in memory, and what it leaves alone. */
  lemma {:induction false} WriteAllStores(s: State, p: Port, words: seq<Word>)
    requires s.Valid() && WriteIncrements(s.Control(p)) && |words| <= PORT_WORDS
    ensures var r, c := WriteAll(s, p, words), Cursor(s.Control(p));
            && (forall i :: 0 <= i < |words| ==> r.Mem(p)[Cell(c, i)] == words[i])
            && (forall j :: 0 <= j < MEM_WORDS && (forall i :: 0 <= i < |words| ==> Cell(c, i) != j) ==>
                  r.Mem(p)[j] == s.Mem(p)[j])
  {
    if words != [] {
      var n := |words| - 1;
      var c, before := Cursor(s.Control(p)), WriteAll(s, p, words[..n]);
      WriteAllStores(s, p, words[..n]);
      WriteAllPort(s, p, words[..n]);
      assert Cursor(before.Control(p)) == Cell(c, n);
      var r := WriteAll(s, p, words);
      assert r.Mem(p) == before.Mem(p)[Cell(c, n) := words[n]];
      forall i | 0 <= i < n
        ensures Cell(c, i) != Cell(c, n)
      {
        CellsDiffer(c, i, n);
      }
      hide Cell;
      hide Cursor;
      hide WriteAll;
    }
  }

  lemma {:induction false} WriteAllSpares(s: State, p: Port, words: seq<Word>)
    requires s.Valid()
    ensures var r := WriteAll(s, p, words);
            && (forall q :: q != p ==> r.Mem(q) == s.Mem(q))
            && (forall a :: 0 <= a < REG_SPACE / 4 && a != ControlReg(p) && a != DataReg(p) ==> r.regs[a] == s.regs[a])
  {
    if words != [] {
      hide Advance;
      WriteAllSpares(s, p, words[..|words| - 1]);
    }
  }

  lemma {:induction false} ReadAllPort(s: State, p: Port, k: nat)
    requires s.Valid() && ReadIncrements(s.Control(p)) && k <= PORT_WORDS
    ensures PortAt(s.Control(p), ReadAll(s, p, k).0.Control(p), k)
    ensures ReadAll(s, p, k).0.Mem(p) == s.Mem(p)
  {
    if k > 0 {
      hide Advance;
      ReadAllPort(s, p, k - 1);
      PortAtStep(s.Control(p), ReadAll(s, p, k - 1).0.Control(p), k - 1);
    }
  }

  lemma {:induction false} ReadAllIs(s: State, p: Port, k: nat)
    requires s.Valid() && ReadIncrements(s.Control(p)) && k <= PORT_WORDS
    ensures forall i :: 0 <= i < k ==> ReadAll(s, p, k).1[i] == s.Mem(p)[Cell(Cursor(s.Control(p)), i)]
  {
    if k > 0 {
      hide Advance;
      hide Cursor;
      hide Cell;
      hide ReadIncrements;
      ReadAllIs(s, p, k - 1);
      ReadAllPort(s, p, k - 1);
      var before := ReadAll(s, p, k - 1).0;
      assert Cursor(before.Control(p)) == Cell(Cursor(s.Control(p)), k - 1);
      assert ReadData(before, p, 0).1 == before.Mem(p)[Cursor(before.Control(p))];
    }
  }

  /** Writing a stream through a port, pointing the port back at the start and
      reading as many words gives the stream: for every start and up to as many
      words as the port reaches, also when the address wraps around. */
  lemma StreamRoundTrip(s: State, p: Port, words: seq<Word>, ctrl: Word)
    requires s.Valid() && WriteIncrements(s.Control(p)) && |words| <= PORT_WORDS
    requires ReadIncrements(ctrl) && Cursor(ctrl) == Cursor(s.Control(p))
    ensures var written := WriteAll(s, p, words);
            var reset := Writel(written, if p.Imem? then IMEMC else DMEMC, ctrl);
            ReadAll(reset, p, |words|).1 == words
  {
    var written := WriteAll(s, p, words);
    var reset := Writel(written, if p.Imem? then IMEMC else DMEMC, ctrl);
    assert reset.Mem(p) == written.Mem(p) && reset.Control(p) == ctrl;
    WriteAllStores(s, p, words);
    ReadAllIs(reset, p, |words|);
    var read := ReadAll(reset, p, |words|).1;
    forall i | 0 <= i < |words|
      ensures read[i] == words[i]
    {
      assert read[i] == reset.Mem(p)[Cell(Cursor(ctrl), i)];
    }
    hide *;
    assert read == words;
  }

  /** The DMEM control register reads back as the byte offset after the stream,
      and its other bits are as they were exactly when the stream did not carry
      out of the address or bit 16 was set already. */
  lemma ControlAfterStream(s: State, p: Port, words: seq<Word>)
    requires s.Valid() && WriteIncrements(s.Control(p)) && |words| <= PORT_WORDS
    ensures var before, after := s.Control(p), WriteAll(s, p, words).Control(p);
            && Offset(after) == (Offset(before) + 4 * |words|) % 0x10000
            && (Kept(after) == Kept(before) <==> Offset(before) + 4 * |words| < 0x10000 || Bit(before, 0x10000))
    ensures p.Dmem? ==>
              Readl(WriteAll(s, p, words), DMEMC, 0, false).1 == (Offset(s.Control(p)) + 4 * |words|) % 0x10000
  {
    hide PortAt;
    hide Offset;
    hide Kept;
    hide Bit;
    hide WriteAll;
    WriteAllPort(s, p, words);
    PortBytes(s.Control(p), WriteAll(s, p, words).Control(p), |words|);
  }

  lemma PortBytes(before: Word, after: Word, n: nat)
    requires PortAt(before, after, n) && n <= PORT_WORDS
    ensures Offset(after) == (Offset(before) + 4 * n) % 0x10000
    ensures Kept(after) == Kept(before) <==> Offset(before) + 4 * n < 0x10000 || Bit(before, 0x10000)
  {
    hide Offset;
    hide Kept;
    hide Cursor;
    hide Bit;
    hide Cell;
    hide WriteIncrements;
    hide ReadIncrements;
    OffsetCursor(before);
    OffsetCursor(after);
    CellBytes(Cursor(before), n);
  }

  lemma OffsetCursor(ctrl: Word)
    ensures Offset(ctrl) == 4 * Cursor(ctrl)
  {
  }

  lemma CellBytes(c: nat, n: nat)
    requires c < PORT_WORDS && n <= PORT_WORDS
    ensures 4 * Cell(c, n) == (4 * c + 4 * n) % 0x10000
  {
    if c + n < PORT_WORDS {
      assert Cell(c, n) == c + n;
    } else {
      assert Cell(c, n) == c + n - PORT_WORDS;
    }
  }

  // ----- the code -----

  class UtfFalcon {
    const base: nat
    const regs: array<Word>
    const imem: array<Word>
    const dmem: array<Word>

    /** The state nvgpu_utf_falcon_init leaves: zeroed memories. */
    constructor (base: nat)
      ensures Valid() && this.base == base
      ensures fresh(regs) && fresh(imem) && fresh(dmem)
      ensures forall i :: 0 <= i < MEM_WORDS ==> imem[i] == 0 && dmem[i] == 0
    {
      this.base := base;
      regs := new Word[REG_SPACE / 4](_ => 0);
      imem := new Word[MEM_WORDS](_ => 0);
      dmem := new Word[MEM_WORDS](_ => 0);
    }

    ghost predicate Valid() {
      && regs.Length == REG_SPACE / 4 && imem.Length == MEM_WORDS && dmem.Length == MEM_WORDS
      && regs != imem && regs != dmem && imem != dmem
    }

    ghost function Now(): (s: State)
      requires Valid()
      reads regs, imem, dmem
      ensures s.Valid()
    {
      State(regs[..], imem[..], dmem[..])
    }

    /** nvgpu_utf_falcon_writel_access_reg_fn, for an address of this Falcon. */
    method Write(addr: nat, v: Word)
      requires Valid() && base <= addr < base + REG_SPACE
      modifies regs, imem, dmem
      ensures Now() == Writel(old(Now()), addr - base, v)
    {
      hide And;
      hide Or;
      hide Offset;
      hide Kept;
      hide Advance;
      var value := v;
      if addr == base + IMEMD {
        var ctrl := regs[IMEMC / 4];
        PortBits(ctrl);
        FlagBits(ctrl);
        if And(ctrl, AINCW) != 0 {
          var offset := And(ctrl, ADDR_MASK);
          imem[offset / 4] := v;
          regs[IMEMC / 4] := Or(And(ctrl, OTHER_BITS), offset + 4);
        }
      } else if addr == base + DMEMD {
        var ctrl := regs[DMEMC / 4];
        PortBits(ctrl);
        FlagBits(ctrl);
        if And(ctrl, AINCW) != 0 {
          var offset := And(ctrl, ADDR_MASK);
          dmem[offset / 4] := v;
          regs[DMEMC / 4] := Or(And(ctrl, OTHER_BITS), offset + 4);
        }
      } else if addr == base + CPUCTL {
        RaisedBits(regs[CPUCTL / 4]);
        if v == HALT_INTR {
          value := Or(regs[CPUCTL / 4], HALT_INTR);
          regs[CPUCTL / 4] := value;
        } else if v == STARTCPU {
          value := Or(regs[CPUCTL / 4], STARTCPU);
          regs[CPUCTL / 4] := value;
          regs[MAILBOX0 / 4] := 0;
        }
      }
      regs[(addr - base) / 4] := value;
    }

    /** nvgpu_utf_falcon_readl_access_reg_fn. */
    method Read(addr: nat, v: Word, injected: bool) returns (value: Word)
      requires Valid() && base <= addr < base + REG_SPACE
      modifies regs
      ensures (Now(), value) == Readl(old(Now()), addr - base, v, injected)
    {
      hide And;
      hide Or;
      hide Offset;
      hide Kept;
      hide Advance;
      value := v;
      if addr == base + IMEMD {
        var ctrl := regs[IMEMC / 4];
        PortBits(ctrl);
        FlagBits(ctrl);
        if And(ctrl, AINCR) != 0 {
          var offset := And(ctrl, ADDR_MASK);
          value := imem[offset / 4];
          regs[IMEMC / 4] := Or(And(ctrl, OTHER_BITS), offset + 4);
        }
      } else if addr == base + DMEMD {
        var ctrl := regs[DMEMC / 4];
        PortBits(ctrl);
        FlagBits(ctrl);
        if And(ctrl, AINCR) != 0 {
          var offset := And(ctrl, ADDR_MASK);
          value := dmem[offset / 4];
          regs[DMEMC / 4] := Or(And(ctrl, OTHER_BITS), offset + 4);
        }
      } else if addr == base + DMEMC {
        PortBits(regs[DMEMC / 4]);
        value := if injected then 0 else And(regs[DMEMC / 4], ADDR_MASK);
      } else {
        value := regs[(addr - base) / 4];
      }
    }
  }
}
