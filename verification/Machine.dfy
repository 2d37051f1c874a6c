/** The instructions the back ends emit, and a register machine with word-granular memory that runs
    them. The encoder behind them is not part of this model. */
module Machine {
  import opened WasmCore

  type Reg = r: nat | r < 32
  type RegFile = s: seq<Quad> | |s| == 32 witness seq(32, _ => 0)

  datatype Instr =
    | SubSp(n: int)
    | AddSp(n: int)
    | MovImm(dst: Reg, imm: Word)
    | Mov32(dst: Reg, src: Reg)
    | Mov64(dst: Reg, src: Reg)
    | Load32(dst: Reg, off: int)
    | Load64(dst: Reg, off: int)
    | Store32(off: int, src: Reg)
    | Store64(off: int, src: Reg)
    | Add32(dst: Reg, src: Reg)
    | Adc32(dst: Reg, src: Reg)
    | JmpExit
    | BindExit
    | Ret

  /** Memory maps the address of a 4-byte word to its contents; a word never written reads as 0. */
  datatype State = State(regs: RegFile, sp: int, mem: map<int, Word>, carry: bool)

  const BLANK: State := State(seq(32, _ => 0), 0, map[], false)

  function Peek(mem: map<int, Word>, a: int): Word {
    if a in mem then mem[a] else 0
  }

  function Low(q: Quad): Word {
    q % TWO_32
  }

  function High(q: Quad): Word {
    q / TWO_32
  }

  /** One instruction. A 32-bit write clears the upper half of its register. Loads, stores and moves
      leave the carry flag alone. */
  function Exec1(i: Instr, m: State): State {
    match i
    case SubSp(n) => m.(sp := m.sp - n, carry := m.sp < n)
    case AddSp(n) => m.(sp := m.sp + n)
    case MovImm(d, v) => m.(regs := m.regs[d := v])
    case Mov32(d, s) => m.(regs := m.regs[d := Low(m.regs[s])])
    case Mov64(d, s) => m.(regs := m.regs[d := m.regs[s]])
    case Load32(d, off) => m.(regs := m.regs[d := Peek(m.mem, m.sp + off)])
    case Load64(d, off) =>
      m.(regs := m.regs[d := Peek(m.mem, m.sp + off) + TWO_32 * Peek(m.mem, m.sp + off + 4)])
    case Store32(off, s) => m.(mem := m.mem[m.sp + off := Low(m.regs[s])])
    case Store64(off, s) =>
      m.(mem := m.mem[m.sp + off := Low(m.regs[s])][m.sp + off + 4 := High(m.regs[s])])
    case Add32(d, s) =>
      var sum := Low(m.regs[d]) + Low(m.regs[s]);
      m.(regs := m.regs[d := sum % TWO_32], carry := sum >= TWO_32)
    case Adc32(d, s) =>
      var sum := Low(m.regs[d]) + Low(m.regs[s]) + if m.carry then 1 else 0;
      m.(regs := m.regs[d := sum % TWO_32], carry := sum >= TWO_32)
    case JmpExit | BindExit | Ret => m
  }

  predicate Straight(code: seq<Instr>) {
    forall i :: 0 <= i < |code| ==> code[i] != JmpExit && code[i] != Ret
  }

  /** What follows the exit label. */
  function AfterExit(code: seq<Instr>): (rest: seq<Instr>)
    ensures code != [] ==> |rest| < |code|
  {
    if code == [] then [] else if code[0] == BindExit then code[1..] else AfterExit(code[1..])
  }

  function Run(code: seq<Instr>, m: State): State
    decreases |code|
  {
    if code == [] || code[0] == Ret then m
    else if code[0] == JmpExit then Run(AfterExit(code), m)
    else Run(code[1..], Exec1(code[0], m))
  }

  lemma {:induction false} RunAppend(a: seq<Instr>, b: seq<Instr>, m: State)
    requires Straight(a)
    ensures Run(a + b, m) == Run(b, Run(a, m))
  {
    if a == [] {
      assert a + b == b;
    } else {
      assert (a + b)[1..] == a[1..] + b;
      RunAppend(a[1..], b, Exec1(a[0], m));
    }
  }

  lemma {:induction false} AfterExitAppend(a: seq<Instr>, b: seq<Instr>)
    requires BindExit !in a
    ensures AfterExit(a + [BindExit] + b) == b
  {
    if a == [] {
      assert (a + [BindExit] + b)[1..] == b;
    } else {
      assert (a + [BindExit] + b)[1..] == a[1..] + [BindExit] + b;
      AfterExitAppend(a[1..], b);
    }
  }
}
