/** The part of an x86-64 processor that compiled TeenyBASIC programs use. */
module Machine {
  import opened Words

  /** Assembler labels, as the code generator spells them. */
  datatype Label =
    | IfLabel(n: int) | ElseLabel(n: int) | EndIfLabel(n: int)
    | StartWhileLabel(n: int) | WhileLabel(n: int) | WhileEndLabel(n: int)

  datatype Condition = L | GE | G | LE | E | NE

  datatype Instr =
    | MovImmRdi(imm: Int64)          // movq $imm, %rdi
    | LoadRdi(disp: int)             // movq -disp(%rbp), %rdi
    | StoreRdi(disp: int)            // movq %rdi, -disp(%rbp)
    | PushRdi | PopRcx | PopRdi
    | CmpRcxRdi                      // cmp %rcx, %rdi
    | AddRcxRdi | SubRcxRdi | ImulRcxRdi
    | ShlRdi(count: nat)             // shlq $count, %rdi
    | MovRdiRax | Cqto | IdivRcx | MovRaxRdi
    | CallPrintInt
    | Define(name: Label)            // name:
    | Jmp(target: Label)
    | Jcc(cond: Condition, target: Label)
    | PushRbp | MovRspRbp | SubRsp(imm: Int64) | Leave | Ret

  datatype Flags = Flags(zf: bool, sf: bool, of: bool)

  type Memory = map<int, Int64>

  /** `trace` is what print_int has been given; `calls` records %rsp at each call to it. */
  datatype State = State(
    pc: nat, rdi: Int64, rcx: Int64, rax: Int64, rdx: Int64, rsp: int, rbp: int,
    flags: Flags, mem: Memory, trace: seq<Int64>, calls: seq<int>)

  /** What print_int leaves behind: caller-save registers, flags and the memory below
      %rsp are its to overwrite. */
  datatype Clobber = Clobber(rdi: Int64, rcx: Int64, rax: Int64, rdx: Int64, flags: Flags, low: Memory)

  /** Everything the instruction set leaves open is decided by the environment. */
  datatype Env = Env(printInt: State -> Clobber, arithmeticFlags: State -> Flags)

  datatype Conf =
    | Running(state: State)
    | Halted(state: State)
    | DivideError(trace: seq<Int64>, calls: seq<int>)
    | Stuck

  function Load(m: Memory, a: int): Int64
  {
    if a in m then m[a] else 0
  }

  /** The first place where `target` is defined, or |code| if there is none. */
  function Find(code: seq<Instr>, target: Label): (p: nat)
    ensures p <= |code|
    ensures p < |code| ==> code[p] == Define(target)
    ensures forall q :: 0 <= q < p ==> code[q] != Define(target)
  {
    if code == [] then 0
    else if code[0] == Define(target) then 0
    else 1 + Find(code[1..], target)
  }

  /** The flags that `cmp` leaves for the difference a - b. */
  function CompareFlags(a: Int64, b: Int64): Flags
  {
    var d := Wrap(a - b);
    Flags(d == 0, d < 0, d != a - b)
  }

  predicate Holds(c: Condition, f: Flags)
  {
    match c
    case L => f.sf != f.of
    case GE => f.sf == f.of
    case G => !f.zf && f.sf == f.of
    case LE => f.zf || f.sf != f.of
    case E => f.zf
    case NE => !f.zf
  }

  function Next(s: State): Conf
  {
    Running(s.(pc := s.pc + 1))
  }

  function JumpTo(code: seq<Instr>, s: State, target: Label): Conf
  {
    var p := Find(code, target);
    if p < |code| then Running(s.(pc := p)) else Stuck
  }

  /** `idiv %rcx`: the 128-bit dividend is %rdx:%rax. */
  function Divide(s: State): Conf
  {
    var dividend := s.rdx * TWO64 + s.rax % TWO64;
    if s.rcx == 0 then DivideError(s.trace, s.calls) else
    var q := TruncDiv(dividend, s.rcx);
    if -TWO63 <= q < TWO63
    then Next(s.(rax := q, rdx := Wrap(dividend - q * s.rcx)))
    else DivideError(s.trace, s.calls)
  }

  function PrintInt(env: Env, s: State): Conf
  {
    var c := env.printInt(s);
    var low := map a | a in c.low && a < s.rsp :: c.low[a];
    Next(s.(rdi := c.rdi, rcx := c.rcx, rax := c.rax, rdx := c.rdx, flags := c.flags,
            mem := s.mem + low, trace := s.trace + [s.rdi], calls := s.calls + [s.rsp]))
  }

  function Exec(env: Env, code: seq<Instr>, s: State, i: Instr): Conf
  {
    match i
    case MovImmRdi(v) => Next(s.(rdi := v))
    case LoadRdi(d) => Next(s.(rdi := Load(s.mem, s.rbp - d)))
    case StoreRdi(d) => Next(s.(mem := s.mem[s.rbp - d := s.rdi]))
    case PushRdi => Next(s.(rsp := s.rsp - 8, mem := s.mem[s.rsp - 8 := s.rdi]))
    case PopRcx => Next(s.(rsp := s.rsp + 8, rcx := Load(s.mem, s.rsp)))
    case PopRdi => Next(s.(rsp := s.rsp + 8, rdi := Load(s.mem, s.rsp)))
    case CmpRcxRdi => Next(s.(flags := CompareFlags(s.rdi, s.rcx)))
    case AddRcxRdi => Next(s.(rdi := Wrap(s.rdi + s.rcx), flags := env.arithmeticFlags(s)))
    case SubRcxRdi => Next(s.(rdi := Wrap(s.rdi - s.rcx), flags := env.arithmeticFlags(s)))
    case ImulRcxRdi => Next(s.(rdi := Wrap(s.rdi * s.rcx), flags := env.arithmeticFlags(s)))
    case ShlRdi(k) => Next(s.(rdi := ShiftLeft(s.rdi, k % 64), flags := env.arithmeticFlags(s)))
    case MovRdiRax => Next(s.(rax := s.rdi))
    case Cqto => Next(s.(rdx := if s.rax < 0 then -1 else 0))
    case IdivRcx => Divide(s.(flags := env.arithmeticFlags(s)))
    case MovRaxRdi => Next(s.(rdi := s.rax))
    case CallPrintInt => PrintInt(env, s)
    case Define(_) => Next(s)
    case Jmp(t) => JumpTo(code, s, t)
    case Jcc(c, t) => if Holds(c, s.flags) then JumpTo(code, s, t) else Next(s)
    case PushRbp => Next(s.(rsp := s.rsp - 8, mem := s.mem[s.rsp - 8 := Wrap(s.rbp)]))
    case MovRspRbp => Next(s.(rbp := s.rsp))
    case SubRsp(n) => Next(s.(rsp := s.rsp - n, flags := env.arithmeticFlags(s)))
    case Leave => Next(s.(rsp := s.rbp + 8, rbp := Load(s.mem, s.rbp)))
    case Ret => Halted(s.(rsp := s.rsp + 8))
  }

  function Step(env: Env, code: seq<Instr>, c: Conf): Conf
  {
    match c
    case Running(s) => if s.pc < |code| then Exec(env, code, s, code[s.pc]) else Stuck
    case _ => c
  }

  function Steps(env: Env, code: seq<Instr>, c: Conf, n: nat): Conf
    decreases n
  {
    if n == 0 then c else Steps(env, code, Step(env, code, c), n - 1)
  }

  lemma {:induction false} StepsAdd(env: Env, code: seq<Instr>, c: Conf, n: nat, k: nat)
    ensures Steps(env, code, c, n + k) == Steps(env, code, Steps(env, code, c, n), k)
    decreases n
  {
    if n > 0 {
      StepsAdd(env, code, Step(env, code, c), n - 1, k);
    }
  }

  /** A configuration that is not Running never changes again. */
  lemma {:induction false} FinalStays(env: Env, code: seq<Instr>, c: Conf, n: nat)
    requires !c.Running?
    ensures Steps(env, code, c, n) == c
  {
    if n > 0 {
      FinalStays(env, code, c, n - 1);
    }
  }

  /** `cmp` and the conditional jumps together compare signed values, overflow included. */
  lemma ConditionsCompare(a: Int64, b: Int64)
    ensures var f := CompareFlags(a, b);
      && (Holds(L, f) <==> a < b) && (Holds(GE, f) <==> a >= b)
      && (Holds(G, f) <==> a > b) && (Holds(LE, f) <==> a <= b)
      && (Holds(E, f) <==> a == b) && (Holds(NE, f) <==> a != b)
  {
    var d := a - b;
    if d < -TWO63 {
      assert Wrap(d) == d + TWO64;
    } else if d >= TWO63 {
      assert Wrap(d) == d - TWO64;
    } else {
      assert Wrap(d) == d;
    }
  }
}
