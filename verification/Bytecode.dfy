/** The bytecode subset and its meaning, as an abstract stack machine in the manner of section 6.5
    of the Java Virtual Machine Specification. */
module Bytecode {
  import opened Words
  import opened IntegerOps

  // ----- Classes and instructions -----

  function OperatorOf(op: int): Operator
  {
    match op
    case 0x60 => Add
    case 0x64 => Sub
    case 0x68 => Mul
    case 0x6C => Div
    case 0x70 => Rem
    case 0x78 => Shl
    case 0x7A => Shr
    case 0x7C => Ushr
    case 0x7E => And
    case 0x80 => Or
    case 0x82 => Xor
    case _ => Other
  }

  datatype Method = Method(code: seq<int>, maxStack: nat, maxLocals: nat, params: nat, hasResult: bool)

  /** A parsed class: the integer constants by pool index, the methods, and the method that each
      method reference names. */
  datatype Class = Class(constants: map<int, int>, methods: seq<Method>, callees: map<int, nat>)

  datatype Condition = Eq | Ne | Lt | Ge | Gt | Le

  function ConditionOf(k: int): Condition
  {
    match k
    case 0 => Eq
    case 1 => Ne
    case 2 => Lt
    case 3 => Ge
    case 4 => Gt
    case _ => Le
  }

  predicate Holds(c: Condition, a: int, b: int)
  {
    match c
    case Eq => a == b
    case Ne => a != b
    case Lt => a < b
    case Ge => a >= b
    case Gt => a > b
    case Le => a <= b
  }

  datatype Instr =
    | Skip | Push(value: int) | PushConstant(index: int)
    | Load(index: int) | Store(index: int) | Increment(index: int, delta: int)
    | Negate | Binary(operator: Operator)
    | Branch(condition: Condition, operands: nat, offset: int) | Goto(offset: int)
    | Duplicate | Print
    | NewArray | ArrayLength | ArrayStore | ArrayLoad
    | Call(index: int) | ReturnValue | ReturnVoid
    | Unknown

  function Byte(code: seq<int>, i: int): int
  {
    if 0 <= i < |code| then code[i] else 0
  }

  function SignedByte(b: int): int
  {
    if b >= 0x80 then b - 0x100 else b
  }

  function SignedShort(b1: int, b2: int): int
  {
    var w := b1 * 0x100 + b2;
    if w >= 0x8000 then w - 0x1_0000 else w
  }

  /** Offsets and immediate values are the 8-bit and 16-bit numbers with the given bytes, the higher
      byte first. */
  lemma SignedBytes(b1: int, b2: int)
    requires 0 <= b1 < 0x100 && 0 <= b2 < 0x100
    ensures -0x80 <= SignedByte(b1) < 0x80 && SignedByte(b1) % 0x100 == b1
    ensures
      var x := SignedShort(b1, b2);
      -0x8000 <= x < 0x8000 && x % 0x100 == b2 && (x / 0x100) % 0x100 == b1
  {
  }

  /** The instruction at `pc` and its length in bytes. */
  function Decode(code: seq<int>, pc: int): (Instr, nat)
  {
    var op, b1, b2 := Byte(code, pc), Byte(code, pc + 1), Byte(code, pc + 2);
    if op == 0x00 then (Skip, 1)
    else if 0x02 <= op <= 0x08 then (Push(op - 3), 1)
    else if op == 0x10 then (Push(SignedByte(b1)), 2)
    else if op == 0x11 then (Push(SignedShort(b1, b2)), 3)
    else if op == 0x12 then (PushConstant(b1), 2)
    else if op == 0x15 || op == 0x19 then (Load(b1), 2)
    else if 0x1A <= op <= 0x1D then (Load(op - 0x1A), 1)
    else if 0x2A <= op <= 0x2D then (Load(op - 0x2A), 1)
    else if op == 0x2E then (ArrayLoad, 1)
    else if op == 0x36 || op == 0x3A then (Store(b1), 2)
    else if 0x3B <= op <= 0x3E then (Store(op - 0x3B), 1)
    else if 0x4B <= op <= 0x4E then (Store(op - 0x4B), 1)
    else if op == 0x4F then (ArrayStore, 1)
    else if op == 0x59 then (Duplicate, 1)
    else if op == 0x74 then (Negate, 1)
    else if 0x60 <= op <= 0x82 then (Binary(OperatorOf(op)), 1)
    else if op == 0x84 then (Increment(b1, SignedByte(b2)), 3)
    else if 0x99 <= op <= 0x9E then (Branch(ConditionOf(op - 0x99), 1, SignedShort(b1, b2)), 3)
    else if 0x9F <= op <= 0xA4 then (Branch(ConditionOf(op - 0x9F), 2, SignedShort(b1, b2)), 3)
    else if op == 0xA7 then (Goto(SignedShort(b1, b2)), 3)
    else if op == 0xAC || op == 0xB0 then (ReturnValue, 1)
    else if op == 0xB1 then (ReturnVoid, 1)
    else if op == 0xB2 then (Skip, 3)
    else if op == 0xB6 then (Print, 3)
    else if op == 0xB8 then (Call(b1 * 0x100 + b2), 3)
    else if op == 0xBC then (NewArray, 2)
    else if op == 0xBE then (ArrayLength, 1)
    else (Unknown, 1)
  }

  // ----- Runs -----

  /** An array of the heap holds its length and then its elements. */
  type Heap = seq<seq<int>>

  /** What all activations share: the arrays and the printed numbers. */
  datatype World = World(heap: Heap, output: seq<int>)

  datatype Frame = Frame(pc: int, stack: seq<int>, locals: seq<int>)

  /** Stuck is what a verified class never does; Undefined is a bad array index or size. */
  datatype Result =
    | Returned(value: Option<int>, world: World)
    | Exit
    | Undefined
    | Unfinished
    | Stuck

  datatype Outcome = Next(frame: Frame, world: World) | Stop(result: Result)

  predicate InArray(heap: Heap, r: int, i: int)
  {
    0 <= r < |heap| && |heap[r]| > 0 && 0 <= i < heap[r][0] && i + 1 < |heap[r]|
  }

  function Top(s: seq<int>, k: nat): int
    requires 1 <= k <= |s|
  {
    s[|s| - k]
  }

  function Drop(s: seq<int>, k: nat): seq<int>
    requires k <= |s|
  {
    s[..|s| - k]
  }

  function NewArrayOf(count: nat): seq<int>
  {
    [count] + seq(count, _ => 0)
  }

  /** How many operands an instruction needs on the stack. */
  function Needs(i: Instr): nat
  {
    match i
    case Store(_) => 1
    case Negate => 1
    case Binary(_) => 2
    case Branch(_, k, _) => k
    case Duplicate => 1
    case Print => 1
    case NewArray => 1
    case ArrayLength => 1
    case ArrayStore => 3
    case ArrayLoad => 2
    case ReturnValue => 1
    case _ => 0
  }

  /** One instruction other than a call. */
  function Step(c: Class, i: Instr, length: nat, f: Frame, w: World): Outcome
    requires Needs(i) <= |f.stack|
  {
    var s := f.stack;
    var on := f.(pc := f.pc + length);
    match i
    case Skip => Next(on, w)
    case Push(v) => Next(on.(stack := s + [v]), w)
    case PushConstant(k) =>
      if k in c.constants then Next(on.(stack := s + [c.constants[k]]), w) else Stop(Stuck)
    case Load(k) =>
      if 0 <= k < |f.locals| then Next(on.(stack := s + [f.locals[k]]), w) else Stop(Stuck)
    case Store(k) =>
      if 0 <= k < |f.locals| then Next(on.(stack := Drop(s, 1), locals := f.locals[k := Top(s, 1)]), w) else Stop(Stuck)
    case Increment(k, d) =>
      if 0 <= k < |f.locals| then Next(on.(locals := f.locals[k := Wrap32(f.locals[k] + d)]), w) else Stop(Stuck)
    case Negate => Next(on.(stack := Drop(s, 1) + [Wrap32(-Top(s, 1))]), w)
    case Binary(op) =>
      if Overflows(op, Top(s, 2), Top(s, 1)) then Stop(Undefined)
      else Next(on.(stack := Drop(s, 2) + [Calculate(op, Top(s, 2), Top(s, 1))]), w)
    case Branch(cond, k, offset) =>
      var a, b := if k == 2 then Top(s, 2) else if k == 1 then Top(s, 1) else 0, if k == 2 then Top(s, 1) else 0;
      Next(Frame(if Holds(cond, a, b) then f.pc + offset else on.pc, Drop(s, k), f.locals), w)
    case Goto(offset) => Next(f.(pc := f.pc + offset), w)
    case Duplicate => Next(on.(stack := s + [Top(s, 1)]), w)
    case Print => Next(on.(stack := Drop(s, 1)), w.(output := w.output + [Top(s, 1)]))
    case NewArray =>
      var n := Top(s, 1);
      if 0 <= n < 0x7FFF_FFFF
      then Next(on.(stack := Drop(s, 1) + [|w.heap|]), w.(heap := w.heap + [NewArrayOf(n)]))
      else Stop(Undefined)
    case ArrayLength =>
      var r := Top(s, 1);
      if 0 <= r < |w.heap| && |w.heap[r]| > 0 then Next(on.(stack := Drop(s, 1) + [w.heap[r][0]]), w) else Stop(Undefined)
    case ArrayStore =>
      var r, k := Top(s, 3), Top(s, 2);
      if InArray(w.heap, r, k)
      then Next(on.(stack := Drop(s, 3)), w.(heap := w.heap[r := w.heap[r][k + 1 := Top(s, 1)]]))
      else Stop(Undefined)
    case ArrayLoad =>
      var r, k := Top(s, 2), Top(s, 1);
      if InArray(w.heap, r, k) then Next(on.(stack := Drop(s, 2) + [w.heap[r][k + 1]]), w) else Stop(Undefined)
    case Call(_) => Stop(Stuck)
    case ReturnValue => Stop(Returned(Some(Top(s, 1)), w))
    case ReturnVoid => Stop(Returned(None, w))
    case Unknown => Stop(Exit)
  }

  function Callee(c: Class, k: int): Option<nat>
  {
    if k in c.callees && c.callees[k] < |c.methods| then Some(c.callees[k]) else None
  }

  /** The frame in which a method starts: the arguments, and zero in the other locals. */
  function Start(m: Method, args: seq<int>): Frame
    requires |args| <= m.maxLocals
  {
    Frame(0, [], args + seq(m.maxLocals - |args|, _ => 0))
  }

  /** What an activation does next: go on, end, or call a method and resume in `back`. */
  datatype Action =
    | Continue(frame: Frame, world: World)
    | Halt(result: Result)
    | Invoke(callee: nat, start: Frame, back: Frame)

  /** The instruction at the frame's pc. The stack may not outgrow the method's limit; printing
      needs one slot to spare. */
  function Act(c: Class, k: nat, f: Frame, w: World): (a: Action)
    requires k < |c.methods|
    ensures a.Invoke? ==> a.callee < |c.methods|
  {
    var m := c.methods[k];
    if f.pc < 0 || |f.stack| > m.maxStack then Halt(Stuck)
    else if f.pc >= |m.code| then Halt(Returned(None, w))
    else
      var (i, length) := Decode(m.code, f.pc);
      if f.pc + length > |m.code| || Needs(i) > |f.stack| || (i.Print? && |f.stack| == m.maxStack) then Halt(Stuck)
      else if i.Call? then
        match Callee(c, i.index)
        case None => Halt(Stuck)
        case Some(k') =>
          var m' := c.methods[k'];
          if m'.params > |f.stack| || m'.params > m'.maxLocals then Halt(Stuck)
          else Invoke(k', Start(m', f.stack[|f.stack| - m'.params..]), Frame(f.pc + length, Drop(f.stack, m'.params), f.locals))
      else
        match Step(c, i, length, f, w)
        case Next(f', w') => Continue(f', w')
        case Stop(r) => Halt(r)
  }

  /** The caller's frame after the call, with the returned value, if any, on the stack. */
  function Resume(back: Frame, v: Option<int>): Frame
  {
    if v.Some? then back.(stack := back.stack + [v.value]) else back
  }

  /** Run an activation of method `k` from a frame on, for at most `fuel` instructions in a row and
      `fuel` nested calls. */
  function Run(c: Class, k: nat, f: Frame, w: World, fuel: nat): Result
    requires k < |c.methods|
    decreases fuel
  {
    if fuel == 0 then Unfinished else
    match Act(c, k, f, w)
    case Continue(f', w') => Run(c, k, f', w', fuel - 1)
    case Halt(r) => r
    case Invoke(k', start, back) =>
      match Run(c, k', start, w, fuel - 1)
      case Returned(v, w') => Run(c, k, Resume(back, v), w', fuel - 1)
      case r => r
  }

  /** More fuel does not change a result. */
  lemma {:induction false} FuelMonotone(c: Class, k: nat, f: Frame, w: World, fuel: nat, more: nat)
    requires k < |c.methods| && fuel <= more && Run(c, k, f, w, fuel) != Unfinished
    ensures Run(c, k, f, w, more) == Run(c, k, f, w, fuel)
    decreases fuel
  {
    hide Act;
    match Act(c, k, f, w)
    case Continue(f', w') => FuelMonotone(c, k, f', w', fuel - 1, more - 1);
    case Halt(r) =>
    case Invoke(k', start, back) =>
      FuelMonotone(c, k', start, w, fuel - 1, more - 1);
      var r := Run(c, k', start, w, fuel - 1);
      if r.Returned? {
        FuelMonotone(c, k, Resume(back, r.value), r.world, fuel - 1, more - 1);
      }
  }

  // ----- Verified classes -----

  /** The operand depth at each instruction start of a method. */
  type Depths = map<int, nat>

  /** Control may go to `pc` with `d` operands: to an instruction start with that depth, or past
      the end of a method that returns nothing. */
  predicate Lands(m: Method, ds: Depths, pc: int, d: int)
  {
    && 0 <= pc && 0 <= d <= m.maxStack
    && if pc >= |m.code| then !m.hasResult else pc in ds && ds[pc] == d
  }

  predicate LocalOk(m: Method, k: int)
  {
    0 <= k < m.maxLocals
  }

  /** The instruction at `pc` can run with the depth assigned to it, and hands over depths that
      agree with the assignment. */
  predicate InstrOk(c: Class, m: Method, ds: Depths, pc: int)
    requires pc in ds
  {
    var (i, length) := Decode(m.code, pc);
    var d, next := ds[pc], pc + length;
    && next <= |m.code| && Needs(i) <= d <= m.maxStack
    && match i
       case Skip => Lands(m, ds, next, d)
       case Push(_) => Lands(m, ds, next, d + 1)
       case PushConstant(k) => k in c.constants && Lands(m, ds, next, d + 1)
       case Load(k) => LocalOk(m, k) && Lands(m, ds, next, d + 1)
       case Store(k) => LocalOk(m, k) && Lands(m, ds, next, d - 1)
       case Increment(k, _) => LocalOk(m, k) && Lands(m, ds, next, d)
       case Negate => Lands(m, ds, next, d)
       case Binary(_) => Lands(m, ds, next, d - 1)
       case Branch(_, k, offset) => Lands(m, ds, next, d - k) && Lands(m, ds, pc + offset, d - k)
       case Goto(offset) => Lands(m, ds, pc + offset, d)
       case Duplicate => Lands(m, ds, next, d + 1)
       case Print => d < m.maxStack && Lands(m, ds, next, d - 1)
       case NewArray => Lands(m, ds, next, d)
       case ArrayLength => Lands(m, ds, next, d)
       case ArrayStore => Lands(m, ds, next, d - 3)
       case ArrayLoad => Lands(m, ds, next, d - 1)
       case Call(k) =>
         Callee(c, k).Some? &&
         var m' := c.methods[Callee(c, k).value];
         m'.params <= d && Lands(m, ds, next, d - m'.params + if m'.hasResult then 1 else 0)
       case ReturnValue => m.hasResult
       case ReturnVoid => !m.hasResult
       case Unknown => true
  }

  ghost predicate MethodOk(c: Class, m: Method, ds: Depths)
  {
    && m.params <= m.maxLocals && Lands(m, ds, 0, 0)
    && forall pc :: pc in ds ==> 0 <= pc < |m.code| && InstrOk(c, m, ds, pc)
  }

  ghost predicate Verified(c: Class, depths: seq<Depths>)
  {
    |depths| == |c.methods| && forall k :: 0 <= k < |depths| ==> MethodOk(c, c.methods[k], depths[k])
  }

  predicate FrameOk(c: Class, k: nat, depths: seq<Depths>, f: Frame)
    requires k < |c.methods| == |depths|
  {
    |f.locals| == c.methods[k].maxLocals && Lands(c.methods[k], depths[k], f.pc, |f.stack|)
  }

  /** Every array holds its own length. */
  predicate HeapOk(h: Heap)
  {
    forall r :: 0 <= r < |h| ==> |h[r]| > 0 && h[r][0] == |h[r]| - 1
  }

  /** References stay valid, arrays keep their lengths, and what was printed stays printed. */
  /** In a heap of arrays an index is good exactly when it is below the length, and an array holds
      what was last stored at each index. */
  lemma ArrayLaws(h: Heap, r: int, i: int, v: int, r': int, j: int)
    requires HeapOk(h)
    ensures InArray(h, r, i) <==> 0 <= r < |h| && 0 <= i < |h[r]| - 1
    ensures InArray(h, r, i) && InArray(h, r', j) ==>
      var h' := h[r := h[r][i + 1 := v]];
      && HeapOk(h') && InArray(h', r', j)
      && h'[r'][j + 1] == if r' == r && j == i then v else h[r'][j + 1]
  {
  }

  predicate Keeps(w: World, w': World)
  {
    && |w.heap| <= |w'.heap| && (forall r :: 0 <= r < |w.heap| ==> |w'.heap[r]| == |w.heap[r]|)
    && w.output <= w'.output && HeapOk(w'.heap)
  }

  /** One instruction keeps the heap in order. */
  lemma StepKeeps(c: Class, i: Instr, length: nat, f: Frame, w: World)
    requires Needs(i) <= |f.stack| && HeapOk(w.heap) && Step(c, i, length, f, w).Next?
    ensures Keeps(w, Step(c, i, length, f, w).world)
  {
    hide Calculate, Wrap32, Holds;
  }

  lemma StepOk(c: Class, m: Method, ds: Depths, f: Frame, w: World)
    requires MethodOk(c, m, ds) && |f.locals| == m.maxLocals && f.pc in ds && ds[f.pc] == |f.stack|
    ensures var (i, length) := Decode(m.code, f.pc);
      && Needs(i) <= |f.stack|
      && (!i.Call? ==>
           match Step(c, i, length, f, w)
           case Next(f', w') => |f'.locals| == m.maxLocals && Lands(m, ds, f'.pc, |f'.stack|)
           case Stop(r) => r != Stuck && r != Unfinished && (r.Returned? ==> r.value.Some? == m.hasResult && r.world == w))
  {
    hide Decode, Calculate, Wrap32, Holds, Overflows, InArray, NewArrayOf, Callee;
    assert InstrOk(c, m, ds, f.pc);
  }

  /** A frame of a verified class never gets stuck, and what it does next agrees with the depths. */
  lemma ActOk(c: Class, k: nat, depths: seq<Depths>, f: Frame, w: World)
    requires Verified(c, depths) && k < |c.methods| && FrameOk(c, k, depths, f) && HeapOk(w.heap)
    ensures match Act(c, k, f, w)
      case Continue(f', w') => FrameOk(c, k, depths, f') && Keeps(w, w')
      case Halt(r) => r != Stuck && r != Unfinished && (r.Returned? ==> r.value.Some? == c.methods[k].hasResult && r.world == w)
      case Invoke(k', start, back) =>
        && FrameOk(c, k', depths, start)
        && forall v: Option<int> :: v.Some? == c.methods[k'].hasResult ==> FrameOk(c, k, depths, Resume(back, v))
  {
    hide Decode, Step, Keeps;
    var m, ds := c.methods[k], depths[k];
    assert MethodOk(c, m, ds);
    if f.pc < |m.code| {
      StepOk(c, m, ds, f, w);
      assert InstrOk(c, m, ds, f.pc);
      var (i, length) := Decode(m.code, f.pc);
      if i.Call? {
        StartOk(c, depths, Callee(c, i.index).value);
      } else if Step(c, i, length, f, w).Next? {
        StepKeeps(c, i, length, f, w);
      }
    }
  }

  lemma StartOk(c: Class, depths: seq<Depths>, k: nat)
    requires Verified(c, depths) && k < |c.methods|
    ensures c.methods[k].params <= c.methods[k].maxLocals && Lands(c.methods[k], depths[k], 0, 0)
  {
    assert MethodOk(c, c.methods[k], depths[k]);
  }

  // ----- Every state of a run -----

  /** An activation about to execute its next instruction. */
  datatype Moment = Moment(index: nat, frame: Frame, world: World)

  /** All moments of a run, in order, those of called methods included. */
  function Moments(c: Class, k: nat, f: Frame, w: World, fuel: nat): seq<Moment>
    requires k < |c.methods|
    decreases fuel
  {
    if fuel == 0 then [] else
    [Moment(k, f, w)] +
    match Act(c, k, f, w)
    case Continue(f', w') => Moments(c, k, f', w', fuel - 1)
    case Halt(_) => []
    case Invoke(k', start, back) =>
      Moments(c, k', start, w, fuel - 1) +
      match Run(c, k', start, w, fuel - 1)
      case Returned(v, w') => Moments(c, k, Resume(back, v), w', fuel - 1)
      case _ => []
  }

  /** Control is at an instruction start with the depth assigned to it, within the limits of its
      method, and nothing that was in the world `w` is gone. */
  predicate MomentOk(c: Class, depths: seq<Depths>, w: World, x: Moment)
    requires |c.methods| == |depths|
  {
    x.index < |c.methods| && FrameOk(c, x.index, depths, x.frame) && Keeps(w, x.world)
  }

  predicate MomentsOk(c: Class, depths: seq<Depths>, w: World, xs: seq<Moment>)
    requires |c.methods| == |depths|
  {
    forall i :: 0 <= i < |xs| ==> MomentOk(c, depths, w, xs[i])
  }

  /** Each moment keeps what earlier ones had. */
  predicate InOrder(xs: seq<Moment>)
  {
    forall i, j :: 0 <= i < j < |xs| ==> Keeps(xs[i].world, xs[j].world)
  }

  predicate AllKept(xs: seq<Moment>, w: World)
  {
    forall i :: 0 <= i < |xs| ==> Keeps(xs[i].world, w)
  }

  lemma KeepsOn(w: World, w1: World, w2: World)
    requires Keeps(w, w1) && Keeps(w1, w2)
    ensures Keeps(w, w2)
  {
  }

  lemma LaterMoments(c: Class, depths: seq<Depths>, w: World, w': World, xs: seq<Moment>)
    requires |c.methods| == |depths| && Keeps(w, w') && MomentsOk(c, depths, w', xs)
    ensures MomentsOk(c, depths, w, xs)
  {
    hide Keeps, FrameOk;
    forall i | 0 <= i < |xs| ensures MomentOk(c, depths, w, xs[i]) {
      KeepsOn(w, w', xs[i].world);
    }
  }

  lemma KeptOn(xs: seq<Moment>, w: World, w': World)
    requires AllKept(xs, w) && Keeps(w, w')
    ensures AllKept(xs, w')
  {
    hide Keeps;
    forall i | 0 <= i < |xs| ensures Keeps(xs[i].world, w') {
      KeepsOn(xs[i].world, w, w');
    }
  }

  /** Moments up to a world, then moments from that world on. */
  lemma JoinMoments(c: Class, depths: seq<Depths>, w: World, w': World, xs: seq<Moment>, ys: seq<Moment>)
    requires |c.methods| == |depths| && Keeps(w, w') && AllKept(xs, w')
    requires MomentsOk(c, depths, w, xs) && InOrder(xs) && MomentsOk(c, depths, w', ys) && InOrder(ys)
    ensures MomentsOk(c, depths, w, xs + ys) && InOrder(xs + ys)
  {
    hide Keeps, FrameOk;
    LaterMoments(c, depths, w, w', ys);
    forall i, j | 0 <= i < |xs| && 0 <= j < |ys| ensures Keeps(xs[i].world, ys[j].world) {
      KeepsOn(xs[i].world, w', ys[j].world);
    }
  }

  ghost predicate Safe(c: Class, k: nat, depths: seq<Depths>, f: Frame, w: World, fuel: nat)
    requires k < |c.methods| == |depths|
  {
    var r, xs := Run(c, k, f, w, fuel), Moments(c, k, f, w, fuel);
    && r != Stuck
    && (r.Returned? ==> r.value.Some? == c.methods[k].hasResult && Keeps(w, r.world) && AllKept(xs, r.world))
    && MomentsOk(c, depths, w, xs) && InOrder(xs)
  }

  lemma CallSafe(c: Class, k: nat, depths: seq<Depths>, f: Frame, w: World, fuel: nat)
    requires k < |c.methods| == |depths| && fuel > 0 && MomentsOk(c, depths, w, [Moment(k, f, w)]) && HeapOk(w.heap)
    requires Act(c, k, f, w).Invoke?
    requires var a := Act(c, k, f, w);
      var r := Run(c, a.callee, a.start, w, fuel - 1);
      && Safe(c, a.callee, depths, a.start, w, fuel - 1)
      && (r.Returned? ==> Safe(c, k, depths, Resume(a.back, r.value), r.world, fuel - 1))
    ensures Safe(c, k, depths, f, w, fuel)
  {
    hide Act, FrameOk, Keeps, MomentsOk, InOrder, AllKept;
    var Invoke(k', start, back) := Act(c, k, f, w);
    var r := Run(c, k', start, w, fuel - 1);
    var here, xs := [Moment(k, f, w)], Moments(c, k', start, w, fuel - 1);
    OneMoment(k, f, w);
    JoinMoments(c, depths, w, w, here, xs);
    if r.Returned? {
      var ys := Moments(c, k, Resume(back, r.value), r.world, fuel - 1);
      KeptOn(here, w, r.world);
      KeptBoth(here, xs, r.world);
      JoinMoments(c, depths, w, r.world, here + xs, ys);
      assert Moments(c, k, f, w, fuel) == here + xs + ys;
      var end := Run(c, k, f, w, fuel);
      if end.Returned? {
        KeepsOn(w, r.world, end.world);
        KeptOn(here + xs, r.world, end.world);
        KeptBoth(here + xs, ys, end.world);
      }
    } else {
      assert Moments(c, k, f, w, fuel) == here + xs;
    }
  }

  lemma OneMoment(k: nat, f: Frame, w: World)
    requires HeapOk(w.heap)
    ensures Keeps(w, w) && InOrder([Moment(k, f, w)]) && AllKept([Moment(k, f, w)], w)
  {
  }

  lemma KeptBoth(xs: seq<Moment>, ys: seq<Moment>, w: World)
    requires AllKept(xs, w) && AllKept(ys, w)
    ensures AllKept(xs + ys, w)
  {
    hide Keeps;
  }

  /** Safety: no run of a verified class gets stuck, and a method returns a value exactly when it
      should. In every state the run goes through, whether or not it ends, control is at an
      instruction start with its depth, references stay valid, arrays keep their lengths and what
      was printed stays printed. */
  lemma {:induction false} RunSafe(c: Class, k: nat, depths: seq<Depths>, f: Frame, w: World, fuel: nat)
    requires Verified(c, depths) && k < |c.methods| && FrameOk(c, k, depths, f) && HeapOk(w.heap)
    ensures Safe(c, k, depths, f, w, fuel)
    decreases fuel
  {
    hide Act, FrameOk, Verified, Keeps, MomentsOk, InOrder, AllKept, HeapOk;
    VerifiedMethods(c, depths);
    NoMoments(c, depths, w);
    if fuel > 0 {
      ActOk(c, k, depths, f, w);
      OneMoment(k, f, w);
      FirstOk(c, k, depths, f, w);
      var here := [Moment(k, f, w)];
      match Act(c, k, f, w)
      case Continue(f', w') =>
        KeepsHeapOk(w, w');
        RunSafe(c, k, depths, f', w', fuel - 1);
        KeptOn(here, w, w');
        JoinMoments(c, depths, w, w', here, Moments(c, k, f', w', fuel - 1));
        var r := Run(c, k, f', w', fuel - 1);
        if r.Returned? {
          KeepsOn(w, w', r.world);
          KeptOn(here, w', r.world);
          KeptBoth(here, Moments(c, k, f', w', fuel - 1), r.world);
        }
      case Halt(r) => assert here + [] == here;
      case Invoke(k', start, back) =>
        RunSafe(c, k', depths, start, w, fuel - 1);
        var r := Run(c, k', start, w, fuel - 1);
        if r.Returned? {
          KeepsHeapOk(w, r.world);
          RunSafe(c, k, depths, Resume(back, r.value), r.world, fuel - 1);
        }
        CallSafe(c, k, depths, f, w, fuel);
    }
  }

  lemma VerifiedMethods(c: Class, depths: seq<Depths>)
    requires Verified(c, depths)
    ensures |c.methods| == |depths|
  {
    hide MethodOk;
  }

  lemma KeepsHeapOk(w: World, w': World)
    requires Keeps(w, w')
    ensures HeapOk(w'.heap)
  {
  }

  lemma NoMoments(c: Class, depths: seq<Depths>, w: World)
    requires |c.methods| == |depths|
    ensures MomentsOk(c, depths, w, []) && InOrder([])
  {
  }

  lemma FirstOk(c: Class, k: nat, depths: seq<Depths>, f: Frame, w: World)
    requires k < |c.methods| == |depths| && FrameOk(c, k, depths, f) && Keeps(w, w)
    ensures MomentsOk(c, depths, w, [Moment(k, f, w)])
  {
    hide FrameOk, Keeps;
  }
}
