/** The bytecode interpreter: it decodes bytes as it goes, and keeps the operand stack and the
    local variables in arrays. */
module Interpreter {
  import opened Words
  import opened IntegerOps
  import opened Bytecode

  /** The heap of arrays and the output. */
  class Machine {
    var heap: Heap
    var output: seq<int>

    constructor ()
      ensures View() == World([], [])
    {
      heap, output := [], [];
    }

    function View(): World
      reads this
    {
      World(heap, output)
    }

    method HeapAdd(a: seq<int>) returns (ref: int)
      modifies this`heap
      ensures ref == |old(heap)| && heap == old(heap) + [a]
    {
      ref := |heap|;
      heap := heap + [a];
    }
  }

  /** One activation of a method. The helpers leave pc on the last byte of their instruction, or
      one before the target of a jump: the loop adds 1. */
  class Activation {
    const code: seq<int>
    const stack: array<int>
    const locals: array<int>
    var sp: nat
    var pc: int

    ghost predicate Valid()
      reads this
    {
      sp <= stack.Length && stack != locals
    }

    ghost function Operands(): seq<int>
      requires Valid()
      reads this, stack
    {
      stack[..sp]
    }

    ghost function View(): Frame
      requires Valid()
      reads this, stack, locals
    {
      Frame(pc, stack[..sp], locals[..])
    }

    constructor (m: Method, locals: array<int>)
      ensures Valid() && code == m.code && this.locals == locals && fresh(stack) && stack.Length == m.maxStack
      ensures sp == 0 && pc == 0
    {
      code, this.locals := m.code, locals;
      stack := new int[m.maxStack](_ => 0);
      sp, pc := 0, 0;
    }

    method AddToXor(op: int) returns (ok: bool)
      requires Valid() && (if op == 0x74 then sp >= 1 else sp >= 2)
      modifies this`sp, stack
      ensures Valid()
      ensures ok <==> op == 0x74 || !Overflows(OperatorOf(op), Top(old(Operands()), 2), Top(old(Operands()), 1))
      ensures op == 0x74 ==> Operands() == Drop(old(Operands()), 1) + [Wrap32(-Top(old(Operands()), 1))]
      ensures op != 0x74 && ok ==>
        Operands() == Drop(old(Operands()), 2) + [Calculate(OperatorOf(op), Top(old(Operands()), 2), Top(old(Operands()), 1))]
    {
      hide Wrap32, TruncDiv, Pow2, Unsigned32, And32, Or32, Xor32;
      if op == 0x74 {
        stack[sp - 1] := Wrap32(-stack[sp - 1]);
        return true;
      }
      var a, b := stack[sp - 2], stack[sp - 1];
      var result := 0;
      match op {
        case 0x60 => result := Wrap32(a + b);
        case 0x64 => result := Wrap32(a - b);
        case 0x68 => result := Wrap32(a * b);
        case 0x6C =>
          if a == -0x8000_0000 && b == -1 { return false; }
          if b != 0 { result := Wrap32(TruncDiv(a, b)); }
        case 0x70 =>
          if a == -0x8000_0000 && b == -1 { return false; }
          result := if b != 0 then Wrap32(a - b * TruncDiv(a, b)) else Wrap32(-a);
        case 0x78 => result := Wrap32(a * Pow2(b % 32));
        case 0x7A => result := Wrap32(a / Pow2(b % 32));
        case 0x7C => result := Wrap32(Unsigned32(a) / Pow2(b % 32));
        case 0x7E => result := And32(a, b);
        case 0x80 => result := Or32(a, b);
        case 0x82 => result := Xor32(a, b);
        case _ =>
      }
      stack[sp - 2] := result;
      stack[sp - 1] := 0;
      sp := sp - 1;
      return true;
    }

    method PushValue(v: int)
      requires Valid() && sp < stack.Length
      modifies this`sp, stack
      ensures Valid() && Operands() == old(Operands()) + [v]
    {
      stack[sp] := v;
      sp := sp + 1;
    }

    method PopValue() returns (v: int)
      requires Valid() && sp >= 1
      modifies this`sp, stack
      ensures Valid() && v == Top(old(Operands()), 1) && Operands() == Drop(old(Operands()), 1)
    {
      v := stack[sp - 1];
      stack[sp - 1] := 0;
      sp := sp - 1;
    }

    /** The slot above the top is cleared before the top is taken. */
    method InvokeVirtual(machine: Machine)
      requires Valid() && 1 <= sp < stack.Length
      modifies this`sp, this`pc, stack, machine`output
      ensures Valid() && Operands() == Drop(old(Operands()), 1) && pc == old(pc) + 2
      ensures machine.output == old(machine.output) + [Top(old(Operands()), 1)]
    {
      stack[sp] := 0;
      sp := sp - 1;
      machine.output := machine.output + [stack[sp]];
      pc := pc + 2;
    }

    method LoadLocal(k: int)
      requires Valid() && 0 <= k < locals.Length && sp < stack.Length
      modifies this`sp, stack
      ensures Valid() && Operands() == old(Operands()) + [locals[k]]
    {
      PushValue(locals[k]);
    }

    method StoreLocal(k: int)
      requires Valid() && 0 <= k < locals.Length && sp >= 1
      modifies this`sp, stack, locals
      ensures Valid() && Operands() == Drop(old(Operands()), 1) && locals[..] == old(locals[..])[k := Top(old(Operands()), 1)]
    {
      var v := PopValue();
      locals[k] := v;
    }

    method IInc()
      requires Valid() && 0 <= Byte(code, pc + 1) < locals.Length
      modifies this`pc, locals
      ensures Valid() && pc == old(pc) + 2
      ensures var k := Byte(code, old(pc) + 1);
        locals[..] == old(locals[..])[k := Wrap32(old(locals[..])[k] + SignedByte(Byte(code, old(pc) + 2)))]
    {
      hide Wrap32;
      var k := Byte(code, pc + 1);
      locals[k] := Wrap32(locals[k] + SignedByte(Byte(code, pc + 2)));
      pc := pc + 2;
    }

    method Jump(op: int)
      requires Valid() && 0x99 <= op <= 0xA4 && (if op >= 0x9F then sp >= 2 else sp >= 1)
      modifies this`sp, this`pc, stack
      ensures Valid() && Operands() == Drop(old(Operands()), if op >= 0x9F then 2 else 1)
      ensures
        var a, b := Top(old(Operands()), if op >= 0x9F then 2 else 1), if op >= 0x9F then Top(old(Operands()), 1) else 0;
        var offset := SignedShort(Byte(code, old(pc) + 1), Byte(code, old(pc) + 2));
        pc == old(pc) + if Holds(ConditionOf(if op >= 0x9F then op - 0x9F else op - 0x99), a, b) then offset - 1 else 2
    {
      var a, b := stack[sp - 1], 0;
      if op >= 0x9F {
        a, b := stack[sp - 2], stack[sp - 1];
        stack[sp - 2] := 0;
        stack[sp - 1] := 0;
        sp := sp - 2;
      } else {
        stack[sp - 1] := 0;
        sp := sp - 1;
      }
      var offset := SignedShort(Byte(code, pc + 1), Byte(code, pc + 2));
      var taken := false;
      match op {
        case 0x99 => taken := a == 0;
        case 0x9A => taken := a != 0;
        case 0x9B => taken := a < 0;
        case 0x9C => taken := a >= 0;
        case 0x9D => taken := a > 0;
        case 0x9E => taken := a <= 0;
        case 0x9F => taken := a == b;
        case 0xA0 => taken := a != b;
        case 0xA1 => taken := a < b;
        case 0xA2 => taken := a >= b;
        case 0xA3 => taken := a > b;
        case _ => taken := a <= b;
      }
      pc := pc + if taken then offset - 1 else 2;
    }

    method GoTo()
      modifies this`pc
      ensures pc == old(pc) + SignedShort(Byte(code, old(pc) + 1), Byte(code, old(pc) + 2)) - 1
    {
      pc := pc + SignedShort(Byte(code, pc + 1), Byte(code, pc + 2)) - 1;
    }

    method Dup()
      requires Valid() && 1 <= sp < stack.Length
      modifies this`sp, stack
      ensures Valid() && Operands() == old(Operands()) + [Top(old(Operands()), 1)]
    {
      stack[sp] := stack[sp - 1];
      sp := sp + 1;
    }

    /** Arrays of a negative or the largest size are undefined. */
    method NewArray(machine: Machine) returns (ok: bool)
      requires Valid() && sp >= 1
      modifies this`pc, stack, machine`heap
      ensures Valid() && (ok <==> 0 <= Top(old(Operands()), 1) < 0x7FFF_FFFF)
      ensures ok ==>
        && Operands() == Drop(old(Operands()), 1) + [|old(machine.heap)|] && pc == old(pc) + 1
        && machine.heap == old(machine.heap) + [NewArrayOf(Top(old(Operands()), 1))]
    {
      var count := stack[sp - 1];
      if !(0 <= count < 0x7FFF_FFFF) {
        return false;
      }
      var a := [count];
      for i := 0 to count
        invariant a == [count] + seq(i, _ => 0)
      {
        a := a + [0];
      }
      var ref := machine.HeapAdd(a);
      stack[sp - 1] := ref;
      pc := pc + 1;
      return true;
    }

    method ArrayLength(machine: Machine) returns (ok: bool)
      requires Valid() && sp >= 1
      modifies stack
      ensures Valid()
      ensures var r := Top(old(Operands()), 1);
        && (ok <==> 0 <= r < |machine.heap| && |machine.heap[r]| > 0)
        && (ok ==> Operands() == Drop(old(Operands()), 1) + [machine.heap[r][0]])
    {
      var r := stack[sp - 1];
      if !(0 <= r < |machine.heap| && |machine.heap[r]| > 0) {
        return false;
      }
      stack[sp - 1] := machine.heap[r][0];
      return true;
    }

    method IAStore(machine: Machine) returns (ok: bool)
      requires Valid() && sp >= 3
      modifies this`sp, stack, machine`heap
      ensures Valid()
      ensures var s := old(Operands());
        && (ok <==> InArray(old(machine.heap), Top(s, 3), Top(s, 2)))
        && (ok ==> Operands() == Drop(s, 3)
                   && machine.heap == old(machine.heap)[Top(s, 3) := old(machine.heap)[Top(s, 3)][Top(s, 2) + 1 := Top(s, 1)]])
    {
      var r, k := stack[sp - 3], stack[sp - 2];
      if !InArray(machine.heap, r, k) {
        return false;
      }
      machine.heap := machine.heap[r := machine.heap[r][k + 1 := stack[sp - 1]]];
      stack[sp - 1] := 0;
      stack[sp - 2] := 0;
      stack[sp - 3] := 0;
      sp := sp - 3;
      return true;
    }

    method IALoad(machine: Machine) returns (ok: bool)
      requires Valid() && sp >= 2
      modifies this`sp, stack
      ensures Valid()
      ensures var s := old(Operands());
        && (ok <==> InArray(machine.heap, Top(s, 2), Top(s, 1)))
        && (ok ==> Operands() == Drop(s, 2) + [machine.heap[Top(s, 2)][Top(s, 1) + 1]])
    {
      var r, k := stack[sp - 2], stack[sp - 1];
      if !InArray(machine.heap, r, k) {
        return false;
      }
      var value := machine.heap[r][k + 1];
      stack[sp - 1] := 0;
      stack[sp - 2] := 0;
      sp := sp - 2;
      stack[sp] := value;
      sp := sp + 1;
      return true;
    }

    /** Move the arguments of a call from the stack to new locals. */
    method PassArguments(m: Method) returns (args: array<int>)
      requires Valid() && m.params <= sp && m.params <= m.maxLocals
      modifies this`sp, stack
      ensures Valid() && fresh(args) && args.Length == m.maxLocals && Operands() == Drop(old(Operands()), m.params)
      ensures Frame(0, [], args[..]) == Start(m, old(Operands())[|old(Operands())| - m.params..])
    {
      args := new int[m.maxLocals](_ => 0);
      ghost var was := Operands();
      var base := sp - m.params;
      for i := 0 to m.params
        invariant sp == |was|
        invariant forall j :: 0 <= j < i ==> args[j] == was[base + j]
        invariant forall j :: i <= j < m.maxLocals ==> args[j] == 0
        invariant forall j :: 0 <= j < base || base + i <= j < sp ==> stack[j] == was[j]
      {
        args[i] := stack[base + i];
        stack[base + i] := 0;
      }
      sp := base;
    }

    // ----- Instructions -----

    /** Constants and instructions without effect. */
    method DoConstant(c: Class, op: int, machine: Machine)
      requires Valid() && CanDo(c, code, View(), machine.View(), stack.Length) && op == Byte(code, pc)
      requires op == 0x00 || 0x02 <= op <= 0x08 || 0x10 <= op <= 0x12 || op == 0xB2
      modifies this`sp, this`pc, stack
      ensures Valid() && Does(c, code, old(View()), machine.View()) == Next(View(), machine.View())
    {
      if 0x02 <= op <= 0x08 {
        PushValue(op - 3);
      } else if op == 0x10 {
        PushValue(SignedByte(Byte(code, pc + 1)));
        pc := pc + 1;
      } else if op == 0x11 {
        PushValue(SignedShort(Byte(code, pc + 1), Byte(code, pc + 2)));
        pc := pc + 2;
      } else if op == 0x12 {
        PushValue(c.constants[Byte(code, pc + 1)]);
        pc := pc + 1;
      } else if op == 0xB2 {
        pc := pc + 2;
      }
      pc := pc + 1;
    }

    /** Local variables. */
    method DoLocal(c: Class, op: int, machine: Machine)
      requires Valid() && CanDo(c, code, View(), machine.View(), stack.Length) && op == Byte(code, pc)
      requires IsLocal(op)
      modifies this`sp, this`pc, stack, locals
      ensures Valid() && Does(c, code, old(View()), machine.View()) == Next(View(), machine.View())
    {
      hide Wrap32, SignedByte, Decode, Byte;
      DecodeLocal(code, pc);
      if op == 0x15 || op == 0x19 {
        LoadLocal(Byte(code, pc + 1));
        pc := pc + 1;
      } else if 0x1A <= op <= 0x1D {
        LoadLocal(op - 0x1A);
      } else if 0x2A <= op <= 0x2D {
        LoadLocal(op - 0x2A);
      } else if op == 0x36 || op == 0x3A {
        StoreLocal(Byte(code, pc + 1));
        pc := pc + 1;
      } else if 0x3B <= op <= 0x3E {
        StoreLocal(op - 0x3B);
      } else if 0x4B <= op <= 0x4E {
        StoreLocal(op - 0x4B);
      } else {
        IInc();
      }
      pc := pc + 1;
    }

    /** Arithmetic; not ok when a quotient is out of range. */
    method DoArithmetic(c: Class, op: int, machine: Machine) returns (ok: bool)
      requires Valid() && CanDo(c, code, View(), machine.View(), stack.Length) && op == Byte(code, pc)
      requires 0x60 <= op <= 0x82
      modifies this`sp, this`pc, stack
      ensures Valid()
      ensures Does(c, code, old(View()), machine.View()) == if ok then Next(View(), machine.View()) else Stop(Undefined)
    {
      hide Wrap32, Calculate, OperatorOf, Overflows, Byte, CanDo, Does, Top, Drop, Decode, Needs, Step;
      ghost var f := View();
      DoesOperation(c, code, f, machine.View(), stack.Length);
      ok := AddToXor(op);
      ghost var after := Operands();
      OperationDone(c, code, f, machine.View(), stack.Length, ok, after);
      pc := pc + 1;
    }

    /** Dup and printing. */
    method DoTop(c: Class, op: int, machine: Machine)
      requires Valid() && CanDo(c, code, View(), machine.View(), stack.Length) && op == Byte(code, pc)
      requires op == 0x59 || op == 0xB6
      modifies this`sp, this`pc, stack, machine`output
      ensures Valid() && Does(c, code, old(View()), old(machine.View())) == Next(View(), machine.View())
    {
      hide OperatorOf, ConditionOf, SignedShort, Decode, Byte;
      DecodeOperation(code, pc);
      if op == 0x59 {
        Dup();
      } else {
        InvokeVirtual(machine);
      }
      pc := pc + 1;
    }

    /** Jumps. */
    method DoJump(c: Class, op: int, machine: Machine)
      requires Valid() && CanDo(c, code, View(), machine.View(), stack.Length) && op == Byte(code, pc)
      requires 0x99 <= op <= 0xA4 || op == 0xA7
      modifies this`sp, this`pc, stack
      ensures Valid() && Does(c, code, old(View()), machine.View()) == Next(View(), machine.View())
    {
      hide ConditionOf, Holds, SignedShort, Decode, Byte;
      DecodeOperation(code, pc);
      if op == 0xA7 {
        GoTo();
      } else {
        Jump(op);
      }
      pc := pc + 1;
    }

    /** Arrays; not ok when a size or an index is out of range. */
    method DoArray(c: Class, op: int, machine: Machine) returns (ok: bool)
      requires Valid() && CanDo(c, code, View(), machine.View(), stack.Length) && op == Byte(code, pc)
      requires op == 0x2E || op == 0x4F || op == 0xBC || op == 0xBE
      modifies this`sp, this`pc, stack, machine`heap
      ensures Valid()
      ensures Does(c, code, old(View()), old(machine.View())) == if ok then Next(View(), machine.View()) else Stop(Undefined)
    {
      hide Decode, Byte, NewArrayOf;
      DecodeArray(code, pc);
      if op == 0xBC {
        ok := NewArray(machine);
      } else if op == 0xBE {
        ok := ArrayLength(machine);
      } else if op == 0x4F {
        ok := IAStore(machine);
      } else {
        ok := IALoad(machine);
      }
      pc := pc + 1;
    }
  }

  lemma DecodeLocal(code: seq<int>, pc: int)
    requires IsLocal(Byte(code, pc))
    ensures var op, b1, b2 := Byte(code, pc), Byte(code, pc + 1), Byte(code, pc + 2);
      Decode(code, pc) ==
        if op == 0x15 || op == 0x19 then (Load(b1), 2)
        else if 0x1A <= op <= 0x1D then (Load(op - 0x1A), 1)
        else if 0x2A <= op <= 0x2D then (Load(op - 0x2A), 1)
        else if op == 0x36 || op == 0x3A then (Store(b1), 2)
        else if 0x3B <= op <= 0x3E then (Store(op - 0x3B), 1)
        else if 0x4B <= op <= 0x4E then (Store(op - 0x4B), 1)
        else (Increment(b1, SignedByte(b2)), 3)
  {
  }

  lemma DecodeOperation(code: seq<int>, pc: int)
    ensures var op, b1, b2 := Byte(code, pc), Byte(code, pc + 1), Byte(code, pc + 2);
      && (op == 0x59 ==> Decode(code, pc) == (Duplicate, 1))
      && (op == 0x74 ==> Decode(code, pc) == (Negate, 1))
      && (0x60 <= op <= 0x82 && op != 0x74 ==> Decode(code, pc) == (Binary(OperatorOf(op)), 1))
      && (0x99 <= op <= 0x9E ==> Decode(code, pc) == (Branch(ConditionOf(op - 0x99), 1, SignedShort(b1, b2)), 3))
      && (0x9F <= op <= 0xA4 ==> Decode(code, pc) == (Branch(ConditionOf(op - 0x9F), 2, SignedShort(b1, b2)), 3))
      && (op == 0xA7 ==> Decode(code, pc) == (Goto(SignedShort(b1, b2)), 3))
      && (op == 0xB6 ==> Decode(code, pc) == (Print, 3))
  {
  }

  lemma OperationSteps(c: Class, op: Operator, f: Frame, w: World)
    ensures |f.stack| >= 1 ==>
      Step(c, Negate, 1, f, w) == Next(Frame(f.pc + 1, Drop(f.stack, 1) + [Wrap32(-Top(f.stack, 1))], f.locals), w)
    ensures |f.stack| >= 2 ==>
      var a, b := Top(f.stack, 2), Top(f.stack, 1);
      Step(c, Binary(op), 1, f, w) ==
        if Overflows(op, a, b) then Stop(Undefined)
        else Next(Frame(f.pc + 1, Drop(f.stack, 2) + [Calculate(op, a, b)], f.locals), w)
  {
    hide Wrap32, Calculate, Overflows;
  }

  lemma DecodeArray(code: seq<int>, pc: int)
    ensures var op := Byte(code, pc);
      && (op == 0xBC ==> Decode(code, pc) == (Instr.NewArray, 2))
      && (op == 0xBE ==> Decode(code, pc) == (Instr.ArrayLength, 1))
      && (op == 0x4F ==> Decode(code, pc) == (ArrayStore, 1))
      && (op == 0x2E ==> Decode(code, pc) == (ArrayLoad, 1))
  {
  }

  predicate IsLocal(op: int)
  {
    || op == 0x15 || op == 0x19 || 0x1A <= op <= 0x1D || 0x2A <= op <= 0x2D
    || op == 0x36 || op == 0x3A || 0x3B <= op <= 0x3E || 0x4B <= op <= 0x4E || op == 0x84
  }

  /** The instruction at the frame's pc is no call and no return, finds its operands and has room
      for its results. */
  ghost predicate CanDo(c: Class, code: seq<int>, f: Frame, w: World, limit: nat)
  {
    0 <= f.pc < |code| &&
    var (i, length) := Decode(code, f.pc);
    && Needs(i) <= |f.stack| && !i.Call? && !i.ReturnValue? && !i.ReturnVoid? && !i.Unknown?
    && (i.Print? ==> |f.stack| < limit)
    && match Step(c, i, length, f, w)
       case Next(f', _) => |f'.stack| <= limit
       case Stop(r) => r == Undefined
  }

  ghost function Does(c: Class, code: seq<int>, f: Frame, w: World): Outcome
    requires Needs(Decode(code, f.pc).0) <= |f.stack|
  {
    var (i, length) := Decode(code, f.pc);
    Step(c, i, length, f, w)
  }

  lemma DoesOperation(c: Class, code: seq<int>, f: Frame, w: World, limit: nat)
    requires CanDo(c, code, f, w, limit) && 0x60 <= Byte(code, f.pc) <= 0x82
    ensures Needs(Decode(code, f.pc).0) <= |f.stack|
    ensures
      var op, s := Byte(code, f.pc), f.stack;
      |s| >= (if op == 0x74 then 1 else 2) &&
      Does(c, code, f, w) ==
        if op == 0x74 then Next(Frame(f.pc + 1, Drop(s, 1) + [Wrap32(-Top(s, 1))], f.locals), w)
        else if Overflows(OperatorOf(op), Top(s, 2), Top(s, 1)) then Stop(Undefined)
        else Next(Frame(f.pc + 1, Drop(s, 2) + [Calculate(OperatorOf(op), Top(s, 2), Top(s, 1))], f.locals), w)
  {
    hide Wrap32, Calculate, OperatorOf, Overflows, Decode, Byte, Step;
    DecodeOperation(code, f.pc);
    OperationSteps(c, OperatorOf(Byte(code, f.pc)), f, w);
  }

  lemma OperationDone(c: Class, code: seq<int>, f: Frame, w: World, limit: nat, ok: bool, after: seq<int>)
    requires CanDo(c, code, f, w, limit) && 0x60 <= Byte(code, f.pc) <= 0x82
    requires |f.stack| >= if Byte(code, f.pc) == 0x74 then 1 else 2
    requires
      var op, s := Byte(code, f.pc), f.stack;
      if op == 0x74 then ok && after == Drop(s, 1) + [Wrap32(-Top(s, 1))]
      else
        && (ok <==> !Overflows(OperatorOf(op), Top(s, 2), Top(s, 1)))
        && (ok ==> after == Drop(s, 2) + [Calculate(OperatorOf(op), Top(s, 2), Top(s, 1))])
    ensures Needs(Decode(code, f.pc).0) <= |f.stack|
    ensures Does(c, code, f, w) == if ok then Next(Frame(f.pc + 1, after, f.locals), w) else Stop(Undefined)
  {
    hide Wrap32, Calculate, OperatorOf, Overflows, Byte, CanDo, Does, Top, Drop, Decode, Needs, Step;
    DoesOperation(c, code, f, w, limit);
  }

  // ----- The interpreter -----

  /** An activation of method `k` of a verified class. */
  ghost predicate Fits(c: Class, k: nat, depths: seq<Depths>, act: Activation)
    requires k < |c.methods| == |depths|
    reads act, act.stack, act.locals
  {
    && act.Valid() && act.code == c.methods[k].code && act.stack.Length == c.methods[k].maxStack
    && FrameOk(c, k, depths, act.View())
  }

  /** One instruction of a verified method, other than a call or a return. */
  method ExecuteInstr(c: Class, k: nat, ghost depths: seq<Depths>, act: Activation, machine: Machine) returns (stop: Option<Result>)
    requires Verified(c, depths) && k < |c.methods| && Fits(c, k, depths, act) && HeapOk(machine.heap)
    requires act.pc < |act.code| && !IsCallOrReturn(act.code[act.pc])
    modifies act`sp, act`pc, act.stack, act.locals, machine
    ensures stop.None? ==>
      && Fits(c, k, depths, act) && HeapOk(machine.heap)
      && Act(c, k, old(act.View()), old(machine.View())) == Continue(act.View(), machine.View())
    ensures stop.Some? ==> !stop.value.Returned? && Act(c, k, old(act.View()), old(machine.View())) == Halt(stop.value)
  {
    hide Decode, Step, IsLocal, Calculate;
    var op := act.code[act.pc];
    ghost var f, w := act.View(), machine.View();
    ActOk(c, k, depths, f, w);
    InstrCanDo(c, k, depths, f, w);
    stop := None;
    if op == 0x00 || 0x02 <= op <= 0x08 || 0x10 <= op <= 0x12 || op == 0xB2 {
      act.DoConstant(c, op, machine);
    } else if IsLocal(op) {
      act.DoLocal(c, op, machine);
    } else if 0x60 <= op <= 0x82 {
      var ok := act.DoArithmetic(c, op, machine);
      if !ok {
        stop := Some(Undefined);
      }
    } else if op == 0x59 || op == 0xB6 {
      act.DoTop(c, op, machine);
    } else if 0x99 <= op <= 0xA4 || op == 0xA7 {
      act.DoJump(c, op, machine);
    } else if op == 0x2E || op == 0x4F || op == 0xBC || op == 0xBE {
      var ok := act.DoArray(c, op, machine);
      if !ok {
        stop := Some(Undefined);
      }
    } else {
      stop := Some(Exit);
    }
  }

  /** Run a method of a verified class. The result is that of the abstract machine, so it is never
      stuck; no array is indexed out of bounds; and a callee changes its own locals and the
      machine, but nothing of its caller. */
  method Execute(c: Class, k: nat, locals: array<int>, machine: Machine, ghost depths: seq<Depths>, fuel: nat) returns (r: Result)
    requires Verified(c, depths) && k < |c.methods| && locals.Length == c.methods[k].maxLocals && HeapOk(machine.heap)
    modifies locals, machine
    ensures r == Run(c, k, Frame(0, [], old(locals[..])), old(machine.View()), fuel)
    ensures r != Stuck && (r.Returned? ==> r.world == machine.View())
    ensures r.Returned? ==> r.value.Some? == c.methods[k].hasResult && Keeps(old(machine.View()), machine.View())
    decreases fuel, 0
  {
    hide Act, Verified, FrameOk, Keeps, IsCallOrReturn;
    VerifiedSizes(c, depths);
    ghost var start := Frame(0, [], locals[..]);
    ghost var w := machine.View();
    var act := new Activation(c.methods[k], locals);
    StartFits(c, k, depths, start);
    RunSafe(c, k, depths, start, w, fuel);
    var left: nat := fuel;
    while left > 0 && act.pc < |act.code|
      invariant fresh(act) && fresh(act.stack) && act.locals == locals && left <= fuel
      invariant Fits(c, k, depths, act) && HeapOk(machine.heap)
      invariant Run(c, k, act.View(), machine.View(), left) == Run(c, k, start, w, fuel)
      decreases left
    {
      FitsPc(c, k, depths, act);
      var op := act.code[act.pc];
      if op == 0xAC || op == 0xB0 {
        ReturnActs(c, k, depths, act.View(), machine.View());
        return Returned(Some(act.stack[act.sp - 1]), machine.View());
      } else if op == 0xB1 {
        ReturnActs(c, k, depths, act.View(), machine.View());
        return Returned(None, machine.View());
      } else if op == 0xB8 {
        r := InvokeStatic(c, k, act, machine, depths, left);
        if !r.Returned? {
          return r;
        }
      } else {
        assert !IsCallOrReturn(op) by { NotCallOrReturn(op); }
        var stop := ExecuteInstr(c, k, depths, act, machine);
        if stop.Some? {
          return stop.value;
        }
      }
      left := left - 1;
    }
    if left == 0 {
      return Unfinished;
    }
    EndActs(c, k, depths, act.View(), machine.View());
    return Returned(None, machine.View());
  }

  /** A call: pass the arguments, run the callee, push its result. */
  method InvokeStatic(c: Class, k: nat, act: Activation, machine: Machine, ghost depths: seq<Depths>, left: nat) returns (r: Result)
    requires Verified(c, depths) && k < |c.methods| && Fits(c, k, depths, act) && HeapOk(machine.heap)
    requires left > 0 && act.pc < |act.code| && act.code[act.pc] == 0xB8
    modifies act`sp, act`pc, act.stack, machine
    ensures r.Returned? ==>
      && Fits(c, k, depths, act) && HeapOk(machine.heap) && act.locals[..] == old(act.locals[..])
      && Run(c, k, act.View(), machine.View(), left - 1) == Run(c, k, old(act.View()), old(machine.View()), left)
      && act.pc == old(act.pc) + 3
    ensures r.Returned? ==>
      var callee := Callee(c, Byte(act.code, old(act.pc) + 1) * 0x100 + Byte(act.code, old(act.pc) + 2));
      callee.Some? && var m := c.methods[callee.value];
      && m.params <= |old(act.Operands())|
      && act.Operands() == Drop(old(act.Operands()), m.params) + (if r.value.Some? then [r.value.value] else [])
    ensures !r.Returned? ==> r == Run(c, k, old(act.View()), old(machine.View()), left)
    decreases left - 1, 1
  {
    hide Act, Verified, FrameOk, Start, Decode;
    VerifiedSizes(c, depths);
    ghost var f, w := act.View(), machine.View();
    FitsPc(c, k, depths, act);
    CallActs(c, k, depths, f, w);
    var index := Byte(act.code, act.pc + 1) * 0x100 + Byte(act.code, act.pc + 2);
    var callee := c.callees[index];
    var args := act.PassArguments(c.methods[callee]);
    ActOk(c, k, depths, f, w);
    r := Execute(c, callee, args, machine, depths, left - 1);
    if r.Returned? {
      if r.value.Some? {
        ResumeFits(c, k, depths, Act(c, k, f, w).back, r.value);
        act.PushValue(r.value.value);
      }
      act.pc := act.pc + 2;
      act.pc := act.pc + 1;
      ResumeFits(c, k, depths, Act(c, k, f, w).back, r.value);
    }
  }

  predicate IsCallOrReturn(op: int)
  {
    op == 0xAC || op == 0xB0 || op == 0xB1 || op == 0xB8
  }

  predicate IsKnown(op: int)
  {
    || op == 0x00 || 0x02 <= op <= 0x08 || 0x10 <= op <= 0x12 || op == 0xB2 || IsLocal(op)
    || op == 0x59 || 0x60 <= op <= 0x82 || op == 0xB6 || 0x99 <= op <= 0xA4 || op == 0xA7
    || op == 0x2E || op == 0x4F || op == 0xBC || op == 0xBE
  }

  lemma DecodeKinds(code: seq<int>, pc: int)
    ensures var op := Byte(code, pc);
      && (Decode(code, pc).0.Unknown? <==> !IsKnown(op) && !IsCallOrReturn(op))
      && (Decode(code, pc).0.Call? <==> op == 0xB8)
      && (Decode(code, pc).0.ReturnValue? <==> op == 0xAC || op == 0xB0)
      && (Decode(code, pc).0.ReturnVoid? <==> op == 0xB1)
  {
  }

  /** In a verified method an instruction finds its operands and has room for its results. */
  lemma InstrCanDo(c: Class, k: nat, depths: seq<Depths>, f: Frame, w: World)
    requires Verified(c, depths) && k < |c.methods| && FrameOk(c, k, depths, f) && HeapOk(w.heap)
    requires f.pc < |c.methods[k].code| && !IsCallOrReturn(c.methods[k].code[f.pc])
    ensures var code := c.methods[k].code;
      if IsKnown(code[f.pc]) then
        && CanDo(c, code, f, w, c.methods[k].maxStack)
        && Act(c, k, f, w) == match Does(c, code, f, w) case Next(f', w') => Continue(f', w') case Stop(r) => Halt(r)
      else Act(c, k, f, w) == Halt(Exit)
  {
    hide Decode, IsKnown;
    var m, ds := c.methods[k], depths[k];
    assert MethodOk(c, m, ds);
    StepOk(c, m, ds, f, w);
    assert InstrOk(c, m, ds, f.pc);
    DecodeKinds(m.code, f.pc);
  }

  lemma VerifiedSizes(c: Class, depths: seq<Depths>)
    requires Verified(c, depths)
    ensures |depths| == |c.methods|
  {
  }

  lemma StartFits(c: Class, k: nat, depths: seq<Depths>, f: Frame)
    requires Verified(c, depths) && k < |c.methods| && f.pc == 0 && f.stack == [] && |f.locals| == c.methods[k].maxLocals
    ensures FrameOk(c, k, depths, f)
  {
    StartOk(c, depths, k);
  }

  lemma FitsPc(c: Class, k: nat, depths: seq<Depths>, act: Activation)
    requires k < |c.methods| == |depths| && Fits(c, k, depths, act)
    ensures act.pc >= 0 && act.sp <= c.methods[k].maxStack
  {
  }

  lemma NotCallOrReturn(op: int)
    ensures op != 0xAC && op != 0xB0 && op != 0xB1 && op != 0xB8 ==> !IsCallOrReturn(op)
  {
  }

  lemma ReturnActs(c: Class, k: nat, depths: seq<Depths>, f: Frame, w: World)
    requires Verified(c, depths) && k < |c.methods| && FrameOk(c, k, depths, f) && f.pc < |c.methods[k].code|
    ensures var op := c.methods[k].code[f.pc];
      && (op == 0xAC || op == 0xB0 ==> |f.stack| >= 1 && Act(c, k, f, w) == Halt(Returned(Some(Top(f.stack, 1)), w)))
      && (op == 0xB1 ==> Act(c, k, f, w) == Halt(Returned(None, w)))
  {
    var m, ds := c.methods[k], depths[k];
    assert MethodOk(c, m, ds);
    assert InstrOk(c, m, ds, f.pc);
  }

  lemma EndActs(c: Class, k: nat, depths: seq<Depths>, f: Frame, w: World)
    requires k < |c.methods| == |depths| && FrameOk(c, k, depths, f) && f.pc >= |c.methods[k].code|
    ensures Act(c, k, f, w) == Halt(Returned(None, w))
  {
  }

  lemma CallActs(c: Class, k: nat, depths: seq<Depths>, f: Frame, w: World)
    requires Verified(c, depths) && k < |c.methods| && FrameOk(c, k, depths, f) && f.pc < |c.methods[k].code|
    requires c.methods[k].code[f.pc] == 0xB8
    ensures var code := c.methods[k].code;
      var index := Byte(code, f.pc + 1) * 0x100 + Byte(code, f.pc + 2);
      && index in c.callees && c.callees[index] < |c.methods|
      && var m' := c.methods[c.callees[index]];
         && m'.params <= |f.stack| && m'.params <= m'.maxLocals
         && Act(c, k, f, w) == Invoke(c.callees[index], Start(m', f.stack[|f.stack| - m'.params..]),
                                      Frame(f.pc + 3, Drop(f.stack, m'.params), f.locals))
  {
    var m, ds := c.methods[k], depths[k];
    assert MethodOk(c, m, ds);
    assert InstrOk(c, m, ds, f.pc);
    StartOk(c, depths, Callee(c, Decode(m.code, f.pc).0.index).value);
  }

  lemma ResumeFits(c: Class, k: nat, depths: seq<Depths>, back: Frame, v: Option<int>)
    requires k < |c.methods| == |depths| && FrameOk(c, k, depths, Resume(back, v))
    ensures |Resume(back, v).stack| <= c.methods[k].maxStack
  {
  }
}
