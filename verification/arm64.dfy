/** The AArch64 back end (src/arm64_backend.rs): `assemble` turns an instruction list into
    machine code. The code is modelled as a sequence of abstract operations, one per
    emitted machine instruction, data item or label definition; encoding and execution are
    not modelled. Register roles in the emitted code: x1 holds the tape base, x2 the byte
    offset of the current cell, x3 the cell being worked on, x4 a callback address, x0 the
    callback context and result, x30 the return address. */
module Arm64 {
  import opened Brackets
  import opened Instruction

  datatype Reg = X0 | X1 | X2 | X30

  /** The two host functions whose addresses are laid down ahead of the code. */
  datatype Callback = OutputCallback | InputCallback

  datatype Op =
    | Label(id: nat)                             // `=> label`: defines a label here
    | Address(callback: Callback)                // `.bytes`: an 8-byte function address
    | ReserveFrame(size: nat)                    // `sub sp, sp, size`
    | ReleaseFrame(size: nat)                    // `add sp, sp, size`
    | Spill(reg: Reg, slot: nat)                 // `str reg, [sp, slot]`
    | SpillPair(first: Reg, second: Reg, slot: nat)   // `stp first, second, [sp, slot]`
    | Reload(reg: Reg, slot: nat)                // `ldr reg, [sp, slot]`
    | ReloadPair(first: Reg, second: Reg, slot: nat)  // `ldp first, second, [sp, slot]`
    | ClearOffset                                // `mov x2, 0`
    | LoadCell                                   // `ldr x3, [x1, x2]`
    | StoreCell                                  // `str x3, [x1, x2]`
    | AddCell(imm: nat)                          // `add x3, x3, imm`
    | SubCell(imm: nat)                          // `sub x3, x3, imm`
    | AddOffset(imm: nat)                        // `add x2, x2, #imm`
    | SubOffset(imm: nat)                        // `sub x2, x2, #imm`
    | CompareZero                                // `cmp x3, 0`
    | BranchZero(target: nat)                    // `b.eq => target`
    | BranchNonZero(target: nat)                 // `b.ne => target`
    | LoadCellByte                               // `ldrb w1, [x1, x2]`: the argument of output
    | StoreResultByte                            // `strb w0, [x1, x2]`: the result of input
    | LoadAddress(mark: nat)                     // `ldr x4, => mark`
    | Call                                       // `blr x4`
    | Return                                     // `ret`

  /** The first two dynamic labels: they mark the two callback addresses. */
  const OutputLabel: nat := 0
  const InputLabel: nat := 1

  /** Bytes reserved on the stack by the prologue: the return address and three saved
      registers, eight bytes each. */
  const FrameSize: nat := 32

  const U32: nat := 0x1_0000_0000

  /** Bytes an operation takes in the buffer: labels take none, an address eight, every
      machine instruction four. */
  function OpSize(op: Op): nat
  {
    match op
    case Label(_) => 0
    case Address(_) => 8
    case _ => 4
  }

  function Size(ops: seq<Op>): nat
  {
    if ops == [] then 0 else OpSize(ops[0]) + Size(ops[1..])
  }

  /** The callback addresses, each under its label, laid down before any code. */
  const Header: seq<Op> :=
    [Label(OutputLabel), Address(OutputCallback), Label(InputLabel), Address(InputCallback)]

  /** Reserve the frame, keep the return address in its first slot, start at cell 0. */
  const Prologue: seq<Op> := [ReserveFrame(FrameSize), Spill(X30, 0), ClearOffset]

  /** Take the return address back, release the same frame, return. */
  const Epilogue: seq<Op> := [Reload(X30, 0), ReleaseFrame(FrameSize), Return]

  /** Save the callback context and the tape registers, call the input callback, restore
      them, and store the low byte of the result in the current cell. */
  const InputCall: seq<Op> :=
    [SpillPair(X0, X1, 8), Spill(X2, 24), LoadAddress(InputLabel), Call,
     ReloadPair(X1, X2, 16), StoreResultByte, Reload(X0, 8)]

  /** Save the callback context and the tape registers, pass the low byte of the current
      cell to the output callback, and restore the registers. */
  const OutputCall: seq<Op> :=
    [SpillPair(X0, X1, 8), Spill(X2, 24), LoadCellByte, LoadAddress(OutputLabel), Call,
     ReloadPair(X1, X2, 16), Reload(X0, 8)]

  function Abs(v: int): nat
  {
    if v < 0 then -v else v
  }

  /** A pointer move whose byte distance fits the 32-bit immediate; a larger one makes
      `try_into().unwrap()` panic. */
  predicate MoveFits(i: Instr)
  {
    i.Ptr? ==> Abs(i.delta) * 8 < U32
  }

  predicate MovesFit(s: seq<Instr>)
  {
    forall k | 0 <= k < |s| :: MoveFits(s[k])
  }

  /** A stack slot access stays inside the frame the prologue reserves. */
  predicate InFrame(op: Op)
  {
    match op
    case Spill(_, slot) => slot + 8 <= FrameSize
    case Reload(_, slot) => slot + 8 <= FrameSize
    case SpillPair(_, _, slot) => slot + 16 <= FrameSize
    case ReloadPair(_, _, slot) => slot + 16 <= FrameSize
    case _ => true
  }

  // ---------------------------------------------------------------------------------------
  // What the loop emits

  /** The code for one instruction, given the next fresh label and the label stack. A zero
      move, a zero cell change and `Nop` emit nothing. A cell change loads, adds or
      subtracts the magnitude truncated to 32 bits, and stores; a move adds or subtracts
      eight bytes per cell. A loop start branches to the first fresh label when the cell is
      zero and defines the second; a loop end branches to the second label of the newest
      pair when the cell is nonzero and defines the first. No fragment lays down data or
      leaves the frame. */
  function Fragment(i: Instr, next: nat, labels: seq<(nat, nat)>): (ops: seq<Op>)
    requires i == LoopEnd ==> labels != []
    ensures forall k | 0 <= k < |ops| :: InFrame(ops[k]) && !ops[k].Address?
    ensures ops == [] <==> i == Nop || i == Alu(0) || i == Ptr(0)
  {
    match i
    case Alu(v) =>
      if v == 0 then []
      else
        var value := Abs(v) % U32;
        [LoadCell, if v > 0 then AddCell(value) else SubCell(value), StoreCell]
    case Ptr(v) =>
      if v == 0 then []
      else
        var value := Abs(v) * 8;
        [if v > 0 then AddOffset(value) else SubOffset(value)]
    case Nop => []
    case LoopStart => [LoadCell, CompareZero, BranchZero(next), Label(next + 1)]
    case LoopEnd =>
      var (forward, backward) := labels[|labels| - 1];
      [LoadCell, CompareZero, BranchNonZero(backward), Label(forward)]
    case Input => InputCall
    case Output => OutputCall
  }

  /** Number of loop starts among the first `n` instructions. */
  function Opens(s: seq<Instr>, n: nat): nat
    requires n <= |s|
  {
    if n == 0 then 0 else Opens(s, n - 1) + (if s[n - 1] == LoopStart then 1 else 0)
  }

  /** The next fresh label after the first `q` instructions: two callback labels, then two
      per loop start. It is also the first label of the pair a loop start at `q` takes. */
  function Fwd(s: seq<Instr>, q: nat): nat
    requires q <= |s|
  {
    2 + 2 * Opens(s, q)
  }

  /** The label stack after the first `n` instructions: a loop start pushes its pair, a
      loop end pops one. It holds one pair per unclosed loop. */
  function LabelStack(s: seq<Instr>, n: nat): (r: seq<(nat, nat)>)
    requires n <= |s| && NoStrayClose(s, KindOf, n)
    ensures |r| == Depth(s, KindOf, n)
    decreases n
  {
    if n == 0 then []
    else
      assert Depth(s, KindOf, n) >= 0;
      var l := LabelStack(s, n - 1);
      if s[n - 1] == LoopStart then l + [(Fwd(s, n - 1), Fwd(s, n - 1) + 1)]
      else if s[n - 1] == LoopEnd then l[..|l| - 1]
      else l
  }

  /** The code emitted for the instruction at position `q`. */
  function FragmentAt(s: seq<Instr>, q: nat): seq<Op>
    requires q < |s| && NoStrayClose(s, KindOf, q + 1)
  {
    assert Depth(s, KindOf, q + 1) >= 0;
    Fragment(s[q], Fwd(s, q), LabelStack(s, q))
  }

  /** The code emitted for the first `n` instructions. It lays down no data and every
      stack access stays inside the frame. */
  function Code(s: seq<Instr>, n: nat): (r: seq<Op>)
    requires n <= |s| && NoStrayClose(s, KindOf, n)
    ensures forall k | 0 <= k < |r| :: InFrame(r[k]) && !r[k].Address?
    decreases n
  {
    if n == 0 then []
    else
      var c := Code(s, n - 1);
      var f := FragmentAt(s, n - 1);
      assert forall k | |c| <= k < |c + f| :: (c + f)[k] == f[k - |c|];
      c + f
  }

  // ---------------------------------------------------------------------------------------
  // assemble

  /** `assemble`: lay down the two callback addresses, then the prologue, the code of every
      instruction in order, and the epilogue; return the code and the byte offset where it
      starts, which is just past the data. A loop end with no loop open panics on the
      empty label stack, as does a move too far for a 32-bit immediate. The labels of an
      unclosed loop stay undefined, which only `finalize` would notice. */
  method Assemble(instrs: seq<Instr>) returns (code: seq<Op>, entry: nat)
    requires NoStrayClose(instrs, KindOf, |instrs|) && MovesFit(instrs)
    ensures code == Header + Prologue + Code(instrs, |instrs|) + Epilogue
    ensures entry == Size(Header) == 16
    ensures forall k | 0 <= k < |code| :: code[k].Address? ==> k < |Header|
    ensures forall k | 0 <= k < |code| :: InFrame(code[k])
    ensures Balanced(instrs, KindOf) <==> LabelStack(instrs, |instrs|) == []
  {
    var labels: seq<(nat, nat)> := [];
    var next := 0;
    var outputLabel := next;
    var inputLabel := next + 1;
    next := next + 2;
    code := [Label(outputLabel), Address(OutputCallback), Label(inputLabel), Address(InputCallback)];
    entry := Size(code);
    HeaderSize();
    code := code + [ReserveFrame(FrameSize), Spill(X30, 0), ClearOffset];
    ghost var start := code;
    for i := 0 to |instrs|
      invariant code == start + Code(instrs, i)
      invariant next == Fwd(instrs, i) && labels == LabelStack(instrs, i)
    {
      BodyStep(instrs, i);
      var ops;
      ops, next, labels := Translate(instrs[i], next, labels, outputLabel, inputLabel);
      Associative(start, Code(instrs, i), ops);
      code := code + ops;
    }
    code := code + [Reload(X30, 0), ReleaseFrame(FrameSize), Return];
    Layout(Code(instrs, |instrs|));
  }

  /** The body of the loop in `assemble` for one instruction: the code it appends, and the
      label counter and label stack it leaves. */
  method Translate(instr: Instr, next: nat, labels: seq<(nat, nat)>, outputLabel: nat, inputLabel: nat)
    returns (ops: seq<Op>, next': nat, labels': seq<(nat, nat)>)
    requires outputLabel == OutputLabel && inputLabel == InputLabel
    requires instr == LoopEnd ==> labels != []
    requires MoveFits(instr)
    ensures ops == Fragment(instr, next, labels)
    ensures next' == next + (if instr == LoopStart then 2 else 0)
    ensures labels' == (if instr == LoopStart then labels + [(next, next + 1)]
                        else if instr == LoopEnd then labels[..|labels| - 1]
                        else labels)
  {
    ops, next', labels' := [], next, labels;
    match instr {
      case Alu(v) =>
        if v != 0 {
          var value := Abs(v) % U32;
          if v > 0 {
            ops := [LoadCell, AddCell(value), StoreCell];
          } else {
            ops := [LoadCell, SubCell(value), StoreCell];
          }
        }
      case Ptr(v) =>
        if v != 0 {
          var value := Abs(v) * 8;
          if v > 0 {
            ops := [AddOffset(value)];
          } else {
            ops := [SubOffset(value)];
          }
        }
      case Nop =>
      case LoopStart =>
        var forward := next;
        var backward := next + 1;
        next' := next + 2;
        labels' := labels + [(forward, backward)];
        ops := [LoadCell, CompareZero, BranchZero(forward), Label(backward)];
      case LoopEnd =>
        var (forward, backward) := labels[|labels| - 1];
        labels' := labels[..|labels| - 1];
        ops := [LoadCell, CompareZero, BranchNonZero(backward), Label(forward)];
      case Input =>
        ops := [SpillPair(X0, X1, 8), Spill(X2, 24), LoadAddress(inputLabel), Call,
                ReloadPair(X1, X2, 16), StoreResultByte, Reload(X0, 8)];
      case Output =>
        ops := [SpillPair(X0, X1, 8), Spill(X2, 24), LoadCellByte, LoadAddress(outputLabel),
                Call, ReloadPair(X1, X2, 16), Reload(X0, 8)];
    }
  }

  /** One round of the loop in `assemble`, unfolded. */
  lemma BodyStep(s: seq<Instr>, i: nat)
    requires i < |s| && NoStrayClose(s, KindOf, |s|) && MovesFit(s)
    ensures NoStrayClose(s, KindOf, i + 1) && MoveFits(s[i])
    ensures s[i] == LoopEnd ==> LabelStack(s, i) != []
    ensures Code(s, i + 1) == Code(s, i) + Fragment(s[i], Fwd(s, i), LabelStack(s, i))
    ensures Fwd(s, i + 1) == Fwd(s, i) + (if s[i] == LoopStart then 2 else 0)
    ensures LabelStack(s, i + 1) ==
      (if s[i] == LoopStart then LabelStack(s, i) + [(Fwd(s, i), Fwd(s, i) + 1)]
       else if s[i] == LoopEnd then LabelStack(s, i)[..|LabelStack(s, i)| - 1]
       else LabelStack(s, i))
  {
    assert Depth(s, KindOf, i + 1) >= 0;
  }

  /** Regrouping the code laid down so far; a separate lemma keeps `Assemble`'s proof small. */
  lemma Associative(a: seq<Op>, b: seq<Op>, c: seq<Op>)
    ensures (a + b) + c == a + (b + c)
  {
  }

  lemma HeaderSize()
    ensures Size(Header) == 16
  {
    var h := Header;
    assert h[3..][1..] == [];
    assert Size(h[3..]) == 8;
    assert h[2..][1..] == h[3..];
    assert Size(h[2..]) == 8;
    assert h[1..][1..] == h[2..];
    assert Size(h[1..]) == 16;
  }

  /** Wrapping a body in the header, prologue and epilogue puts all data before the code
      and keeps every stack access in the frame. */
  lemma Layout(body: seq<Op>)
    requires forall k | 0 <= k < |body| :: InFrame(body[k]) && !body[k].Address?
    ensures var code := Header + Prologue + body + Epilogue;
      (forall k | 0 <= k < |code| :: code[k].Address? ==> k < |Header|) &&
      (forall k | 0 <= k < |code| :: InFrame(code[k]))
  {
    var code := Header + Prologue + body + Epilogue;
    forall k | 0 <= k < |code| ensures (code[k].Address? ==> k < |Header|) && InFrame(code[k]) {
      if k < 7 {
        assert code[k] == (Header + Prologue)[k];
      } else if k < 7 + |body| {
        assert code[k] == body[k - 7];
      } else {
        assert code[k] == Epilogue[k - 7 - |body|];
      }
    }
  }

  // ---------------------------------------------------------------------------------------
  // Labels

  /** The loop starts still open after the first `n` instructions, oldest first. */
  ghost function Pend(s: seq<Instr>, n: nat): (r: seq<nat>)
    requires n <= |s|
    ensures forall t | 0 <= t < |r| :: r[t] < n
  {
    if n == 0 then []
    else
      var p := Pend(s, n - 1);
      if s[n - 1] == LoopStart then p + [n - 1]
      else if s[n - 1] == LoopEnd && p != [] then p[..|p| - 1]
      else p
  }

  /** The label pairs of a stack of open loop starts. */
  ghost function Pairs(s: seq<Instr>, opens: seq<nat>): seq<(nat, nat)>
    requires forall t | 0 <= t < |opens| :: opens[t] < |s|
  {
    seq(|opens|, t requires 0 <= t < |opens| => (Fwd(s, opens[t]), Fwd(s, opens[t]) + 1))
  }

  /** `Pend` is the stack of pending opens of the bracket theory. */
  lemma {:induction false} PendIsPending(s: seq<Instr>, n: nat)
    requires n <= |s| && NoStrayClose(s, KindOf, n)
    ensures Pending(s, KindOf, n, Pend(s, n))
    decreases n
  {
    if n > 0 {
      var p := Pend(s, n - 1);
      assert Depth(s, KindOf, n) >= 0;
      PendIsPending(s, n - 1);
      if s[n - 1] == LoopStart {
        assert Pend(s, n) == p + [n - 1];
        PendingStep(s, KindOf, n - 1, p);
      } else if s[n - 1] == LoopEnd {
        PendingStep(s, KindOf, n - 1, p);
        assert p != [];
        assert Pend(s, n) == p[..|p| - 1];
      } else {
        assert KindOf(s[n - 1]) == Plain && Pend(s, n) == p;
        PendingStep(s, KindOf, n - 1, p);
      }
    }
  }

  /** The label stack holds, oldest first, the label pair of every loop start still open. */
  lemma {:induction false} StackHoldsOpenLoops(s: seq<Instr>, n: nat)
    requires n <= |s| && NoStrayClose(s, KindOf, n)
    ensures LabelStack(s, n) == Pairs(s, Pend(s, n))
    decreases n
  {
    if n > 0 {
      assert Depth(s, KindOf, n) >= 0;
      StackHoldsOpenLoops(s, n - 1);
      var p, l := Pend(s, n - 1), LabelStack(s, n - 1);
      if s[n - 1] == LoopStart {
        assert Pend(s, n) == p + [n - 1];
        assert LabelStack(s, n) == l + [(Fwd(s, n - 1), Fwd(s, n - 1) + 1)];
        PairsPush(s, p, n - 1);
      } else if s[n - 1] == LoopEnd {
        assert Depth(s, KindOf, n) == Depth(s, KindOf, n - 1) - 1;
        assert |l| == |Pairs(s, p)| == |p|;
        assert Pend(s, n) == p[..|p| - 1];
        assert LabelStack(s, n) == l[..|l| - 1];
        PairsPop(s, p);
      } else {
        assert Pend(s, n) == p && LabelStack(s, n) == l;
      }
    }
  }

  lemma PairsPush(s: seq<Instr>, p: seq<nat>, q: nat)
    requires forall t | 0 <= t < |p| :: p[t] < |s|
    requires q < |s|
    ensures Pairs(s, p + [q]) == Pairs(s, p) + [(Fwd(s, q), Fwd(s, q) + 1)]
  {
    var l, r := Pairs(s, p + [q]), Pairs(s, p) + [(Fwd(s, q), Fwd(s, q) + 1)];
    assert |l| == |r|;
    forall t | 0 <= t < |l| ensures l[t] == r[t] {
      if t < |p| {
        assert (p + [q])[t] == p[t];
      }
    }
  }

  lemma PairsPop(s: seq<Instr>, p: seq<nat>)
    requires forall t | 0 <= t < |p| :: p[t] < |s|
    requires p != []
    ensures Pairs(s, p[..|p| - 1]) == Pairs(s, p)[..|p| - 1]
  {
  }

  /** A loop start and its partner loop end use the same label pair: the start branches
      forward to the label its partner defines, and the end branches back to the label
      the start defines. */
  lemma LoopLabels(s: seq<Instr>, i: nat, j: nat)
    requires NoStrayClose(s, KindOf, |s|) && IsMatch(s, KindOf, i, j)
    ensures FragmentAt(s, i) == [LoadCell, CompareZero, BranchZero(Fwd(s, i)), Label(Fwd(s, i) + 1)]
    ensures FragmentAt(s, j) == [LoadCell, CompareZero, BranchNonZero(Fwd(s, i) + 1), Label(Fwd(s, i))]
  {
    assert Depth(s, KindOf, i + 1) >= 0;
    LoopEndLabels(s, i, j);
  }

  /** The loop end's half of `LoopLabels`: the top of the stack holds its partner's pair. */
  lemma LoopEndLabels(s: seq<Instr>, i: nat, j: nat)
    requires NoStrayClose(s, KindOf, |s|) && IsMatch(s, KindOf, i, j)
    ensures Depth(s, KindOf, j + 1) >= 0
    ensures LabelStack(s, j) != [] && LabelStack(s, j)[|LabelStack(s, j)| - 1] == (Fwd(s, i), Fwd(s, i) + 1)
  {
    assert Depth(s, KindOf, j + 1) >= 0;
    PendIsPending(s, j);
    StackHoldsOpenLoops(s, j);
    var p := Pend(s, j);
    PendingStep(s, KindOf, j, p);
    MatchUnique(s, KindOf, p[|p| - 1], j, i, j);
  }

  /** Label pairs are fresh: a later loop start gets labels above both of an earlier one's,
      and none of them is a callback label. */
  lemma {:induction false} FreshLabels(s: seq<Instr>, i: nat, i': nat)
    requires i < i' <= |s| && s[i] == LoopStart
    ensures InputLabel < Fwd(s, i) && Fwd(s, i) + 1 < Fwd(s, i')
    decreases i'
  {
    if i' > i + 1 {
      FreshLabels(s, i, i' - 1);
    }
  }

  /** The label a bracket's code defines: its fourth operation. */
  function DefinedLabel(s: seq<Instr>, q: nat): nat
    requires q < |s| && NoStrayClose(s, KindOf, |s|) && KindOf(s[q]) != Plain
  {
    assert Depth(s, KindOf, q + 1) >= 0;
    var f := FragmentAt(s, q);
    assert f[3].Label?;
    f[3].id
  }

  /** The label a loop end defines is the forward label of its partner. */
  lemma CloseDefines(s: seq<Instr>, j: nat) returns (i: nat)
    requires j < |s| && NoStrayClose(s, KindOf, |s|) && s[j] == LoopEnd
    ensures IsMatch(s, KindOf, i, j) && DefinedLabel(s, j) == Fwd(s, i)
  {
    assert Depth(s, KindOf, j + 1) >= 0;
    i := OpenOf(s, KindOf, j);
    LoopLabels(s, i, j);
  }

  /** In a program with no stray close, no two brackets define the same label; with the
      labels each loop start defines and branches to (`LoopLabels`), every label of a
      balanced program is defined exactly once. */
  lemma {:induction false} LabelsDefinedOnce(s: seq<Instr>, q: nat, q': nat)
    requires NoStrayClose(s, KindOf, |s|) && q < q' < |s|
    requires KindOf(s[q]) != Plain && KindOf(s[q']) != Plain
    ensures DefinedLabel(s, q) != DefinedLabel(s, q')
  {
    assert Depth(s, KindOf, q + 1) >= 0;
    assert Depth(s, KindOf, q' + 1) >= 0;
    if s[q] == LoopStart && s[q'] == LoopStart {
      FreshLabels(s, q, q');
    } else if s[q] == LoopStart {
      var i' := CloseDefines(s, q');
      if i' < q {
        FreshLabels(s, i', q);
      } else if q < i' {
        FreshLabels(s, q, i');
      }
    } else if s[q'] == LoopStart {
      var i := CloseDefines(s, q);
      FreshLabels(s, i, q');
    } else {
      var i := CloseDefines(s, q);
      var i' := CloseDefines(s, q');
      MatchUnique(s, KindOf, i, q, i', q');
      if i < i' {
        FreshLabels(s, i, i');
      } else {
        FreshLabels(s, i', i);
      }
    }
  }

  // ---------------------------------------------------------------------------------------
  // What the code does to the offset, the cell and the callbacks

  /** How an operation moves the cell offset x2. */
  function OffsetStep(op: Op): int
  {
    match op
    case AddOffset(n) => n
    case SubOffset(n) => -(n as int)
    case _ => 0
  }

  /** How an operation changes the loaded cell value x3. */
  function CellStep(op: Op): int
  {
    match op
    case AddCell(n) => n
    case SubCell(n) => -(n as int)
    case _ => 0
  }

  /** The label whose address an operation loads for a call, if any. */
  function CallStep(op: Op): seq<nat>
  {
    if op.LoadAddress? then [op.mark] else []
  }

  /** The net change of the cell offset along straight-line code. */
  function OffsetDelta(ops: seq<Op>): int
  {
    if ops == [] then 0 else OffsetStep(ops[0]) + OffsetDelta(ops[1..])
  }

  /** The net change of the cell value along straight-line code. */
  function CellDelta(ops: seq<Op>): int
  {
    if ops == [] then 0 else CellStep(ops[0]) + CellDelta(ops[1..])
  }

  /** The labels whose addresses the code loads for its calls, in order. */
  function Calls(ops: seq<Op>): seq<nat>
  {
    if ops == [] then [] else CallStep(ops[0]) + Calls(ops[1..])
  }

  /** The callback label of each stream operation. */
  function IoLabels(t: seq<Instr>): seq<nat>
  {
    if t == [] then [] else [if t[0] == Input then InputLabel else OutputLabel] + IoLabels(t[1..])
  }

  lemma {:induction false} EffectsAppend(a: seq<Op>, b: seq<Op>)
    ensures OffsetDelta(a + b) == OffsetDelta(a) + OffsetDelta(b)
    ensures CellDelta(a + b) == CellDelta(a) + CellDelta(b)
    ensures Calls(a + b) == Calls(a) + Calls(b)
  {
    if a == [] {
      assert a + b == b;
    } else {
      assert (a + b)[1..] == a[1..] + b;
      EffectsAppend(a[1..], b);
    }
  }

  lemma {:induction false} IoLabelsAppend(t: seq<Instr>, u: seq<Instr>)
    ensures IoLabels(t + u) == IoLabels(t) + IoLabels(u)
  {
    if t == [] {
      assert t + u == u;
    } else {
      assert (t + u)[1..] == t[1..] + u;
      IoLabelsAppend(t[1..], u);
    }
  }

  /** A cell change whose magnitude fits 32 bits survives the `as u32` truncation. */
  predicate ChangesFit(s: seq<Instr>)
  {
    forall k | 0 <= k < |s| :: s[k].Alu? ==> Abs(s[k].delta) < U32
  }

  /** Effects of code with no offset, cell or call operation beyond its first `n` ops. */
  lemma Tail(ops: seq<Op>, n: nat)
    requires n <= |ops|
    requires forall k | n <= k < |ops| :: OffsetStep(ops[k]) == 0 && CellStep(ops[k]) == 0 && CallStep(ops[k]) == []
    ensures OffsetDelta(ops[n..]) == 0 && CellDelta(ops[n..]) == 0 && Calls(ops[n..]) == []
    decreases |ops| - n
  {
    if n < |ops| {
      assert ops[n..][1..] == ops[n + 1..];
      Tail(ops, n + 1);
    }
  }

  /** Effects of code whose only offset, cell or call operation at or after `m` is at `j`. */
  lemma {:induction false} Single(ops: seq<Op>, m: nat, j: nat)
    requires m <= j < |ops|
    requires forall k | m <= k < |ops| && k != j ::
      OffsetStep(ops[k]) == 0 && CellStep(ops[k]) == 0 && CallStep(ops[k]) == []
    ensures OffsetDelta(ops[m..]) == OffsetStep(ops[j])
    ensures CellDelta(ops[m..]) == CellStep(ops[j])
    ensures Calls(ops[m..]) == CallStep(ops[j])
    decreases j - m
  {
    var t := ops[m..];
    assert t[0] == ops[m] && t[1..] == ops[m + 1..];
    if m == j {
      Tail(ops, j + 1);
      assert CallStep(ops[j]) + [] == CallStep(ops[j]);
    } else {
      assert OffsetStep(ops[m]) == 0 && CellStep(ops[m]) == 0 && CallStep(ops[m]) == [];
      Single(ops, m + 1, j);
    }
  }

  /** The code of a cell change adds or subtracts the truncated magnitude. */
  lemma AluEffects(v: int, next: nat, labels: seq<(nat, nat)>)
    ensures var f := Fragment(Alu(v), next, labels);
      OffsetDelta(f) == 0 && Calls(f) == [] && (Abs(v) < U32 ==> CellDelta(f) == v)
  {
    var f := Fragment(Alu(v), next, labels);
    if v != 0 {
      assert f[0..] == f;
      Single(f, 0, 1);
    }
  }

  /** The code of a move shifts the offset by eight bytes per cell. */
  lemma PtrEffects(v: int, next: nat, labels: seq<(nat, nat)>)
    ensures var f := Fragment(Ptr(v), next, labels);
      OffsetDelta(f) == 8 * v && Calls(f) == [] && CellDelta(f) == 0
  {
    var f := Fragment(Ptr(v), next, labels);
    if v != 0 {
      assert f[0..] == f;
      Single(f, 0, 0);
    }
  }

  /** The code of a loop bracket changes neither the offset nor the cell and calls nothing. */
  lemma LoopEffects(i: Instr, next: nat, labels: seq<(nat, nat)>)
    requires i == LoopStart || (i == LoopEnd && labels != [])
    ensures var f := Fragment(i, next, labels);
      OffsetDelta(f) == 0 && Calls(f) == [] && CellDelta(f) == 0
  {
    var f := Fragment(i, next, labels);
    assert f[0..] == f;
    Tail(f, 0);
  }

  /** The code of a stream operation calls its callback and nothing else. */
  lemma IoEffects(i: Instr, next: nat, labels: seq<(nat, nat)>)
    requires i == Input || i == Output
    ensures var f := Fragment(i, next, labels);
      OffsetDelta(f) == 0 && CellDelta(f) == 0 &&
      Calls(f) == [if i == Input then InputLabel else OutputLabel]
  {
    var f := Fragment(i, next, labels);
    assert f[0..] == f;
    if i == Input {
      assert f == InputCall;
      Single(f, 0, 2);
    } else {
      assert f == OutputCall;
      Single(f, 0, 3);
    }
  }

  /** One instruction's code moves the offset by eight bytes per cell moved, changes the
      cell by the instruction's change (when it fits 32 bits), and calls the callback of its
      stream operation, if any. */
  lemma FragmentEffects(i: Instr, next: nat, labels: seq<(nat, nat)>)
    requires i == LoopEnd ==> labels != []
    ensures var f := Fragment(i, next, labels);
      OffsetDelta(f) == 8 * PtrOf(i) &&
      Calls(f) == IoLabels(IoOf(i)) &&
      ((i.Alu? ==> Abs(i.delta) < U32) ==> CellDelta(f) == AluOf(i))
  {
    match i
    case Alu(v) => AluEffects(v, next, labels);
    case Ptr(v) => PtrEffects(v, next, labels);
    case LoopStart => LoopEffects(i, next, labels);
    case LoopEnd => LoopEffects(i, next, labels);
    case Input =>
      IoEffects(i, next, labels);
      assert IoLabels([Input]) == [InputLabel];
    case Output =>
      IoEffects(i, next, labels);
      assert IoLabels([Output]) == [OutputLabel];
    case Nop =>
  }

  lemma OffsetStepAppend(a: seq<Instr>, x: Instr, code: seq<Op>, f: seq<Op>)
    requires OffsetDelta(code) == 8 * PtrTotal(a) && OffsetDelta(f) == 8 * PtrOf(x)
    ensures OffsetDelta(code + f) == 8 * PtrTotal(a + [x])
  {
    EffectsAppend(code, f);
    TotalsAppend(a, [x]);
    assert PtrTotal([x]) == PtrOf(x) + PtrTotal([]);
  }

  lemma CellStepAppend(a: seq<Instr>, x: Instr, code: seq<Op>, f: seq<Op>)
    requires CellDelta(code) == AluTotal(a) && CellDelta(f) == AluOf(x)
    ensures CellDelta(code + f) == AluTotal(a + [x])
  {
    EffectsAppend(code, f);
    TotalsAppend(a, [x]);
    assert AluTotal([x]) == AluOf(x) + AluTotal([]);
  }

  lemma CallsStepAppend(a: seq<Instr>, x: Instr, code: seq<Op>, f: seq<Op>)
    requires Calls(code) == IoLabels(IoTrace(a)) && Calls(f) == IoLabels(IoOf(x))
    ensures Calls(code + f) == IoLabels(IoTrace(a + [x]))
  {
    EffectsAppend(code, f);
    TotalsAppend(a, [x]);
    assert IoTrace([x]) == IoOf(x) + IoTrace([]);
    assert IoOf(x) + [] == IoOf(x);
    IoLabelsAppend(IoTrace(a), IoOf(x));
  }

  /** Along the emitted code, the offset register moves by eight bytes per cell of the
      program's pointer movement; the calls load the callback addresses in the order of
      the program's stream operations; and, when every cell change fits 32 bits, the cell
      changes add up to the program's. */
  lemma {:induction false} CodeEffects(s: seq<Instr>, n: nat)
    requires n <= |s| && NoStrayClose(s, KindOf, n)
    ensures OffsetDelta(Code(s, n)) == 8 * PtrTotal(s[..n])
    ensures Calls(Code(s, n)) == IoLabels(IoTrace(s[..n]))
    ensures ChangesFit(s) ==> CellDelta(Code(s, n)) == AluTotal(s[..n])
    decreases n
  {
    if n == 0 {
      assert s[..0] == [];
    } else {
      CodeEffects(s, n - 1);
      var x, a, c, f := CodeStep(s, n);
      FragmentEffects(x, Fwd(s, n - 1), LabelStack(s, n - 1));
      OffsetStepAppend(a, x, c, f);
      CallsStepAppend(a, x, c, f);
      if ChangesFit(s) {
        assert x.Alu? ==> Abs(x.delta) < U32;
        CellStepAppend(a, x, c, f);
      }
    }
  }

  /** The last of the first `n` instructions, the ones before it, their code and its
      fragment. */
  lemma CodeStep(s: seq<Instr>, n: nat) returns (x: Instr, a: seq<Instr>, c: seq<Op>, f: seq<Op>)
    requires 0 < n <= |s| && NoStrayClose(s, KindOf, n)
    ensures x == s[n - 1] && a == s[..n - 1] && s[..n] == a + [x]
    ensures NoStrayClose(s, KindOf, n - 1) && (x == LoopEnd ==> LabelStack(s, n - 1) != [])
    ensures c == Code(s, n - 1) && f == Fragment(x, Fwd(s, n - 1), LabelStack(s, n - 1))
    ensures Code(s, n) == c + f
  {
    assert Depth(s, KindOf, n) >= 0;
    x, a := s[n - 1], s[..n - 1];
    c, f := Code(s, n - 1), FragmentAt(s, n - 1);
  }

  // ---------------------------------------------------------------------------------------
  // Saving registers around calls

  /** The registers an operation writes to frame slots, by slot. */
  function SavedAt(op: Op): map<nat, Reg>
  {
    match op
    case Spill(r, k) => map[k := r]
    case SpillPair(a, b, k) => map[k := a, k + 8 := b]
    case _ => map[]
  }

  /** The registers an operation reads back from frame slots, by slot. */
  function RestoredAt(op: Op): map<nat, Reg>
  {
    match op
    case Reload(r, k) => map[k := r]
    case ReloadPair(a, b, k) => map[k := a, k + 8 := b]
    case _ => map[]
  }

  function Saved(ops: seq<Op>): map<nat, Reg>
  {
    if ops == [] then map[] else SavedAt(ops[0]) + Saved(ops[1..])
  }

  function Restored(ops: seq<Op>): map<nat, Reg>
  {
    if ops == [] then map[] else RestoredAt(ops[0]) + Restored(ops[1..])
  }

  /** Registers saved and restored by three straight-line operations. */
  lemma SavedThree(a: Op, b: Op, c: Op)
    ensures Saved([a, b, c]) == SavedAt(a) + (SavedAt(b) + SavedAt(c))
    ensures Restored([a, b, c]) == RestoredAt(a) + (RestoredAt(b) + RestoredAt(c))
  {
    assert [a, b, c][1..] == [b, c];
    assert [b, c][1..] == [c];
    assert [c][1..] == [];
    assert Saved([c]) == SavedAt(c);
    assert Saved([b, c]) == SavedAt(b) + SavedAt(c);
    assert Restored([c]) == RestoredAt(c);
    assert Restored([b, c]) == RestoredAt(b) + RestoredAt(c);
  }

  /** x0, x1 and x2 by the frame slot that holds them across a call. */
  const CallSlots: map<nat, Reg> := map[8 := X0, 16 := X1, 24 := X2]

  /** Spilling x0, x1 and x2 fills the call slots and reads nothing back. */
  lemma SpillsFillCallSlots(rest: seq<Op>)
    requires Saved(rest) == Restored(rest) == map[]
    ensures Saved([SpillPair(X0, X1, 8), Spill(X2, 24)] + rest) == CallSlots
    ensures Restored([SpillPair(X0, X1, 8), Spill(X2, 24)] + rest) == map[]
  {
    var ops := [SpillPair(X0, X1, 8), Spill(X2, 24)] + rest;
    assert ops[1..] == [Spill(X2, 24)] + rest;
    assert ops[1..][1..] == rest;
    assert map[8 := X0, 16 := X1] + (map[24 := X2] + map[]) == CallSlots;
  }

  /** Reloading x1, x2 and x0 empties the call slots and saves nothing. */
  lemma ReloadsEmptyCallSlots(middle: Op)
    requires SavedAt(middle) == RestoredAt(middle) == map[]
    ensures Restored([ReloadPair(X1, X2, 16), middle, Reload(X0, 8)]) == CallSlots
    ensures Saved([ReloadPair(X1, X2, 16), middle, Reload(X0, 8)]) == map[]
  {
    SavedThree(ReloadPair(X1, X2, 16), middle, Reload(X0, 8));
    assert map[16 := X1, 24 := X2] + (map[] + map[8 := X0]) == CallSlots;
  }

  /** The same, with nothing between the two reloads. */
  lemma ReloadsEmptyCallSlotsDirect()
    ensures Restored([ReloadPair(X1, X2, 16), Reload(X0, 8)]) == CallSlots
    ensures Saved([ReloadPair(X1, X2, 16), Reload(X0, 8)]) == map[]
  {
    var after := [ReloadPair(X1, X2, 16), Reload(X0, 8)];
    assert after[1..] == [Reload(X0, 8)] && after[1..][1..] == [];
    assert Restored(after[1..]) == map[8 := X0] + map[] == map[8 := X0];
    assert map[16 := X1, 24 := X2] + map[8 := X0] == CallSlots;
  }

  lemma InputCallKeepsRegisters()
    ensures InputCall[3] == Call && Call !in InputCall[..3] && Call !in InputCall[4..]
    ensures Saved(InputCall[..3]) == Restored(InputCall[4..]) == CallSlots
    ensures Restored(InputCall[..3]) == Saved(InputCall[4..]) == map[]
  {
    var rest := [LoadAddress(InputLabel)];
    assert rest[1..] == [];
    assert Saved(rest) == map[] + map[] == map[];
    assert Restored(rest) == map[] + map[] == map[];
    assert InputCall[..3] == [SpillPair(X0, X1, 8), Spill(X2, 24)] + rest;
    assert InputCall[4..] == [ReloadPair(X1, X2, 16), StoreResultByte, Reload(X0, 8)];
    SpillsFillCallSlots(rest);
    ReloadsEmptyCallSlots(StoreResultByte);
  }

  lemma OutputCallKeepsRegisters()
    ensures OutputCall[4] == Call && Call !in OutputCall[..4] && Call !in OutputCall[5..]
    ensures Saved(OutputCall[..4]) == Restored(OutputCall[5..]) == CallSlots
    ensures Restored(OutputCall[..4]) == Saved(OutputCall[5..]) == map[]
  {
    var rest := [LoadCellByte, LoadAddress(OutputLabel)];
    assert rest[1..][1..] == [];
    assert Saved(rest[1..]) == map[] + map[] == map[];
    assert Restored(rest[1..]) == map[] + map[] == map[];
    assert OutputCall[..4] == [SpillPair(X0, X1, 8), Spill(X2, 24)] + rest;
    SpillsFillCallSlots(rest);
    assert OutputCall[5..] == [ReloadPair(X1, X2, 16), Reload(X0, 8)];
    ReloadsEmptyCallSlotsDirect();
  }

  /** The code of a stream operation makes exactly one call. Before it, x0, x1 and x2 go to
      frame slots 8, 16 and 24 and nothing is read back; after it, each is read back from
      the slot it went to and nothing more is saved. */
  lemma CallKeepsRegisters(i: Instr, next: nat, labels: seq<(nat, nat)>) returns (c: nat)
    requires i == Input || i == Output
    ensures var f := Fragment(i, next, labels);
      c < |f| && f[c] == Call && Call !in f[..c] && Call !in f[c + 1..] &&
      Saved(f[..c]) == Restored(f[c + 1..]) == CallSlots &&
      Restored(f[..c]) == Saved(f[c + 1..]) == map[]
  {
    if i == Input {
      c := 3;
      InputCallKeepsRegisters();
    } else {
      c := 4;
      OutputCallKeepsRegisters();
    }
  }

  /** The prologue keeps the return address in slot 0 of the frame it reserves; the
      epilogue reads it back from there and releases the same frame. */
  lemma FrameKeepsReturnAddress()
    ensures Prologue[0] == ReserveFrame(FrameSize) && Epilogue[1] == ReleaseFrame(FrameSize)
    ensures Saved(Prologue) == Restored(Epilogue) == map[0 := X30]
  {
    assert Prologue[1..] == [Spill(X30, 0), ClearOffset];
    assert Prologue[1..][1..] == [ClearOffset] && Prologue[1..][1..][1..] == [];
    assert Saved(Prologue[1..][1..]) == map[];
    assert Saved(Prologue[1..]) == map[0 := X30] + map[] == map[0 := X30];
    assert Saved(Prologue) == map[] + map[0 := X30];
    assert Epilogue[1..] == [ReleaseFrame(FrameSize), Return];
    assert Epilogue[1..][1..] == [Return] && Epilogue[1..][1..][1..] == [];
    assert Restored(Epilogue[1..][1..]) == map[];
    assert Restored(Epilogue[1..]) == map[];
    assert Restored(Epilogue) == map[0 := X30] + map[];
  }
}
