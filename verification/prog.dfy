/** The live interpreter (src/prog.rs): a one-pass parser that builds the bracket map, an
    in-place peephole optimizer, and a single-step state machine over the instruction
    pointer, the data pointer and a tape of 64-bit cells.

    The input stream is a sequence of bytes that reads consume; a read from an exhausted
    input fails. The output stream is a byte sequence that writes extend, with room for a
    fixed number of further bytes; a write once that room is used up fails. Both failures
    are the `IO` error. */
module Prog {
  import opened Errors
  import opened Brackets
  import opened Instruction

  /** `usize` values: cells and the data pointer. */
  const WORD: int := 0x1_0000_0000_0000_0000
  type Word = x: int | 0 <= x < WORD
  type Byte = x: int | 0 <= x < 256

  /** `usize::wrapping_add_signed`: the sum reduced modulo 2^64. */
  function WrappingAdd(a: Word, v: int): Word
  {
    (a + v) % WORD
  }

  /** Decrementing a zero cell wraps to `usize::MAX` instead of failing. */
  lemma DecrementWraps()
    ensures WrappingAdd(0, -1) == WORD - 1
    ensures WrappingAdd(WORD - 1, 1) == 0
  {
  }

  // ---------------------------------------------------------------------------------------
  // The optimizer's folding, as a function of the instruction sequence

  /** What the folding loop of `optimize` computes: the first instruction is merged with
      its neighbour for as long as the two combine; once they do not, it is kept and the
      folding goes on from its neighbour. The folded sequence is never longer, and it keeps
      the total pointer movement, the total cell change and the order of the stream
      operations. */
  function Peephole(s: seq<Instr>): (r: seq<Instr>)
    ensures |r| <= |s| && (s != [] ==> r != [])
    decreases |s|
  {
    if |s| <= 1 then s
    else
      match Combine(s[0], s[1])
      case Some(c) => Peephole([c] + s[2..])
      case None => [s[0]] + Peephole(s[1..])
  }

  /** Folding keeps the pointer movement, the cell change and the stream operations of the
      program, summed without regard to loops. */
  lemma {:induction false} PeepholeKeepsTotals(s: seq<Instr>)
    ensures PtrTotal(Peephole(s)) == PtrTotal(s)
    ensures AluTotal(Peephole(s)) == AluTotal(s)
    ensures IoTrace(Peephole(s)) == IoTrace(s)
    decreases |s|
  {
    if |s| > 1 {
      match Combine(s[0], s[1])
      case Some(c) =>
        PeepholeKeepsTotals([c] + s[2..]);
        MergeKeepsTotals(s, c);
      case None =>
        PeepholeKeepsTotals(s[1..]);
        assert ([s[0]] + Peephole(s[1..]))[1..] == Peephole(s[1..]);
    }
  }

  /** Replacing the first two instructions by their merge keeps the three summaries. */
  lemma MergeKeepsTotals(s: seq<Instr>, c: Instr)
    requires |s| > 1 && Combine(s[0], s[1]) == Some(c)
    ensures PtrTotal([c] + s[2..]) == PtrTotal(s)
    ensures AluTotal([c] + s[2..]) == AluTotal(s)
    ensures IoTrace([c] + s[2..]) == IoTrace(s)
  {
    var t := [c] + s[2..];
    assert t[1..] == s[2..] == s[1..][1..];
  }

  /** No prefix of `s` takes the depth, counted from `d`, below zero. */
  ghost predicate FloorAbove(s: seq<Instr>, d: int)
  {
    forall k: nat | k <= |s| :: d + Depth(s, KindOf, k) >= 0
  }

  /** Folding only drops prefix depths (an empty loop, or the point between two merged
      instructions), so no prefix of the folded sequence goes lower than one of the
      original, and the final depth is the same. */
  lemma {:induction false} PeepholeKeepsDepths(s: seq<Instr>, d: int)
    requires FloorAbove(s, d)
    ensures FloorAbove(Peephole(s), d)
    ensures Depth(Peephole(s), KindOf, |Peephole(s)|) == Depth(s, KindOf, |s|)
    decreases |s|
  {
    if |s| > 1 {
      assert d + Depth(s, KindOf, 0) >= 0;
      assert s == [s[0]] + s[1..];
      assert s[1..] == [s[1]] + s[2..];
      match Combine(s[0], s[1])
      case Some(c) =>
        var t := [c] + s[2..];
        forall k: nat | k <= |t|
          ensures d + Depth(t, KindOf, k) >= 0
          ensures k > 0 ==> Depth(t, KindOf, k) == Depth(s, KindOf, k + 1)
        {
          if k > 0 {
            DepthCons(c, s[2..], KindOf, k - 1);
            DepthCons(s[0], s[1..], KindOf, k);
            DepthCons(s[1], s[2..], KindOf, k - 1);
            assert Depth(t, KindOf, k) == Depth(s, KindOf, k + 1);
            assert d + Depth(s, KindOf, k + 1) >= 0;
          }
        }
        PeepholeKeepsDepths(t, d);
      case None =>
        var d' := d + Weight(KindOf(s[0]));
        forall k: nat | k <= |s[1..]| ensures d' + Depth(s[1..], KindOf, k) == d + Depth(s, KindOf, k + 1) {
          DepthCons(s[0], s[1..], KindOf, k);
        }
        PeepholeKeepsDepths(s[1..], d');
        var rest := Peephole(s[1..]);
        var r := [s[0]] + rest;
        assert Peephole(s) == r;
        forall k: nat | k <= |r| ensures d + Depth(r, KindOf, k) >= 0 {
          if k > 0 {
            DepthCons(s[0], rest, KindOf, k - 1);
            assert d' + Depth(rest, KindOf, k - 1) >= 0;
          }
        }
        DepthCons(s[0], rest, KindOf, |rest|);
    }
  }

  /** Folding a balanced program leaves it balanced. */
  lemma PeepholeBalanced(s: seq<Instr>)
    requires Balanced(s, KindOf)
    ensures Balanced(Peephole(s), KindOf)
  {
    PeepholeKeepsDepths(s, 0);
  }

  /** Folding is not idempotent: in `+[]+` the empty loop folds to `Nop`, the `Nop` gives
      way to the second `+`, and the two `+` are only merged by a second pass. */
  lemma PeepholeNotIdempotent()
    ensures DecodeAll("+[]+") == [Alu(1), LoopStart, LoopEnd, Alu(1)]
    ensures Peephole([Alu(1), LoopStart, LoopEnd, Alu(1)]) == [Alu(1), Alu(1)]
    ensures Peephole([Alu(1), Alu(1)]) == [Alu(2)]
  {
    DecodeEmptyLoop();
    EmptyLoopFolds();
    PeepholeCons(Alu(1), [Alu(1)]);
  }

  /** One pass over `+[]+` drops the empty loop but leaves the two `+` apart. */
  lemma EmptyLoopFolds()
    ensures Peephole([Alu(1), LoopStart, LoopEnd, Alu(1)]) == [Alu(1), Alu(1)]
  {
    PeepholeCons(Alu(1), [LoopStart, LoopEnd, Alu(1)]);
    PeepholeCons(LoopStart, [LoopEnd, Alu(1)]);
    PeepholeCons(Nop, [Alu(1)]);
  }

  /** `+[]+` decodes to four instructions. */
  lemma DecodeEmptyLoop()
    ensures DecodeAll("+[]+") == [Alu(1), LoopStart, LoopEnd, Alu(1)]
  {
    var s := DecodeAll("+[]+");
    assert s[0] == Decode('+') && s[1] == Decode('[') && s[2] == Decode(']') && s[3] == Decode('+');
  }

  /** Two moves that cancel merge into `Ptr(0)`, not `Nop`, so a following `+` stays apart:
      `><+` folds to `[Ptr(0), Alu(1)]`. */
  lemma CancelledMoveStays()
    ensures Peephole([Ptr(1), Ptr(-1), Alu(1)]) == [Ptr(0), Alu(1)]
  {
    PeepholeCons(Ptr(1), [Ptr(-1), Alu(1)]);
    PeepholeCons(Ptr(0), [Alu(1)]);
  }

  /** One round of the fold at the front of a sequence. */
  lemma PeepholeCons(x: Instr, t: seq<Instr>)
    requires t != []
    ensures Combine(x, t[0]).Some? ==> Peephole([x] + t) == Peephole([Combine(x, t[0]).value] + t[1..])
    ensures Combine(x, t[0]).None? ==> Peephole([x] + t) == [x] + Peephole(t)
  {
    assert ([x] + t)[1..] == t && ([x] + t)[2..] == t[1..];
  }

  /** One round of the folding loop at position `index`: a merge replaces the pair by its
      result, and a failed merge keeps the instruction at `index`. */
  lemma PeepholeAt(s: seq<Instr>, index: nat)
    requires index + 1 < |s|
    ensures Combine(s[index], s[index + 1]).Some? ==>
      Peephole(s[index..]) == Peephole([Combine(s[index], s[index + 1]).value] + s[index + 2..])
    ensures Combine(s[index], s[index + 1]).None? ==>
      Peephole(s[index..]) == [s[index]] + Peephole(s[index + 1..])
  {
    var t := s[index..];
    assert t[0] == s[index] && t[1] == s[index + 1];
    assert t[1..] == s[index + 1..] && t[2..] == s[index + 2..];
  }

  /** The folding loop's invariant survives a merge at `index`. */
  lemma FoldMerge(s: seq<Instr>, p: seq<Instr>, index: nat)
    requires index + 1 < |p| && Combine(p[index], p[index + 1]).Some?
    requires Peephole(s) == p[..index] + Peephole(p[index..])
    ensures var q := p[index := Combine(p[index], p[index + 1]).value];
      var p' := q[..index + 1] + q[index + 2..];
      Peephole(s) == p'[..index] + Peephole(p'[index..])
  {
    var c := Combine(p[index], p[index + 1]).value;
    var q := p[index := c];
    var p' := q[..index + 1] + q[index + 2..];
    PeepholeAt(p, index);
    assert p'[..index] == p[..index];
    assert p'[index..] == [c] + p[index + 2..];
  }

  /** The folding loop's invariant survives moving past an instruction that does not merge. */
  lemma FoldSkip(s: seq<Instr>, p: seq<Instr>, index: nat)
    requires index + 1 < |p| && Combine(p[index], p[index + 1]).None?
    requires Peephole(s) == p[..index] + Peephole(p[index..])
    ensures Peephole(s) == p[..index + 1] + Peephole(p[index + 1..])
  {
    PeepholeSkip(p, index);
    assert p[..index + 1] == p[..index] + [p[index]];
    Regroup(p[..index], p[index], Peephole(p[index + 1..]));
  }

  /** A failed merge at `index` keeps that instruction in front of the fold of the rest. */
  lemma PeepholeSkip(p: seq<Instr>, index: nat)
    requires index + 1 < |p| && Combine(p[index], p[index + 1]).None?
    ensures Peephole(p[index..]) == [p[index]] + Peephole(p[index + 1..])
  {
    var x, t := p[index], p[index + 1..];
    assert p[index..] == [x] + t && t[0] == p[index + 1];
    PeepholeCons(x, t);
  }

  /** Regrouping the instructions kept so far; a separate lemma keeps `FoldSkip`'s proof small. */
  lemma Regroup(kept: seq<Instr>, x: Instr, rest: seq<Instr>)
    ensures kept + ([x] + rest) == (kept + [x]) + rest
  {
  }

  /** When one instruction is left to look at, the loop's sequence is the fold. */
  lemma FoldDone(s: seq<Instr>, p: seq<Instr>, index: nat)
    requires index == |p| - 1
    requires Peephole(s) == p[..index] + Peephole(p[index..])
    ensures p == Peephole(s)
  {
    assert p[index..] == [p[index]];
    assert p == p[..index] + p[index..];
  }

  // ---------------------------------------------------------------------------------------
  // One step and a run of the interpreter, as functions of its state

  /** The part of the interpreter that steps change. */
  datatype Machine = Machine(instr: nat, pointer: Word, data: seq<Word>,
                             input: seq<Byte>, output: seq<Byte>, room: nat)

  /** A step that panics instead of returning: the instruction pointer is past the end of
      the program, the data pointer is off the tape, or a loop instruction has no entry in
      the bracket map. At the end of the program a step never panics. */
  predicate Aborts(p: seq<Instr>, idx: map<nat, nat>, instr: nat, pointer: Word, size: nat)
  {
    instr != |p| && (instr > |p| || pointer >= size || (KindOf(p[instr]) != Plain && instr !in idx))
  }

  /** Whether a loop instruction hands control to its partner: an open skips the loop when
      the cell is zero, a close goes back when it is not. */
  predicate Jumps(i: Instr, cell: Word)
  {
    (i == LoopStart && cell == 0) || (i == LoopEnd && cell != 0)
  }

  datatype Outcome = Finished | Continued(next: Machine) | Failed(error: BFError)

  /** The effect of one `step`. At the end of the program it reports completion and changes
      nothing; a read from empty input or a write with no room fails with `IO` and changes
      nothing; any other step continues, as `NextEffect` describes. */
  function Next(p: seq<Instr>, idx: map<nat, nat>, m: Machine): (o: Outcome)
    requires !Aborts(p, idx, m.instr, m.pointer, |m.data|)
    ensures o.Finished? <==> m.instr == |p|
    ensures o.Failed? <==>
      m.instr < |p| && ((p[m.instr] == Input && m.input == []) || (p[m.instr] == Output && m.room == 0))
    ensures o.Failed? ==> o.error == IO
  {
    if m.instr == |p| then Finished
    else
      var cell := m.data[m.pointer];
      match p[m.instr]
      case Alu(v) =>
        Continued(m.(data := m.data[m.pointer := WrappingAdd(cell, v)], instr := m.instr + 1))
      case Ptr(v) =>
        Continued(m.(pointer := WrappingAdd(m.pointer, v), instr := m.instr + 1))
      case LoopStart =>
        Continued(m.(instr := (if cell == 0 then idx[m.instr] else m.instr) + 1))
      case LoopEnd =>
        Continued(m.(instr := (if cell != 0 then idx[m.instr] else m.instr) + 1))
      case Input =>
        if m.input == [] then Failed(IO)
        else Continued(m.(data := m.data[m.pointer := m.input[0]], input := m.input[1..], instr := m.instr + 1))
      case Output =>
        if m.room == 0 then Failed(IO)
        else Continued(m.(output := m.output + [cell % 256], room := m.room - 1, instr := m.instr + 1))
      case Nop =>
        Continued(m.(instr := m.instr + 1))
  }

  /** What a step that continues does: the instruction pointer moves on by one, or to one
      past the partner for a taken jump; cells other than the current one are untouched;
      the current cell gains the instruction's cell change modulo 2^64 (or, for `Input`,
      becomes the byte read); the data pointer gains its movement modulo 2^64; a write
      appends the low byte of the cell and uses up one byte of room. */
  lemma NextEffect(p: seq<Instr>, idx: map<nat, nat>, m: Machine)
    requires !Aborts(p, idx, m.instr, m.pointer, |m.data|)
    ensures var o := Next(p, idx, m);
      o.Continued? ==>
      var i, cell, n := p[m.instr], m.data[m.pointer], o.next;
      n.instr == (if Jumps(i, cell) then idx[m.instr] + 1 else m.instr + 1) &&
      |n.data| == |m.data| &&
      (forall a | 0 <= a < |m.data| && a != m.pointer :: n.data[a] == m.data[a]) &&
      (n.pointer - m.pointer - PtrOf(i)) % WORD == 0 &&
      (i != Input ==> (n.data[m.pointer] - cell - AluOf(i)) % WORD == 0 && n.input == m.input) &&
      (i == Input ==> n.data[m.pointer] == m.input[0] && n.input == m.input[1..]) &&
      n.output == m.output + (if i == Output then [cell % 256] else []) &&
      |n.output| + n.room == |m.output| + m.room
  {
  }

  /** `t` is what is left of the stream `s` once some bytes were read from its front. */
  predicate Suffix(t: seq<Byte>, s: seq<Byte>)
  {
    |t| <= |s| && t == s[|s| - |t|..]
  }

  lemma SuffixTrans(a: seq<Byte>, b: seq<Byte>, c: seq<Byte>)
    requires Suffix(b, a) && Suffix(c, b)
    ensures Suffix(c, a)
  {
    assert a[|a| - |b|..][|b| - |c|..] == a[|a| - |c|..];
  }

  /** Every entry of the map names a position inside the program. */
  predicate TargetsInside(p: seq<Instr>, idx: map<nat, nat>)
  {
    forall q | q in idx :: idx[q] < |p|
  }

  /** How a run of `interpret` ends: completion, an error returned by a step, a panic, or
      (in this model only) the step budget running out. */
  datatype Status = Halted | Errored(error: BFError) | Aborted | OutOfFuel

  /** `interpret` given a budget of `fuel` steps: it steps until a step reports completion
      or fails. Output only grows, by exactly the room it uses; input is only consumed from
      the front; the tape keeps its size. A run halts only at the end of the program, and
      is aborted only where a step would panic. */
  function Run(p: seq<Instr>, idx: map<nat, nat>, m: Machine, fuel: nat): (r: (Status, Machine))
    ensures Keeps(m, r.1)
    ensures TargetsInside(p, idx) && m.instr <= |p| ==> r.1.instr <= |p|
    ensures r.0 == Halted ==> r.1.instr == |p|
    ensures r.0 == Aborted ==> Aborts(p, idx, r.1.instr, r.1.pointer, |r.1.data|)
    ensures r.0.Errored? ==> r.0.error == IO && r.1.instr < |p| && p[r.1.instr] in {Input, Output}
    decreases fuel
  {
    if fuel == 0 then (OutOfFuel, m)
    else if Aborts(p, idx, m.instr, m.pointer, |m.data|) then (Aborted, m)
    else
      match Next(p, idx, m)
      case Finished => (Halted, m)
      case Failed(e) => (Errored(e), m)
      case Continued(n) =>
        NextKeeps(p, idx, m);
        NextInside(p, idx, m);
        var r := Run(p, idx, n, fuel - 1);
        KeepsTrans(m, n, r.1);
        r
  }

  /** What every step keeps, and so every run: output only grows, by exactly the room it
      uses up; input is only consumed from the front; the tape keeps its size. */
  predicate Keeps(m: Machine, n: Machine)
  {
    m.output <= n.output && |n.output| + n.room == |m.output| + m.room &&
    Suffix(n.input, m.input) && |n.data| == |m.data|
  }

  lemma NextKeeps(p: seq<Instr>, idx: map<nat, nat>, m: Machine)
    requires !Aborts(p, idx, m.instr, m.pointer, |m.data|)
    ensures Next(p, idx, m).Continued? ==> Keeps(m, Next(p, idx, m).next)
  {
    var o := Next(p, idx, m);
    if o.Continued? {
      var n := o.next;
      NextEffect(p, idx, m);
      assert m.output <= n.output;
      if p[m.instr] == Input {
        assert n.input == m.input[1..];
        assert m.input[|m.input| - |n.input|..] == m.input[1..];
      } else {
        assert n.input == m.input;
        assert m.input[|m.input| - |n.input|..] == m.input;
      }
    }
  }

  /** A step from inside the program, with a map whose entries lie inside it, stays inside. */
  lemma NextInside(p: seq<Instr>, idx: map<nat, nat>, m: Machine)
    requires !Aborts(p, idx, m.instr, m.pointer, |m.data|)
    ensures TargetsInside(p, idx) && m.instr <= |p| && Next(p, idx, m).Continued? ==>
      Next(p, idx, m).next.instr <= |p|
  {
    if TargetsInside(p, idx) && m.instr < |p| && Jumps(p[m.instr], m.data[m.pointer]) {
      assert idx[m.instr] < |p|;
    }
  }

  lemma KeepsTrans(a: Machine, b: Machine, c: Machine)
    requires Keeps(a, b) && Keeps(b, c)
    ensures Keeps(a, c)
  {
    SuffixTrans(a.input, b.input, c.input);
  }

  /** With an exact bracket map the `expect` in `step` never fires and the instruction
      pointer never passes the end of the program: a run that starts inside the program can
      only panic on a data pointer that has left the tape. */
  lemma IndexedRunStaysInProgram(p: seq<Instr>, idx: map<nat, nat>, m: Machine, fuel: nat)
    requires ExactIndex(p, KindOf, idx) && m.instr <= |p|
    ensures Run(p, idx, m, fuel).1.instr <= |p|
    ensures Run(p, idx, m, fuel).0 == Aborted ==> Run(p, idx, m, fuel).1.pointer >= |m.data|
  {
    var r := Run(p, idx, m, fuel);
    forall q | q in idx ensures idx[q] < |p| {
      PartnerInProgram(p, idx, q);
    }
    if r.0 == Aborted && r.1.instr < |p| && KindOf(p[r.1.instr]) != Plain {
      assert r.1.instr in idx;
    }
  }

  /** An exact map sends every bracket position to a position inside the program. */
  lemma PartnerInProgram(p: seq<Instr>, idx: map<nat, nat>, q: nat)
    requires ExactIndex(p, KindOf, idx) && q in idx
    ensures q < |p| && KindOf(p[q]) != Plain && idx[q] < |p|
  {
    if KindOf(p[q]) == Open {
      assert IsMatch(p, KindOf, q, idx[q]);
    } else {
      assert IsMatch(p, KindOf, idx[q], q);
    }
  }

  // ---------------------------------------------------------------------------------------
  // Worked runs

  /** The text `++.` writes the byte 2 and halts. */
  lemma RunWritesTwo()
    ensures Run(DecodeAll("++."), map[], Machine(0, 0, [0], [], [], 1), 4) ==
      (Halted, Machine(3, 0, [2], [], [2], 0))
  {
    var p := DecodeAll("++.");
    assert p == [Alu(1), Alu(1), Output] by {
      assert p[0] == Decode('+') && p[1] == Decode('+') && p[2] == Decode('.');
    }
    var m0 := Machine(0, 0, [0], [], [], 1);
    var m1 := Machine(1, 0, [1], [], [], 1);
    var m2 := Machine(2, 0, [2], [], [], 1);
    var m3 := Machine(3, 0, [2], [], [2], 0);
    assert Next(p, map[], m0) == Continued(m1);
    assert Next(p, map[], m1) == Continued(m2);
    assert Next(p, map[], m2) == Continued(m3);
    assert Run(p, map[], m3, 1) == (Halted, m3);
    assert Run(p, map[], m2, 2) == (Halted, m3);
    assert Run(p, map[], m1, 3) == (Halted, m3);
  }

  /** The text `,` stores the byte read in the current cell. */
  lemma RunReadsByte()
    ensures Run(DecodeAll(","), map[], Machine(0, 0, [0], [0x41], [], 0), 2) ==
      (Halted, Machine(1, 0, [0x41], [], [], 0))
  {
    var p := DecodeAll(",");
    assert p == [Input] by {
      assert p[0] == Decode(',');
    }
    var m1 := Machine(1, 0, [0x41], [], [], 0);
    assert Next(p, map[], Machine(0, 0, [0], [0x41], [], 0)) == Continued(m1);
    assert Run(p, map[], m1, 1) == (Halted, m1);
  }

  /** `++[-]` decodes to five instructions and folds to four. */
  lemma FoldClearLoop()
    ensures DecodeAll("++[-]") == [Alu(1), Alu(1), LoopStart, Alu(-1), LoopEnd]
    ensures Peephole(DecodeAll("++[-]")) == [Alu(2), LoopStart, Alu(-1), LoopEnd]
  {
    var s := DecodeAll("++[-]");
    assert s == [Alu(1), Alu(1), LoopStart, Alu(-1), LoopEnd] by {
      assert s[0] == Decode('+') && s[1] == Decode('+') && s[2] == Decode('[');
      assert s[3] == Decode('-') && s[4] == Decode(']');
    }
    var t := [Alu(2), LoopStart, Alu(-1), LoopEnd];
    assert Peephole(s) == Peephole(t) by {
      assert Combine(s[0], s[1]) == Some(Alu(2));
      assert [Alu(2)] + s[2..] == t;
    }
    FoldLoopBody();
  }

  /** No neighbours in `[Alu(2), LoopStart, Alu(-1), LoopEnd]` merge. */
  lemma FoldLoopBody()
    ensures Peephole([Alu(2), LoopStart, Alu(-1), LoopEnd]) == [Alu(2), LoopStart, Alu(-1), LoopEnd]
  {
    var t := [Alu(2), LoopStart, Alu(-1), LoopEnd];
    assert Peephole(t[3..]) == [LoopEnd];
    assert Peephole(t[2..]) == [Alu(-1)] + Peephole(t[3..]) by {
      assert t[2..][1..] == t[3..];
    }
    assert Peephole(t[1..]) == [LoopStart] + Peephole(t[2..]) by {
      assert t[1..][1..] == t[2..];
    }
  }

  /** Finding: `optimize` folds the program but keeps the bracket map built for the text.
      For `++[-]` the loop moves from positions 2..4 to 1..3, so the fold's `LoopStart` at
      position 1 has no entry in the map and the second step panics. */
  lemma OptimizeStalesIndex(idx: map<nat, nat>)
    requires ExactIndex(DecodeAll("++[-]"), KindOf, idx)
    ensures Aborts(Peephole(DecodeAll("++[-]")), idx, 1, 0, 1)
  {
    FoldClearLoop();
    NoEntryForPlain(DecodeAll("++[-]"), idx, 1);
  }

  /** An exact map has no entry for a position that holds no bracket. */
  lemma NoEntryForPlain(s: seq<Instr>, idx: map<nat, nat>, q: nat)
    requires ExactIndex(s, KindOf, idx) && q < |s| && KindOf(s[q]) == Plain
    ensures q !in idx
  {
  }

  /** Without a map entry for position 1, the folded `++[-]` panics on its second step, as
      `interpret` does after `optimize` with the map of the text. */
  lemma ClearLoopPanics(idx: map<nat, nat>)
    requires 1 !in idx
    ensures Run([Alu(2), LoopStart, Alu(-1), LoopEnd], idx, Machine(0, 0, [0], [], [], 0), 2).0 == Aborted
  {
    var t := [Alu(2), LoopStart, Alu(-1), LoopEnd];
    var m1 := Machine(1, 0, [2], [], [], 0);
    assert Next(t, idx, Machine(0, 0, [0], [], [], 0)) == Continued(m1);
    assert Run(t, idx, m1, 1) == (Aborted, m1);
  }

  /** The decoded prefix grows by the decoded character. */
  lemma DecodedPrefix(text: string, i: nat)
    requires i < |text|
    ensures DecodeAll(text)[..i + 1] == DecodeAll(text)[..i] + [Decode(text[i])]
  {
  }

  // ---------------------------------------------------------------------------------------
  // The interpreter object

  class Interpreter {
    var instr: nat
    var pointer: Word
    const data: array<Word>
    var program: seq<Instr>
    var stack: map<nat, nat>
    var input: seq<Byte>
    var output: seq<Byte>
    var room: nat

    /** The state that steps change. */
    ghost function State(): Machine
      reads this, data
    {
      Machine(instr, pointer, data[..], input, output, room)
    }

    /** The program is balanced, as `new` makes it and `optimize` keeps it. */
    ghost predicate ProgramBalanced()
      reads this
    {
      Balanced(program, KindOf)
    }

    /** The bracket map describes the current program exactly. */
    ghost predicate Indexed()
      reads this
    {
      ExactIndex(program, KindOf, stack)
    }

    constructor Init(program: seq<Instr>, stack: map<nat, nat>, size: nat, input: seq<Byte>, room: nat)
      ensures this.program == program && this.stack == stack && fresh(data)
      ensures State() == Machine(0, 0, seq(size, _ => 0), input, [], room)
    {
      this.instr := 0;
      this.pointer := 0;
      this.data := new Word[size](_ => 0);
      this.program := program;
      this.stack := stack;
      this.input := input;
      this.output := [];
      this.room := room;
    }

    /** `Interpreter::new`: parse the text and start at instruction 0, cell 0 of a tape of
        `size` zero cells, with nothing written yet. An unbalanced text is refused with
        `Unmatched`. */
    static method New(text: string, size: nat, input: seq<Byte>, room: nat) returns (r: Result<Interpreter>)
      ensures r.Ok? <==> Balanced(DecodeAll(text), KindOf)
      ensures r.Err? ==> r.error == Unmatched
      ensures r.Ok? ==> fresh(r.value) && fresh(r.value.data)
      ensures r.Ok? ==> r.value.program == DecodeAll(text) && r.value.ProgramBalanced() && r.value.Indexed()
      ensures r.Ok? ==> r.value.State() == Machine(0, 0, seq(size, _ => 0), input, [], room)
    {
      var parsed := Parse(text);
      if parsed.Err? {
        return Err(parsed.error);
      }
      var (program, stack) := parsed.value;
      var it := new Interpreter.Init(program, stack, size, input, room);
      return Ok(it);
    }

    /** `parse`: one instruction per character, decoded by the total decoder, and the
        bracket map built with a stack of pending opens. It fails with `Unmatched` exactly
        when the text is unbalanced (a close with no pending open, or an open still pending
        at the end); otherwise the map holds exactly the bracket positions, each mapped to
        its partner. */
    static method Parse(text: string) returns (r: Result<(seq<Instr>, map<nat, nat>)>)
      ensures r.Ok? <==> Balanced(DecodeAll(text), KindOf)
      ensures r.Ok? ==> r.value.0 == DecodeAll(text) && ExactIndex(r.value.0, KindOf, r.value.1)
      ensures r.Err? ==> r.error == Unmatched
    {
      ghost var s := DecodeAll(text);
      var stack: map<nat, nat> := map[];
      var program: seq<Instr> := [];
      var brackets: seq<nat> := [];
      for i := 0 to |text|
        invariant program == s[..i]
        invariant Partial(s, KindOf, i, brackets, stack)
      {
        var parsed := Decode(text[i]);
        DecodedPrefix(text, i);
        program := program + [parsed];
        var ok;
        ok, brackets, stack := Track(s, KindOf, i, KindOf(parsed), brackets, stack);
        if !ok {
          return Err(Unmatched);
        }
      }
      if brackets != [] {
        PartialUnclosed(s, KindOf, brackets, stack);
        return Err(Unmatched);
      }
      PartialComplete(s, KindOf, stack);
      assert program == s;
      return Ok((program, stack));
    }

    /** `optimize`: fold neighbours in place, left to right, with the index staying put
        after a merge and moving on otherwise. The program becomes its fold and stays
        balanced; nothing else changes, the bracket map included. An empty program is
        excluded because `len() - 1` underflows on it. */
    method Optimize()
      requires |program| > 0
      modifies this
      ensures program == Peephole(old(program))
      ensures old(ProgramBalanced()) ==> ProgramBalanced()
      ensures instr == old(instr) && pointer == old(pointer) && stack == old(stack)
      ensures input == old(input) && output == old(output) && room == old(room)
    {
      var p := Fold(program);
      if ProgramBalanced() {
        PeepholeBalanced(program);
      }
      program := p;
    }

    /** The folding loop of `optimize`: walks the sequence once, merging the instruction at
        `index` with its successor while they merge, and moving on when they do not. */
    static method Fold(s: seq<Instr>) returns (p: seq<Instr>)
      requires |s| > 0
      ensures p == Peephole(s)
    {
      p := s;
      var index := 0;
      while index < |p| - 1
        invariant 0 <= index < |p|
        invariant Peephole(s) == p[..index] + Peephole(p[index..])
        decreases |p| - index
      {
        var newInst := Combine(p[index], p[index + 1]);
        if newInst.Some? {
          FoldMerge(s, p, index);
          p := p[index := newInst.value];
          p := p[..index + 1] + p[index + 2..];
        } else {
          FoldSkip(s, p, index);
          index := index + 1;
        }
      }
      FoldDone(s, p, index);
    }

    /** Rebuilds the bracket map of an instruction sequence with the same stack algorithm as
        `parse`; it fails with `Unmatched` exactly on an unbalanced sequence. */
    static method Reindex(s: seq<Instr>) returns (r: Result<map<nat, nat>>)
      ensures r.Ok? <==> Balanced(s, KindOf)
      ensures r.Ok? ==> ExactIndex(s, KindOf, r.value)
      ensures r.Err? ==> r.error == Unmatched
    {
      var stack: map<nat, nat> := map[];
      var brackets: seq<nat> := [];
      for i := 0 to |s|
        invariant Partial(s, KindOf, i, brackets, stack)
      {
        var ok;
        ok, brackets, stack := Track(s, KindOf, i, KindOf(s[i]), brackets, stack);
        if !ok {
          return Err(Unmatched);
        }
      }
      if brackets != [] {
        PartialUnclosed(s, KindOf, brackets, stack);
        return Err(Unmatched);
      }
      PartialComplete(s, KindOf, stack);
      return Ok(stack);
    }

    /** `optimize` followed by rebuilding the bracket map over the folded program, so that
        the map describes the program that is run. */
    method OptimizeAndReindex()
      requires |program| > 0 && ProgramBalanced()
      modifies this
      ensures program == Peephole(old(program)) && ProgramBalanced() && Indexed()
      ensures instr == old(instr) && pointer == old(pointer)
      ensures input == old(input) && output == old(output) && room == old(room)
    {
      Optimize();
      var index := Reindex(program);
      if index.Ok? {
        stack := index.value;
      }
    }

    /** `step` on the interpreter's own fields: it does exactly what `Next` says, leaving the
        program and the bracket map alone. A step that would panic is excluded. */
    method Step() returns (r: Result<bool>)
      requires !Aborts(program, stack, instr, pointer, data.Length)
      modifies this, data
      ensures program == old(program) && stack == old(stack)
      ensures match Next(program, stack, old(State()))
        case Finished => r == Ok(true) && State() == old(State())
        case Failed(e) => r == Err(e) && State() == old(State())
        case Continued(n) => r == Ok(false) && State() == n
    {
      if instr == |program| {
        return Ok(true);
      }
      var cell := data[pointer];
      match program[instr] {
        case Alu(v) =>
          data[pointer] := WrappingAdd(cell, v);
        case Ptr(v) =>
          pointer := WrappingAdd(pointer, v);
        case LoopStart =>
          var jump := stack[instr];
          if cell == 0 {
            instr := jump;
          }
        case LoopEnd =>
          var jump := stack[instr];
          if cell != 0 {
            instr := jump;
          }
        case Input =>
          if input == [] {
            return Err(IO);
          }
          data[pointer] := input[0];
          input := input[1..];
        case Output =>
          if room == 0 {
            return Err(IO);
          }
          output := output + [cell % 256];
          room := room - 1;
        case Nop =>
      }
      instr := instr + 1;
      return Ok(false);
    }

    /** `goal` is where the run from the current state ends after at most `f` more steps. */
    ghost predicate Leads(goal: (Status, Machine), f: nat)
      reads this, data
    {
      goal == Run(program, stack, State(), f)
    }

    /** `interpret` with a budget of `fuel` steps: it steps until a step reports
        completion, a step fails, or a step would panic. */
    method Interpret(fuel: nat) returns (status: Status)
      modifies this, data
      ensures program == old(program) && stack == old(stack)
      ensures (status, State()) == Run(program, stack, old(State()), fuel)
    {
      var f := fuel;
      ghost var goal := Run(program, stack, State(), fuel);
      var stop: Option<Status> := None;
      while stop.None?
        invariant program == old(program) && stack == old(stack)
        invariant stop.None? ==> Leads(goal, f)
        invariant stop.Some? ==> (stop.value, State()) == goal
        decreases if stop.None? then f + 1 else 0
      {
        stop := Turn(f, goal);
        if stop.None? {
          f := f - 1;
        }
      }
      return stop.value;
    }

    /** One turn of the loop of `interpret` with `f` steps of budget left: it stops when the
        budget is spent, when a step would panic, when the step reports completion and when
        the step fails; otherwise it has taken one step of the run. */
    method Turn(f: nat, ghost goal: (Status, Machine)) returns (stop: Option<Status>)
      requires Leads(goal, f)
      modifies this, data
      ensures program == old(program) && stack == old(stack)
      ensures stop.Some? ==> (stop.value, State()) == goal
      ensures stop.None? ==> f > 0 && Leads(goal, f - 1)
    {
      if f == 0 {
        return Some(OutOfFuel);
      }
      if Aborts(program, stack, instr, pointer, data.Length) {
        return Some(Aborted);
      }
      ghost var m := State();
      var finished := Step();
      match finished
      case Err(e) =>
        assert Next(program, stack, m) == Failed(e) && State() == m;
        return Some(Errored(e));
      case Ok(true) =>
        assert Next(program, stack, m) == Finished && State() == m;
        return Some(Halted);
      case Ok(false) =>
        assert Next(program, stack, m) == Continued(State());
        return None;
    }
  }
}
