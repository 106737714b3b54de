/** The instruction set of the engine (src/instruction.rs): seven instructions, the rule that
    merges two neighbours into one, and the decoder from source characters. */
module Instruction {
  import opened Errors
  import opened Brackets

  /** `Ptr` and `Alu` carry a signed run length; the other five are unit instructions. */
  datatype Instr = Ptr(delta: int) | Alu(delta: int) | Input | Output | LoopStart | LoopEnd | Nop

  function KindOf(i: Instr): Kind
  {
    match i
    case LoopStart => Open
    case LoopEnd => Close
    case _ => Plain
  }

  /** How far an instruction moves the data pointer. */
  function PtrOf(i: Instr): int
  {
    if i.Ptr? then i.delta else 0
  }

  /** How much an instruction adds to the current cell. */
  function AluOf(i: Instr): int
  {
    if i.Alu? then i.delta else 0
  }

  /** The stream operation an instruction performs, if any. */
  function IoOf(i: Instr): seq<Instr>
  {
    if i == Input || i == Output then [i] else []
  }

  /** Total pointer movement of a sequence of instructions, ignoring loops. */
  function PtrTotal(s: seq<Instr>): int
  {
    if s == [] then 0 else PtrOf(s[0]) + PtrTotal(s[1..])
  }

  /** Total cell change of a sequence of instructions, ignoring loops. */
  function AluTotal(s: seq<Instr>): int
  {
    if s == [] then 0 else AluOf(s[0]) + AluTotal(s[1..])
  }

  /** The stream operations of a sequence of instructions, in order. */
  function IoTrace(s: seq<Instr>): seq<Instr>
  {
    if s == [] then [] else IoOf(s[0]) + IoTrace(s[1..])
  }

  /** The three summaries above distribute over concatenation. */
  lemma {:induction false} TotalsAppend(a: seq<Instr>, b: seq<Instr>)
    ensures PtrTotal(a + b) == PtrTotal(a) + PtrTotal(b)
    ensures AluTotal(a + b) == AluTotal(a) + AluTotal(b)
    ensures IoTrace(a + b) == IoTrace(a) + IoTrace(b)
  {
    if a != [] {
      assert (a + b)[1..] == a[1..] + b;
      TotalsAppend(a[1..], b);
    } else {
      assert a + b == b;
    }
  }

  /** The merge rule for two neighbouring instructions. Two moves or two cell changes add
      up, an empty loop becomes `Nop`, and a `Nop` gives way to whatever follows it; no
      other pair merges. A merge keeps the pointer movement, the cell change, the stream
      operations and the bracket depth of the pair. */
  function Combine(a: Instr, b: Instr): (r: Option<Instr>)
    ensures r.Some? <==>
      (a.Ptr? && b.Ptr?) || (a.Alu? && b.Alu?) || (a == LoopStart && b == LoopEnd) || a == Nop
    ensures a == Nop ==> r == Some(b)
    ensures a == LoopStart && b == LoopEnd ==> r == Some(Nop)
    ensures a.Ptr? && b.Ptr? ==> r == Some(Ptr(a.delta + b.delta))
    ensures a.Alu? && b.Alu? ==> r == Some(Alu(a.delta + b.delta))
    ensures r.Some? ==>
      PtrOf(r.value) == PtrOf(a) + PtrOf(b) &&
      AluOf(r.value) == AluOf(a) + AluOf(b) &&
      IoOf(r.value) == IoOf(a) + IoOf(b) &&
      Weight(KindOf(r.value)) == Weight(KindOf(a)) + Weight(KindOf(b))
  {
    match (a, b)
    case (Ptr(m1), Ptr(m2)) => Some(Ptr(m1 + m2))
    case (Alu(a1), Alu(a2)) => Some(Alu(a1 + a2))
    case (LoopStart, LoopEnd) => Some(Nop)
    case (Nop, instr) => Some(instr)
    case _ => None
  }

  /** The eight characters of the language. */
  const Symbols: string := "+-><.,[]"

  /** The character that spells a unit instruction. */
  function Symbol(i: Instr): Option<char>
  {
    match i
    case Alu(v) => if v == 1 then Some('+') else if v == -1 then Some('-') else None
    case Ptr(v) => if v == 1 then Some('>') else if v == -1 then Some('<') else None
    case Output => Some('.')
    case Input => Some(',')
    case LoopStart => Some('[')
    case LoopEnd => Some(']')
    case Nop => None
  }

  /** The decoder is total: each of the eight characters stands for its unit instruction,
      and every other character is a comment and becomes `Nop`. */
  function Decode(c: char): (i: Instr)
    ensures i == Nop <==> c !in Symbols
    ensures c in Symbols ==> Symbol(i) == Some(c)
  {
    match c
    case '+' => Alu(1)
    case '-' => Alu(-1)
    case '>' => Ptr(1)
    case '<' => Ptr(-1)
    case '.' => Output
    case ',' => Input
    case '[' => LoopStart
    case ']' => LoopEnd
    case _ => Nop
  }

  /** Decoding a unit instruction's character gives the instruction back. */
  lemma DecodeSymbol(i: Instr)
    requires Symbol(i).Some?
    ensures Decode(Symbol(i).value) == i
  {
  }

  /** The program text decoded character by character. */
  function DecodeAll(text: string): seq<Instr>
  {
    seq(|text|, k requires 0 <= k < |text| => Decode(text[k]))
  }
}
