/** The older interpreter (src/bf.rs): unit-step instructions over a tape of bytes, a parser
    that refuses a close with no pending open but accepts an open that is never closed, and
    a run loop that follows the bracket pairs the parser recorded.

    The character decoder of this interpreter is not part of this model: it is a parameter
    that turns a character into an instruction or an error. The streams are modelled as in
    `Prog`: a read consumes the input and fails when it is exhausted, a write uses up one
    byte of a fixed room and fails once the room is used up. */
module Bf {
  import opened Errors
  import opened Brackets
  import Prog

  /** The eight unit instructions of this interpreter. */
  datatype Op = Add | Sub | Left | Right | Start | Stop | Input | Output

  /** A matched pair of brackets, by the positions of its open and its close. */
  datatype Bracket = Bracket(start: nat, end: nat)

  function OpKind(op: Op): Kind
  {
    match op
    case Start => Open
    case Stop => Close
    case _ => Plain
  }

  // ---------------------------------------------------------------------------------------
  // Parsing, as properties of the text

  /** The first `n` characters all decode. */
  predicate Good(text: string, decode: char -> Result<Op>, n: nat)
  {
    n <= |text| && forall k | 0 <= k < n :: decode(text[k]).Ok?
  }

  /** The decoded text, in which a character the decoder refuses stands in as `Add`. Up to
      the first refused character this is exactly what the parser pushes. */
  function Ops(text: string, decode: char -> Result<Op>): (s: seq<Op>)
    ensures |s| == |text|
    ensures forall k | 0 <= k < |text| && decode(text[k]).Ok? :: s[k] == decode(text[k]).value
  {
    seq(|text|, k requires 0 <= k < |text| => if decode(text[k]).Ok? then decode(text[k]).value else Add)
  }

  /** The decoded prefix grows by the decoded character. */
  lemma OpsPrefix(text: string, decode: char -> Result<Op>, i: nat)
    requires i < |text| && decode(text[i]).Ok?
    ensures Ops(text, decode)[..i + 1] == Ops(text, decode)[..i] + [decode(text[i]).value]
  {
  }

  /** Parsing stops at position `k` with error `e`: everything before `k` decodes with no
      stray close, and at `k` either the decoder refuses the character, with its own error,
      or a close finds no pending open, with `Unmatched`. */
  ghost predicate FailsAt(text: string, decode: char -> Result<Op>, k: nat, e: BFError)
  {
    var s := Ops(text, decode);
    k < |text| && Good(text, decode, k) && NoStrayClose(s, OpKind, k) &&
    match decode(text[k])
    case Err(d) => e == d
    case Ok(op) => op == Stop && Depth(s, OpKind, k) == 0 && e == Unmatched
  }

  /** Past a failure, no longer prefix decodes with no stray close. */
  lemma FailsAtEnds(text: string, decode: char -> Result<Op>, k: nat, e: BFError, n: nat)
    requires FailsAt(text, decode, k, e) && k < n <= |text|
    ensures !(Good(text, decode, n) && NoStrayClose(Ops(text, decode), OpKind, n))
  {
    if decode(text[k]).Ok? {
      assert Depth(Ops(text, decode), OpKind, k + 1) < 0;
    }
  }

  /** A parse fails at one position only: the first where it can. */
  lemma FailureUnique(text: string, decode: char -> Result<Op>, k: nat, e: BFError, k': nat, e': BFError)
    requires FailsAt(text, decode, k, e) && FailsAt(text, decode, k', e')
    ensures k == k' && e == e'
  {
    if k < k' {
      FailsAtEnds(text, decode, k, e, k');
    } else if k' < k {
      FailsAtEnds(text, decode, k', e', k);
    }
  }

  /** The bracket map of a decoded text: every matched pair is recorded under both of its
      positions, as the same `Bracket` with the open first, and the map holds nothing else.
      An open without a partner has no entry. */
  ghost predicate Paired(s: seq<Op>, m: map<nat, Bracket>)
  {
    (forall i, j | IsMatch(s, OpKind, i, j) :: i in m && j in m && m[i] == m[j] == Bracket(i, j)) &&
    (forall q | q in m :: IsMatch(s, OpKind, m[q].start, m[q].end) && (q == m[q].start || q == m[q].end))
  }

  /** The bracket map as the parser builds it, from the matcher's index of partners. */
  ghost function AsBrackets(idx: map<nat, nat>): map<nat, Bracket>
  {
    map q | q in idx :: if q < idx[q] then Bracket(q, idx[q]) else Bracket(idx[q], q)
  }

  /** An open still pending at the end has no partner. */
  lemma PendingUnmatched(s: seq<Op>, opens: seq<nat>, t: nat, j: int)
    requires Pending(s, OpKind, |s|, opens) && t < |opens|
    ensures !IsMatch(s, OpKind, opens[t], j)
  {
  }

  /** A matcher that has read the whole text describes its matched pairs exactly. */
  lemma PartialPaired(s: seq<Op>, opens: seq<nat>, idx: map<nat, nat>)
    requires Partial(s, OpKind, |s|, opens, idx)
    ensures Paired(s, AsBrackets(idx))
  {
    var m := AsBrackets(idx);
    forall i, j | IsMatch(s, OpKind, i, j)
      ensures i in m && j in m && m[i] == m[j] == Bracket(i, j)
    {
      forall t | 0 <= t < |opens|
        ensures opens[t] != i
      {
        PendingUnmatched(s, opens, t, j);
      }
      assert i in idx && j in idx;
      MatchUnique(s, OpKind, i, j, i, idx[i]);
      MatchUnique(s, OpKind, i, j, idx[j], j);
    }
  }

  /** The parser's map after one more close, in the matcher's terms. */
  lemma AsBracketsClose(idx: map<nat, nat>, matching: nat, i: nat)
    requires matching < i
    ensures AsBrackets(idx[i := matching][matching := i]) ==
            AsBrackets(idx)[i := Bracket(matching, i)][matching := Bracket(matching, i)]
  {
  }

  // ---------------------------------------------------------------------------------------
  // One step and a run, as functions of the interpreter's state

  /** The part of the interpreter that a run changes. */
  datatype Config = Config(instr: nat, pointer: nat, data: seq<Prog.Byte>,
                           input: seq<Prog.Byte>, output: seq<Prog.Byte>, room: nat)

  /** A step that panics: the instruction pointer is past the end, the data pointer is off
      the tape, a bracket has no entry in the map, or a move left from cell 0 underflows the
      pointer (the overflow check of a debug build). */
  predicate Aborts(p: seq<Op>, m: map<nat, Bracket>, c: Config)
  {
    c.instr != |p| &&
    (c.instr > |p| || c.pointer >= |c.data| ||
     (OpKind(p[c.instr]) != Plain && c.instr !in m) || (p[c.instr] == Left && c.pointer == 0))
  }

  datatype Outcome = Finished | Continued(next: Config) | Failed(error: BFError)

  /** One round of the `run` loop. At the end of the program it finishes. Otherwise the
      instruction pointer moves on by one, after a taken jump from the position the map
      names (one past the close for an open on a zero cell, one past the open for a close
      on a nonzero cell); the pointer moves by one cell for a move; the current cell goes
      up or down by one modulo 256 or takes the byte read; the other cells stay; a write
      emits the current cell. A read from exhausted input or a write with no room fails
      with `IO` and changes nothing. */
  function Next(p: seq<Op>, m: map<nat, Bracket>, c: Config): (o: Outcome)
    requires !Aborts(p, m, c)
    ensures o.Finished? <==> c.instr == |p|
    ensures o.Failed? <==>
      c.instr < |p| && ((p[c.instr] == Input && c.input == []) || (p[c.instr] == Output && c.room == 0))
    ensures o.Failed? ==> o.error == IO
    ensures o.Continued? ==>
      var op, cell, n := p[c.instr], c.data[c.pointer], o.next;
      n.instr == 1 + (if op == Start && cell == 0 then m[c.instr].end
                      else if op == Stop && cell != 0 then m[c.instr].start
                      else c.instr) &&
      n.pointer == c.pointer + (if op == Right then 1 else if op == Left then -1 else 0) &&
      |n.data| == |c.data| &&
      (forall a | 0 <= a < |c.data| && a != c.pointer :: n.data[a] == c.data[a]) &&
      (op == Add ==> n.data[c.pointer] == (cell as int + 1) % 256) &&
      (op == Sub ==> n.data[c.pointer] == (cell as int + 255) % 256) &&
      (op == Input ==> n.data[c.pointer] == c.input[0] && n.input == c.input[1..]) &&
      (op !in {Add, Sub, Input} ==> n.data[c.pointer] == cell) &&
      (op != Input ==> n.input == c.input) &&
      n.output == c.output + (if op == Output then [cell] else []) &&
      |n.output| + n.room == |c.output| + c.room
  {
    if c.instr == |p| then Finished
    else
      var cell := c.data[c.pointer];
      var c' := c.(instr := c.instr + 1);
      match p[c.instr]
      case Add => Continued(c'.(data := c.data[c.pointer := (cell + 1) % 256]))
      case Sub => Continued(c'.(data := c.data[c.pointer := (cell - 1) % 256]))
      case Left => Continued(c'.(pointer := c.pointer - 1))
      case Right => Continued(c'.(pointer := c.pointer + 1))
      case Start => Continued(c'.(instr := (if cell == 0 then m[c.instr].end else c.instr) + 1))
      case Stop => Continued(c'.(instr := (if cell != 0 then m[c.instr].start else c.instr) + 1))
      case Input =>
        if c.input == [] then Failed(IO)
        else Continued(c'.(data := c.data[c.pointer := c.input[0]], input := c.input[1..]))
      case Output =>
        if c.room == 0 then Failed(IO)
        else Continued(c'.(output := c.output + [cell], room := c.room - 1))
  }

  /** `run` given a budget of `fuel` rounds. It returns `Ok` (here `Halted`) only at the end
      of the program; an error only from a failed read or write at a stream instruction; a
      panic only where a step would panic. Output only grows, by the room it uses, and input
      is consumed from the front. */
  function Steps(p: seq<Op>, m: map<nat, Bracket>, c: Config, fuel: nat): (r: (Prog.Status, Config))
    ensures Keeps(c, r.1)
    ensures r.0 == Prog.Halted ==> r.1.instr == |p|
    ensures r.0 == Prog.Aborted ==> Aborts(p, m, r.1)
    ensures r.0.Errored? ==> r.0.error == IO && r.1.instr < |p| && p[r.1.instr] in {Input, Output}
    decreases fuel
  {
    if fuel == 0 then (Prog.OutOfFuel, c)
    else if Aborts(p, m, c) then (Prog.Aborted, c)
    else
      match Next(p, m, c)
      case Finished => (Prog.Halted, c)
      case Failed(e) => (Prog.Errored(e), c)
      case Continued(n) =>
        NextKeeps(p, m, c);
        var r := Steps(p, m, n, fuel - 1);
        KeepsTrans(c, n, r.1);
        r
  }

  /** What every round keeps, and so every run: output only grows, by exactly the room it
      uses up; input is only consumed from the front; the tape keeps its size. */
  predicate Keeps(c: Config, n: Config)
  {
    c.output <= n.output && |n.output| + n.room == |c.output| + c.room &&
    Prog.Suffix(n.input, c.input) && |n.data| == |c.data|
  }

  lemma NextKeeps(p: seq<Op>, m: map<nat, Bracket>, c: Config)
    requires !Aborts(p, m, c)
    ensures Next(p, m, c).Continued? ==> Keeps(c, Next(p, m, c).next)
  {
    var o := Next(p, m, c);
    if o.Continued? {
      var n := o.next;
      assert c.output <= n.output;
      if p[c.instr] == Input {
        assert n.input == c.input[1..];
        assert c.input[|c.input| - |n.input|..] == c.input[1..];
      } else {
        assert n.input == c.input;
        assert c.input[|c.input| - |n.input|..] == c.input;
      }
    }
  }

  lemma KeepsTrans(a: Config, b: Config, c: Config)
    requires Keeps(a, b) && Keeps(b, c)
    ensures Keeps(a, c)
  {
    Prog.SuffixTrans(a.input, b.input, c.input);
  }

  /** With the map the parser builds, a close always has an entry, and a taken jump lands
      one past the partner: from an open to one past its close, from a close to one past
      its open. */
  lemma JumpTargets(s: seq<Op>, m: map<nat, Bracket>, q: nat)
    requires Paired(s, m) && NoStrayClose(s, OpKind, |s|) && q < |s| && OpKind(s[q]) != Plain
    ensures s[q] == Stop ==> q in m
    ensures q in m && s[q] == Start ==> m[q].start == q && IsMatch(s, OpKind, q, m[q].end)
    ensures q in m && s[q] == Stop ==> m[q].end == q && IsMatch(s, OpKind, m[q].start, q)
  {
    if s[q] == Stop {
      assert Depth(s, OpKind, q + 1) >= 0;
      var i := OpenOf(s, OpKind, q);
    }
  }

  /** With the parser's map, a step from inside the program stays inside it. */
  lemma StepStaysInProgram(s: seq<Op>, m: map<nat, Bracket>, c: Config)
    requires Paired(s, m) && NoStrayClose(s, OpKind, |s|) && c.instr <= |s| && !Aborts(s, m, c)
    ensures Next(s, m, c).Continued? ==> Next(s, m, c).next.instr <= |s|
  {
    if c.instr < |s| && OpKind(s[c.instr]) != Plain {
      JumpTargets(s, m, c.instr);
    }
  }

  /** With the parser's map, a step inside the program panics only on the tape's edges or
      at an open that was never closed. */
  lemma AbortCause(s: seq<Op>, m: map<nat, Bracket>, c: Config)
    requires Paired(s, m) && NoStrayClose(s, OpKind, |s|) && c.instr <= |s| && Aborts(s, m, c)
    ensures c.instr < |s|
    ensures c.pointer >= |c.data| || (s[c.instr] == Left && c.pointer == 0) ||
            (s[c.instr] == Start && forall j :: !IsMatch(s, OpKind, c.instr, j))
  {
    if OpKind(s[c.instr]) != Plain {
      JumpTargets(s, m, c.instr);
    }
  }

  /** With the parser's map, a run that starts inside the program stays inside it, and it
      can only panic on the tape's edges or at an open that was never closed. */
  lemma ParsedRunStaysInProgram(s: seq<Op>, m: map<nat, Bracket>, c: Config, fuel: nat)
    requires Paired(s, m) && NoStrayClose(s, OpKind, |s|) && c.instr <= |s|
    ensures Steps(s, m, c, fuel).1.instr <= |s|
    ensures var r := Steps(s, m, c, fuel).1;
      Steps(s, m, c, fuel).0 == Prog.Aborted ==>
        r.pointer >= |r.data| || (s[r.instr] == Left && r.pointer == 0) ||
        (s[r.instr] == Start && forall j :: !IsMatch(s, OpKind, r.instr, j))
  {
    var r := Steps(s, m, c, fuel);
    ParsedRunInside(s, m, c, fuel);
    if r.0 == Prog.Aborted {
      AbortCause(s, m, r.1);
    }
  }

  /** The induction behind `ParsedRunStaysInProgram`: every round stays inside the program. */
  lemma {:induction false} ParsedRunInside(s: seq<Op>, m: map<nat, Bracket>, c: Config, fuel: nat)
    requires Paired(s, m) && NoStrayClose(s, OpKind, |s|) && c.instr <= |s|
    ensures Steps(s, m, c, fuel).1.instr <= |s|
    decreases fuel
  {
    if fuel > 0 && !Aborts(s, m, c) {
      StepStaysInProgram(s, m, c);
      var o := Next(s, m, c);
      if o.Continued? {
        ParsedRunInside(s, m, o.next, fuel - 1);
      }
    }
  }

  /** A decrement undoes an increment on a byte cell, and the other way round, wrapping
      between 255 and 0. */
  lemma SubUndoesAdd(p: seq<Op>, m: map<nat, Bracket>, c: Config)
    requires c.instr + 1 < |p| && c.pointer < |c.data|
    requires (p[c.instr] == Add && p[c.instr + 1] == Sub) || (p[c.instr] == Sub && p[c.instr + 1] == Add)
    ensures !Aborts(p, m, c) && Next(p, m, c).Continued?
    ensures var n := Next(p, m, c).next;
      !Aborts(p, m, n) && Next(p, m, n).Continued? && Next(p, m, n).next == c.(instr := c.instr + 2)
  {
    var n := Next(p, m, c).next;
    var n' := Next(p, m, n).next;
    assert n'.data == c.data;
  }

  /** Unlike `Prog`, an open that is never closed is accepted: the text `[` passes every
      check of the parser, and its only bracket map is empty. */
  lemma UnclosedOpenAccepted(decode: char -> Result<Op>, m: map<nat, Bracket>)
    requires decode('[') == Ok(Start) && Paired(Ops("[", decode), m)
    ensures Good("[", decode, 1) && NoStrayClose(Ops("[", decode), OpKind, 1)
    ensures !Balanced(Ops("[", decode), OpKind) && m == map[]
  {
    var s := Ops("[", decode);
    assert s == [Start];
    assert Depth(s, OpKind, 1) == 1;
    assert forall i, j :: !IsMatch(s, OpKind, i, j);
  }

  // ---------------------------------------------------------------------------------------
  // The interpreter object

  class Terp {
    var instr: nat
    var pointer: nat
    const data: array<Prog.Byte>
    const program: seq<Op>
    const stack: map<nat, Bracket>
    var input: seq<Prog.Byte>
    var output: seq<Prog.Byte>
    var room: nat

    /** The state that a run changes. */
    ghost function State(): Config
      reads this, data
    {
      Config(instr, pointer, data[..], input, output, room)
    }

    constructor Init(size: nat, program: seq<Op>, stack: map<nat, Bracket>, input: seq<Prog.Byte>, room: nat)
      ensures this.program == program && this.stack == stack && fresh(data)
      ensures State() == Config(0, 0, seq(size, _ => 0), input, [], room)
    {
      this.instr := 0;
      this.pointer := 0;
      this.data := new Prog.Byte[size](_ => 0);
      this.program := program;
      this.stack := stack;
      this.input := input;
      this.output := [];
      this.room := room;
    }

    /** `BFTerp::new`: parse the text and start at instruction 0, cell 0 of a tape of `size`
        zero bytes. It fails exactly when parsing fails. */
    static method New(size: nat, text: string, decode: char -> Result<Op>, input: seq<Prog.Byte>, room: nat)
      returns (r: Result<Terp>)
      ensures r.Ok? <==> Good(text, decode, |text|) && NoStrayClose(Ops(text, decode), OpKind, |text|)
      ensures r.Err? ==> exists k :: FailsAt(text, decode, k, r.error)
      ensures r.Ok? ==> fresh(r.value) && fresh(r.value.data)
      ensures r.Ok? ==> r.value.program == Ops(text, decode) && Paired(r.value.program, r.value.stack)
      ensures r.Ok? ==> r.value.State() == Config(0, 0, seq(size, _ => 0), input, [], room)
    {
      var parsed := ParseProgram(text, decode);
      if parsed.Err? {
        return Err(parsed.error);
      }
      var (program, stack) := parsed.value;
      var terp := new Terp.Init(size, program, stack, input, room);
      return Ok(terp);
    }

    /** `parse_program`: decode character by character and push each instruction, keeping
        a stack of pending opens. The first refused character returns the decoder's error,
        and a close with no pending open returns `Unmatched`; an open still pending at the
        end is accepted. On success the program is the decoded text and the map is
        `Paired`. */
    static method ParseProgram(text: string, decode: char -> Result<Op>)
      returns (r: Result<(seq<Op>, map<nat, Bracket>)>)
      ensures r.Ok? <==> Good(text, decode, |text|) && NoStrayClose(Ops(text, decode), OpKind, |text|)
      ensures r.Ok? ==> r.value.0 == Ops(text, decode) && Paired(r.value.0, r.value.1)
      ensures r.Err? ==> exists k :: FailsAt(text, decode, k, r.error)
    {
      ghost var s := Ops(text, decode);
      var program: seq<Op> := [];
      var stack: map<nat, Bracket> := map[];
      var brackets: seq<nat> := [];
      ghost var idx: map<nat, nat> := map[];
      for i := 0 to |text|
        invariant Good(text, decode, i) && program == s[..i]
        invariant Partial(s, OpKind, i, brackets, idx) && stack == AsBrackets(idx)
      {
        var decoded := decode(text[i]);
        if decoded.Err? {
          assert FailsAt(text, decode, i, decoded.error);
          FailsAtEnds(text, decode, i, decoded.error, |text|);
          return Err(decoded.error);
        }
        OpsPrefix(text, decode, i);
        program := program + [decoded.value];
        var ok;
        ok, brackets, stack, idx := Record(s, i, decoded.value, brackets, stack, idx);
        if !ok {
          assert FailsAt(text, decode, i, Unmatched);
          FailsAtEnds(text, decode, i, Unmatched, |text|);
          return Err(Unmatched);
        }
      }
      PartialPaired(s, brackets, idx);
      assert program == s;
      return Ok((program, stack));
    }

    /** The bracket bookkeeping of `parse_program` for the instruction at position `i`: an
        open is pushed; a close pops its open and records the pair under both positions,
        or fails when no open is pending. */
    static method Record(ghost s: seq<Op>, i: nat, op: Op, brackets: seq<nat>, stack: map<nat, Bracket>,
                         ghost idx: map<nat, nat>)
      returns (ok: bool, brackets': seq<nat>, stack': map<nat, Bracket>, ghost idx': map<nat, nat>)
      requires i < |s| && s[i] == op && Partial(s, OpKind, i, brackets, idx) && stack == AsBrackets(idx)
      ensures ok <==> !(op == Stop && brackets == [])
      ensures ok ==> Partial(s, OpKind, i + 1, brackets', idx') && stack' == AsBrackets(idx')
      ensures !ok ==> Depth(s, OpKind, i) == 0
    {
      ok, brackets', stack', idx' := true, brackets, stack, idx;
      if op == Start {
        PartialOpen(s, OpKind, i, brackets, idx);
        brackets' := brackets + [i];
        return;
      }
      if op == Stop {
        if brackets != [] {
          PartialClose(s, OpKind, i, brackets, idx);
          var matching := brackets[|brackets| - 1];
          brackets' := brackets[..|brackets| - 1];
          AsBracketsClose(idx, matching, i);
          idx' := idx[i := matching][matching := i];
          var brack := Bracket(matching, i);
          stack' := stack[i := brack][matching := brack];
        } else {
          ok := false;
        }
      } else {
        PartialPlain(s, OpKind, i, brackets, idx);
      }
    }

    /** `run` with a budget of `fuel` rounds: it does exactly what `Steps` says, leaving the
        program and the bracket map alone. */
    method Run(fuel: nat) returns (status: Prog.Status)
      modifies this, data
      ensures (status, State()) == Steps(program, stack, old(State()), fuel)
    {
      var f := fuel;
      while true
        invariant Steps(program, stack, old(State()), fuel) == Steps(program, stack, State(), f)
        decreases f
      {
        if f == 0 {
          return Prog.OutOfFuel;
        }
        if Aborts(program, stack, Config(instr, pointer, data[..], input, output, room)) {
          return Prog.Aborted;
        }
        var r := Round();
        match r
        case Err(e) =>
          return Prog.Errored(e);
        case Ok(true) =>
          return Prog.Halted;
        case Ok(false) =>
          f := f - 1;
      }
    }

    /** One round of the `run` loop on the interpreter's own fields: it does exactly what
        `Next` says, reporting `Ok(true)` at the end of the program. */
    method Round() returns (r: Result<bool>)
      requires !Aborts(program, stack, State())
      modifies this, data
      ensures match Next(program, stack, old(State()))
        case Finished => r == Ok(true) && State() == old(State())
        case Failed(e) => r == Err(e) && State() == old(State())
        case Continued(n) => r == Ok(false) && State() == n
    {
      if instr == |program| {
        return Ok(true);
      }
      var cell := data[pointer];
      match program[instr] {
        case Add =>
          data[pointer] := (cell + 1) % 256;
        case Sub =>
          data[pointer] := (cell - 1) % 256;
        case Left =>
          pointer := pointer - 1;
        case Right =>
          pointer := pointer + 1;
        case Start =>
          var bracket := stack[instr];
          if cell == 0 {
            instr := bracket.end;
          }
        case Stop =>
          var bracket := stack[instr];
          if cell != 0 {
            instr := bracket.start;
          }
        case Input =>
          if input == [] {
            return Err(IO);
          }
          data[pointer] := input[0];
          input := input[1..];
        case Output =>
          if room == 0 {
            return Err(IO);
          }
          output := output + [cell];
          room := room - 1;
      }
      instr := instr + 1;
      return Ok(false);
    }
  }
}
