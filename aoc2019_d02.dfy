/** 2019 day 2: an Intcode program. Instructions are four cells wide: an
    opcode (1 adds, 2 multiplies, 99 halts) and three cell addresses. Part A
    runs the program with cells 1 and 2 set to 12 and 2; part B searches for
    the noun and verb that make it output 19690720. */
module Aoc2019D02 {
  import opened Wrappers
  import opened Text

  const OP_SUM: int := 1
  const OP_PRODUCT: int := 2
  const OP_HALT: int := 99
  const OP_ERROR: int := -1

  /** The output part B looks for. */
  const TARGET: int := 19690720

  // ---------------------------------------------------------------------
  // parse_input

  predicate AllSpace(s: string) {
    forall k :: 0 <= k < |s| ==> IsSpace(s[k])
  }

  /** `std::stoll` of one piece, which may be followed only by whitespace. */
  function ParseValue(piece: string): (r: Result<int>)
    ensures r.Ok? ==> ReadSigned(piece).Got? && r.value == ReadSigned(piece).value
  {
    var v := ReadSigned(piece);
    if v.Stuck? || !AllSpace(v.rest) then Err(ParseError("")) else Ok(v.value)
  }

  /** The values of the pieces, in order; the first bad piece fails. */
  function ParseValues(pieces: seq<string>): (r: Result<seq<int>>)
    ensures r.Ok? ==> |r.value| == |pieces|
    ensures r.Ok? ==> forall k :: 0 <= k < |pieces| ==> ParseValue(pieces[k]) == Ok(r.value[k])
  {
    if pieces == [] then Ok([])
    else
      var first := ParseValue(pieces[0]);
      if first.Err? then Err(first.error)
      else
        var others := ParseValues(pieces[1..]);
        if others.Err? then Err(others.error) else Ok([first.value] + others.value)
  }

  /** `in.resize(((in.size() + 3) >> 2) << 2, OP_ERROR)`. */
  function Pad(xs: seq<int>): (r: seq<int>)
    ensures |r| % 4 == 0 && |xs| <= |r| < |xs| + 4
    ensures r[..|xs|] == xs
    ensures forall k :: |xs| <= k < |r| ==> r[k] == OP_ERROR
  {
    xs + seq((|xs| + 3) / 4 * 4 - |xs|, _ => OP_ERROR)
  }

  /** A program as `parse_input` leaves it: whole instructions, at least
      one. */
  predicate Padded(program: seq<int>) {
    |program| > 0 && |program| % 4 == 0
  }

  /** `parse_input`: the `','`-separated pieces `std::getline` returns, each
      a number; at least one is needed, and the program is padded with
      `OP_ERROR` to whole instructions. */
  function ParseInput(text: string): (r: Result<seq<int>>)
    ensures r.Ok? ==> Padded(r.value)
    ensures r.Ok? <==> ParseValues(Split(text, ',')).Ok? && Split(text, ',') != []
    ensures r.Ok? ==> r.value == Pad(ParseValues(Split(text, ',')).value)
  {
    var values := ParseValues(Split(text, ','));
    if values.Err? then Err(values.error)
    else if values.value == [] then Err(ParseError(""))
    else Ok(Pad(values.value))
  }

  /** The numbers of a program, each followed by a comma. */
  function Render(xs: seq<int>): seq<string> {
    seq(|xs|, k requires 0 <= k < |xs| => IntToString(xs[k]))
  }

  /** A non-empty program written as comma-terminated numbers parses back
      to itself, padded. */
  lemma ParseInputRender(xs: seq<int>)
    requires xs != []
    ensures ParseInput(Terminated(Render(xs), ',')) == Ok(Pad(xs))
  {
    var pieces := Render(xs);
    forall k | 0 <= k < |pieces|
      ensures ',' !in pieces[k]
    {
      NoCommaIn(xs[k]);
    }
    SplitOfTerminated(pieces, ',');
    ParseValuesRender(xs);
    assert ParseValues(Split(Terminated(pieces, ','), ',')) == Ok(xs);
  }

  /** A written number holds no comma. */
  lemma NoCommaIn(x: int)
    ensures ',' !in IntToString(x)
  {
    NatToStringDigits(if x < 0 then -x else x);
  }

  lemma ParseValuesRender(xs: seq<int>)
    ensures ParseValues(Render(xs)) == Ok(xs)
  {
    forall k | 0 <= k < |xs|
      ensures ParseValue(Render(xs)[k]) == Ok(xs[k])
    {
      ParseValueRender(xs[k]);
    }
    ParseValuesOk(Render(xs), xs);
  }

  /** Pieces that each parse make the whole list parse. */
  lemma {:induction false} ParseValuesOk(pieces: seq<string>, xs: seq<int>)
    requires |pieces| == |xs|
    requires forall k :: 0 <= k < |xs| ==> ParseValue(pieces[k]) == Ok(xs[k])
    ensures ParseValues(pieces) == Ok(xs)
  {
    if xs != [] {
      ParseValuesOk(pieces[1..], xs[1..]);
      assert [xs[0]] + xs[1..] == xs;
    }
  }

  /** A number on its own reads back. */
  lemma ParseValueRender(x: int)
    ensures ParseValue(IntToString(x)) == Ok(x)
  {
    ReadSignedIntToString(x, []);
    assert IntToString(x) + [] == IntToString(x);
  }

  // ---------------------------------------------------------------------
  // run

  /** The machine between instructions: running with a memory and a
      program counter, or stopped with an output or without one. */
  datatype Machine = Running(mem: seq<int>, pc: nat) | Halted(output: int) | Failed

  predicate InRange(mem: seq<int>, a: int) {
    0 <= a < |mem|
  }

  /** One iteration of `run`'s loop: past the end nothing is output; an
      addition or multiplication with its three addresses in range stores
      its result and moves on four cells; 99 outputs cell 0; any other
      opcode, or an address out of range, outputs nothing. */
  function Step(m: Machine): (r: Machine)
    requires m.Running? ==> |m.mem| % 4 == 0 && m.pc % 4 == 0
    ensures !m.Running? ==> r == m
    ensures m.Running? && r.Running? ==>
              |r.mem| == |m.mem| && r.pc == m.pc + 4 && r.pc <= |r.mem| && r.pc % 4 == 0
  {
    if !m.Running? then m
    else if m.pc >= |m.mem| then Failed
    else
      var mem, pc := m.mem, m.pc;
      var op := mem[pc];
      if op == OP_SUM || op == OP_PRODUCT then
        var a, b, c := mem[pc + 1], mem[pc + 2], mem[pc + 3];
        if !InRange(mem, a) || !InRange(mem, b) || !InRange(mem, c) then Failed
        else Running(mem[c := if op == OP_SUM then mem[a] + mem[b] else mem[a] * mem[b]], pc + 4)
      else if op == OP_HALT then Halted(mem[0])
      else Failed
  }

  /** What `run` returns from a machine: it steps until it stops. */
  function Exec(mem: seq<int>, pc: nat): (r: Option<int>)
    requires |mem| % 4 == 0 && pc % 4 == 0
    ensures pc >= |mem| ==> r == None
    ensures pc < |mem| && mem[pc] == OP_HALT ==> r == Some(mem[0])
    ensures pc < |mem| && mem[pc] != OP_SUM && mem[pc] != OP_PRODUCT && mem[pc] != OP_HALT ==> r == None
    decreases |mem| - pc
  {
    var next := Step(Running(mem, pc));
    if next.Running? then Exec(next.mem, next.pc)
    else if next.Halted? then Some(next.output)
    else None
  }

  /** `n` steps of the machine. */
  function Iterate(m: Machine, n: nat): Machine
    requires m.Running? ==> |m.mem| % 4 == 0 && m.pc % 4 == 0
    decreases n
  {
    if n == 0 then m else Iterate(Step(m), n - 1)
  }

  function Outcome(r: Option<int>): Machine {
    match r
    case Some(v) => Halted(v)
    case None => Failed
  }

  /** The program counter only moves forward, so `run` stops within one
      step more than the number of instructions, and its result is the
      machine's state from then on. */
  lemma {:induction false} ExecIterate(mem: seq<int>, pc: nat, n: nat)
    requires |mem| % 4 == 0 && pc % 4 == 0 && pc <= |mem|
    requires n >= (|mem| - pc) / 4 + 1
    ensures Iterate(Running(mem, pc), n) == Outcome(Exec(mem, pc))
    decreases |mem| - pc
  {
    var next := Step(Running(mem, pc));
    if next.Running? {
      ExecIterate(next.mem, next.pc, n - 1);
    } else {
      StoppedStays(next, n - 1);
    }
  }

  /** A stopped machine stays stopped. */
  lemma {:induction false} StoppedStays(m: Machine, n: nat)
    requires !m.Running?
    ensures Iterate(m, n) == m
  {
    if n > 0 {
      StoppedStays(m, n - 1);
    }
  }

  /** An instruction changes at most the cell it stores to. */
  lemma StepStores(mem: seq<int>, pc: nat, k: nat)
    requires |mem| % 4 == 0 && pc % 4 == 0
    requires Step(Running(mem, pc)).Running?
    requires k < |mem| && k != mem[pc + 3]
    ensures Step(Running(mem, pc)).mem[k] == mem[k]
  {
  }

  /** The example program of the puzzle: 3500 ends up in cell 0. */
  lemma ExecExample()
    ensures Exec([1, 9, 10, 3, 2, 3, 11, 0, 99, 30, 40, 50], 0) == Some(3500)
  {
    var m0 := [1, 9, 10, 3, 2, 3, 11, 0, 99, 30, 40, 50];
    var m1 := m0[3 := 70];
    var m2 := m1[0 := 3500];
    assert Step(Running(m0, 0)) == Running(m1, 4);
    assert Step(Running(m1, 4)) == Running(m2, 8);
    assert Step(Running(m2, 8)) == Halted(3500);
  }

  /** `run`: the program is taken by value, into memory of its own, and
      executed instruction by instruction from address 0. */
  method Run(program: seq<int>) returns (r: Option<int>)
    requires |program| % 4 == 0
    ensures r == Exec(program, 0)
  {
    var mem := new int[|program|](k requires 0 <= k < |program| => program[k]);
    assert mem[..] == program;
    var pc := 0;
    while pc < mem.Length
      invariant pc % 4 == 0 && pc <= mem.Length == |program|
      invariant Exec(mem[..], pc) == Exec(program, 0)
      decreases mem.Length - pc
    {
      var op := mem[pc];
      if op == OP_SUM || op == OP_PRODUCT {
        ghost var before := mem[..];
        var ok := Store(mem, pc);
        if !ok {
          return None;
        }
        assert Step(Running(before, pc)) == Running(mem[..], pc + 4);
      } else if op == OP_HALT {
        return Some(mem[0]);
      } else {
        return None;
      }
      pc := pc + 4;
    }
    return None;
  }

  /** The body of `run` for an addition or a multiplication: the three
      addresses must lie in memory, and the result is stored through the
      third. */
  method Store(mem: array<int>, pc: nat) returns (ok: bool)
    requires mem.Length % 4 == 0 && pc % 4 == 0 && pc < mem.Length
    requires mem[pc] == OP_SUM || mem[pc] == OP_PRODUCT
    modifies mem
    ensures ok ==> Step(Running(old(mem[..]), pc)) == Running(mem[..], pc + 4)
    ensures !ok ==> Step(Running(old(mem[..]), pc)) == Failed && mem[..] == old(mem[..])
  {
    var op := mem[pc];
    var a, b, c := mem[pc + 1], mem[pc + 2], mem[pc + 3];
    if a < 0 || a >= mem.Length || b < 0 || b >= mem.Length || c < 0 || c >= mem.Length {
      return false;
    }
    var x := mem[a];
    var y := mem[b];
    ghost var before := mem[..];
    mem[c] := if op == OP_SUM then x + y else x * y;
    assert mem[..] == before[c := if op == OP_SUM then x + y else x * y];
    return true;
  }

  // ---------------------------------------------------------------------
  // resultA and resultB

  /** The program with cell 1 (the noun) and cell 2 (the verb) replaced. */
  function Patch(program: seq<int>, noun: int, verb: int): (p: seq<int>)
    requires Padded(program)
    ensures |p| == |program| && Padded(p)
    ensures p[1] == noun && p[2] == verb
    ensures forall k :: 0 <= k < |p| && k != 1 && k != 2 ==> p[k] == program[k]
  {
    program[1 := noun][2 := verb]
  }

  /** `resultA`: the output with noun 12 and verb 2. */
  method ResultA(program: seq<int>) returns (r: Option<int>)
    requires Padded(program)
    ensures r == Exec(Patch(program, 12, 2), 0)
  {
    var mem := program;
    mem := mem[1 := 12];
    mem := mem[2 := 2];
    r := Run(mem);
  }

  /** The run for `noun` and `verb` outputs the target (`value_or(0)`). */
  predicate Hits(program: seq<int>, noun: int, verb: int)
    requires Padded(program)
  {
    Exec(Patch(program, noun, verb), 0).GetOr(0) == TARGET
  }

  /** No pair before (`noun`, `verb`) in the search order hits. */
  predicate NoHitBefore(program: seq<int>, noun: int, verb: int)
    requires Padded(program)
  {
    forall n, v :: 0 <= n < 100 && 0 <= v < 100 && (n < noun || (n == noun && v < verb))
      ==> !Hits(program, n, v)
  }

  /** One step of `resultB`'s search: `in[1] = noun; in[2] = verb;` and a
      run, whose output (`value_or(0)`) is compared with the target. */
  method TryPair(program: seq<int>, mem: seq<int>, noun: int, verb: int) returns (mem': seq<int>, hit: bool)
    requires Padded(program) && |mem| == |program| && mem[0] == program[0] && mem[3..] == program[3..]
    ensures |mem'| == |program| && mem'[0] == program[0] && mem'[3..] == program[3..]
    ensures hit <==> Hits(program, noun, verb)
  {
    mem' := mem[1 := noun];
    mem' := mem'[2 := verb];
    PatchedIs(program, mem', noun, verb);
    var result := Run(mem');
    hit := result.GetOr(0) == TARGET;
  }

  /** `resultB`: the nouns, then the verbs, from 0 to 99; the first pair
      whose run outputs the target gives `100 * noun + verb`. */
  /** Memory that agrees with the program outside the noun and the verb is
      the patched program. */
  lemma PatchedIs(program: seq<int>, mem: seq<int>, noun: int, verb: int)
    requires Padded(program) && |mem| == |program|
    requires mem[0] == program[0] && mem[1] == noun && mem[2] == verb && mem[3..] == program[3..]
    ensures mem == Patch(program, noun, verb)
  {
    forall k | 3 <= k < |mem|
      ensures mem[k] == program[k]
    {
      assert mem[3..][k - 3] == program[3..][k - 3];
    }
  }

  method ResultB(program: seq<int>) returns (r: Option<nat>)
    requires Padded(program)
    ensures r.None? <==> NoHitBefore(program, 100, 0)
    ensures r.Some? ==> r.value < 10000 && Hits(program, r.value / 100, r.value % 100)
                        && NoHitBefore(program, r.value / 100, r.value % 100)
  {
    var mem := program;
    for noun := 0 to 100
      invariant |mem| == |program| && mem[0] == program[0] && mem[3..] == program[3..]
      invariant NoHitBefore(program, noun, 0)
    {
      for verb := 0 to 100
        invariant |mem| == |program| && mem[0] == program[0] && mem[3..] == program[3..]
        invariant NoHitBefore(program, noun, verb)
      {
        var hit;
        mem, hit := TryPair(program, mem, noun, verb);
        if hit {
          var code := 100 * noun + verb;
          assert code / 100 == noun && code % 100 == verb;
          return Some(code);
        }
      }
    }
    return None;
  }
}
