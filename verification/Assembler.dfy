/** The machine code that sasm emits (programs/sasm/sasm.c), and a decoder for it
    after the Intel SDM, volume 2A, section 2.2.1. */
module Assembler {

  /** Registers are numbered as the code encodes them. */
  type Register = r: bv8 | r < 16

  datatype Instruction = Ret | Push(reg: Register) | Pop(reg: Register) | Mov(dst: Register, src: Register)

  // ----- Register names -----------------------------------------------------------

  const NAMES: seq<string> :=
    ["rax", "rcx", "rdx", "rbx", "rsp", "rbp", "rsi", "rdi", "r8", "r9", "r10", "r11", "r12", "r13", "r14", "r15"]

  /** parse_register: the position of the name, or -1. */
  function ParseRegister(name: string): (r: int)
    ensures -1 <= r < 16
  {
    if name == "rax" then 0
    else if name == "rcx" then 1
    else if name == "rdx" then 2
    else if name == "rbx" then 3
    else if name == "rsp" then 4
    else if name == "rbp" then 5
    else if name == "rsi" then 6
    else if name == "rdi" then 7
    else if name == "r8" then 8
    else if name == "r9" then 9
    else if name == "r10" then 10
    else if name == "r11" then 11
    else if name == "r12" then 12
    else if name == "r13" then 13
    else if name == "r14" then 14
    else if name == "r15" then 15
    else -1
  }

  lemma NameParses(r: nat)
    requires r < 16
    ensures ParseRegister(NAMES[r]) == r
  {
    var n := NAMES[r];
    assert |n| == if r == 8 || r == 9 then 2 else 3;
    assert r >= 8 ==> n[1] == '8' || n[1] == '9' || n[1] == '1';
  }

  /** Each register has its own name, and nothing else is one. */
  lemma NamesExact(name: string, r: nat)
    requires r < 16
    ensures ParseRegister(name) == r <==> name == NAMES[r]
  {
    if name == NAMES[r] { NameParses(r); }
  }

  // ----- Encoding -------------------------------------------------------------------

  /** make_modrm. */
  function ModRm(mod: bv8, reg: bv8, rm: bv8): bv8 {
    (mod << 6) | ((reg & 7) << 3) | (rm & 7)
  }

  function NeedsRex(r: bv8): bool { r >= 8 }

  function Encode(i: Instruction): (code: seq<bv8>)
    ensures 1 <= |code| <= 3
  {
    match i
    case Ret => [0xC3]
    case Push(reg) =>
      var r: bv8 := reg;
      (if NeedsRex(r) then [0x41] else []) + [0x50 + (r & 7)]
    case Pop(reg) =>
      var r: bv8 := reg;
      (if NeedsRex(r) then [0x41] else []) + [0x58 + (r & 7)]
    case Mov(dst, src) =>
      var d: bv8, s: bv8 := dst, src;
      [0x48 | (if NeedsRex(s) then 0x04 else 0) | (if NeedsRex(d) then 0x01 else 0), 0x89, ModRm(3, s, d)]
  }

  /** The code of every instruction, by numbers: a prefix with the fourth bits of the
      registers and the low three bits in the last byte. */
  lemma {:induction false} CodeBytes(dst: Register, src: Register)
    ensures Encode(Ret) == [0xC3]
    ensures Encode(Push(dst)) == if dst < 8 then [0x50 + dst] else [0x41, 0x50 + (dst - 8)]
    ensures Encode(Pop(dst)) == if dst < 8 then [0x58 + dst] else [0x41, 0x58 + (dst - 8)]
    ensures var d: bv8, s: bv8 := dst, src;
            Encode(Mov(dst, src)) == [0x48 + s / 8 * 4 + d / 8, 0x89, 0xC0 + s % 8 * 8 + d % 8]
  {
  }

  function EncodeAll(program: seq<Instruction>): seq<bv8> {
    if program == [] then [] else EncodeAll(program[..|program| - 1]) + Encode(program[|program| - 1])
  }

  // ----- Decoding as the manual says -------------------------------------------------

  datatype Decoded = Done(i: Instruction, length: nat) | Invalid

  /** 0x40 to 0x4F are REX prefixes: W, R, X, B from bit 3 down. */
  function Rex(code: seq<bv8>): bv8 {
    if code != [] && code[0] & 0xF0 == 0x40 then code[0] else 0
  }

  function Bits(high: bool, low: bv8): Register {
    (if high then 8 else 0) | (low & 7)
  }

  /** The instruction at the front of a byte stream. */
  function Decode(code: seq<bv8>): Decoded {
    var rex := Rex(code);
    var at := if rex != 0 then 1 else 0;
    if |code| <= at then Invalid
    else
      var op := code[at];
      if op == 0xC3 then Done(Ret, at + 1)
      else if op & 0xF8 == 0x50 then Done(Push(Bits(rex & 1 != 0, op)), at + 1)
      else if op & 0xF8 == 0x58 then Done(Pop(Bits(rex & 1 != 0, op)), at + 1)
      else if op == 0x89 && |code| > at + 1 && rex & 8 != 0 && code[at + 1] & 0xC0 == 0xC0 then
        var m := code[at + 1];
        Done(Mov(Bits(rex & 1 != 0, m), Bits(rex & 4 != 0, m >> 3)), at + 2)
      else Invalid
  }

  function DecodeAll(code: seq<bv8>): seq<Instruction>
    decreases |code|
  {
    match Decode(code)
    case Invalid => []
    case Done(i, n) => if 0 < n <= |code| then [i] + DecodeAll(code[n..]) else []
  }

  lemma {:induction false} RegisterBits(reg: Register, op: bv8)
    requires op == 0x50 || op == 0x58
    ensures var r: bv8 := reg;
            && (op + (r & 7)) & 0xF8 == op && op + (r & 7) != 0xC3 && (op + (r & 7)) & 0xF0 != 0x40
            && Bits(NeedsRex(r), op + (r & 7)) == reg
  {
  }

  lemma {:induction false} MovBits(dst: Register, src: Register)
    ensures var d: bv8, s: bv8 := dst, src;
            var rex: bv8 := 0x48 | (if NeedsRex(s) then 0x04 else 0) | (if NeedsRex(d) then 0x01 else 0);
            var m := ModRm(3, s, d);
            && rex & 0xF0 == 0x40 && rex & 8 != 0 && m & 0xC0 == 0xC0
            && Bits(rex & 1 != 0, m) == dst && Bits(rex & 4 != 0, m >> 3) == src
  {
  }

  /** One instruction, whatever follows it, decodes to itself and to its length. */
  lemma {:induction false} DecodesOne(i: Instruction, rest: seq<bv8>)
    ensures Decode(Encode(i) + rest) == Done(i, |Encode(i)|)
  {
    hide Bits, ModRm, NeedsRex;
    match i
    case Ret =>
    case Push(reg) => RegisterBits(reg, 0x50);
    case Pop(reg) => RegisterBits(reg, 0x58);
    case Mov(dst, src) => MovBits(dst, src);
  }

  lemma {:induction false} EncodeCons(i: Instruction, program: seq<Instruction>)
    ensures EncodeAll([i] + program) == Encode(i) + EncodeAll(program)
  {
    hide Encode;
    if program == [] {
      assert [i] + program == [i] && EncodeAll([]) == [];
      assert [i][..0] == [];
    } else {
      var n := |program| - 1;
      EncodeCons(i, program[..n]);
      assert ([i] + program)[..n + 1] == [i] + program[..n];
    }
  }

  lemma NothingDecodes()
    ensures Decode([]) == Invalid
  {
  }

  /** The emitted stream decodes to the program it was made from. */
  lemma {:induction false} DecodesAll(program: seq<Instruction>)
    ensures DecodeAll(EncodeAll(program)) == program
  {
    hide Decode, Encode;
    if program == [] {
      NothingDecodes();
    } else {
      var i, rest := program[0], program[1..];
      assert program == [i] + rest;
      EncodeCons(i, rest);
      DecodesOne(i, EncodeAll(rest));
      assert (Encode(i) + EncodeAll(rest))[|Encode(i)|..] == EncodeAll(rest);
      DecodesAll(rest);
    }
  }

  /** The encoding is uniquely decodable: two programs with the same code are the
      same program. */
  lemma {:induction false} UniquelyDecodable(p: seq<Instruction>, q: seq<Instruction>)
    requires EncodeAll(p) == EncodeAll(q)
    ensures p == q
  {
    DecodesAll(p);
    DecodesAll(q);
  }

  // ----- The encoding loop -----------------------------------------------------------------

  lemma {:induction false} FitsSoFar(program: seq<Instruction>, n: nat)
    requires n <= |program|
    ensures |EncodeAll(program[..n])| <= |EncodeAll(program)|
    decreases |program| - n
  {
    if n == |program| {
      assert program[..n] == program;
    } else {
      assert program[..n + 1][..n] == program[..n];
      FitsSoFar(program, n + 1);
    }
  }

  method Emit(i: Instruction, output: array<bv8>, at: nat) returns (codePos: nat)
    requires at + |Encode(i)| <= output.Length
    modifies output
    ensures codePos == at + |Encode(i)|
    ensures output[..codePos] == old(output[..at]) + Encode(i)
    ensures output[codePos..] == old(output[codePos..])
  {
    hide ModRm, NeedsRex;
    codePos := at;
    match i
    case Ret =>
      output[codePos] := 0xC3;
      codePos := codePos + 1;
    case Push(reg) =>
      var r: bv8 := reg;
      if NeedsRex(r) {
        output[codePos] := 0x41;
        codePos := codePos + 1;
      }
      output[codePos] := 0x50 + (r & 7);
      codePos := codePos + 1;
    case Pop(reg) =>
      var r: bv8 := reg;
      if NeedsRex(r) {
        output[codePos] := 0x41;
        codePos := codePos + 1;
      }
      output[codePos] := 0x58 + (r & 7);
      codePos := codePos + 1;
    case Mov(dst, src) =>
      var d: bv8, s: bv8 := dst, src;
      var rex: bv8 := 0x48;
      if NeedsRex(s) { rex := rex | 0x04; }
      if NeedsRex(d) { rex := rex | 0x01; }
      output[codePos] := rex;
      output[codePos + 1] := 0x89;
      output[codePos + 2] := ModRm(3, s, d);
      codePos := codePos + 3;
  }

  /** The bytes that main appends for each line; the buffer is not checked there. */
  method Assemble(program: seq<Instruction>, output: array<bv8>) returns (codePos: nat)
    requires |EncodeAll(program)| <= output.Length
    modifies output
    ensures codePos == |EncodeAll(program)| && output[..codePos] == EncodeAll(program)
    ensures output[codePos..] == old(output[codePos..])
  {
    hide Encode;
    codePos := 0;
    var line := 0;
    while line < |program|
      invariant 0 <= line <= |program| && codePos == |EncodeAll(program[..line])| <= output.Length
      invariant output[..codePos] == EncodeAll(program[..line])
      invariant output[codePos..] == old(output[..])[codePos..]
    {
      assert program[..line + 1][..line] == program[..line];
      FitsSoFar(program, line + 1);
      codePos := Emit(program[line], output, codePos);
      line := line + 1;
    }
    assert program[..line] == program;
  }
}
