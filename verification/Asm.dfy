/** The two-pass label assembler of core/asm/compiler.go and the disassembler of
    core/asm/asm.go. */
module Asm {
  import opened Bytes
  import opened EvmCode
  import opened Seqs

  /** Tokens of the lexer. A number carries its minimal big-endian bytes, a string the
      bytes between its quotes; elements are told apart as the compiler tells them. */
  datatype Token =
    | Eof | LineStart | LineEnd | Invalid
    | JumpElem(op: byte) | PushElem | OpElem(op: byte)
    | Label(name: string) | LabelDef(name: string)
    | Number(num: seq<byte>) | StringValue(text: seq<byte>)

  /** What Compile turns to hex: opcodes and byte slices. A Go string is skipped. */
  datatype Chunk = Op(op: byte) | Data(b: seq<byte>) | Text(s: seq<byte>)

  function ChunkBytes(c: Chunk): seq<byte> {
    match c
    case Op(op) => [op]
    case Data(b) => b
    case Text(_) => []
  }

  function Binary(cs: seq<Chunk>): seq<byte> {
    if cs == [] then [] else Binary(cs[..|cs| - 1]) + ChunkBytes(cs[|cs| - 1])
  }

  /** The bytes the first pass counts for a token that follows prev. */
  function Width(prev: Token, t: Token): nat {
    match t
    case Number(num) => |num|
    case StringValue(text) => |text|
    case JumpElem(_) => 1
    case PushElem => 1
    case OpElem(_) => 1
    case LabelDef(_) => 1
    case Label(_) => if prev.JumpElem? then 5 else 4
    case _ => 0
  }

  function Prev(ts: seq<Token>, k: nat): Token
    requires k <= |ts|
  {
    if k == 0 then Eof else ts[k - 1]
  }

  /** First-pass counter after the first k tokens. */
  function Count(ts: seq<Token>, k: nat): nat
    requires k <= |ts|
  {
    if k == 0 then 0 else Count(ts, k - 1) + Width(Prev(ts, k - 1), ts[k - 1])
  }

  /** Bytes the first pass counts but the second pass does not emit: the text of a
      string after a jump. */
  function Lost(prev: Token, t: Token): nat {
    if prev.JumpElem? && t.StringValue? then |t.text| else 0
  }

  function Loss(ts: seq<Token>, k: nat): nat
    requires k <= |ts|
  {
    if k == 0 then 0 else Loss(ts, k - 1) + Lost(Prev(ts, k - 1), ts[k - 1])
  }

  /** Addresses the first pass records: the last definition of a name counts. */
  function LabelsOf(ts: seq<Token>, k: nat): map<string, nat>
    requires k <= |ts|
  {
    if k == 0 then map[]
    else if ts[k - 1].LabelDef? then LabelsOf(ts, k - 1)[ts[k - 1].name := Count(ts, k - 1)]
    else LabelsOf(ts, k - 1)
  }

  /** As the lexer delivers them: numbers are not empty and Eof comes last. A jump is
      not followed by an empty string: slicing its quotes off makes the source panic. */
  ghost predicate Lexed(ts: seq<Token>) {
    && ts != [] && ts[|ts| - 1] == Eof
    && (forall i | 0 <= i < |ts| :: ts[i].Number? ==> 1 <= |ts[i].num| <= 32)
    && (forall i | 0 <= i < |ts| :: ts[i].JumpElem? ==> ts[i].op == 0x56 || ts[i].op == 0x57)
    && (forall i | 0 < i < |ts| :: ts[i - 1].JumpElem? && ts[i].StringValue? ==> ts[i].text != [])
  }

  /** Jumps take a label or nothing, and no bare PUSHn mnemonic is used. */
  ghost predicate Clean(ts: seq<Token>) {
    && (forall i | 0 < i < |ts| :: ts[i - 1].JumpElem? ==> ts[i].Label? || ts[i].LineEnd?)
    && (forall i | 0 <= i < |ts| :: ts[i].OpElem? ==> PushLen(ts[i].op) == 0)
  }

  /** An instruction and its push data. */
  datatype Instr = Instr(op: byte, arg: seq<byte>)

  ghost predicate Proper(ins: seq<Instr>) {
    forall i | 0 <= i < |ins| :: |ins[i].arg| == PushLen(ins[i].op)
  }

  function Code(ins: seq<Instr>): seq<byte> {
    if ins == [] then [] else Code(ins[..|ins| - 1]) + ([ins[|ins| - 1].op] + ins[|ins| - 1].arg)
  }

  lemma BinarySnoc(cs: seq<Chunk>, c: Chunk)
    ensures Binary(cs + [c]) == Binary(cs) + ChunkBytes(c)
  {
    assert (cs + [c])[..|cs|] == cs;
  }

  lemma CodeSnoc(ins: seq<Instr>, i: Instr)
    ensures Code(ins + [i]) == Code(ins) + ([i.op] + i.arg)
  {
    assert (ins + [i])[..|ins|] == ins;
  }

  /** The instruction at offset a is a JUMPDEST. */
  ghost predicate JumpdestAt(ins: seq<Instr>, a: nat) {
    exists j :: 0 <= j < |ins| && |Code(ins[..j])| == a && ins[j] == Instr(JUMPDEST, [])
  }

  lemma JumpdestKept(ins: seq<Instr>, more: seq<Instr>, a: nat)
    requires JumpdestAt(ins, a)
    ensures JumpdestAt(ins + more, a)
  {
    var j :| 0 <= j < |ins| && |Code(ins[..j])| == a && ins[j] == Instr(JUMPDEST, []);
    assert (ins + more)[..j] == ins[..j];
  }

  ghost predicate NoStringJump(ts: seq<Token>) {
    forall i | 0 < i < |ts| :: ts[i - 1].JumpElem? ==> !ts[i].StringValue?
  }

  lemma {:induction false} LossOnlyByStringJumps(ts: seq<Token>, k: nat)
    requires Lexed(ts) && k <= |ts|
    ensures Loss(ts, k) == 0 <==> forall i | 0 < i < k :: ts[i - 1].JumpElem? ==> !ts[i].StringValue?
  {
    if k > 0 {
      LossOnlyByStringJumps(ts, k - 1);
    }
  }

  lemma {:induction false} LabelsInRange(ts: seq<Token>, k: nat, name: string)
    requires k <= |ts| && name in LabelsOf(ts, k)
    ensures exists i :: 0 <= i < k && ts[i] == LabelDef(name) && LabelsOf(ts, k)[name] == Count(ts, i)
    ensures LabelsOf(ts, k)[name] <= Count(ts, k)
  {
    if ts[k - 1] == LabelDef(name) {
      assert LabelsOf(ts, k)[name] == Count(ts, k - 1);
    } else {
      LabelsInRange(ts, k - 1, name);
      var i :| 0 <= i < k - 1 && ts[i] == LabelDef(name) && LabelsOf(ts, k - 1)[name] == Count(ts, i);
      assert 0 <= i < k && ts[i] == LabelDef(name) && LabelsOf(ts, k)[name] == Count(ts, i);
    }
  }

  predicate IsOperand(t: Token) {
    t.Number? || t.StringValue? || t.Label?
  }

  predicate IsElement(t: Token) {
    t.JumpElem? || t.PushElem? || t.OpElem? || t.LabelDef?
  }

  /** The four bytes of a label's address. An unknown label has address 0. */
  function LabelBytes(labels: map<string, nat>, name: string): (r: seq<byte>)
    ensures |r| == 4
  {
    ToBE(if name in labels then labels[name] else 0, 4)
  }

  /** The bytes of a big.Int: none for zero. */
  function MinimalBytes(n: nat): seq<byte> {
    if n == 0 then [] else MinimalBytes(n / 256) + [n % 256]
  }

  /** Padding them on the left gives the number at a fixed width. */
  lemma {:induction false} LeftPadded(n: nat, k: nat)
    requires n < Pow256(k)
    ensures |MinimalBytes(n)| <= k && Zeros(k - |MinimalBytes(n)|) + MinimalBytes(n) == ToBE(n, k)
  {
    if n == 0 {
      ZeroBE(k);
    } else {
      LeftPadded(n / 256, k - 1);
      var pad := Zeros(k - |MinimalBytes(n)|);
      assert pad == Zeros(k - 1 - |MinimalBytes(n / 256)|);
      Assoc(pad, MinimalBytes(n / 256), [n % 256]);
    }
  }

  lemma {:induction false} ZeroBE(k: nat)
    ensures ToBE(0, k) == Zeros(k)
  {
    if k > 0 {
      ZeroBE(k - 1);
    }
  }

  /** No address needs more than four bytes; the source panics on those that do. */
  ghost predicate Addressable(labels: map<string, nat>) {
    forall name | name in labels :: labels[name] < 0x1_0000_0000
  }

  /** The bytes that an operand of PUSH stands for. */
  function Operand(labels: map<string, nat>, t: Token): seq<byte> {
    match t
    case Number(num) => num
    case StringValue(text) => text
    case Label(name) => LabelBytes(labels, name)
    case _ => []
  }

  function OperandSize(t: Token): nat {
    match t
    case Number(num) => |num|
    case StringValue(text) => |text|
    case Label(_) => 4
    case _ => 0
  }

  /** The bytes that an operand of a jump stands for: a string is lost. */
  function JumpOperand(labels: map<string, nat>, t: Token): seq<byte> {
    match t
    case Number(num) => num
    case Label(name) => [0x63] + LabelBytes(labels, name)
    case _ => []
  }

  /** The bytes that an element followed by the token next stands for: a jump comes
      behind its operand. */
  function ElementBytes(labels: map<string, nat>, t: Token, next: Token): seq<byte> {
    match t
    case JumpElem(op) => JumpOperand(labels, next) + [op]
    case PushElem => if OperandSize(next) > 32 then [] else [0x5f + OperandSize(next)] + Operand(labels, next)
    case OpElem(op) => [op]
    case LabelDef(_) => [JUMPDEST]
    case _ => []
  }

  /** The instructions that it stands for: PUSH4 of the address and the jump for a jump
      to a label, PUSHn of the operand for a push, JUMPDEST for a definition. */
  function ElementInstrs(labels: map<string, nat>, t: Token, next: Token): seq<Instr> {
    match t
    case JumpElem(op) =>
      (if next.Label? then [Instr(0x63, LabelBytes(labels, next.name))] else []) + [Instr(op, [])]
    case PushElem => if OperandSize(next) > 32 then [] else [Instr(0x5f + OperandSize(next), Operand(labels, next))]
    case OpElem(op) => [Instr(op, [])]
    case LabelDef(_) => [Instr(JUMPDEST, [])]
    case _ => []
  }

  function After(ts: seq<Token>, i: nat): Token {
    if i + 1 < |ts| then ts[i + 1] else Eof
  }

  /** The bytes that the first k tokens stand for. */
  function Emitted(ts: seq<Token>, labels: map<string, nat>, k: nat): seq<byte>
    requires k <= |ts|
  {
    if k == 0 then [] else Emitted(ts, labels, k - 1) + ElementBytes(labels, ts[k - 1], After(ts, k - 1))
  }

  /** The instructions that they stand for. */
  function Program(ts: seq<Token>, labels: map<string, nat>, k: nat): seq<Instr>
    requires k <= |ts|
  {
    if k == 0 then [] else Program(ts, labels, k - 1) + ElementInstrs(labels, ts[k - 1], After(ts, k - 1))
  }

  datatype Taken = Rejected | Taken(n: nat)

  /** How many operands an element takes, or that it is an error. */
  function TakenBy(t: Token, next: Token): Taken {
    match t
    case JumpElem(_) => if next.LineEnd? then Taken(0) else if IsOperand(next) then Taken(1) else Rejected
    case PushElem => if IsOperand(next) && OperandSize(next) <= 32 then Taken(1) else Rejected
    case OpElem(_) => Taken(0)
    case LabelDef(_) => Taken(0)
    case _ => Rejected
  }

  /** The number of tokens of the line at p, or 0 if it is an error. */
  function LineLength(ts: seq<Token>, p: nat): (n: nat)
    ensures p + n <= |ts| || n == 0
  {
    if p + 1 >= |ts| || ts[p] != LineStart then 0
    else if ts[p + 1] == Eof || ts[p + 1] == LineEnd then 2
    else
      var taken := TakenBy(ts[p + 1], After(ts, p + 1));
      if taken.Taken? && p + 2 + taken.n < |ts| && ts[p + 2 + taken.n] == LineEnd then 3 + taken.n else 0
  }

  /** Every line from p on is accepted. */
  predicate Compiles(ts: seq<Token>, p: nat)
    decreases |ts| - p
  {
    p >= |ts| || (LineLength(ts, p) > 0 && Compiles(ts, p + LineLength(ts, p)))
  }

  /** A jump with a string operand compiles. */
  lemma StringJumpCompiles()
    ensures var ts := [LineStart, JumpElem(0x56), StringValue([97]), LineEnd, LineStart, Eof];
            Lexed(ts) && Compiles(ts, 0) && !NoStringJump(ts)
  {
    var ts := [LineStart, JumpElem(0x56), StringValue([97]), LineEnd, LineStart, Eof];
    assert LineLength(ts, 0) == 4 && LineLength(ts, 4) == 2;
    assert Compiles(ts, 6) && Compiles(ts, 4);
    assert ts[1].JumpElem? && ts[2].StringValue?;
  }

  /** How long the bytes of an accepted element are, against the first pass. */
  lemma ElementSize(labels: map<string, nat>, t: Token, next: Token)
    requires TakenBy(t, next).Taken?
    ensures |ElementBytes(labels, t, next)| ==
            1 + if TakenBy(t, next).n == 0 then 0 else Width(t, next) - Lost(t, next)
  {
  }

  /** The bytes of an element of a clean program are those of its instructions. */
  lemma ElementCode(labels: map<string, nat>, t: Token, next: Token)
    requires TakenBy(t, next).Taken? && (t.JumpElem? ==> next.Label? || next.LineEnd?)
    requires t.JumpElem? ==> PushLen(t.op) == 0
    requires t.OpElem? ==> PushLen(t.op) == 0
    ensures Proper(ElementInstrs(labels, t, next))
    ensures Code(ElementInstrs(labels, t, next)) == ElementBytes(labels, t, next)
  {
    match t
    case JumpElem(op) =>
      JumpCode(labels, op, next);
    case PushElem =>
      CodeOne(0x5f + OperandSize(next), Operand(labels, next));
    case OpElem(op) =>
      CodeOne(op, []);
    case LabelDef(_) =>
      CodeOne(JUMPDEST, []);
  }

  lemma JumpCode(labels: map<string, nat>, op: byte, next: Token)
    requires PushLen(op) == 0 && (next.Label? || next.LineEnd?)
    ensures Proper(ElementInstrs(labels, JumpElem(op), next))
    ensures Code(ElementInstrs(labels, JumpElem(op), next)) == ElementBytes(labels, JumpElem(op), next)
  {
    CodeOne(op, []);
    if next.Label? {
      var push := Instr(0x63, LabelBytes(labels, next.name));
      CodeOne(push.op, push.arg);
      CodeSnoc([push], Instr(op, []));
    } else {
      assert [] + [Instr(op, [])] == [Instr(op, [])];
    }
  }

  lemma CodeOne(op: byte, arg: seq<byte>)
    ensures Code([Instr(op, arg)]) == [op] + arg
  {
    CodeSnoc([], Instr(op, arg));
    assert [] + [Instr(op, arg)] == [Instr(op, arg)];
  }

  class Compiler {
    var tokens: seq<Token>
    var binary: seq<Chunk>
    var labels: map<string, nat>
    var pc: nat
    var pos: nat

    constructor ()
      ensures tokens == [] && binary == [] && labels == map[] && pc == 0 && pos == 0
    {
      tokens, binary, labels, pc, pos := [], [], map[], 0, 0;
    }

    /** Feed: the first pass. */
    method Feed(ch: seq<Token>)
      requires tokens == [] && labels == map[] && pc == 0
      modifies this`tokens, this`labels, this`pc
      ensures tokens == ch && pc == Count(ch, |ch|) && labels == LabelsOf(ch, |ch|)
    {
      var prev := Eof;
      for k := 0 to |ch|
        invariant tokens == ch[..k] && prev == Prev(ch, k)
        invariant pc == Count(ch, k) && labels == LabelsOf(ch, k)
      {
        var i := ch[k];
        match i {
          case Number(num) => pc := pc + |num|;
          case StringValue(text) => pc := pc + |text|;
          case JumpElem(_) => pc := pc + 1;
          case PushElem => pc := pc + 1;
          case OpElem(_) => pc := pc + 1;
          case LabelDef(name) =>
            labels := labels[name := pc];
            pc := pc + 1;
          case Label(_) =>
            pc := pc + 4;
            if prev.JumpElem? {
              pc := pc + 1;
            }
          case _ =>
        }
        tokens := tokens + [i];
        prev := i;
      }
      assert ch[..|ch|] == ch;
    }

    /** As long as no error occurred: the code so far is what the tokens stand for. */
    ghost predicate InStep()
      reads this
    {
      pos <= |tokens| && Binary(binary) == Emitted(tokens, labels, pos)
    }

    method Next() returns (t: Token)
      requires pos < |tokens|
      modifies this`pos
      ensures pos == old(pos) + 1 && t == tokens[old(pos)]
    {
      t := tokens[pos];
      pos := pos + 1;
    }

    method PushBin(c: Chunk)
      modifies this`binary
      ensures Binary(binary) == Binary(old(binary)) + ChunkBytes(c)
    {
      BinarySnoc(binary, c);
      binary := binary + [c];
    }

    /** Emits one instruction. */
    method PushInstr(op: byte, arg: seq<byte>)
      modifies this`binary
      ensures Binary(binary) == Binary(old(binary)) + ([op] + arg)
    {
      Assoc(Binary(binary), [op], arg);
      PushBin(Op(op));
      if arg != [] {
        PushBin(Data(arg));
      }
    }

    /** The address of a label as the code builds it. */
    method AddressBytes(name: string) returns (bytes: seq<byte>)
      requires Addressable(labels)
      ensures bytes == LabelBytes(labels, name)
    {
      var address := if name in labels then labels[name] else 0;
      assert Pow256(4) == 0x1_0000_0000;
      LeftPadded(address, 4);
      bytes := MinimalBytes(address);
      bytes := Zeros(4 - |bytes|) + bytes;
    }

    /** compileElement for a jump: the operand is emitted before the jump. */
    method CompileJump(op: byte) returns (ok: bool)
      requires Addressable(labels) && Lexed(tokens) && pos < |tokens|
      modifies this`pos, this`binary
      ensures Accepted(JumpElem(op), ok, old(pos), old(Binary(binary)))
    {
      ghost var b0 := Binary(binary);
      var rvalue := Next();
      if rvalue.LineEnd? {
        pos := pos - 1;
      } else if IsOperand(rvalue) {
        PushOperand(rvalue);
      } else {
        return false;
      }
      Assoc(b0, JumpOperand(labels, rvalue), [op]);
      PushInstr(op, []);
      ok := true;
    }

    /** An element is accepted exactly if its operands are right; then it has emitted its
        bytes and taken its operands. */
    ghost predicate Accepted(t: Token, ok: bool, was: nat, code: seq<byte>)
      requires was < |tokens|
      reads this
    {
      var next := tokens[was];
      && (ok <==> TakenBy(t, next).Taken?)
      && was <= pos <= was + 1
      && (ok ==> && pos == was + TakenBy(t, next).n < |tokens|
                 && Binary(binary) == code + ElementBytes(labels, t, next))
    }

    /** The operand of a jump: a string is lost. */
    method PushOperand(rvalue: Token)
      requires Addressable(labels) && IsOperand(rvalue)
      modifies this`binary
      ensures Binary(binary) == Binary(old(binary)) + JumpOperand(labels, rvalue)
    {
      match rvalue {
        case Number(num) =>
          PushBin(Data(num));
        case StringValue(text) =>
          PushBin(Text(text));
        case Label(name) =>
          var address := AddressBytes(name);
          PushInstr(0x63, address);
      }
    }

    /** The operand of PUSH. */
    method ValueOf(rvalue: Token) returns (value: seq<byte>)
      requires Addressable(labels) && IsOperand(rvalue)
      ensures value == Operand(labels, rvalue)
    {
      match rvalue {
        case Number(num) => value := num;
        case StringValue(text) => value := text;
        case Label(name) => value := AddressBytes(name);
      }
    }

    /** compileElement for PUSH: the width of the operand selects PUSHn. */
    method CompilePush() returns (ok: bool)
      requires Addressable(labels) && Lexed(tokens) && pos < |tokens|
      modifies this`pos, this`binary
      ensures Accepted(PushElem, ok, old(pos), old(Binary(binary)))
    {
      var rvalue := Next();
      if !IsOperand(rvalue) {
        return false;
      }
      var value := ValueOf(rvalue);
      if |value| > 32 {
        return false;
      }
      PushInstr(0x5f + |value|, value);
      ok := true;
    }

    /** compileElement, and compileLabel for a label definition. */
    method CompileElement(lvalue: Token) returns (ok: bool)
      requires Addressable(labels) && Lexed(tokens) && pos < |tokens| && IsElement(lvalue)
      modifies this`pos, this`binary
      ensures Accepted(lvalue, ok, old(pos), old(Binary(binary)))
    {
      match lvalue {
        case JumpElem(op) =>
          ok := CompileJump(op);
        case PushElem =>
          ok := CompilePush();
        case OpElem(op) =>
          PushInstr(op, []);
          ok := true;
        case LabelDef(_) =>
          PushInstr(JUMPDEST, []);
          ok := true;
      }
    }

    /** compileLine: a line is accepted or reports an error; an accepted one keeps code and
        tokens in step. */
    method CompileLine() returns (ok: bool)
      requires Addressable(labels) && Lexed(tokens) && pos < |tokens|
      modifies this`pos, this`binary
      ensures old(pos) < pos <= |tokens|
      ensures ok <==> LineLength(tokens, old(pos)) > 0
      ensures ok ==> pos == old(pos) + LineLength(tokens, old(pos))
      ensures ok && old(InStep()) ==> InStep()
    {
      ghost var start := pos;
      var n := Next();
      if n != LineStart {
        return false;
      }
      var lvalue := Next();
      if lvalue == Eof || lvalue == LineEnd {
        SkipEmitted(tokens, labels, start);
        SkipEmitted(tokens, labels, start + 1);
        return true;
      }
      if !IsElement(lvalue) {
        return false;
      }
      ok := CompileStatement(lvalue, start);
    }

    /** The rest of a line that starts with an element. */
    method CompileStatement(lvalue: Token, ghost start: nat) returns (ok: bool)
      requires Addressable(labels) && Lexed(tokens) && start + 2 == pos < |tokens|
      requires tokens[start] == LineStart && tokens[start + 1] == lvalue && IsElement(lvalue)
      modifies this`pos, this`binary
      ensures old(pos) <= pos <= |tokens|
      ensures ok <==> LineLength(tokens, start) > 0
      ensures ok ==> pos == start + LineLength(tokens, start)
      ensures ok && old(Binary(binary)) == Emitted(tokens, labels, start) ==> InStep()
    {
      StatementLength(tokens, start);
      ok := CompileElement(lvalue);
      if !ok {
        return;
      }
      var n := Next();
      if n != LineEnd {
        return false;
      }
      IsLineOf(tokens, start, pos);
      EmittedLine(tokens, labels, start, pos);
    }

    /** Compile: the second pass over all lines. It reports no error exactly if every line
        is accepted; then the code is what the tokens stand for. */
    method Compile() returns (code: seq<byte>, errors: nat)
      requires Addressable(labels) && Lexed(tokens) && pos == 0 && binary == []
      modifies this`pos, this`binary
      ensures errors == 0 <==> Compiles(tokens, 0)
      ensures errors == 0 ==> code == Emitted(tokens, labels, |tokens|)
    {
      errors := 0;
      while pos < |tokens|
        invariant pos <= |tokens| && (errors == 0 ==> InStep())
        invariant Compiles(tokens, 0) <==> errors == 0 && Compiles(tokens, pos)
        decreases |tokens| - pos
      {
        var ok := CompileLine();
        if !ok {
          errors := errors + 1;
        }
      }
      code := Binary(binary);
    }
  }

  /** The code and the instructions for the first k tokens: the code has the length the
      first pass counted, every label definition sits at its recorded offset, and the
      code is a list of whole instructions. */
  ghost predicate Kept(ts: seq<Token>, k: nat, code: seq<byte>, ins: seq<Instr>)
    requires k <= |ts|
  {
    && |code| + Loss(ts, k) == Count(ts, k)
    && (NoStringJump(ts) ==> Counted(ts, k, code))
    && (Clean(ts) ==> Listed(ts, k, code, ins))
  }

  ghost predicate Counted(ts: seq<Token>, k: nat, code: seq<byte>)
    requires k <= |ts|
  {
    && |code| == Count(ts, k)
    && forall i | 0 <= i < k :: ts[i].LabelDef? ==> Count(ts, i) < |code| && code[Count(ts, i)] == JUMPDEST
  }

  ghost predicate Listed(ts: seq<Token>, k: nat, code: seq<byte>, ins: seq<Instr>)
    requires k <= |ts|
  {
    && code == Code(ins) && Proper(ins)
    && forall i | 0 <= i < k :: ts[i].LabelDef? ==> JumpdestAt(ins, Count(ts, i))
  }

  /** All lines from p on keep it. */
  lemma {:induction false} LinesKept(ts: seq<Token>, labels: map<string, nat>, p: nat)
    requires Lexed(ts) && p <= |ts| && Compiles(ts, p)
    requires Kept(ts, p, Emitted(ts, labels, p), Program(ts, labels, p))
    ensures Kept(ts, |ts|, Emitted(ts, labels, |ts|), Program(ts, labels, |ts|))
    decreases |ts| - p
  {
    if p < |ts| {
      var q := p + LineLength(ts, p);
      if IsElement(ts[p + 1]) {
        IsLineOf(ts, p, q);
        LineKept(ts, labels, p, q);
      } else {
        BlankLineKept(ts, labels, p);
      }
      LinesKept(ts, labels, q);
    }
  }

  lemma StatementLength(ts: seq<Token>, p: nat)
    requires p + 2 < |ts| && ts[p] == LineStart && IsElement(ts[p + 1])
    ensures var taken := TakenBy(ts[p + 1], ts[p + 2]);
            LineLength(ts, p) == if taken.Taken? && p + 2 + taken.n < |ts| && ts[p + 2 + taken.n] == LineEnd then 3 + taken.n else 0
  {
  }

  lemma IsLineOf(ts: seq<Token>, p: nat, q: nat)
    requires p + 1 < |ts| && q == p + LineLength(ts, p) > p && IsElement(ts[p + 1])
    ensures IsLine(ts, p, q) && TakenBy(ts[p + 1], ts[p + 2]) == Taken(q - p - 3)
  {
  }

  lemma BlankLineKept(ts: seq<Token>, labels: map<string, nat>, p: nat)
    requires p + 1 < |ts| && LineLength(ts, p) > 0 && !IsElement(ts[p + 1])
    requires Kept(ts, p, Emitted(ts, labels, p), Program(ts, labels, p))
    ensures LineLength(ts, p) == 2 && Kept(ts, p + 2, Emitted(ts, labels, p + 2), Program(ts, labels, p + 2))
  {
    SkipEmitted(ts, labels, p);
    SkipEmitted(ts, labels, p + 1);
    BlankKept(ts, p, Emitted(ts, labels, p), Program(ts, labels, p));
  }

  lemma LineKept(ts: seq<Token>, labels: map<string, nat>, p: nat, q: nat)
    requires Lexed(ts) && IsLine(ts, p, q) && TakenBy(ts[p + 1], ts[p + 2]) == Taken(q - p - 3)
    requires Kept(ts, p, Emitted(ts, labels, p), Program(ts, labels, p))
    ensures Kept(ts, q, Emitted(ts, labels, q), Program(ts, labels, q))
  {
    var t, next := ts[p + 1], ts[p + 2];
    EmittedLine(ts, labels, p, q);
    ElementSize(labels, t, next);
    ElementsOfClean(ts, labels, p, q);
    LineAdds(ts, p, q, Emitted(ts, labels, p), ElementBytes(labels, t, next), Program(ts, labels, p), ElementInstrs(labels, t, next));
  }

  lemma SkipEmitted(ts: seq<Token>, labels: map<string, nat>, k: nat)
    requires k < |ts| && !IsElement(ts[k])
    ensures Emitted(ts, labels, k + 1) == Emitted(ts, labels, k)
    ensures Program(ts, labels, k + 1) == Program(ts, labels, k)
  {
    assert Emitted(ts, labels, k) + [] == Emitted(ts, labels, k);
    assert Program(ts, labels, k) + [] == Program(ts, labels, k);
  }

  lemma EmittedLine(ts: seq<Token>, labels: map<string, nat>, p: nat, q: nat)
    requires IsLine(ts, p, q)
    ensures Emitted(ts, labels, q) == Emitted(ts, labels, p) + ElementBytes(labels, ts[p + 1], ts[p + 2])
    ensures Program(ts, labels, q) == Program(ts, labels, p) + ElementInstrs(labels, ts[p + 1], ts[p + 2])
  {
    SkipEmitted(ts, labels, p);
    SkipEmitted(ts, labels, p + 2);
    if q == p + 4 {
      SkipEmitted(ts, labels, p + 3);
    }
  }

  lemma ElementsOfClean(ts: seq<Token>, labels: map<string, nat>, p: nat, q: nat)
    requires Lexed(ts) && IsLine(ts, p, q) && TakenBy(ts[p + 1], ts[p + 2]).Taken?
    ensures Clean(ts) ==>
              && Proper(ElementInstrs(labels, ts[p + 1], ts[p + 2]))
              && ElementBytes(labels, ts[p + 1], ts[p + 2]) == Code(ElementInstrs(labels, ts[p + 1], ts[p + 2]))
  {
    if Clean(ts) {
      ElementCode(labels, ts[p + 1], ts[p + 2]);
    }
  }

  /** A line of the form LineStart, element, at most one operand, LineEnd. */
  ghost predicate IsLine(ts: seq<Token>, p: nat, q: nat) {
    && p + 3 <= q <= p + 4 && q <= |ts|
    && ts[p] == LineStart && ts[q - 1] == LineEnd && (q == p + 4 ==> IsOperand(ts[p + 2]))
    && IsElement(ts[p + 1])
  }

  lemma LineAdds(ts: seq<Token>, p: nat, q: nat, code: seq<byte>, added: seq<byte>, ins: seq<Instr>, news: seq<Instr>)
    requires IsLine(ts, p, q)
    requires |added| == 1 + if q == p + 3 then 0 else Width(ts[p + 1], ts[p + 2]) - Lost(ts[p + 1], ts[p + 2])
    requires Clean(ts) ==> Proper(news) && added == Code(news)
    requires ts[p + 1].LabelDef? ==> added == [JUMPDEST] && news == [Instr(JUMPDEST, [])]
    ensures Kept(ts, p, code, ins) ==> Kept(ts, q, code + added, ins + news)
  {
    LineCount(ts, p, q);
    if Kept(ts, p, code, ins) {
      if NoStringJump(ts) {
        CountedAdds(ts, p, q, code, added);
      }
      if Clean(ts) {
        ListedAdds(ts, p, q, code, ins, news);
      }
    }
  }

  lemma CountedAdds(ts: seq<Token>, p: nat, q: nat, code: seq<byte>, added: seq<byte>)
    requires IsLine(ts, p, q) && Counted(ts, p, code) && |code + added| == Count(ts, q)
    requires |added| >= 1 && (ts[p + 1].LabelDef? ==> added == [JUMPDEST]) && Count(ts, p + 1) == Count(ts, p)
    ensures Counted(ts, q, code + added)
  {
    forall i | 0 <= i < q && ts[i].LabelDef?
      ensures Count(ts, i) < |code + added| && (code + added)[Count(ts, i)] == JUMPDEST
    {
      if i >= p {
        OnlyDefinition(ts, p, q, i);
      }
    }
  }

  lemma ListedAdds(ts: seq<Token>, p: nat, q: nat, code: seq<byte>, ins: seq<Instr>, news: seq<Instr>)
    requires IsLine(ts, p, q) && Listed(ts, p, code, ins) && Proper(news) && Count(ts, p + 1) == |code|
    requires ts[p + 1].LabelDef? ==> news == [Instr(JUMPDEST, [])]
    ensures Listed(ts, q, code + Code(news), ins + news)
  {
    CodeConcat(ins, news);
    forall i | 0 <= i < q && ts[i].LabelDef?
      ensures JumpdestAt(ins + news, Count(ts, i))
    {
      DefinitionListed(ts, p, q, ins, news, i);
    }
    assert forall i | 0 <= i < |ins + news| :: (ins + news)[i] == if i < |ins| then ins[i] else news[i - |ins|];
  }

  lemma DefinitionListed(ts: seq<Token>, p: nat, q: nat, ins: seq<Instr>, news: seq<Instr>, i: nat)
    requires IsLine(ts, p, q) && i < q && ts[i].LabelDef? && Count(ts, p + 1) == |Code(ins)|
    requires i < p ==> JumpdestAt(ins, Count(ts, i))
    requires ts[p + 1].LabelDef? ==> news == [Instr(JUMPDEST, [])]
    ensures JumpdestAt(ins + news, Count(ts, i))
  {
    if i < p {
      JumpdestKept(ins, news, Count(ts, i));
    } else {
      OnlyDefinition(ts, p, q, i);
      NewJumpdest(ins);
    }
  }

  lemma OnlyDefinition(ts: seq<Token>, p: nat, q: nat, i: nat)
    requires IsLine(ts, p, q) && p <= i < q && ts[i].LabelDef?
    ensures i == p + 1
  {
  }

  lemma NewJumpdest(ins: seq<Instr>)
    ensures JumpdestAt(ins + [Instr(JUMPDEST, [])], |Code(ins)|)
  {
    var all := ins + [Instr(JUMPDEST, [])];
    assert all[..|ins|] == ins && all[|ins|] == Instr(JUMPDEST, []);
  }

  lemma LineCount(ts: seq<Token>, p: nat, q: nat)
    requires IsLine(ts, p, q)
    ensures Count(ts, q) == Count(ts, p) + 1 + if q == p + 3 then 0 else Width(ts[p + 1], ts[p + 2])
    ensures Count(ts, p + 1) == Count(ts, p)
    ensures Loss(ts, q) == Loss(ts, p) + if q == p + 3 then 0 else Lost(ts[p + 1], ts[p + 2])
  {
    assert Count(ts, p + 2) == Count(ts, p + 1) + 1;
    assert Count(ts, p + 3) == Count(ts, p + 2) + Width(ts[p + 1], ts[p + 2]);
    assert Loss(ts, p + 2) == Loss(ts, p + 1) == Loss(ts, p);
    assert Loss(ts, p + 3) == Loss(ts, p + 2) + Lost(ts[p + 1], ts[p + 2]);
  }

  lemma BlankKept(ts: seq<Token>, k: nat, code: seq<byte>, ins: seq<Instr>)
    requires k + 2 <= |ts| && !Counts(ts[k]) && !Counts(ts[k + 1])
    requires Kept(ts, k, code, ins)
    ensures Kept(ts, k + 2, code, ins)
  {
    assert Count(ts, k + 2) == Count(ts, k + 1) == Count(ts, k);
    assert Loss(ts, k + 2) == Loss(ts, k + 1) == Loss(ts, k);
  }

  predicate Counts(t: Token) {
    !t.Eof? && !t.LineStart? && !t.LineEnd?
  }

  /** Both passes. The program compiles exactly if every line is accepted. Then the code is
      what the tokens stand for, it has the length the first pass counted and a JUMPDEST at
      every recorded address; if the program is clean, these are valid jump destinations and
      disassembling the code lists the program. Addresses of 2^32 and more make the source
      panic. */
  method Assemble(ts: seq<Token>) returns (code: seq<byte>, errors: nat, labels: map<string, nat>)
    requires Lexed(ts) && Count(ts, |ts|) < 0x1_0000_0000
    ensures labels == LabelsOf(ts, |ts|)
    ensures errors == 0 <==> Compiles(ts, 0)
    ensures errors == 0 ==> code == Emitted(ts, labels, |ts|)
    ensures errors == 0 ==> (|code| == Count(ts, |ts|) <==> NoStringJump(ts))
    ensures errors == 0 && NoStringJump(ts) ==>
              forall name | name in labels :: labels[name] < |code| && code[labels[name]] == JUMPDEST
    ensures errors == 0 && Clean(ts) ==>
              && Proper(Program(ts, labels, |ts|)) && code == Code(Program(ts, labels, |ts|))
              && Walk(code, 0) == Lines(LinesFrom(Program(ts, labels, |ts|), 0))
              && forall name | name in labels :: IsStart(code, labels[name])
  {
    var c := new Compiler();
    c.Feed(ts);
    forall name | name in c.labels
      ensures c.labels[name] < 0x1_0000_0000
    {
      LabelsInRange(ts, |ts|, name);
    }
    code, errors := c.Compile();
    labels := c.labels;
    LossOnlyByStringJumps(ts, |ts|);
    if errors == 0 {
      LinesKept(ts, labels, 0);
    }
    ghost var ins := Program(ts, labels, |ts|);
    if errors == 0 && Clean(ts) {
      DisassembleInverts(ins, 0);
      assert ins[..0] == [];
    }
    forall name | name in labels
      ensures errors == 0 && NoStringJump(ts) ==> labels[name] < |code| && code[labels[name]] == JUMPDEST
      ensures errors == 0 && Clean(ts) ==> IsStart(code, labels[name])
    {
      LabelsInRange(ts, |ts|, name);
      if errors == 0 && Clean(ts) {
        JumpdestIsStart(ins, labels[name]);
      }
    }
  }

  lemma {:induction false} OffsetIsStart(ins: seq<Instr>, j: nat)
    requires Proper(ins) && j <= |ins|
    ensures IsStart(Code(ins), |Code(ins[..j])|)
    ensures j < |ins| ==> InstrAt(ins, j)
  {
    if j < |ins| {
      OffsetSplit(ins, j);
    }
    if j > 0 {
      OffsetIsStart(ins, j - 1);
      OffsetSplit(ins, j - 1);
      NextOffset(ins, j - 1);
      VisitsNext(Code(ins), 0, |Code(ins[..j - 1])|);
    }
  }

  lemma NextOffset(ins: seq<Instr>, j: nat)
    requires Proper(ins) && j < |ins| && InstrAt(ins, j)
    ensures |Code(ins[..j])| < |Code(ins)| && Next(Code(ins), |Code(ins[..j])|) == |Code(ins[..j + 1])|
  {
  }

  /** Instruction j of the list is what the code holds at its offset. */
  ghost predicate InstrAt(ins: seq<Instr>, j: nat)
    requires j < |ins|
  {
    var code, a := Code(ins), |Code(ins[..j])|;
    var b := a + 1 + |ins[j].arg|;
    b == |Code(ins[..j + 1])| <= |code| && code[a] == ins[j].op && code[a + 1..b] == ins[j].arg
  }

  lemma OffsetSplit(ins: seq<Instr>, j: nat)
    requires j < |ins|
    ensures InstrAt(ins, j)
  {
    var front, x, behind := ins[..j], ins[j], ins[j + 1..];
    assert ins[..j + 1] == front + [x] && ins == ins[..j + 1] + behind;
    CodeSnoc(front, x);
    CodeConcat(front + [x], behind);
    BytesBetween(Code(front), x.op, x.arg, Code(behind));
  }

  lemma BytesBetween(front: seq<byte>, op: byte, arg: seq<byte>, behind: seq<byte>)
    ensures var code := front + ([op] + arg) + behind;
            code[|front|] == op && code[|front| + 1..|front| + 1 + |arg|] == arg
  {
  }

  lemma JumpdestIsStart(ins: seq<Instr>, a: nat)
    requires Proper(ins) && JumpdestAt(ins, a)
    ensures IsStart(Code(ins), a)
  {
    var j :| 0 <= j < |ins| && |Code(ins[..j])| == a && ins[j] == Instr(JUMPDEST, []);
    OffsetIsStart(ins, j);
  }

  lemma {:induction false} CodeConcat(a: seq<Instr>, b: seq<Instr>)
    ensures Code(a + b) == Code(a) + Code(b)
  {
    if b == [] {
      assert a + b == a;
    } else {
      var n := |b| - 1;
      assert (a + b)[..|a + b| - 1] == a + b[..n];
      CodeConcat(a, b[..n]);
      Assoc(Code(a), Code(b[..n]), [b[n].op] + b[n].arg);
    }
  }

  /** A disassembled instruction with its offset. */
  datatype Line = Line(pc: nat, instr: Instr)

  datatype Listing = Incomplete | Lines(lines: seq<Line>)

  function Prepend(lines: seq<Line>, rest: Listing): Listing {
    match rest
    case Incomplete => Incomplete
    case Lines(more) => Lines(lines + more)
  }

  /** Reading instruction by instruction from pc to the end of the code. */
  function Walk(code: seq<byte>, pc: nat): Listing
    decreases |code| - pc
  {
    if pc >= |code| then Lines([])
    else if Next(code, pc) > |code| then Incomplete
    else Prepend([Line(pc, Instr(code[pc], code[pc + 1..Next(code, pc)]))], Walk(code, Next(code, pc)))
  }

  class InstructionIterator {
    const code: seq<byte>
    var pc: nat
    var arg: seq<byte>
    var op: byte
    var error: bool
    var started: bool

    constructor (code: seq<byte>)
      ensures this.code == code && pc == 0 && !error && !started
    {
      this.code := code;
      pc, arg, op, error, started := 0, [], 0, false, false;
    }

    /** Where the next instruction starts. */
    ghost function Ahead(): nat
      reads this
    {
      if started then pc + 1 + |arg| else pc
    }

    method Next() returns (more: bool)
      requires !error && (started ==> pc < |code|)
      modifies this
      ensures more ==>
                && started && !error && pc == old(Ahead()) < |code| && op == code[pc]
                && Ahead() == EvmCode.Next(code, pc) <= |code| && arg == code[pc + 1..Ahead()]
      ensures !more ==> (error <==> old(Ahead()) < |code|)
      ensures !more && error ==> EvmCode.Next(code, old(Ahead())) > |code|
    {
      if |code| <= pc {
        return false;
      }
      if started {
        pc := pc + |arg|;
        pc := pc + 1;
      } else {
        started := true;
      }
      if |code| <= pc {
        return false;
      }
      op := code[pc];
      if 0x60 <= op <= 0x7f {
        var a := op - 0x60 + 1;
        var u := pc + 1 + a;
        if |code| < u {
          error := true;
          return false;
        }
        arg := code[pc + 1..u];
      } else {
        arg := [];
      }
      more := true;
    }
  }

  /** Disassemble: lists the instructions, or fails on an incomplete push. */
  method Disassemble(code: seq<byte>) returns (r: Listing)
    ensures r == Walk(code, 0)
  {
    var it := new InstructionIterator(code);
    var lines: seq<Line> := [];
    PrependNothing(Walk(code, 0));
    while true
      invariant it.code == code && !it.error && (it.started ==> it.pc < |code|) && it.Ahead() <= |code|
      invariant Prepend(lines, Walk(code, it.Ahead())) == Walk(code, 0)
      invariant fresh(it)
      decreases |code| - it.Ahead(), !it.started
    {
      ghost var ahead := it.Ahead();
      var more := it.Next();
      if !more {
        r := if it.error then Incomplete else Lines(lines);
        assert lines + [] == lines;
        return;
      }
      WalkStep(code, ahead, it.op, it.arg);
      PrependStep(lines, Line(it.pc, Instr(it.op, it.arg)), Walk(code, it.Ahead()));
      lines := lines + [Line(it.pc, Instr(it.op, it.arg))];
    }
  }

  lemma WalkStep(code: seq<byte>, pc: nat, op: byte, arg: seq<byte>)
    requires pc < |code| && Next(code, pc) <= |code| && op == code[pc] && arg == code[pc + 1..Next(code, pc)]
    ensures Walk(code, pc) == Prepend([Line(pc, Instr(op, arg))], Walk(code, Next(code, pc)))
  {
  }

  lemma PrependNothing(rest: Listing)
    ensures Prepend([], rest) == rest
  {
    if rest.Lines? {
      assert [] + rest.lines == rest.lines;
    }
  }

  lemma PrependStep(lines: seq<Line>, l: Line, rest: Listing)
    ensures Prepend(lines + [l], rest) == Prepend(lines, Prepend([l], rest))
  {
    if rest.Lines? {
      assert lines + [l] + rest.lines == lines + ([l] + rest.lines);
    }
  }

  /** The listing of an instruction list from instruction j on. */
  function LinesFrom(ins: seq<Instr>, j: nat): seq<Line>
    requires j <= |ins|
    decreases |ins| - j
  {
    if j == |ins| then [] else [Line(|Code(ins[..j])|, ins[j])] + LinesFrom(ins, j + 1)
  }

  /** Disassembling an emitted instruction list gives the list back. */
  lemma {:induction false} DisassembleInverts(ins: seq<Instr>, j: nat)
    requires Proper(ins) && j <= |ins|
    ensures Walk(Code(ins), |Code(ins[..j])|) == Lines(LinesFrom(ins, j))
    decreases |ins| - j
  {
    if j == |ins| {
      assert ins[..j] == ins;
    } else {
      OffsetSplit(ins, j);
      DisassembleInverts(ins, j + 1);
    }
  }
}
