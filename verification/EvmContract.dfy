/** Contracts and the shared jump-destination cache of core/evm/contract.go. */
module EvmContract {
  import opened Bytes
  import opened EvmCode
  import opened Wrappers

  type u64 = x: nat | x < 0x1_0000_0000_0000_0000
  type Word = x: nat | x < 0x1_0000000000000000_0000000000000000_0000000000000000_0000000000000000

  type Code = c: seq<byte> | |c| < 0x8000_0000_0000_0000

  /** The analyses a chain of nested calls shares, by code hash. That the hash is
      injective is the assumption that codeOf inverts hashOf. */
  class Jumpdests {
    var analyses: map<nat, seq<bv8>>
    const hashOf: Code -> nat
    const codeOf: nat -> Code

    ghost predicate Valid()
      reads this
    {
      && (forall c: Code :: codeOf(hashOf(c)) == c)
      && forall h | h in analyses :: IsBitmap(analyses[h], codeOf(h))
    }

    constructor (hashOf: Code -> nat, codeOf: nat -> Code)
      requires forall c: Code :: codeOf(hashOf(c)) == c
      ensures Valid() && analyses == map[] && this.hashOf == hashOf && this.codeOf == codeOf
    {
      analyses := map[];
      this.hashOf, this.codeOf := hashOf, codeOf;
    }
  }

  class Contract {
    const code: Code
    const input: Code
    const self: Word  // the address whose storage and nonce the code works on
    const codeHash: nat  // 0 when the code is temporary init code
    const jumpdests: Jumpdests
    var analysis: Option<seq<bv8>>
    var gas: u64

    ghost predicate Valid()
      reads this, jumpdests
    {
      && jumpdests.Valid()
      && (codeHash != 0 ==> jumpdests.codeOf(codeHash) == code)
      && (analysis.Some? ==> IsBitmap(analysis.value, code))
    }

    constructor (self: Word, code: Code, input: Code, codeHash: nat, jumpdests: Jumpdests, gas: u64)
      requires jumpdests.Valid()
      requires codeHash != 0 ==> jumpdests.codeOf(codeHash) == code
      ensures Valid() && this.code == code && this.input == input && this.codeHash == codeHash && this.jumpdests == jumpdests
      ensures this.gas == gas && this.self == self
    {
      this.self, this.code, this.input, this.codeHash, this.jumpdests, this.gas := self, code, input, codeHash, jumpdests, gas;
      analysis := None;
    }

    method UseGas(amount: u64) returns (ok: bool)
      modifies this`gas
      ensures ok <==> old(gas) >= amount
      ensures gas == if ok then old(gas) - amount else old(gas)
    {
      if gas < amount {
        return false;
      }
      gas := gas - amount;
      ok := true;
    }

    function GetOp(n: nat): (op: byte)
      ensures n >= |code| ==> op == 0
    {
      if n < |code| then code[n] else 0
    }

    /** isCode: whichever analysis answers, own, shared or new, it says whether the
        position is an instruction start. */
    method IsCode(udest: nat) returns (ok: bool)
      requires Valid() && udest < |code|
      modifies this`analysis, jumpdests
      ensures Valid() && ok == IsStart(code, udest)
    {
      if analysis.Some? {
        return CodeSegment(analysis.value, udest);
      }
      if codeHash != 0 {
        if codeHash !in jumpdests.analyses {
          var bits := CodeBitmap(code);
          jumpdests.analyses := jumpdests.analyses[codeHash := bits[..]];
        }
        analysis := Some(jumpdests.analyses[codeHash]);
        return CodeSegment(analysis.value, udest);
      }
      var bits := CodeBitmap(code);
      analysis := Some(bits[..]);
      ok := CodeSegment(analysis.value, udest);
    }

    method ValidJumpdest(dest: Word) returns (ok: bool)
      requires Valid()
      modifies this`analysis, jumpdests
      ensures Valid()
      ensures ok <==> dest < |code| && code[dest] == JUMPDEST && IsStart(code, dest)
    {
      if dest >= TWO64 || dest >= |code| {
        return false;
      }
      if code[dest] != JUMPDEST {
        return false;
      }
      ok := IsCode(dest);
    }
  }
}
