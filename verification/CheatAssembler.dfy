/**
 An assembler for GameShark codes, written from the fields of each code: what the decoder reads from
 the words, plain or encrypted, is the instruction that they were assembled from.
 */
module CheatAssembler {
  import opened Bytes
  import opened Cheats

  // ---------------------------------------------------------------- plain words

  function RelationNumber(r: Relation): nat {
    match r case Eq => 0 case Neq => 1 case Lt => 2 case Gt => 3
  }

  predicate IsAddress(a: nat) {
    a < 0x100_0000
  }

  /** The fields fit where the code has them. */
  predicate Encodable(instr: Instr) {
    match instr
    case Write(_, address, _) => IsAddress(address)
    case Group(address, values) => IsAddress(address) && |values| < 0x1_0000
    case Adjust(_, size, address, value) =>
      IsAddress(address) && (if size == 8 then value < 0x100 else if size == 16 then value < 0x1_0000 else true)
    case Repeat(address, count, increment, _) => IsAddress(address) && count < 0x1_0000 && increment < 0x1_0000
    case CopyBytes(source, dest, _) => IsAddress(source) && IsAddress(dest)
    case Next(test) => IsAddress(test.address) && test.value < 0x1_0000
    case Block(test, lines) => IsAddress(test.address) && test.value < 0x1_0000 && lines < 0x100
  }

  /** Opcode and the rest of the first word. */
  function First(instr: Instr): u32
    requires Encodable(instr)
  {
    match instr
    case Write(size, address, _) =>
      (if size == 8 then 0x0000_0000 else if size == 16 then 0x0100_0000 else 0x0200_0000) + address
    case Group(_, values) => 0x0300_0000 + |values|
    case Adjust(up, size, _, value) =>
      if size == 8 then (if up then 0x0301_0000 else 0x0302_0000) + value
      else if size == 16 then (if up then 0x0303_0000 else 0x0304_0000) + value
      else if up then 0x0305_0000 else 0x0306_0000
    case Repeat(address, _, _, _) => 0x0400_0000 + address
    case CopyBytes(source, _, _) => 0x0500_0000 + source
    case Next(test) => 0x0D00_0000 + test.address
    case Block(test, lines) => 0x0E00_0000 + lines * 0x1_0000 + test.value
  }

  /** The words after the first. */
  function Args(instr: Instr): seq<u32>
    requires Encodable(instr)
  {
    match instr
    case Write(_, _, value) => [value]
    case Group(address, values) => [address] + values
    case Adjust(_, size, address, value) => if size == 32 then [address, value] else [address]
    case Repeat(_, count, increment, value) => [count * 0x1_0000 + increment, value]
    case CopyBytes(_, dest, count) => [dest, count]
    case Next(test) => [RelationNumber(test.rel) * 0x1_0000 + test.value]
    case Block(test, _) => [RelationNumber(test.rel) * 0x100_0000 + test.address]
  }

  function Words(instr: Instr): seq<u32>
    requires Encodable(instr)
  {
    [First(instr)] + Args(instr)
  }

  /** What the decoder sees of a code at `i`: its decrypted first word and arguments, and how much follows. */
  ghost predicate Sees(words: seq<u32>, i: nat, instr: Instr)
    requires Encodable(instr)
  {
    && i + 1 + |Args(instr)| <= |words|
    && DecryptCode(words[i]) == First(instr)
    && (forall k :: 0 <= k < |Args(instr)| ==> Argument(words, i, k) == Args(instr)[k])
  }

  /** The `k`-th argument, decrypted where the decoder does so. */
  function Argument(words: seq<u32>, i: nat, k: nat): u32
    requires i + 1 + k < |words|
  {
    var code := Opcode(DecryptCode(words[i]));
    var both := IsEncrypted(words[i]) && i + 2 < |words|;
    if both && ((code == 4 && k < 2) || (code == 0xd && k == 0)) then DecryptArg(words[i + 1 + k]) else words[i + 1 + k]
  }

  lemma WriteDecodes(words: seq<u32>, i: nat, instr: Instr)
    requires instr.Write? && Encodable(instr) && Sees(words, i, instr)
    ensures Decode(words, i) == Code(instr, i + 2)
  {
    hide DecryptCode, DecryptArg;
    assert Argument(words, i, 0) == Args(instr)[0];
  }

  lemma GroupDecodes(words: seq<u32>, i: nat, instr: Instr)
    requires instr.Group? && Encodable(instr) && Sees(words, i, instr)
    ensures Decode(words, i) == Code(instr, i + 2 + |instr.values|)
  {
    hide DecryptCode, DecryptArg;
    var values := instr.values;
    assert Argument(words, i, 0) == Args(instr)[0];
    forall k | 0 <= k < |values|
      ensures words[i + 2..i + 2 + |values|][k] == values[k]
    {
      assert Argument(words, i, 1 + k) == Args(instr)[1 + k];
    }
    assert words[i + 2..i + 2 + |values|] == values;
  }

  lemma AdjustDecodes(words: seq<u32>, i: nat, instr: Instr)
    requires instr.Adjust? && Encodable(instr) && Sees(words, i, instr)
    ensures Decode(words, i) == Code(instr, i + 1 + |Args(instr)|)
  {
    hide DecryptCode, DecryptArg;
    assert Argument(words, i, 0) == Args(instr)[0];
    assert instr.size == 32 ==> Argument(words, i, 1) == Args(instr)[1];
  }

  lemma RepeatDecodes(words: seq<u32>, i: nat, instr: Instr)
    requires instr.Repeat? && Encodable(instr) && Sees(words, i, instr)
    ensures Decode(words, i) == Code(instr, i + 3)
  {
    hide DecryptCode, DecryptArg;
    assert Argument(words, i, 0) == Args(instr)[0] && Argument(words, i, 1) == Args(instr)[1];
  }

  lemma CopyDecodes(words: seq<u32>, i: nat, instr: Instr)
    requires instr.CopyBytes? && Encodable(instr) && Sees(words, i, instr)
    ensures Decode(words, i) == Code(instr, i + 3)
  {
    hide DecryptCode, DecryptArg;
    assert Argument(words, i, 0) == Args(instr)[0] && Argument(words, i, 1) == Args(instr)[1];
  }

  lemma RelationIsRead(r: Relation)
    ensures RelationOf(RelationNumber(r)) == Some(r) && RelationNumber(r) < 4
  {
  }

  lemma NextDecodes(words: seq<u32>, i: nat, instr: Instr)
    requires instr.Next? && Encodable(instr) && Sees(words, i, instr)
    ensures Decode(words, i) == Code(instr, i + 2)
  {
    RelationIsRead(instr.test.rel);
    hide DecryptCode, DecryptArg, RelationOf, RelationNumber;
    assert Argument(words, i, 0) == Args(instr)[0];
  }

  lemma BlockDecodes(words: seq<u32>, i: nat, instr: Instr)
    requires instr.Block? && Encodable(instr) && Sees(words, i, instr)
    ensures Decode(words, i) == Code(instr, i + 2)
  {
    RelationIsRead(instr.test.rel);
    hide DecryptCode, DecryptArg, RelationOf, RelationNumber;
    assert Argument(words, i, 0) == Args(instr)[0];
  }

  /** Whatever its encryption, a code whose words the decoder sees decodes to its instruction. */
  lemma SeenDecodes(words: seq<u32>, i: nat, instr: Instr)
    requires Encodable(instr) && Sees(words, i, instr)
    ensures Decode(words, i) == Code(instr, i + 1 + |Args(instr)|)
  {
    hide Decode, Sees;
    match instr
    case Write(_, _, _) => WriteDecodes(words, i, instr);
    case Group(_, _) => GroupDecodes(words, i, instr);
    case Adjust(_, _, _, _) => AdjustDecodes(words, i, instr);
    case Repeat(_, _, _, _) => RepeatDecodes(words, i, instr);
    case CopyBytes(_, _, _) => CopyDecodes(words, i, instr);
    case Next(_) => NextDecodes(words, i, instr);
    case Block(_, _) => BlockDecodes(words, i, instr);
  }

  /** Plain words decode to the instruction they were assembled from, wherever they stand. */
  lemma PlainDecodes(before: seq<u32>, instr: Instr, after: seq<u32>)
    requires Encodable(instr)
    ensures Decode(before + Words(instr) + after, |before|) == Code(instr, |before| + |Words(instr)|)
  {
    hide Decode, DecryptArg, First, Args;
    var words, i := before + Words(instr) + after, |before|;
    FirstIsPlain(instr);
    assert words[i] == First(instr);
    forall k | 0 <= k < |Args(instr)|
      ensures Argument(words, i, k) == Args(instr)[k]
    {
      assert words[i + 1 + k] == Words(instr)[1 + k];
    }
    SeenDecodes(words, i, instr);
  }

  lemma FirstIsPlain(instr: Instr)
    requires Encodable(instr)
    ensures First(instr) < 0x0F00_0000
  {
  }

  // ---------------------------------------------------------------- bits of numbers

  lemma Doubled(q: bv32, x: bv32)
    requires q & 0x8000_0000 == 0 && x == q << 1
    ensures x as int == 2 * (q as int)
  {
  }

  lemma DoubledAndOne(q: bv32, x: bv32)
    requires q & 0x8000_0000 == 0 && x == (q << 1) | 1
    ensures x as int == 2 * (q as int) + 1
  {
  }

  lemma HighBitClear(q: bv32)
    requires q as int < 0x8000_0000
    ensures q & 0x8000_0000 == 0
  {
  }

  lemma HighNibbleClear(x: bv32)
    requires x as int < 0x1000_0000
    ensures x & 0xF000_0000 == 0
  {
  }

  lemma OneNibble(x: bv32)
    requires x as int < 16
    ensures x & 0xFFFF_FFF0 == 0
  {
  }

  lemma HighNibble(x: bv32)
    ensures (x as int) / 0x1000_0000 == (x >> 28) as int
  {
  }

  lemma BackToBits(x: bv32)
    ensures (x as int) as bv32 == x
  {
  }

  lemma {:induction false} HasBits(p: u32) returns (x: bv32)
    ensures x as int == p
    decreases p
  {
    if p == 0 {
      x := 0;
    } else {
      var q := HasBits(p / 2);
      HighBitClear(q);
      if p % 2 == 0 {
        x := q << 1;
        Doubled(q, x);
      } else {
        x := (q << 1) | 1;
        DoubledAndOne(q, x);
      }
    }
  }

  lemma BitsOf(p: u32)
    ensures (p as bv32) as int == p
  {
    var x := HasBits(p);
    BackToBits(x);
  }

  // ---------------------------------------------------------------- encrypted words

  /** A first word under the seed that its top nibble names. */
  function Encrypt(v: u32, seed: nat): u32
    requires 1 <= seed < 16
  {
    (Scramble(v as bv32, SEEDS[seed]) | ((seed as bv32) << 28)) as int
  }

  function EncryptArg(v: u32): u32 {
    ScrambleArg(v as bv32) as int
  }

  lemma NibbleOnTop(c: bv32, n: bv32)
    requires c & 0xF000_0000 == 0 && n & 0xFFFF_FFF0 == 0
    ensures (c | (n << 28)) >> 28 == n && (n << 28) & 0x0FFF_FFFF == 0
  {
  }

  lemma ScrambledBits(x: bv32, n: bv32, seed: bv32)
    requires x & 0xF000_0000 == 0 && n & 0xFFFF_FFF0 == 0
    ensures var e := Scramble(x, seed) | (n << 28);
      e >> 28 == n && Unscramble(e, seed) == x
  {
    hide Scramble, Unscramble;
    CodesDecrypt(x, seed, 0);
    NibbleOnTop(Scramble(x, seed), n);
    CodesDecrypt(x, seed, n << 28);
  }

  lemma DecryptBits(e: bv32, n: bv32, seed: nat, x: bv32)
    requires 1 <= seed < 16 && n as int == seed && e >> 28 == n && Unscramble(e, SEEDS[seed]) == x
    ensures IsEncrypted(e as int) && DecryptCode(e as int) == x as int
  {
    hide Unscramble, SEEDS;
    HighNibble(e);
    BackToBits(e);
  }

  lemma EncryptedFirst(v: u32, seed: nat)
    requires v < 0x1000_0000 && 1 <= seed < 16
    ensures IsEncrypted(Encrypt(v, seed)) && DecryptCode(Encrypt(v, seed)) == v
  {
    BitsOf(v);
    BitsOf(seed);
    EncryptedBits(v as bv32, seed as bv32, seed);
  }

  lemma EncryptedBits(x: bv32, n: bv32, seed: nat)
    requires x as int < 0x1000_0000 && 1 <= seed < 16 && n as int == seed
    ensures var e := Scramble(x, SEEDS[seed]) | (n << 28);
      IsEncrypted(e as int) && DecryptCode(e as int) == x as int
  {
    hide Scramble, Unscramble, DecryptCode, IsEncrypted;
    HighNibbleClear(x);
    OneNibble(n);
    ScrambledBits(x, n, SEEDS[seed]);
    DecryptBits(Scramble(x, SEEDS[seed]) | (n << 28), n, seed, x);
  }

  lemma EncryptedArg(v: u32)
    ensures DecryptArg(EncryptArg(v)) == v
  {
    hide ScrambleArg, UnscrambleArg;
    BitsOf(v);
    ArgsDecrypt(v as bv32);
    BackToBits(ScrambleArg(v as bv32));
  }

  /** Repeat writes and 0x0D tests have encrypted arguments, the other codes only an encrypted first word. */
  function EncryptedArgs(instr: Instr): seq<u32>
    requires Encodable(instr)
  {
    var args := Args(instr);
    if instr.Repeat? || instr.Next? then seq(|args|, k requires 0 <= k < |args| => EncryptArg(args[k])) else args
  }

  function EncryptedWords(instr: Instr, seed: nat): seq<u32>
    requires Encodable(instr) && 1 <= seed < 16
  {
    [Encrypt(First(instr), seed)] + EncryptedArgs(instr)
  }

  lemma OpcodeOf(instr: Instr)
    requires Encodable(instr)
    ensures Opcode(First(instr)) == 4 <==> instr.Repeat?
    ensures Opcode(First(instr)) == 0xd <==> instr.Next?
    ensures |Args(instr)| >= 1 && (instr.Repeat? ==> |Args(instr)| == 2) && (instr.Next? ==> |Args(instr)| == 1)
  {
  }

  /** Words encrypted under any seed decode to the instruction, if a 0x0D test does not end the list. */
  lemma EncryptedDecodes(before: seq<u32>, instr: Instr, seed: nat, after: seq<u32>)
    requires Encodable(instr) && 1 <= seed < 16 && (instr.Next? ==> after != [])
    ensures Decode(before + EncryptedWords(instr, seed) + after, |before|)
         == Code(instr, |before| + |EncryptedWords(instr, seed)|)
  {
    hide Decode, DecryptArg, DecryptCode, First, Args, Encrypt, EncryptArg;
    var words, i, args := before + EncryptedWords(instr, seed) + after, |before|, Args(instr);
    FirstIsPlain(instr);
    EncryptedFirst(First(instr), seed);
    OpcodeOf(instr);
    assert words[i] == Encrypt(First(instr), seed);
    forall k | 0 <= k < |args|
      ensures Argument(words, i, k) == args[k]
    {
      assert words[i + 1 + k] == EncryptedArgs(instr)[k];
      EncryptedArg(args[k]);
    }
    SeenDecodes(words, i, instr);
  }

  /**
   An encrypted 0x0D test in the last two words of a list is not decrypted: it is read as it was meant
   only if its argument is the same encrypted and plain.
   */
  lemma EncryptedTestAtEnd(before: seq<u32>, test: Test, seed: nat)
    requires Encodable(Next(test)) && 1 <= seed < 16
    ensures Decode(before + EncryptedWords(Next(test), seed), |before|) == Code(Next(test), |before| + 2)
       <==> EncryptArg(Args(Next(test))[0]) == Args(Next(test))[0]
  {
    hide DecryptArg, DecryptCode, Encrypt, EncryptArg;
    var instr := Next(test);
    var words, i, raw := before + EncryptedWords(instr, seed), |before|, EncryptArg(Args(instr)[0]);
    EncryptedFirst(First(instr), seed);
    assert words[i] == Encrypt(First(instr), seed) && words[i + 1] == raw;
    assert Decode(words, i) == DecodeTest(High16(raw), test.address, Low16(raw), None, i + 2);
    hide Decode;
    assert raw == High16(raw) * 0x1_0000 + Low16(raw);
    assert RelationOf(RelationNumber(test.rel)) == Some(test.rel);
  }

  // ---------------------------------------------------------------- refused words

  /** How many words a code takes after its first one, from opcode, subcode and low half of that word. */
  function Needs(w: u32): nat {
    var code, sub := Opcode(w), Subcode(w);
    if code in {0, 1, 2, 0xd, 0xe} then 1
    else if code in {4, 5} then 2
    else if code == 3 then
      if sub == 0 then Low16(w) + 1 else if sub in {1, 2, 3, 4} then 1 else if sub in {5, 6} then 2 else 0
    else 0
  }

  predicate IsKnown(w: u32) {
    Opcode(w) in {0, 1, 2, 4, 5, 0xd, 0xe} || (Opcode(w) == 3 && Subcode(w) <= 6)
  }

  /** The relation number of a 0x0D or 0x0E code. */
  function RelationIn(words: seq<u32>, i: nat): nat
    requires i + 1 < |words|
  {
    if Opcode(DecryptCode(words[i])) == 0xd then High16(Argument(words, i, 0)) else Opcode(words[i + 1])
  }

  /** Which codes are refused, and why. */
  lemma Refusals(words: seq<u32>, i: nat)
    requires i < |words|
    ensures var w := DecryptCode(words[i]);
      && (Decode(words, i) == Bad(MasterCode) <==> Opcode(w) == 7)
      && (Decode(words, i) == Bad(MissingWords) <==> IsKnown(w) && i + 1 + Needs(w) > |words|)
      && (Decode(words, i) == Bad(UnsupportedCode) <==>
            || (!IsKnown(w) && Opcode(w) != 7)
            || (Opcode(w) in {0xd, 0xe} && i + 1 < |words| && RelationIn(words, i) > 3))
  {
    hide DecryptCode, DecryptArg;
  }

  /** And whatever is not refused is some instruction with its fields in range. */
  lemma DecodedIsEncodable(words: seq<u32>, i: nat)
    requires i < |words| && Decode(words, i).Code?
    ensures Encodable(Decode(words, i).instr)
  {
    hide DecryptCode, DecryptArg;
  }
}
