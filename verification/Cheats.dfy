/** GameShark codes: decoding, compilation to a flat cheat list, and the interpreter of that list. */
module Cheats {
  import opened Bytes

  // ---------------------------------------------------------------- RAM

  const RAM_SIZE: nat := 0x100_0000

  type Ram = r: seq<byte> | |r| == RAM_SIZE witness seq(RAM_SIZE, _ => 0)

  /** Access sizes in bits. */
  type Bits = b: int | b == 8 || b == 16 || b == 32 witness 8

  function Width(bits: Bits): nat {
    bits / 8
  }

  function CellOf(addr: nat): nat {
    addr % RAM_SIZE
  }

  function LoadBytes(ram: Ram, addr: nat, n: nat): (s: seq<byte>)
    ensures |s| == n
    decreases n
  {
    if n == 0 then [] else [ram[CellOf(addr)]] + LoadBytes(ram, addr + 1, n - 1)
  }

  function StoreBytes(ram: Ram, addr: nat, s: seq<byte>): Ram
    decreases |s|
  {
    if s == [] then ram else StoreBytes(ram[CellOf(addr) := s[0]], addr + 1, s[1..])
  }

  function ReadRam(ram: Ram, addr: nat, bits: Bits): nat {
    FromLittleEndian(LoadBytes(ram, addr, Width(bits)))
  }

  /** Only the low bits of the value reach memory. */
  function WriteRam(ram: Ram, addr: nat, value: nat, bits: Bits): Ram {
    StoreBytes(ram, addr, LittleEndian(value, Width(bits)))
  }

  // ---------------------------------------------------------------- the compiled form

  datatype CheatType =
    | Disabled | SetValue | Increase | Decrease
    | RunNextIfEq | RunNextIfNeq | RunNextIfGt | RunNextIfLt
    | Copy

  datatype Cheat = Cheat(
    kind: CheatType, size: Bits, address: u32, value: u32,
    repeatCount: u32, repeatValueIncrement: u32, repeatAddressIncrement: u32, destAddress: u32,
    enabled: bool, builtIn: bool)

  function Plain(kind: CheatType, size: Bits, address: u32, value: u32): Cheat {
    Cheat(kind, size, address, value, 1, 0, 0, 0, false, false)
  }

  // ---------------------------------------------------------------- the interpreter, CheatManager::apply

  predicate SkipsNext(c: Cheat, ram: Ram) {
    var v := ReadRam(ram, c.address, c.size);
    match c.kind
    case RunNextIfEq => v != c.value
    case RunNextIfNeq => v == c.value
    case RunNextIfGt => v <= c.value
    case RunNextIfLt => v >= c.value
    case _ => false
  }

  /** `repeatAddressIncrement * size / 8` in 32-bit arithmetic. */
  function Stride(c: Cheat): u32 {
    if c.size == 8 then U32(c.repeatAddressIncrement * 8) / 8
    else if c.size == 16 then U32(c.repeatAddressIncrement * 16) / 8
    else U32(c.repeatAddressIncrement * 32) / 8
  }

  /** The repeat loop of a value cheat: `n` rounds are left. */
  function SetLoop(ram: Ram, c: Cheat, address: u32, value: u32, n: nat): Ram
    decreases n
  {
    if n == 0 then ram
    else
      var ram := if ReadRam(ram, address, c.size) != value then WriteRam(ram, address, value, c.size) else ram;
      SetLoop(ram, c, U32(address + Stride(c)), U32(value + c.repeatValueIncrement), n - 1)
  }

  function CopyLoop(ram: Ram, c: Cheat, i: nat): Ram
    decreases c.repeatCount - i
  {
    if i >= c.repeatCount then ram
    else CopyLoop(WriteRam(ram, U32(c.destAddress + i), ReadRam(ram, U32(c.address + i), c.size), c.size), c, i + 1)
  }

  function RunOne(c: Cheat, ram: Ram): Ram {
    match c.kind
    case SetValue => SetLoop(ram, c, c.address, c.value, c.repeatCount)
    case Increase => SetLoop(ram, c, c.address, U32(ReadRam(ram, c.address, c.size) + c.value), c.repeatCount)
    case Decrease => SetLoop(ram, c, c.address, U32(ReadRam(ram, c.address, c.size) - c.value), c.repeatCount)
    case Copy => CopyLoop(ram, c, 0)
    case _ => ram
  }

  datatype Machine = Machine(ram: Ram, skip: bool)

  function StepCheat(m: Machine, c: Cheat, online: bool): Machine {
    if !c.builtIn && online then m
    else if m.skip then m.(skip := false)
    else if !c.enabled then m
    else Machine(RunOne(c, m.ram), SkipsNext(c, m.ram))
  }

  function ApplyAll(m: Machine, cheats: seq<Cheat>, online: bool): Machine
    decreases |cheats|
  {
    if cheats == [] then m else ApplyAll(StepCheat(m, cheats[0], online), cheats[1..], online)
  }

  function Enabled(cheats: seq<Cheat>): (r: seq<Cheat>)
    ensures |r| == |cheats|
  {
    seq(|cheats|, i requires 0 <= i < |cheats| => cheats[i].(enabled := true))
  }

  /** The list with every cheat switched on, offline. */
  function Apply(m: Machine, cheats: seq<Cheat>): Machine {
    ApplyAll(m, Enabled(cheats), false)
  }

  // ---------------------------------------------------------------- decryption

  const SEEDS: seq<bv32> := [
    0xA53A8888,
    0xA1427921, 0xAC9528B1, 0xC5892354, 0x49671B12,
    0xACC56121, 0xACB5381E, 0x765436E1, 0x9F2C3E54,
    0x1133E312, 0xAC5E7894, 0xE9F208B1, 0x4E87DCFE,
    0x43174312, 0x1D7A6C99, 0x874224A2]

  function Rotate1(v: bv32): bv32 {
    ((v << 1) & 0x0FFF_FFFE) | ((v >> 27) & 1)
  }

  function Rotate8(v: bv32): bv32 {
    ((v << 8) & 0x0FFF_FF00) | ((v >> 20) & 0xFF)
  }

  /** `decryptCode` below the top nibble, which selects the seed. */
  function Unscramble(v: bv32, seed: bv32): bv32 {
    (seed & 0x0FFF_FFFF) ^ Rotate8(Rotate1(Rotate1(v)))
  }

  function UnscrambleArg(v: bv32): bv32 {
    var w := v + 0x5437_00D0;
    ((w >> 29) | (w << 3)) ^ 0xA53A_8888
  }

  /** The inverse transformations, from which encrypted codes are made. */
  function Scramble(p: bv32, seed: bv32): bv32 {
    var v := p ^ (seed & 0x0FFF_FFFF);
    ((v >> 10) & 0x0003_FFFF) | ((v << 18) & 0x0FFC_0000)
  }

  function ScrambleArg(p: bv32): bv32 {
    var w := p ^ 0xA53A_8888;
    ((w >> 3) | (w << 29)) - 0x5437_00D0
  }

  /** Whatever top nibble an encrypted word carries, its plain word is recovered, and only 28 bits of it exist. */
  lemma CodesDecrypt(p: bv32, seed: bv32, nibble: bv32)
    requires p & 0xF000_0000 == 0 && nibble & 0x0FFF_FFFF == 0
    ensures Unscramble(Scramble(p, seed) | nibble, seed) == p
    ensures Scramble(p, seed) & 0xF000_0000 == 0
  {
  }

  lemma ArgsDecrypt(p: bv32)
    ensures UnscrambleArg(ScrambleArg(p)) == p
  {
  }

  function DecryptCode(v: u32): u32 {
    if v < 0x1000_0000 then v else Unscramble(v as bv32, SEEDS[v / 0x1000_0000]) as int
  }

  function DecryptArg(v: u32): u32 {
    UnscrambleArg(v as bv32) as int
  }

  // ---------------------------------------------------------------- decoding one code

  datatype Relation = Eq | Neq | Lt | Gt
  datatype Test = Test(rel: Relation, address: u32, value: u32)

  datatype Instr =
    | Write(size: Bits, address: u32, value: u32)
    | Group(address: u32, values: seq<u32>)
    | Adjust(up: bool, size: Bits, address: u32, value: u32)
    | Repeat(address: u32, count: u32, increment: u32, value: u32)
    | CopyBytes(source: u32, dest: u32, count: u32)
    | Next(test: Test)                  // 0x0D: enable the next code
    | Block(test: Test, lines: nat)     // 0x0E: enable the next words

  datatype Error = MissingWords | UnsupportedCode | MasterCode

  datatype Decoded = Code(instr: Instr, next: nat) | Bad(error: Error)

  function RelationOf(n: nat): Option<Relation> {
    if n == 0 then Some(Eq)
    else if n == 1 then Some(Neq)
    else if n == 2 then Some(Lt)
    else if n == 3 then Some(Gt)
    else None
  }

  /** Fields of a code word. */
  function Opcode(w: u32): u32 {
    w / 0x100_0000
  }

  function Addr24(w: u32): u32 {
    w % 0x100_0000
  }

  function High16(w: u32): u32 {
    w / 0x1_0000
  }

  function Low16(w: u32): u32 {
    w % 0x1_0000
  }

  function Subcode(w: u32): u32 {
    High16(w) % 0x100
  }

  function Low8(w: u32): u32 {
    w % 0x100
  }

  predicate IsEncrypted(w: u32) {
    w >= 0x1000_0000
  }

  /** The code that starts at word `i`, decrypted if its top nibble says so. */
  function Decode(words: seq<u32>, i: nat): Decoded
    requires i < |words|
  {
    var encrypted := IsEncrypted(words[i]);
    var w := DecryptCode(words[i]);
    var code := Opcode(w);
    var left := |words| - i - 1;        // words after this one
    var arg1 := if left < 1 then 0
                else if encrypted && (code == 4 || code == 0xd) && left >= 2 then DecryptArg(words[i + 1])
                else words[i + 1];
    var arg2 := if left < 2 then 0 else if encrypted && code == 4 then DecryptArg(words[i + 2]) else words[i + 2];
    if code <= 2 then
      if left < 1 then Bad(MissingWords)
      else Code(Write(if code == 0 then 8 else if code == 1 then 16 else 32, Addr24(w), arg1), i + 2)
    else if code == 3 then DecodeGroup(words, i, w)
    else if code == 4 then
      if left < 2 then Bad(MissingWords)
      else Code(Repeat(Addr24(w), High16(arg1), Low16(arg1), arg2), i + 3)
    else if code == 5 then
      if left < 2 then Bad(MissingWords) else Code(CopyBytes(Addr24(w), Addr24(arg1), arg2), i + 3)
    else if code == 7 then Bad(MasterCode)
    else if code == 0xd then
      if left < 1 then Bad(MissingWords)
      else DecodeTest(High16(arg1), Addr24(w), Low16(arg1), None, i + 2)
    else if code == 0xe then
      if left < 1 then Bad(MissingWords)
      else DecodeTest(Opcode(arg1), Addr24(arg1), Low16(w), Some(Subcode(w)), i + 2)
    else Bad(UnsupportedCode)
  }

  /** Codes 0D and 0E, the latter with a line count. */
  function DecodeTest(rel: nat, address: u32, value: u32, lines: Option<nat>, next: nat): Decoded {
    match RelationOf(rel)
    case None => Bad(UnsupportedCode)
    case Some(r) =>
      var test := Test(r, address, value);
      Code(if lines.None? then Next(test) else Block(test, lines.value), next)
  }

  /** Codes 03xx: group write and increment/decrement. */
  function DecodeGroup(words: seq<u32>, i: nat, w: u32): Decoded
    requires i < |words|
  {
    var sub := Subcode(w);
    var left := |words| - i - 1;
    if sub == 0 then
      var count := Low16(w);
      if left < count + 1 then Bad(MissingWords)
      else Code(Group(Addr24(words[i + 1]), words[i + 2..i + 2 + count]), i + 2 + count)
    else if sub <= 2 then
      if left < 1 then Bad(MissingWords) else Code(Adjust(sub == 1, 8, Addr24(words[i + 1]), Low8(w)), i + 2)
    else if sub <= 4 then
      if left < 1 then Bad(MissingWords) else Code(Adjust(sub == 3, 16, Addr24(words[i + 1]), Low16(w)), i + 2)
    else if sub <= 6 then
      if left < 2 then Bad(MissingWords) else Code(Adjust(sub == 5, 32, Addr24(words[i + 1]), words[i + 2]), i + 3)
    else Bad(UnsupportedCode)
  }

  /** Every code takes at least two words and stays inside the list. */
  lemma DecodeAdvances(words: seq<u32>, i: nat)
    requires i < |words|
    ensures Decode(words, i).Code? ==> i + 2 <= Decode(words, i).next <= |words|
    ensures Decode(words, i).Code? && Decode(words, i).instr.Group? ==>
      Decode(words, i).next == i + 2 + |Decode(words, i).instr.values|
  {
  }

  // ---------------------------------------------------------------- the compiler, addGameSharkCheat

  function TestCheat(t: Test): Cheat {
    var kind := match t.rel
      case Eq => RunNextIfEq
      case Neq => RunNextIfNeq
      case Lt => RunNextIfLt
      case Gt => RunNextIfGt;
    Plain(kind, 16, t.address, t.value)
  }

  const NO_CONDITION: Cheat := Plain(Disabled, 8, 0, 0)

  /** One cheat per value, the block's guard repeated between them while the words lie in the block. */
  function EmitGroup(address: u32, values: seq<u32>, pos: nat, limit: nat, cond: Cheat): seq<Cheat>
    decreases |values|
  {
    if values == [] then []
    else
      [Plain(SetValue, 32, address, values[0])]
      + (if |values| > 1 && pos < limit then [cond] else [])
      + EmitGroup(U32(address + 4), values[1..], pos + 1, limit, cond)
  }

  /** Cheats pushed for the code at word `i`. */
  function Emit(instr: Instr, i: nat, limit: nat, cond: Cheat): seq<Cheat> {
    var guard := if i < limit then [cond] else [];
    guard + match instr
      case Write(size, address, value) => [Plain(SetValue, size, address, value)]
      case Group(address, values) => EmitGroup(address, values, i + 2, limit, cond)
      case Adjust(up, size, address, value) => [Plain(if up then Increase else Decrease, size, address, value)]
      case Repeat(address, count, increment, value) =>
        [Plain(SetValue, 32, address, value).(repeatCount := count, repeatAddressIncrement := increment)]
      case CopyBytes(source, dest, count) =>
        [Plain(Copy, 8, source, 0).(destAddress := dest, repeatCount := count)]
      case Next(test) => [TestCheat(test)]
      case Block(_, _) => []
  }

  datatype Compiled = Compiled(cheats: seq<Cheat>) | Refused(error: Error)

  function CompileFrom(words: seq<u32>, i: nat, limit: nat, cond: Cheat): Compiled
    decreases |words| - i
  {
    if i >= |words| then Compiled([])
    else
      match Decode(words, i)
      case Bad(e) => Refused(e)
      case Code(instr, next) =>
        DecodeAdvances(words, i);
        var limit' := if instr.Block? then i + 1 + instr.lines else limit;
        var cond' := if instr.Block? then TestCheat(instr.test) else cond;
        match CompileFrom(words, next, limit', cond')
        case Refused(e) => Refused(e)
        case Compiled(rest) => Compiled(Emit(instr, i, limit, cond) + rest)
  }

  function Compile(words: seq<u32>): Compiled {
    CompileFrom(words, 0, 0, NO_CONDITION)
  }

  // ---------------------------------------------------------------- direct interpretation of the codes

  predicate Holds(t: Test, ram: Ram) {
    var v := ReadRam(ram, t.address, 16);
    match t.rel
    case Eq => v == t.value
    case Neq => v != t.value
    case Lt => v < t.value
    case Gt => v > t.value
  }

  /** Elementary memory updates. */
  datatype Op =
    | Put(size: Bits, address: u32, value: u32)
    | Add(size: Bits, address: u32, delta: int)
    | Fill(address: u32, stride: nat, count: nat, value: u32)
    | Move(source: u32, dest: u32, count: nat)

  function Signed(up: bool, value: u32): int {
    if up then value else 0 - value
  }

  function OpsOf(instr: Instr): seq<Op> {
    match instr
    case Write(size, address, value) => [Put(size, address, value)]
    case Group(address, values) =>
      seq(|values|, k requires 0 <= k < |values| => Put(32, U32(address + 4 * k), values[k]))
    case Adjust(up, size, address, value) => [Add(size, address, Signed(up, value))]
    case Repeat(address, count, increment, value) => [Fill(address, 4 * increment, count, value)]
    case CopyBytes(source, dest, count) => [Move(source, dest, count)]
    case Next(_) => []
    case Block(_, _) => []
  }

  /** `n` words, `stride` bytes apart. */
  function FillFrom(ram: Ram, address: u32, stride: nat, value: u32, n: nat): Ram
    decreases n
  {
    if n == 0 then ram
    else FillFrom(WriteRam(ram, address, value, 32), U32(address + stride), stride, value, n - 1)
  }

  function MoveFrom(ram: Ram, source: u32, dest: u32, k: nat, n: nat): Ram
    decreases n - k
  {
    if k >= n then ram
    else MoveFrom(WriteRam(ram, U32(dest + k), ReadRam(ram, U32(source + k), 8), 8), source, dest, k + 1, n)
  }

  function Do(op: Op, ram: Ram): Ram {
    match op
    case Put(size, address, value) => WriteRam(ram, address, value, size)
    case Add(size, address, delta) => WriteRam(ram, address, U32(ReadRam(ram, address, size) + delta), size)
    case Fill(address, stride, count, value) => FillFrom(ram, address, stride, value, count)
    case Move(source, dest, count) => MoveFrom(ram, source, dest, 0, count)
  }

  /** Each update runs exactly when the guard, if any, holds at that point. */
  function DoAll(ops: seq<Op>, guard: Option<Test>, ram: Ram): Ram
    decreases |ops|
  {
    if ops == [] then ram
    else DoAll(ops[1..], guard, if guard.None? || Holds(guard.value, ram) then Do(ops[0], ram) else ram)
  }

  /** A 0x0E block covers the words from the end of its header up to `end`. */
  datatype Scope = NoBlock | InBlock(end: nat, test: Test)

  predicate Covered(scope: Scope, i: nat) {
    scope.InBlock? && i < scope.end
  }

  /** `armed` is false when the preceding 0x0D test failed, and the code at `i` is therefore passed over. */
  function Direct(words: seq<u32>, i: nat, scope: Scope, armed: bool, ram: Ram): Ram
    decreases |words| - i
  {
    if i >= |words| || Decode(words, i).Bad? then ram
    else
      var Code(instr, next) := Decode(words, i);
      DecodeAdvances(words, i);
      if !armed then Direct(words, next, scope, true, ram)
      else
        match instr
        case Next(t) =>
          Direct(words, next, scope, (Covered(scope, i) && !Holds(scope.test, ram)) || Holds(t, ram), ram)
        case Block(t, lines) => Direct(words, next, InBlock(next + lines, t), true, ram)
        case _ =>
          var guard := if Covered(scope, i) then Some(scope.test) else None;
          Direct(words, next, scope, true, DoAll(OpsOf(instr), guard, ram))
  }

  /**
   The shape under which the flat list is faithful. Blocks contain only codes that write, each
   with at least one write, and end on a code boundary; a 0x0D outside a block is followed by a
   code that compiles to one cheat, or by another 0x0D, or by nothing.
   */
  predicate WellShaped(words: seq<u32>, i: nat, scope: Scope, afterNext: bool)
    decreases |words| - i
  {
    i >= |words| ||
    (Decode(words, i).Code? &&
      var Code(instr, next) := Decode(words, i);
      DecodeAdvances(words, i);
      match instr
      case Next(_) => !Covered(scope, i) && WellShaped(words, next, scope, true)
      case Block(t, lines) =>
        !Covered(scope, i) && !afterNext && WellShaped(words, next, InBlock(next + lines, t), false)
      case _ =>
        && (Covered(scope, i) ==> OpsOf(instr) != [] && next <= scope.end)
        && (afterNext ==> |OpsOf(instr)| == 1)
        && WellShaped(words, next, scope, false))
  }

  // ---------------------------------------------------------------- memory facts

  lemma {:induction false} WordIsItsBytes(s: seq<byte>)
    ensures LittleEndian(FromLittleEndian(s), |s|) == s
  {
    if s == [] {
    } else {
      var n, rest := FromLittleEndian(s), FromLittleEndian(s[1..]);
      assert n % 256 == s[0] && n / 256 == rest;
      WordIsItsBytes(s[1..]);
      assert [s[0]] + s[1..] == s;
    }
  }

  lemma {:induction false} StoreLoaded(ram: Ram, addr: nat, n: nat)
    ensures StoreBytes(ram, addr, LoadBytes(ram, addr, n)) == ram
    decreases n
  {
    if n == 0 {
    } else {
      var s := LoadBytes(ram, addr, n);
      assert ram[CellOf(addr) := s[0]] == ram;
      assert s[1..] == LoadBytes(ram, addr + 1, n - 1);
      StoreLoaded(ram, addr + 1, n - 1);
    }
  }

  /** Writing back the value that is read changes nothing, so the source's comparison only saves work. */
  lemma WriteBack(ram: Ram, addr: nat, bits: Bits)
    ensures WriteRam(ram, addr, ReadRam(ram, addr, bits), bits) == ram
  {
    WordIsItsBytes(LoadBytes(ram, addr, Width(bits)));
    StoreLoaded(ram, addr, Width(bits));
  }

  /** One round of the repeat loop. */
  lemma SetLoopStep(ram: Ram, c: Cheat, address: u32, value: u32, n: nat)
    requires n > 0
    ensures SetLoop(ram, c, address, value, n)
         == SetLoop(WriteRam(ram, address, value, c.size), c, U32(address + Stride(c)),
           U32(value + c.repeatValueIncrement), n - 1)
  {
    WriteBack(ram, address, c.size);
  }

  lemma SetOnce(ram: Ram, c: Cheat, value: u32)
    ensures SetLoop(ram, c, c.address, value, 1) == WriteRam(ram, c.address, value, c.size)
  {
    SetLoopStep(ram, c, c.address, value, 1);
  }

  /** One round on both sides. */
  lemma Round(ram: Ram, c: Cheat, address: u32, n: nat) returns (ram': Ram, next: u32)
    requires c.repeatValueIncrement == 0 && c.size == 32 && n > 0
    ensures SetLoop(ram, c, address, c.value, n) == SetLoop(ram', c, next, c.value, n - 1)
    ensures FillFrom(ram, address, Stride(c), c.value, n) == FillFrom(ram', next, Stride(c), c.value, n - 1)
  {
    ram', next := WriteRam(ram, address, c.value, 32), U32(address + Stride(c));
    SetLoopStep(ram, c, address, c.value, n);
    SameWord(c.value);
    FillStep(ram, address, Stride(c), c.value, n);
  }

  lemma {:induction false} SetLoopFills(ram: Ram, c: Cheat, address: u32, n: nat)
    requires c.repeatValueIncrement == 0 && c.size == 32
    ensures SetLoop(ram, c, address, c.value, n) == FillFrom(ram, address, Stride(c), c.value, n)
    decreases n
  {
    hide ReadRam, WriteRam;
    if n == 0 {
    } else {
      var ram', next := Round(ram, c, address, n);
      SetLoopFills(ram', c, next, n - 1);
    }
  }

  lemma SameWord(v: u32)
    ensures U32(v + 0) == v
  {
  }

  lemma FillStep(ram: Ram, address: u32, stride: nat, value: u32, n: nat)
    requires n > 0
    ensures FillFrom(ram, address, stride, value, n)
         == FillFrom(WriteRam(ram, address, value, 32), U32(address + stride), stride, value, n - 1)
  {
  }

  lemma StrideBytes(increment: u32)
    requires increment < 0x1_0000
    ensures U32(increment * 32) / 8 == 4 * increment
  {
  }

  lemma {:induction false} CopyLoopMoves(ram: Ram, c: Cheat, k: nat)
    requires c.size == 8 && k <= c.repeatCount
    ensures CopyLoop(ram, c, k) == MoveFrom(ram, c.address, c.destAddress, k, c.repeatCount)
    decreases c.repeatCount - k
  {
    hide ReadRam, WriteRam, U32;
    if k >= c.repeatCount {
    } else {
      var from, to := U32(c.address + k), U32(c.destAddress + k);
      var ram' := WriteRam(ram, to, ReadRam(ram, from, 8), 8);
      CopyLoopMoves(ram', c, k + 1);
      assert CopyLoop(ram, c, k) == CopyLoop(ram', c, k + 1);
      assert MoveFrom(ram, c.address, c.destAddress, k, c.repeatCount)
          == MoveFrom(ram', c.address, c.destAddress, k + 1, c.repeatCount);
    }
  }

  // ---------------------------------------------------------------- one code at a time

  lemma {:induction false} ApplyAllConcat(m: Machine, a: seq<Cheat>, b: seq<Cheat>, online: bool)
    ensures ApplyAll(m, a + b, online) == ApplyAll(ApplyAll(m, a, online), b, online)
    decreases |a|
  {
    if a == [] {
      assert a + b == b;
    } else {
      assert (a + b)[1..] == a[1..] + b;
      ApplyAllConcat(StepCheat(m, a[0], online), a[1..], b, online);
    }
  }

  lemma ApplyConcat(m: Machine, a: seq<Cheat>, b: seq<Cheat>)
    ensures Apply(m, a + b) == Apply(Apply(m, a), b)
  {
    assert Enabled(a + b) == Enabled(a) + Enabled(b);
    ApplyAllConcat(m, Enabled(a), Enabled(b), false);
  }

  lemma ApplyOne(m: Machine, c: Cheat)
    ensures Apply(m, [c]) == StepCheat(m, c.(enabled := true), false)
  {
    var e := c.(enabled := true);
    assert Enabled([c]) == [e];
    assert [e][1..] == [];
    assert ApplyAll(StepCheat(m, e, false), [], false) == StepCheat(m, e, false);
  }

  /** A compiled condition skips the next cheat exactly when its test fails. */
  lemma ApplyTest(ram: Ram, t: Test)
    ensures Apply(Machine(ram, false), [TestCheat(t)]) == Machine(ram, !Holds(t, ram))
  {
    ApplyOne(Machine(ram, false), TestCheat(t));
  }

  lemma ApplySkipped(ram: Ram, c: Cheat)
    requires !c.builtIn
    ensures Apply(Machine(ram, true), [c]) == Machine(ram, false)
  {
    ApplyOne(Machine(ram, true), c);
  }

  /** The compiled write performs the elementary update. */
  predicate StandsFor(c: Cheat, op: Op) {
    match op
    case Put(size, address, value) => c == Plain(SetValue, size, address, value)
    case Add(size, address, delta) =>
      exists value: u32, up :: delta == Signed(up, value)
        && c == Plain(if up then Increase else Decrease, size, address, value)
    case Fill(address, stride, count, value) =>
      stride < 0x4_0000 && count < TWO_32 && stride % 4 == 0
      && c == Plain(SetValue, 32, address, value).(repeatCount := count, repeatAddressIncrement := stride / 4)
    case Move(source, dest, count) =>
      count < TWO_32 && c == Plain(Copy, 8, source, 0).(destAddress := dest, repeatCount := count)
  }

  lemma WriteRuns(ram: Ram, c: Cheat, op: Op)
    requires StandsFor(c, op)
    ensures RunOne(c.(enabled := true), ram) == Do(op, ram)
    ensures !SkipsNext(c.(enabled := true), ram) && !c.builtIn
  {
    hide ReadRam, WriteRam, SetLoop, CopyLoop, FillFrom, MoveFrom;
    var e := c.(enabled := true);
    match op
    case Put(_, _, value) => SetOnce(ram, e, value);
    case Add(size, address, delta) =>
      SetOnce(ram, e, U32(ReadRam(ram, address, size) + delta));
    case Fill(address, stride, count, value) =>
      StrideBytes(stride / 4);
      SetLoopFills(ram, e, address, count);
    case Move(_, _, _) => CopyLoopMoves(ram, e, 0);
  }

  lemma ApplyWrite(ram: Ram, c: Cheat, op: Op)
    requires StandsFor(c, op)
    ensures Apply(Machine(ram, false), [c]) == Machine(Do(op, ram), false)
    ensures Apply(Machine(ram, true), [c]) == Machine(ram, false)
  {
    WriteRuns(ram, c, op);
    ApplyOne(Machine(ram, false), c);
    ApplyOne(Machine(ram, true), c);
  }

  /** A guarded write runs exactly when its test holds at that point. */
  lemma ApplyGuarded(ram: Ram, t: Test, c: Cheat, op: Op)
    requires StandsFor(c, op)
    ensures Apply(Machine(ram, false), [TestCheat(t), c]) == Machine(DoAll([op], Some(t), ram), false)
  {
    assert [TestCheat(t), c] == [TestCheat(t)] + [c];
    ApplyConcat(Machine(ram, false), [TestCheat(t)], [c]);
    ApplyTest(ram, t);
    ApplyWrite(ram, c, op);
    assert [op][1..] == [];
    assert forall r :: DoAll([], Some(t), r) == r;
  }

  // ---------------------------------------------------------------- group writes

  lemma GroupOps(address: u32, values: seq<u32>)
    requires values != []
    ensures OpsOf(Group(address, values)) == [Put(32, address, values[0])] + OpsOf(Group(U32(address + 4), values[1..]))
  {
    var l := OpsOf(Group(address, values));
    var r := [Put(32, address, values[0])] + OpsOf(Group(U32(address + 4), values[1..]));
    forall k | 0 <= k < |values|
      ensures l[k] == r[k]
    {
      if k == 0 {
        SameWord(address);
      } else {
        U32Sum(address + 4, 4 * (k - 1));
      }
    }
  }

  lemma U32Sum(a: int, b: int)
    ensures U32(U32(a) + b) == U32(a + b)
  {
  }

  lemma DoAllStep(op: Op, ops: seq<Op>, guard: Option<Test>, ram: Ram)
    ensures DoAll([op] + ops, guard, ram) == DoAll(ops, guard, DoAll([op], guard, ram))
  {
    assert ([op] + ops)[1..] == ops && [op][1..] == [];
  }

  lemma DoAllOne(op: Op, ram: Ram)
    ensures DoAll([op], None, ram) == Do(op, ram)
  {
    assert [op][1..] == [];
  }

  lemma {:induction false} GroupUnguarded(address: u32, values: seq<u32>, pos: nat, limit: nat, cond: Cheat, ram: Ram)
    requires limit <= pos
    ensures Apply(Machine(ram, false), EmitGroup(address, values, pos, limit, cond))
         == Machine(DoAll(OpsOf(Group(address, values)), None, ram), false)
    decreases |values|
  {
    if values == [] {
    } else {
      var w, op := Plain(SetValue, 32, address, values[0]), Put(32, address, values[0]);
      var rest := EmitGroup(U32(address + 4), values[1..], pos + 1, limit, cond);
      assert EmitGroup(address, values, pos, limit, cond) == [w] + rest;
      ApplyConcat(Machine(ram, false), [w], rest);
      ApplyWrite(ram, w, op);
      GroupUnguarded(U32(address + 4), values[1..], pos + 1, limit, cond, Do(op, ram));
      GroupOps(address, values);
      DoAllStep(op, OpsOf(Group(U32(address + 4), values[1..])), None, ram);
      DoAllOne(op, ram);
    }
  }

  lemma {:induction false} GroupGuarded(address: u32, values: seq<u32>, pos: nat, limit: nat, t: Test, ram: Ram)
    requires values != [] && pos + |values| <= limit + 1
    ensures Apply(Machine(ram, false), [TestCheat(t)] + EmitGroup(address, values, pos, limit, TestCheat(t)))
         == Machine(DoAll(OpsOf(Group(address, values)), Some(t), ram), false)
    decreases |values|
  {
    var c, w, op := TestCheat(t), Plain(SetValue, 32, address, values[0]), Put(32, address, values[0]);
    var tail := values[1..];
    var rest := (if tail == [] then [] else [c]) + EmitGroup(U32(address + 4), tail, pos + 1, limit, c);
    assert [c] + EmitGroup(address, values, pos, limit, c) == [c, w] + rest;
    ApplyConcat(Machine(ram, false), [c, w], rest);
    ApplyGuarded(ram, t, w, op);
    GroupOps(address, values);
    DoAllStep(op, OpsOf(Group(U32(address + 4), tail)), Some(t), ram);
    if tail == [] {
    } else {
      GroupGuarded(U32(address + 4), tail, pos + 1, limit, t, DoAll([op], Some(t), ram));
    }
  }

  // ---------------------------------------------------------------- one code, compiled and direct

  predicate IsWrite(instr: Instr) {
    !instr.Next? && !instr.Block?
  }

  /** A code other than a group compiles to one cheat. */
  lemma SingleWrite(instr: Instr, i: nat, limit: nat, cond: Cheat) returns (c: Cheat)
    requires IsWrite(instr) && !instr.Group?
    requires instr.Repeat? ==> instr.increment < 0x1_0000
    ensures |OpsOf(instr)| == 1 && StandsFor(c, OpsOf(instr)[0])
    ensures Emit(instr, i, limit, cond) == (if i < limit then [cond] else []) + [c]
  {
    c := Emit(instr, limit, limit, cond)[0];
    if instr.Adjust? {
      assert StandsFor(c, Add(instr.size, instr.address, Signed(instr.up, instr.value)));
    }
  }

  lemma EmitUnguarded(instr: Instr, i: nat, limit: nat, cond: Cheat, ram: Ram)
    requires IsWrite(instr) && limit <= i
    requires instr.Repeat? ==> instr.increment < 0x1_0000
    ensures Apply(Machine(ram, false), Emit(instr, i, limit, cond)) == Machine(DoAll(OpsOf(instr), None, ram), false)
    ensures |OpsOf(instr)| == 1 ==> Apply(Machine(ram, true), Emit(instr, i, limit, cond)) == Machine(ram, false)
  {
    if instr.Group? {
      var all := EmitGroup(instr.address, instr.values, i + 2, limit, cond);
      assert Emit(instr, i, limit, cond) == all;
      GroupUnguarded(instr.address, instr.values, i + 2, limit, cond, ram);
      if |instr.values| == 1 {
        var w := Plain(SetValue, 32, instr.address, instr.values[0]);
        assert instr.values[1..] == [];
        assert all == [w];
        ApplySkipped(ram, w);
      }
    } else {
      var c := SingleWrite(instr, i, limit, cond);
      var op := OpsOf(instr)[0];
      assert OpsOf(instr) == [op];
      assert Emit(instr, i, limit, cond) == [c];
      ApplyWrite(ram, c, op);
      DoAllOne(op, ram);
    }
  }

  lemma SingleGuarded(instr: Instr, i: nat, limit: nat, t: Test, ram: Ram)
    requires IsWrite(instr) && !instr.Group? && i < limit
    requires instr.Repeat? ==> instr.increment < 0x1_0000
    ensures Apply(Machine(ram, false), Emit(instr, i, limit, TestCheat(t)))
         == Machine(DoAll(OpsOf(instr), Some(t), ram), false)
  {
    var c := SingleWrite(instr, i, limit, TestCheat(t));
    var op := OpsOf(instr)[0];
    assert OpsOf(instr) == [op];
    assert [TestCheat(t)] + [c] == [TestCheat(t), c];
    ApplyGuarded(ram, t, c, op);
  }

  lemma EmitGuarded(instr: Instr, i: nat, next: nat, limit: nat, t: Test, ram: Ram)
    requires IsWrite(instr) && OpsOf(instr) != [] && i + 2 <= next <= limit + 1
    requires instr.Group? ==> next == i + 2 + |instr.values|
    requires instr.Repeat? ==> instr.increment < 0x1_0000
    ensures Apply(Machine(ram, false), Emit(instr, i, limit, TestCheat(t)))
         == Machine(DoAll(OpsOf(instr), Some(t), ram), false)
  {
    hide Apply, DoAll, EmitGroup, TestCheat;
    if instr.Group? {
      GroupGuarded(instr.address, instr.values, i + 2, limit, t, ram);
    } else {
      SingleGuarded(instr, i, limit, t, ram);
    }
  }

  // ---------------------------------------------------------------- main result

  /** The compiler's two loop variables describe the block. */
  predicate Agree(scope: Scope, limit: nat, cond: Cheat) {
    match scope
    case NoBlock => limit == 0
    case InBlock(end, test) => limit + 1 == end && cond == TestCheat(test)
  }

  lemma DecodeRepeat(words: seq<u32>, i: nat)
    requires i < |words| && Decode(words, i).Code? && Decode(words, i).instr.Repeat?
    ensures Decode(words, i).instr.increment < 0x1_0000
  {
  }

  /** Everything the induction carries from one code to the next. */
  datatype Progress = Progress(i: nat, scope: Scope, limit: nat, cond: Cheat, afterNext: bool, m: Machine)

  ghost predicate InStep(words: seq<u32>, p: Progress) {
    && WellShaped(words, p.i, p.scope, p.afterNext)
    && Agree(p.scope, p.limit, p.cond)
    && (p.m.skip ==> p.afterNext)
    && (p.afterNext ==> !Covered(p.scope, p.i))
  }

  function DirectFrom(words: seq<u32>, p: Progress): Ram {
    Direct(words, p.i, p.scope, !p.m.skip, p.m.ram)
  }

  lemma NextStep(words: seq<u32>, p: Progress) returns (q: Progress)
    requires InStep(words, p) && p.i < |words| && Decode(words, p.i).instr.Next?
    ensures InStep(words, q) && q.i == Decode(words, p.i).next
    ensures q.limit == p.limit && q.cond == p.cond
    ensures q.m == Apply(p.m, Emit(Decode(words, p.i).instr, p.i, p.limit, p.cond))
    ensures DirectFrom(words, p) == DirectFrom(words, q)
  {
    var Code(instr, next) := Decode(words, p.i);
    DecodeAdvances(words, p.i);
    var c := TestCheat(instr.test);
    assert Emit(instr, p.i, p.limit, p.cond) == [c];
    if p.m.skip { ApplySkipped(p.m.ram, c); } else { ApplyTest(p.m.ram, instr.test); }
    q := Progress(next, p.scope, p.limit, p.cond, true, Apply(p.m, [c]));
  }

  lemma BlockStep(words: seq<u32>, p: Progress) returns (q: Progress)
    requires InStep(words, p) && p.i < |words| && Decode(words, p.i).instr.Block?
    ensures InStep(words, q) && q.i == Decode(words, p.i).next
    ensures q.limit == p.i + 1 + Decode(words, p.i).instr.lines && q.cond == TestCheat(Decode(words, p.i).instr.test)
    ensures q.m == Apply(p.m, Emit(Decode(words, p.i).instr, p.i, p.limit, p.cond))
    ensures DirectFrom(words, p) == DirectFrom(words, q)
  {
    var Code(instr, next) := Decode(words, p.i);
    DecodeAdvances(words, p.i);
    DecodeBlock(words, p.i);
    hide Decode;
    assert Emit(instr, p.i, p.limit, p.cond) == [] && Enabled([]) == [];
    var scope := InBlock(next + instr.lines, instr.test);
    q := Progress(next, scope, p.i + 1 + instr.lines, TestCheat(instr.test), false, p.m);
  }

  lemma WriteStep(words: seq<u32>, p: Progress) returns (q: Progress)
    requires InStep(words, p) && p.i < |words| && IsWrite(Decode(words, p.i).instr)
    ensures InStep(words, q) && q.i == Decode(words, p.i).next
    ensures q.limit == p.limit && q.cond == p.cond
    ensures q.m == Apply(p.m, Emit(Decode(words, p.i).instr, p.i, p.limit, p.cond))
    ensures DirectFrom(words, p) == DirectFrom(words, q)
  {
    var Code(instr, next) := Decode(words, p.i);
    DecodeAdvances(words, p.i);
    if instr.Repeat? {
      DecodeRepeat(words, p.i);
    }
    if Covered(p.scope, p.i) {
      EmitGuarded(instr, p.i, next, p.limit, p.scope.test, p.m.ram);
    } else {
      EmitUnguarded(instr, p.i, p.limit, p.cond, p.m.ram);
    }
    q := Progress(next, p.scope, p.limit, p.cond, false, Apply(p.m, Emit(instr, p.i, p.limit, p.cond)));
  }

  lemma OneCode(words: seq<u32>, p: Progress) returns (q: Progress)
    requires InStep(words, p) && p.i < |words|
    ensures InStep(words, q) && p.i < q.i <= |words|
    ensures DirectFrom(words, p) == DirectFrom(words, q)
    ensures CompileFrom(words, q.i, q.limit, q.cond).Compiled? ==>
      && CompileFrom(words, p.i, p.limit, p.cond).Compiled?
      && Apply(p.m, CompileFrom(words, p.i, p.limit, p.cond).cheats)
         == Apply(q.m, CompileFrom(words, q.i, q.limit, q.cond).cheats)
  {
    hide Decode, Emit, Apply, Direct, DirectFrom;
    var Code(instr, next) := Decode(words, p.i);
    DecodeAdvances(words, p.i);
    if instr.Next? {
      q := NextStep(words, p);
    } else if instr.Block? {
      q := BlockStep(words, p);
    } else {
      q := WriteStep(words, p);
    }
    if CompileFrom(words, q.i, q.limit, q.cond).Compiled? {
      ApplyConcat(p.m, Emit(instr, p.i, p.limit, p.cond), CompileFrom(words, q.i, q.limit, q.cond).cheats);
    }
  }

  lemma {:induction false} CompiledFrom(words: seq<u32>, p: Progress)
    requires InStep(words, p)
    ensures CompileFrom(words, p.i, p.limit, p.cond).Compiled?
    ensures Apply(p.m, CompileFrom(words, p.i, p.limit, p.cond).cheats).ram == DirectFrom(words, p)
    decreases |words| - p.i
  {
    if p.i >= |words| {
      assert Enabled([]) == [];
    } else {
      var q := OneCode(words, p);
      CompiledFrom(words, q);
    }
  }

  lemma DecodeBlock(words: seq<u32>, i: nat)
    requires i < |words| && Decode(words, i).Code?
    ensures Decode(words, i).instr.Block? || Decode(words, i).instr.Next? ==> Decode(words, i).next == i + 2
  {
  }

  /**
   Compilation preserves meaning: on every RAM, applying the compiled list is interpreting the
   codes directly, for every code list of the stated shape.
   */
  lemma CompiledMeansDirect(words: seq<u32>, ram: Ram)
    requires WellShaped(words, 0, NoBlock, false)
    ensures Compile(words).Compiled?
    ensures Apply(Machine(ram, false), Compile(words).cheats).ram == Direct(words, 0, NoBlock, true, ram)
  {
    CompiledFrom(words, Progress(0, NoBlock, 0, NO_CONDITION, false, Machine(ram, false)));
  }
}
