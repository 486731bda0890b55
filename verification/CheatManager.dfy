/** `addGameSharkCheat` and `apply` as the loops they are. */
module CheatManager {
  import opened Bytes
  import opened Cheats

  class Manager {
    var cheats: seq<Cheat>
    var active: bool

    constructor ()
      ensures cheats == [] && !active
    {
      cheats, active := [], false;
    }

    /** The value loop of a group write. */
    method PushGroup(address: u32, values: seq<u32>, pos: nat, limit: nat, cond: Cheat)
      modifies this`cheats
      ensures cheats == old(cheats) + EmitGroup(address, values, pos, limit, cond)
    {
      var a: u32 := address;
      for j := 0 to |values|
        invariant cheats + EmitGroup(a, values[j..], pos + j, limit, cond)
               == old(cheats) + EmitGroup(address, values, pos, limit, cond)
      {
        GroupStep(cheats, a, values[j..], pos + j, limit, cond);
        assert values[j..][1..] == values[j + 1..];
        cheats := cheats + [Plain(SetValue, 32, a, values[j])];
        a := U32(a + 4);
        if j < |values| - 1 && pos + j < limit {
          cheats := cheats + [cond];
        }
      }
    }

    /** Pushes what one code stands for. */
    method PushCode(instr: Instr, i: nat, limit: nat, cond: Cheat)
      modifies this`cheats
      ensures cheats == old(cheats) + Emit(instr, i, limit, cond)
    {
      hide EmitGroup, TestCheat;
      if i < limit {
        cheats := cheats + [cond];
      }
      match instr
      case Write(size, address, value) => cheats := cheats + [Plain(SetValue, size, address, value)];
      case Group(address, values) => PushGroup(address, values, i + 2, limit, cond);
      case Adjust(up, size, address, value) =>
        cheats := cheats + [Plain(if up then Increase else Decrease, size, address, value)];
      case Repeat(address, count, increment, value) =>
        cheats := cheats
          + [Plain(SetValue, 32, address, value).(repeatCount := count, repeatAddressIncrement := increment)];
      case CopyBytes(source, dest, count) =>
        cheats := cheats + [Plain(Copy, 8, source, 0).(destAddress := dest, repeatCount := count)];
      case Next(test) => cheats := cheats + [TestCheat(test)];
      case Block(_, _) =>
    }

    /** Either the whole code list is compiled and appended, or the cheat list is left as it was. */
    method AddGameSharkCheat(words: seq<u32>) returns (error: Option<Error>)
      modifies this
      ensures match Compile(words)
        case Compiled(c) => error == None && cheats == old(cheats) + c && active == (cheats != [])
        case Refused(e) => error == Some(e) && cheats == old(cheats) && active == old(active)
    {
      hide Decode, Emit, CompileFrom;
      var previous := cheats;
      var i, limit, cond := 0, 0, NO_CONDITION;
      ghost var done := [];
      CompileStart(words);
      while i < |words|
        invariant 0 <= i && 0 <= limit
        invariant cheats == previous + done
        invariant active == old(active)
        invariant Compile(words) == Prepend(done, CompileFrom(words, i, limit, cond))
        decreases |words| - i
      {
        DecodeAdvances(words, i);
        CompileStep(words, i, limit, cond, done);
        match Decode(words, i) {
          case Bad(e) =>
            cheats := previous;
            return Some(e);
          case Code(instr, next) =>
            PushCode(instr, i, limit, cond);
            done := done + Emit(instr, i, limit, cond);
            if instr.Block? {
              limit, cond := i + 1 + instr.lines, TestCheat(instr.test);
            }
            i := next;
        }
      }
      CompileEnd(words, i, limit, cond, done);
      active := cheats != [];
      return None;
    }

    /** Stores the low bytes of a value, each in its cell of the mirrored RAM. */
    method Store(memory: array<byte>, address: nat, value: nat, size: Bits)
      requires memory.Length == RAM_SIZE
      modifies memory
      ensures memory[..] == WriteRam(old(memory[..]), address, value, size)
    {
      var bytes := LittleEndian(value, Width(size));
      for i := 0 to |bytes|
        invariant StoreBytes(memory[..], address + i, bytes[i..]) == WriteRam(old(memory[..]), address, value, size)
      {
        ghost var before := memory[..];
        memory[CellOf(address + i)] := bytes[i];
        assert memory[..] == before[CellOf(address + i) := bytes[i]];
        assert bytes[i..][1..] == bytes[i + 1..];
      }
    }

    /** The repeat loop of the value cheats. */
    method SetRepeatedly(memory: array<byte>, cheat: Cheat, value: u32)
      requires memory.Length == RAM_SIZE
      modifies memory
      ensures memory[..] == SetLoop(old(memory[..]), cheat, cheat.address, value, cheat.repeatCount)
    {
      hide ReadRam, WriteRam, Stride;
      var address: u32, valueToSet: u32 := cheat.address, value;
      for k := 0 to cheat.repeatCount
        invariant SetLoop(memory[..], cheat, address, valueToSet, cheat.repeatCount - k)
               == SetLoop(old(memory[..]), cheat, cheat.address, value, cheat.repeatCount)
      {
        if ReadRam(memory[..], address, cheat.size) != valueToSet {
          Store(memory, address, valueToSet, cheat.size);
        }
        address, valueToSet := U32(address + Stride(cheat)), U32(valueToSet + cheat.repeatValueIncrement);
      }
    }

    /** The copy loop. */
    method CopyBlock(memory: array<byte>, cheat: Cheat)
      requires memory.Length == RAM_SIZE
      modifies memory
      ensures memory[..] == CopyLoop(old(memory[..]), cheat, 0)
    {
      hide ReadRam, WriteRam;
      for i := 0 to cheat.repeatCount
        invariant CopyLoop(memory[..], cheat, i) == CopyLoop(old(memory[..]), cheat, 0)
      {
        Store(memory, U32(cheat.destAddress + i), ReadRam(memory[..], U32(cheat.address + i), cheat.size), cheat.size);
      }
    }

    /** The interpreter loop, over a RAM it updates in place. */
    method Apply(memory: array<byte>, online: bool)
      requires memory.Length == RAM_SIZE
      modifies memory
      ensures memory[..]
           == if active then ApplyAll(Machine(old(memory[..]), false), cheats, online).ram else old(memory[..])
    {
      if !active {
        return;
      }
      ghost var m := Machine(memory[..], false);
      var skip := false;
      for k := 0 to |cheats|
        invariant m == Machine(memory[..], skip)
        invariant ApplyAll(m, cheats[k..], online) == ApplyAll(Machine(old(memory[..]), false), cheats, online)
      {
        var cheat := cheats[k];
        assert cheats[k..][1..] == cheats[k + 1..];
        m := StepCheat(m, cheat, online);
        if !cheat.builtIn && online {
          continue;
        }
        if skip {
          skip := false;
          continue;
        }
        if !cheat.enabled {
          continue;
        }
        var current := ReadRam(memory[..], cheat.address, cheat.size);
        match cheat.kind {
          case Disabled =>
          case SetValue => SetRepeatedly(memory, cheat, cheat.value);
          case Increase => SetRepeatedly(memory, cheat, U32(current + cheat.value));
          case Decrease => SetRepeatedly(memory, cheat, U32(current - cheat.value));
          case RunNextIfEq => skip := current != cheat.value;
          case RunNextIfNeq => skip := current == cheat.value;
          case RunNextIfGt => skip := current <= cheat.value;
          case RunNextIfLt => skip := current >= cheat.value;
          case Copy => CopyBlock(memory, cheat);
        }
      }
    }
  }

  /** Cheats compiled so far in front of the result for the rest. */
  function Prepend(done: seq<Cheat>, rest: Compiled): Compiled {
    match rest
    case Compiled(c) => Compiled(done + c)
    case Refused(e) => Refused(e)
  }

  lemma CompileStep(words: seq<u32>, i: nat, limit: nat, cond: Cheat, done: seq<Cheat>)
    requires i < |words|
    ensures match Decode(words, i)
      case Bad(e) => Prepend(done, CompileFrom(words, i, limit, cond)) == Refused(e)
      case Code(instr, next) =>
        Prepend(done, CompileFrom(words, i, limit, cond)) ==
        Prepend(done + Emit(instr, i, limit, cond),
          CompileFrom(words, next,
            if instr.Block? then i + 1 + instr.lines else limit, if instr.Block? then TestCheat(instr.test) else cond))
  {
    hide Emit;
  }

  lemma CompileStart(words: seq<u32>)
    ensures Compile(words) == Prepend([], CompileFrom(words, 0, 0, NO_CONDITION))
  {
    hide CompileFrom;
  }

  lemma CompileEnd(words: seq<u32>, i: nat, limit: nat, cond: Cheat, done: seq<Cheat>)
    requires i >= |words|
    ensures Prepend(done, CompileFrom(words, i, limit, cond)) == Compiled(done)
  {
    assert done + [] == done;
  }

  lemma GroupStep(cheats: seq<Cheat>, a: u32, values: seq<u32>, pos: nat, limit: nat, cond: Cheat)
    requires values != []
    ensures cheats + EmitGroup(a, values, pos, limit, cond)
         == cheats + [Plain(SetValue, 32, a, values[0])]
            + (if |values| > 1 && pos < limit then [cond] else [])
            + EmitGroup(U32(a + 4), values[1..], pos + 1, limit, cond)
  {
  }
}
