/**
 What the flat cheat list does outside the shape of `Cheats.WellShaped`. Each lemma takes the
 shortest code list with the construct, for all tests, writes and memories, and says exactly what
 happens and when that differs from direct interpretation.
 */
module CheatQuirks {
  import opened Bytes
  import opened Cheats

  lemma CompileStep(words: seq<u32>, i: nat, limit: nat, cond: Cheat)
    requires i < |words| && Decode(words, i).Code?
    ensures var Code(instr, next) := Decode(words, i);
      var limit' := if instr.Block? then i + 1 + instr.lines else limit;
      var cond' := if instr.Block? then TestCheat(instr.test) else cond;
      CompileFrom(words, next, limit', cond').Compiled? ==>
        CompileFrom(words, i, limit, cond)
          == Compiled(Emit(instr, i, limit, cond) + CompileFrom(words, next, limit', cond').cheats)
  {
    hide Emit;
  }

  /** A write code that compiles to one cheat, with its elementary update. */
  ghost predicate Simple(instr: Instr, c: Cheat, op: Op) {
    && OpsOf(instr) == [op]
    && StandsFor(c, op)
    && IsWrite(instr)
    && forall i: nat, limit, cond :: Emit(instr, i, limit, cond) == (if i < limit then [cond] else []) + [c]
  }

  lemma SimpleWrites(instr: Instr) returns (c: Cheat, op: Op)
    requires IsWrite(instr) && !instr.Group?
    requires instr.Repeat? ==> instr.increment < 0x1_0000
    ensures Simple(instr, c, op)
  {
    c := Emit(instr, 0, 0, NO_CONDITION)[0];
    op := OpsOf(instr)[0];
    var c' := SingleWrite(instr, 0, 0, NO_CONDITION);
    assert [c'][0] == c;
  }

  // ---------------------------------------------------------------- tests in front of a write

  function TestCheats(tests: seq<Test>): (cheats: seq<Cheat>)
    ensures |cheats| == |tests|
  {
    seq(|tests|, i requires 0 <= i < |tests| => TestCheat(tests[i]))
  }

  /** Whether a write behind these tests runs: a failed test passes over exactly the next entry. */
  predicate Runs(tests: seq<Test>, ram: Ram)
    decreases |tests|
  {
    tests == [] || if Holds(tests[0], ram) then Runs(tests[1..], ram) else |tests| > 1 && Runs(tests[2..], ram)
  }

  lemma TestCheatsConcat(a: seq<Test>, b: seq<Test>)
    ensures TestCheats(a + b) == TestCheats(a) + TestCheats(b)
  {
  }

  lemma FirstTest(tests: seq<Test>)
    requires tests != []
    ensures TestCheats(tests) == [TestCheat(tests[0])] + TestCheats(tests[1..])
  {
  }

  lemma {:induction false} TestsThenWrite(ram: Ram, tests: seq<Test>, c: Cheat, op: Op)
    requires StandsFor(c, op)
    ensures Apply(Machine(ram, false), TestCheats(tests) + [c])
         == Machine(if Runs(tests, ram) then Do(op, ram) else ram, false)
    decreases |tests|
  {
    hide Apply, Holds, TestCheat, Do, StandsFor;
    ApplyWrite(ram, c, op);
    if tests == [] {
      assert TestCheats(tests) + [c] == [c];
    } else {
      FirstTest(tests);
      var rest := TestCheats(tests[1..]) + [c];
      assert TestCheats(tests) + [c] == [TestCheat(tests[0])] + rest;
      ApplyConcat(Machine(ram, false), [TestCheat(tests[0])], rest);
      ApplyTest(ram, tests[0]);
      if Holds(tests[0], ram) {
        TestsThenWrite(ram, tests[1..], c, op);
      } else if |tests| == 1 {
        assert rest == [c];
      } else {
        TestPassedOver(ram, tests, c);
        TestsThenWrite(ram, tests[2..], c, op);
      }
    }
  }

  lemma TestPassedOver(ram: Ram, tests: seq<Test>, c: Cheat)
    requires |tests| > 1
    ensures Apply(Machine(ram, true), TestCheats(tests[1..]) + [c])
         == Apply(Machine(ram, false), TestCheats(tests[2..]) + [c])
  {
    var next, rest := TestCheat(tests[1]), TestCheats(tests[2..]) + [c];
    ApplySkipped(ram, next);
    hide Apply, TestCheat;
    FirstTest(tests[1..]);
    assert tests[1..][1..] == tests[2..];
    assert TestCheats(tests[1..]) + [c] == [next] + rest;
    ApplyConcat(Machine(ram, true), [next], rest);
  }

  /** Up to three tests, spelled out. */
  lemma RunsOf(s: Test, t: Test, u: Test, ram: Ram)
    ensures Runs([], ram)
    ensures Runs([s], ram) == Holds(s, ram)
    ensures Runs([s, t], ram) == (Holds(s, ram) ==> Holds(t, ram))
    ensures Runs([s, t, u], ram) == if Holds(s, ram) then Holds(t, ram) ==> Holds(u, ram) else Holds(u, ram)
  {
    hide Holds;
    RunsTwo(s, t, ram);
    RunsTwo(t, u, ram);
    assert [s, t, u][1..] == [t, u] && [s, t, u][2..] == [u];
  }

  lemma RunsTwo(s: Test, t: Test, ram: Ram)
    ensures Runs([s], ram) == Holds(s, ram) && Runs([t], ram) == Holds(t, ram)
    ensures Runs([s, t], ram) == (Holds(s, ram) ==> Holds(t, ram))
  {
    hide Holds;
    assert [s][1..] == [] && [t][1..] == [] && [s, t][1..] == [t] && [s, t][2..] == [];
  }

  // ---------------------------------------------------------------- three codes

  /** Three codes that fill the list. */
  ghost predicate ThreeCodes(words: seq<u32>, a: Instr, b: Instr, c: Instr) {
    && |words| > 4
    && Decode(words, 0) == Code(a, 2)
    && Decode(words, 2) == Code(b, 4)
    && Decode(words, 4) == Code(c, |words|)
  }

  function Guard(on: bool, t: Test): seq<Test> {
    if on then [t] else []
  }

  /** A code that writes nothing. */
  predicate IsIdle(instr: Instr) {
    instr.Next? || instr.Block? || (instr.Group? && instr.values == [])
  }

  /** The tests that such a code leaves in the list, in a block of test `s` that guards the words before `limit`. */
  function Front(instr: Instr, i: nat, limit: nat, s: Test): seq<Test> {
    Guard(i < limit, s) + (if instr.Next? then [instr.test] else [])
  }

  lemma EmitFront(instr: Instr, i: nat, limit: nat, cond: Cheat, s: Test)
    requires IsIdle(instr) && (i < limit ==> cond == TestCheat(s))
    ensures Emit(instr, i, limit, cond) == TestCheats(Front(instr, i, limit, s))
  {
    hide TestCheat;
  }

  /** The words that a header at `i` makes the compiler guard, and the test they are guarded with. */
  function LimitAfter(instr: Instr, i: nat, limit: nat): nat {
    if instr.Block? then i + 1 + instr.lines else limit
  }

  function CondAfter(instr: Instr, cond: Cheat): Cheat {
    if instr.Block? then TestCheat(instr.test) else cond
  }

  function TestAfter(instr: Instr, s: Test): Test {
    if instr.Block? then instr.test else s
  }

  /** What two codes that write nothing and a write compile to. */
  function Tests(a: Instr, b: Instr, s: Test): seq<Test> {
    var limit := LimitAfter(a, 0, 0);
    Front(a, 0, 0, s) + Front(b, 2, limit, TestAfter(a, s))
      + Guard(4 < LimitAfter(b, 2, limit), TestAfter(b, TestAfter(a, s)))
  }

  lemma CompileWrite(words: seq<u32>, i: nat, w: Instr, c: Cheat, op: Op, limit: nat, cond: Cheat, s: Test,
      rest: seq<Cheat>)
    requires i < |words| && Decode(words, i).Code? && Decode(words, i).instr == w && Simple(w, c, op)
    requires i < limit ==> cond == TestCheat(s)
    requires CompileFrom(words, Decode(words, i).next, limit, cond) == Compiled(rest)
    ensures CompileFrom(words, i, limit, cond) == Compiled((TestCheats(Guard(i < limit, s)) + [c]) + rest)
  {
    hide Decode, CompileFrom, TestCheat, Emit, TestCheats;
    CompileStep(words, i, limit, cond);
    GuardCheats(i < limit, s);
  }

  lemma CompileIdle(words: seq<u32>, i: nat, instr: Instr, limit: nat, cond: Cheat, s: Test, rest: seq<Cheat>)
    requires i < |words| && Decode(words, i).Code? && Decode(words, i).instr == instr && IsIdle(instr)
    requires i < limit ==> cond == TestCheat(s)
    requires CompileFrom(words, Decode(words, i).next, LimitAfter(instr, i, limit), CondAfter(instr, cond))
          == Compiled(rest)
    ensures CompileFrom(words, i, limit, cond) == Compiled(TestCheats(Front(instr, i, limit, s)) + rest)
  {
    hide Decode, CompileFrom, TestCheat, Emit, TestCheats;
    CompileStep(words, i, limit, cond);
    EmitFront(instr, i, limit, cond, s);
  }

  lemma CompileEnd(words: seq<u32>, limit: nat, cond: Cheat)
    ensures CompileFrom(words, |words|, limit, cond) == Compiled([])
  {
  }

  lemma GuardCheats(on: bool, t: Test)
    ensures TestCheats(Guard(on, t)) == if on then [TestCheat(t)] else []
  {
    hide TestCheat;
  }

  lemma CompileThree(words: seq<u32>, a: Instr, b: Instr, w: Instr, c: Cheat, op: Op, s: Test)
    requires ThreeCodes(words, a, b, w) && IsIdle(a) && IsIdle(b) && Simple(w, c, op)
    ensures Compile(words) == Compiled(TestCheats(Tests(a, b, s)) + [c])
  {
    var limit, t, cond := LimitAfter(a, 0, 0), TestAfter(a, s), CondAfter(a, NO_CONDITION);
    var limit', t', cond' := LimitAfter(b, 2, limit), TestAfter(b, t), CondAfter(b, cond);
    hide Decode, CompileFrom, TestCheat, TestCheats, Simple;
    var x, y, z := Front(a, 0, 0, s), Front(b, 2, limit, t), Guard(4 < limit', t');
    CompileEnd(words, limit', cond');
    CompileWrite(words, 4, w, c, op, limit', cond', t', []);
    CompileIdle(words, 2, b, limit, cond, t, (TestCheats(z) + [c]) + []);
    CompileIdle(words, 0, a, 0, NO_CONDITION, s, TestCheats(y) + ((TestCheats(z) + [c]) + []));
    hide *;
    TestCheatsConcat(x, y);
    TestCheatsConcat(x + y, z);
    Regroup(TestCheats(x), TestCheats(y), TestCheats(z), c);
  }

  lemma Regroup(x: seq<Cheat>, y: seq<Cheat>, z: seq<Cheat>, c: Cheat)
    ensures x + (y + ((z + [c]) + [])) == x + y + z + [c]
  {
  }

  /** The compiled list of such codes runs the write under its tests. */
  lemma ThreeRun(words: seq<u32>, a: Instr, b: Instr, w: Instr, s: Test, ram: Ram)
    requires ThreeCodes(words, a, b, w) && IsIdle(a) && IsIdle(b)
    requires IsWrite(w) && !w.Group? && (w.Repeat? ==> w.increment < 0x1_0000)
    ensures Compile(words).Compiled? && |OpsOf(w)| == 1
    ensures Apply(Machine(ram, false), Compile(words).cheats).ram
         == if Runs(Tests(a, b, s), ram) then Do(OpsOf(w)[0], ram) else ram
  {
    var c, op := SimpleWrites(w);
    assert OpsOf(w) == [op];
    CompileThree(words, a, b, w, c, op, s);
    hide *;
    TestsThenWrite(ram, Tests(a, b, s), c, op);
  }

  lemma GuardedOne(op: Op, t: Test, ram: Ram)
    ensures DoAll([op], Some(t), ram) == if Holds(t, ram) then Do(op, ram) else ram
    ensures DoAll([op], None, ram) == Do(op, ram)
  {
    assert [op][1..] == [];
  }

  /** The last code of a list, interpreted directly. */
  lemma DirectLast(words: seq<u32>, i: nat, scope: Scope, armed: bool, w: Instr, ram: Ram)
    requires i < |words| && Decode(words, i) == Code(w, |words|) && IsWrite(w)
    ensures Direct(words, i, scope, armed, ram)
         == if armed then DoAll(OpsOf(w), if Covered(scope, i) then Some(scope.test) else None, ram) else ram
  {
    hide Decode, Holds, DoAll, OpsOf;
    var ram' := if armed then DoAll(OpsOf(w), if Covered(scope, i) then Some(scope.test) else None, ram) else ram;
    assert Direct(words, |words|, scope, true, ram') == ram';
  }

  /** The same for a single write. */
  lemma DirectLastOne(words: seq<u32>, scope: Scope, armed: bool, w: Instr, ram: Ram)
    requires |words| > 4 && Decode(words, 4) == Code(w, |words|) && IsWrite(w) && |OpsOf(w)| == 1
    ensures Direct(words, 4, scope, armed, ram)
         == if armed && (Covered(scope, 4) ==> Holds(scope.test, ram)) then Do(OpsOf(w)[0], ram) else ram
  {
    DirectLast(words, 4, scope, armed, w, ram);
    var op := OpsOf(w)[0];
    assert OpsOf(w) == [op];
    hide Direct, Decode, DoAll, Do, Holds;
    if Covered(scope, 4) {
      GuardedOne(op, scope.test, ram);
    } else {
      DoAllOne(op, ram);
    }
  }

  // ---------------------------------------------------------------- 0x0D inside a 0x0E block

  lemma DirectNextInBlock(words: seq<u32>, s: Test, n: nat, t: Test, w: Instr, ram: Ram)
    requires ThreeCodes(words, Block(s, n), Next(t), w) && IsWrite(w) && |OpsOf(w)| == 1
    ensures Direct(words, 0, NoBlock, true, ram)
         == if ((n > 0 && !Holds(s, ram)) || Holds(t, ram)) && (n > 2 ==> Holds(s, ram))
            then Do(OpsOf(w)[0], ram) else ram
  {
    hide Decode, Holds, DoAll, OpsOf, Do;
    var scope, armed := InBlock(2 + n, s), (n > 0 && !Holds(s, ram)) || Holds(t, ram);
    assert Direct(words, 0, NoBlock, true, ram) == Direct(words, 2, scope, true, ram);
    assert Direct(words, 2, scope, true, ram) == Direct(words, 4, scope, armed, ram);
    DirectLastOne(words, scope, armed, w, ram);
  }

  lemma TestsOfNextInBlock(s: Test, n: nat, t: Test, ram: Ram)
    ensures Runs(Tests(Block(s, n), Next(t), s), ram)
         == if n < 2 then Holds(t, ram) else if n < 4 then Holds(s, ram) ==> Holds(t, ram) else Holds(s, ram)
  {
    hide Runs, Holds;
    RunsOf(t, t, t, ram);
    RunsOf(s, t, s, ram);
    var tests := Tests(Block(s, n), Next(t), s);
    assert tests == if n < 2 then [t] else if n < 4 then [s, t] else [s, t, s];
  }

  /**
   For every line count of the block. From four lines on, when the block covers the write, the 0x0D
   test is ignored; in shorter blocks it is the block's guard that is lost or falls on the 0x0D.
   */
  lemma NextInsideBlock(words: seq<u32>, s: Test, n: nat, t: Test, w: Instr, ram: Ram)
    requires ThreeCodes(words, Block(s, n), Next(t), w)
    requires IsWrite(w) && !w.Group? && (w.Repeat? ==> w.increment < 0x1_0000)
    ensures Compile(words).Compiled? && OpsOf(w) != []
    ensures var r, written := Apply(Machine(ram, false), Compile(words).cheats).ram, Do(OpsOf(w)[0], ram);
      var runs := if n < 2 then Holds(t, ram) else if n < 4 then Holds(s, ram) ==> Holds(t, ram) else Holds(s, ram);
      var agree := if n == 1 then Holds(s, ram) || Holds(t, ram)
                   else if n == 3 then Holds(s, ram)
                   else if n >= 4 then Holds(s, ram) ==> Holds(t, ram)
                   else true;
      && r == (if runs then written else ram)
      && (r == Direct(words, 0, NoBlock, true, ram) <==> agree || written == ram)
  {
    ThreeRun(words, Block(s, n), Next(t), w, s, ram);
    DirectNextInBlock(words, s, n, t, w, ram);
    hide Compile, Direct, ThreeCodes, Apply, Do, Holds, Tests, Runs;
    TestsOfNextInBlock(s, n, t, ram);
  }

  // ---------------------------------------------------------------- an empty group write inside a block

  lemma DirectEmptyGroup(words: seq<u32>, s: Test, n: nat, a: u32, w: Instr, ram: Ram)
    requires ThreeCodes(words, Block(s, n), Group(a, []), w) && IsWrite(w) && |OpsOf(w)| == 1
    ensures Direct(words, 0, NoBlock, true, ram) == if n > 2 ==> Holds(s, ram) then Do(OpsOf(w)[0], ram) else ram
  {
    hide Decode, Holds, Do;
    var scope := InBlock(2 + n, s);
    assert OpsOf(Group(a, [])) == [];
    assert Direct(words, 0, NoBlock, true, ram) == Direct(words, 2, scope, true, ram);
    assert Direct(words, 2, scope, true, ram) == Direct(words, 4, scope, true, ram);
    DirectLastOne(words, scope, true, w, ram);
  }

  lemma TestsOfEmptyGroup(s: Test, n: nat, a: u32, ram: Ram)
    ensures Runs(Tests(Block(s, n), Group(a, []), s), ram) == (n < 2 || n >= 4 || Holds(s, ram))
  {
    hide Runs, Holds;
    RunsOf(s, s, s, ram);
    var tests := Tests(Block(s, n), Group(a, []), s);
    assert tests == if n < 2 then [] else if n < 4 then [s] else [s, s];
  }

  /**
   For every line count of the block. The guard of the group is left over: it cancels the guard of a
   next write in the block, which then always runs, and it makes a write behind the block conditional.
   */
  lemma EmptyGroupInsideBlock(words: seq<u32>, s: Test, n: nat, a: u32, w: Instr, ram: Ram)
    requires ThreeCodes(words, Block(s, n), Group(a, []), w)
    requires IsWrite(w) && !w.Group? && (w.Repeat? ==> w.increment < 0x1_0000)
    ensures Compile(words).Compiled? && OpsOf(w) != []
    ensures var r, written := Apply(Machine(ram, false), Compile(words).cheats).ram, Do(OpsOf(w)[0], ram);
      && r == (if n < 2 || n >= 4 || Holds(s, ram) then written else ram)
      && (r == Direct(words, 0, NoBlock, true, ram) <==> n < 2 || n == 3 || Holds(s, ram) || written == ram)
  {
    ThreeRun(words, Block(s, n), Group(a, []), w, s, ram);
    DirectEmptyGroup(words, s, n, a, w, ram);
    hide Compile, Direct, ThreeCodes, Apply, Do, Holds, Tests, Runs;
    TestsOfEmptyGroup(s, n, a, ram);
  }

  // ---------------------------------------------------------------- 0x0D before a group write

  /** Only the first word of the group is conditional. */
  lemma NextBeforeGroup(words: seq<u32>, t: Test, a: u32, values: seq<u32>, ram: Ram)
    requires |words| > 2 && Decode(words, 0) == Code(Next(t), 2) && Decode(words, 2) == Code(Group(a, values), |words|)
    requires |values| >= 2
    ensures Compile(words).Compiled?
    ensures var r, ops := Apply(Machine(ram, false), Compile(words).cheats).ram, OpsOf(Group(a, values));
      && |ops| == |values|
      && r == DoAll(if Holds(t, ram) then ops else ops[1..], None, ram)
      && (r == Direct(words, 0, NoBlock, true, ram) <==> Holds(t, ram) || DoAll(ops[1..], None, ram) == ram)
  {
    var all := EmitGroup(a, values, 4, 0, NO_CONDITION);
    CompileNextGroup(words, t, a, values);
    var m := Machine(ram, false);
    ApplyConcat(m, [TestCheat(t)], all);
    ApplyTest(ram, t);
    GroupUnguarded(a, values, 4, 0, NO_CONDITION, ram);
    SkippedGroup(a, values, ram);
    DirectNextGroup(words, t, a, values, ram);
  }

  lemma CompileNextGroup(words: seq<u32>, t: Test, a: u32, values: seq<u32>)
    requires |words| > 2 && Decode(words, 0) == Code(Next(t), 2) && Decode(words, 2) == Code(Group(a, values), |words|)
    ensures Compile(words) == Compiled([TestCheat(t)] + EmitGroup(a, values, 4, 0, NO_CONDITION))
  {
    hide Decode, EmitGroup;
    CompileStep(words, 2, 0, NO_CONDITION);
    CompileStep(words, 0, 0, NO_CONDITION);
    assert Emit(Next(t), 0, 0, NO_CONDITION) == [TestCheat(t)];
    assert Emit(Group(a, values), 2, 0, NO_CONDITION) == EmitGroup(a, values, 4, 0, NO_CONDITION);
  }

  lemma SkippedGroup(a: u32, values: seq<u32>, ram: Ram)
    requires values != []
    ensures OpsOf(Group(a, values)) != []
    ensures Apply(Machine(ram, true), EmitGroup(a, values, 4, 0, NO_CONDITION))
         == Machine(DoAll(OpsOf(Group(a, values))[1..], None, ram), false)
  {
    var w, rest := Plain(SetValue, 32, a, values[0]), EmitGroup(U32(a + 4), values[1..], 5, 0, NO_CONDITION);
    assert EmitGroup(a, values, 4, 0, NO_CONDITION) == [w] + rest;
    ApplyConcat(Machine(ram, true), [w], rest);
    ApplySkipped(ram, w);
    GroupUnguarded(U32(a + 4), values[1..], 5, 0, NO_CONDITION, ram);
    GroupOps(a, values);
    assert OpsOf(Group(a, values))[1..] == OpsOf(Group(U32(a + 4), values[1..]));
  }

  lemma DirectNextGroup(words: seq<u32>, t: Test, a: u32, values: seq<u32>, ram: Ram)
    requires |words| > 2 && Decode(words, 0) == Code(Next(t), 2) && Decode(words, 2) == Code(Group(a, values), |words|)
    ensures Direct(words, 0, NoBlock, true, ram)
         == if Holds(t, ram) then DoAll(OpsOf(Group(a, values)), None, ram) else ram
  {
    hide Decode, Holds, DoAll, OpsOf;
    var ram' := if Holds(t, ram) then DoAll(OpsOf(Group(a, values)), None, ram) else ram;
    assert Direct(words, |words|, NoBlock, true, ram') == ram';
    assert Direct(words, 2, NoBlock, Holds(t, ram), ram) == ram';
    assert Direct(words, 0, NoBlock, true, ram) == Direct(words, 2, NoBlock, Holds(t, ram), ram);
  }

  // ---------------------------------------------------------------- a condition before a block header

  lemma DirectNested(words: seq<u32>, s: Test, n: nat, t: Test, k: nat, w: Instr, ram: Ram)
    requires ThreeCodes(words, Block(s, n), Block(t, k), w) && IsWrite(w) && |OpsOf(w)| == 1
    ensures Direct(words, 0, NoBlock, true, ram) == if k > 0 ==> Holds(t, ram) then Do(OpsOf(w)[0], ram) else ram
  {
    hide Decode, Holds, DoAll, OpsOf, Do;
    assert Direct(words, 0, NoBlock, true, ram) == Direct(words, 2, InBlock(2 + n, s), true, ram);
    assert Direct(words, 2, InBlock(2 + n, s), true, ram) == Direct(words, 4, InBlock(4 + k, t), true, ram);
    DirectLastOne(words, InBlock(4 + k, t), true, w, ram);
  }

  lemma TestsOfNested(s: Test, n: nat, t: Test, k: nat, ram: Ram)
    ensures Runs(Tests(Block(s, n), Block(t, k), s), ram)
         == if n < 2 then k < 2 || Holds(t, ram) else if k < 2 then Holds(s, ram) else Holds(s, ram) ==> Holds(t, ram)
  {
    hide Runs, Holds;
    RunsOf(t, t, t, ram);
    RunsOf(s, t, t, ram);
    var tests := Tests(Block(s, n), Block(t, k), s);
    assert tests == (if n < 2 then [] else [s]) + (if k < 2 then [] else [t]);
    assert n >= 2 && k >= 2 ==> tests == [s, t];
    assert n < 2 && k >= 2 ==> tests == [t];
    assert n >= 2 && k < 2 ==> tests == [s];
    assert n < 2 && k < 2 ==> tests == [];
  }

  /**
   A 0x0E nested in a 0x0E, for all line counts. An outer block that reaches the inner header leaves
   its guard there: on the guard of the inner block, so that a failed outer test lets the first inner
   write run whatever the inner test says, or on the write, when the inner block emits no guard.
   */
  lemma BlockInsideBlock(words: seq<u32>, s: Test, n: nat, t: Test, k: nat, w: Instr, ram: Ram)
    requires ThreeCodes(words, Block(s, n), Block(t, k), w)
    requires IsWrite(w) && !w.Group? && (w.Repeat? ==> w.increment < 0x1_0000)
    ensures Compile(words).Compiled? && OpsOf(w) != []
    ensures var r, written := Apply(Machine(ram, false), Compile(words).cheats).ram, Do(OpsOf(w)[0], ram);
      var agree := if k == 0 then n < 2 || Holds(s, ram)
                   else if k == 1 then if n < 2 then Holds(t, ram) else Holds(s, ram) == Holds(t, ram)
                   else n < 2 || Holds(s, ram) || Holds(t, ram);
      r == Direct(words, 0, NoBlock, true, ram) <==> agree || written == ram
  {
    ThreeRun(words, Block(s, n), Block(t, k), w, s, ram);
    DirectNested(words, s, n, t, k, w, ram);
    hide Compile, Direct, ThreeCodes, Apply, Do, Holds, Tests, Runs;
    TestsOfNested(s, n, t, k, ram);
  }

  lemma DirectHeader(words: seq<u32>, s: Test, t: Test, k: nat, ram: Ram)
    requires |words| > 4 && Decode(words, 0) == Code(Next(s), 2) && Decode(words, 2) == Code(Block(t, k), 4)
    ensures Direct(words, 0, NoBlock, true, ram)
         == Direct(words, 4, if Holds(s, ram) then InBlock(4 + k, t) else NoBlock, true, ram)
  {
    hide Decode, Holds;
    assert Direct(words, 0, NoBlock, true, ram) == Direct(words, 2, NoBlock, Holds(s, ram), ram);
  }

  lemma TestsOfHeader(s: Test, t: Test, k: nat, ram: Ram)
    ensures Runs(Tests(Next(s), Block(t, k), s), ram)
         == if k < 2 then Holds(s, ram) else Holds(s, ram) ==> Holds(t, ram)
  {
    hide Runs, Holds;
    RunsOf(s, t, t, ram);
    assert Tests(Next(s), Block(t, k), s) == if k < 2 then [s] else [s, t];
  }

  /**
   A 0x0D in front of a block of one write, for every line count. When the block emits a guard, passing
   over the header is passing over the only guard; otherwise the 0x0D falls on the write.
   */
  lemma NextBeforeShortBlock(words: seq<u32>, s: Test, t: Test, k: nat, w: Instr, ram: Ram)
    requires ThreeCodes(words, Next(s), Block(t, k), w)
    requires IsWrite(w) && !w.Group? && (w.Repeat? ==> w.increment < 0x1_0000)
    ensures Compile(words).Compiled? && OpsOf(w) != []
    ensures var r, written := Apply(Machine(ram, false), Compile(words).cheats).ram, Do(OpsOf(w)[0], ram);
      var agree := k >= 2 || (Holds(s, ram) && (k == 1 ==> Holds(t, ram)));
      r == Direct(words, 0, NoBlock, true, ram) <==> agree || written == ram
  {
    ThreeRun(words, Next(s), Block(t, k), w, s, ram);
    DirectHeader(words, s, t, k, ram);
    DirectLastOne(words, if Holds(s, ram) then InBlock(4 + k, t) else NoBlock, true, w, ram);
    hide Compile, Direct, ThreeCodes, Apply, Do, Holds, Tests, Runs;
    TestsOfHeader(s, t, k, ram);
  }

  /** A 0x0D, a 0x0E and two writes. */
  ghost predicate NextBlockTwo(words: seq<u32>, s: Test, t: Test, k: nat, w: Instr, m: nat, w': Instr) {
    && 4 < m < |words|
    && Decode(words, 0) == Code(Next(s), 2)
    && Decode(words, 2) == Code(Block(t, k), 4)
    && Decode(words, 4) == Code(w, m)
    && Decode(words, m) == Code(w', |words|)
  }

  lemma CompileTwo(words: seq<u32>, s: Test, t: Test, k: nat, w: Instr, m: nat, w': Instr, c: Cheat, op: Op,
      c': Cheat, op': Op)
    requires NextBlockTwo(words, s, t, k, w, m, w') && Simple(w, c, op) && Simple(w', c', op')
    ensures Compile(words)
         == Compiled((TestCheats([s] + Guard(k >= 2, t)) + [c]) + (TestCheats(Guard(m < 3 + k, t)) + [c']))
  {
    hide Decode, TestCheat, TestCheats, CompileFrom, Simple;
    var g, first, last := TestCheat(t), TestCheats(Guard(k >= 2, t)) + [c], TestCheats(Guard(m < 3 + k, t)) + [c'];
    CompileEnd(words, 3 + k, g);
    CompileWrite(words, m, w', c', op', 3 + k, g, t, []);
    assert last + [] == last;
    CompileWrite(words, 4, w, c, op, 3 + k, g, t, last);
    CompileIdle(words, 2, Block(t, k), 0, NO_CONDITION, t, first + last);
    CompileIdle(words, 0, Next(s), 0, NO_CONDITION, s, TestCheats([]) + (first + last));
    assert Front(Block(t, k), 2, 0, t) == [] && Front(Next(s), 0, 0, s) == [s];
    hide *;
    TestCheatsConcat([s], Guard(k >= 2, t));
    RegroupTwo(TestCheats([s]), TestCheats([]), TestCheats(Guard(k >= 2, t)), c, last);
  }

  lemma RegroupTwo(x: seq<Cheat>, none: seq<Cheat>, y: seq<Cheat>, c: Cheat, last: seq<Cheat>)
    requires none == []
    ensures x + (none + ((y + [c]) + last)) == (x + y + [c]) + last
  {
  }

  lemma DirectTwo(words: seq<u32>, s: Test, t: Test, k: nat, w: Instr, m: nat, w': Instr, ram: Ram)
    requires NextBlockTwo(words, s, t, k, w, m, w') && IsWrite(w) && IsWrite(w')
    ensures var guard := if Holds(s, ram) && k > 0 then Some(t) else None;
      var guard' := if Holds(s, ram) && m < 4 + k then Some(t) else None;
      Direct(words, 0, NoBlock, true, ram) == DoAll(OpsOf(w'), guard', DoAll(OpsOf(w), guard, ram))
  {
    DirectHeader(words, s, t, k, ram);
    hide Decode, DoAll, OpsOf, Holds;
    var scope := if Holds(s, ram) then InBlock(4 + k, t) else NoBlock;
    var ram' := DoAll(OpsOf(w), if Covered(scope, 4) then Some(t) else None, ram);
    assert Direct(words, 4, scope, true, ram) == Direct(words, m, scope, true, ram');
    DirectLast(words, m, scope, true, w', ram');
  }

  /** What the list of a 0x0D, a block and two writes does. */
  lemma RunTwo(ram: Ram, s: Test, t: Test, k: nat, on: bool, c: Cheat, op: Op, c': Cheat, op': Op)
    requires StandsFor(c, op) && StandsFor(c', op')
    ensures var mid := if (if k < 2 then Holds(s, ram) else Holds(s, ram) ==> Holds(t, ram)) then Do(op, ram) else ram;
      Apply(Machine(ram, false), (TestCheats([s] + Guard(k >= 2, t)) + [c]) + (TestCheats(Guard(on, t)) + [c'])).ram
      == if on ==> Holds(t, mid) then Do(op', mid) else mid
  {
    hide Apply, Holds, Do, StandsFor, TestCheats, Runs;
    var tests, last := [s] + Guard(k >= 2, t), Guard(on, t);
    assert tests == if k < 2 then [s] else [s, t];
    RunsOf(s, t, t, ram);
    TestsThenWrite(ram, tests, c, op);
    var mid := if Runs(tests, ram) then Do(op, ram) else ram;
    RunsOf(t, t, t, mid);
    TestsThenWrite(mid, last, c', op');
    ApplyConcat(Machine(ram, false), TestCheats(tests) + [c], TestCheats(last) + [c']);
  }

  /**
   A 0x0D in front of a block and two writes, for every line count. When the 0x0D test fails, the codes
   pass over the header and both writes are unconditional; in the list only what the header emits first
   is passed over, a guard or, from a block of less than two lines, the first write.
   */
  lemma NextBeforeBlock(words: seq<u32>, s: Test, t: Test, k: nat, w: Instr, m: nat, w': Instr, ram: Ram)
    requires NextBlockTwo(words, s, t, k, w, m, w')
    requires IsWrite(w) && !w.Group? && (w.Repeat? ==> w.increment < 0x1_0000)
    requires IsWrite(w') && !w'.Group? && (w'.Repeat? ==> w'.increment < 0x1_0000)
    ensures Compile(words).Compiled? && OpsOf(w) != [] && OpsOf(w') != []
    ensures var r, op, op' := Apply(Machine(ram, false), Compile(words).cheats).ram, OpsOf(w)[0], OpsOf(w')[0];
      var mid := if Holds(s, ram) && !Holds(t, ram) then ram else Do(op, ram);
      var agree := if k < 2 then (Holds(s, ram) && (k == 1 ==> Holds(t, ram))) || Do(op', ram) == Do(op', Do(op, ram))
                   else (if Holds(s, ram) then m != 3 + k else m >= 3 + k) || Holds(t, mid) || Do(op', mid) == mid;
      r == Direct(words, 0, NoBlock, true, ram) <==> agree
  {
    DecodeAdvances(words, 4);
    var c, op := SimpleWrites(w);
    var c', op' := SimpleWrites(w');
    CompileTwo(words, s, t, k, w, m, w', c, op, c', op');
    DirectTwo(words, s, t, k, w, m, w', ram);
    RunTwo(ram, s, t, k, m < 3 + k, c, op, c', op');
    assert OpsOf(w) == [op] && OpsOf(w') == [op'];
    hide Compile, Direct, NextBlockTwo, Simple, Apply, DoAll, Do, Holds, TestCheat, TestCheats, OpsOf, Decode;
    var hs := Holds(s, ram);
    var mid := if hs && k > 0 && !Holds(t, ram) then ram else Do(op, ram);
    GuardedOne(op, t, ram);
    GuardedOne(op', t, mid);
  }

  // ---------------------------------------------------------------- a block that ends inside a code

  ghost predicate TwoCodes(words: seq<u32>, a: Instr, b: Instr) {
    && |words| > 2
    && Decode(words, 0) == Code(a, 2)
    && Decode(words, 2) == Code(b, |words|)
  }

  lemma CompileBlockOne(words: seq<u32>, t: Test, k: nat, w: Instr)
    requires TwoCodes(words, Block(t, k), w) && !w.Block?
    ensures Compile(words) == Compiled(Emit(w, 2, 1 + k, TestCheat(t)))
  {
    hide Decode;
    assert CompileFrom(words, |words|, 1 + k, TestCheat(t)) == Compiled([]);
    assert Emit(Block(t, k), 0, 0, NO_CONDITION) == [];
    hide CompileFrom, TestCheat, Emit;
    CompileStep(words, 2, 1 + k, TestCheat(t));
    CompileStep(words, 0, 0, NO_CONDITION);
    var e := Emit(w, 2, 1 + k, TestCheat(t));
    assert [] + (e + []) == e;
  }

  lemma DirectBlockOne(words: seq<u32>, t: Test, k: nat, w: Instr, ram: Ram)
    requires TwoCodes(words, Block(t, k), w) && IsWrite(w)
    ensures Direct(words, 0, NoBlock, true, ram) == DoAll(OpsOf(w), if k > 0 then Some(t) else None, ram)
  {
    hide Decode, Holds, DoAll, OpsOf;
    var scope, guard := InBlock(2 + k, t), if k > 0 then Some(t) else None;
    assert Direct(words, |words|, scope, true, DoAll(OpsOf(w), guard, ram)) == DoAll(OpsOf(w), guard, ram);
    assert Direct(words, 0, NoBlock, true, ram) == Direct(words, 2, scope, true, ram);
  }

  /**
   A block of one write, for every line count: only a block of one line, which ends after the
   first word of the write, goes wrong, because the compiler then emits no guard.
   */
  lemma BlockEndsInsideCode(words: seq<u32>, t: Test, k: nat, w: Instr, ram: Ram)
    requires TwoCodes(words, Block(t, k), w)
    requires IsWrite(w) && !w.Group? && (w.Repeat? ==> w.increment < 0x1_0000)
    ensures Compile(words).Compiled? && OpsOf(w) != []
    ensures var r := Apply(Machine(ram, false), Compile(words).cheats).ram;
      r == Direct(words, 0, NoBlock, true, ram) <==> k != 1 || Holds(t, ram) || Do(OpsOf(w)[0], ram) == ram
  {
    CompileBlockOne(words, t, k, w);
    DirectBlockOne(words, t, k, w, ram);
    var c, op := SimpleWrites(w);
    hide Compile, Direct, TwoCodes, Apply, Do, Holds;
    GuardedOne(op, t, ram);
    if k >= 2 {
      SingleGuarded(w, 2, 1 + k, t, ram);
    } else {
      EmitUnguarded(w, 2, 1 + k, TestCheat(t), ram);
    }
  }

  /** How many values of a group of `n` in a block of `k` lines get a guard. */
  function GuardedValues(k: nat, n: nat): nat {
    if k < 2 then 0 else Min(n, if k < 3 then 1 else k - 2)
  }

  /** How many updates run before the test first fails. */
  function UntilFailure(ops: seq<Op>, t: Test, ram: Ram): (n: nat)
    ensures n <= |ops|
    decreases |ops|
  {
    if ops == [] || !Holds(t, ram) then 0 else 1 + UntilFailure(ops[1..], t, Do(ops[0], ram))
  }

  /** The updates from the first failure of the test on change nothing. */
  predicate HarmlessTail(ops: seq<Op>, t: Test, ram: Ram) {
    var n := UntilFailure(ops, t, ram);
    var mid := DoAll(ops[..n], None, ram);
    DoAll(ops[n..], None, mid) == mid
  }

  /** A failed test guards everything that follows, since nothing changes any more. */
  lemma {:induction false} StaysOff(ops: seq<Op>, t: Test, ram: Ram)
    requires !Holds(t, ram)
    ensures DoAll(ops, Some(t), ram) == ram
    decreases |ops|
  {
    if ops == [] {
    } else {
      StaysOff(ops[1..], t, ram);
    }
  }

  /** Dropping the guard makes no difference exactly when the updates after the first failure change nothing. */
  lemma {:induction false} GuardDropped(ops: seq<Op>, t: Test, ram: Ram)
    ensures DoAll(ops, None, ram) == DoAll(ops, Some(t), ram) <==> HarmlessTail(ops, t, ram)
    decreases |ops|
  {
    var n := UntilFailure(ops, t, ram);
    if ops == [] {
    } else if !Holds(t, ram) {
      StaysOff(ops, t, ram);
      assert ops[0..] == ops && ops[..0] == [];
    } else {
      hide Holds, Do;
      var rest, ram' := ops[1..], Do(ops[0], ram);
      GuardDropped(rest, t, ram');
      assert ops[n..] == rest[n - 1..] && ops[..n][1..] == rest[..n - 1];
    }
  }

  lemma {:induction false} DoAllConcat(a: seq<Op>, b: seq<Op>, guard: Option<Test>, ram: Ram)
    ensures DoAll(a + b, guard, ram) == DoAll(b, guard, DoAll(a, guard, ram))
    decreases |a|
  {
    hide Holds, Do;
    if a == [] {
      assert a + b == b;
    } else {
      assert (a + b)[1..] == a[1..] + b;
      DoAllConcat(a[1..], b, guard, if guard.None? || Holds(guard.value, ram) then Do(a[0], ram) else ram);
    }
  }

  /** The first `g` updates under the guard, the others without it. */
  function Partly(ops: seq<Op>, g: nat, t: Test, ram: Ram): Ram
    requires g <= |ops|
  {
    DoAll(ops[g..], None, DoAll(ops[..g], Some(t), ram))
  }

  lemma PartlyStep(op: Op, ops: seq<Op>, g: nat, t: Test, ram: Ram)
    requires g <= |ops|
    ensures Partly([op] + ops, g + 1, t, ram) == Partly(ops, g, t, DoAll([op], Some(t), ram))
    ensures Partly([op] + ops, 1, t, ram) == DoAll(ops, None, DoAll([op], Some(t), ram))
  {
    var all := [op] + ops;
    assert all[g + 1..] == ops[g..] && all[..g + 1] == [op] + ops[..g];
    assert all[1..] == ops && all[..1] == [op];
    DoAllStep(op, ops[..g], Some(t), ram);
  }

  /** A guard and a group run as `g` guarded and then unguarded updates. */
  ghost predicate RunsPartly(a: u32, values: seq<u32>, pos: nat, limit: nat, t: Test, g: nat, ram: Ram) {
    && g <= |OpsOf(Group(a, values))|
    && Apply(Machine(ram, false), [TestCheat(t)] + EmitGroup(a, values, pos, limit, TestCheat(t)))
       == Machine(Partly(OpsOf(Group(a, values)), g, t, ram), false)
  }

  lemma GuardRepeated(a: u32, values: seq<u32>, pos: nat, limit: nat, t: Test, g: nat, ram: Ram)
    requires |values| > 1 && pos < limit
    requires RunsPartly(U32(a + 4), values[1..], pos + 1, limit, t, g, DoAll([Put(32, a, values[0])], Some(t), ram))
    ensures RunsPartly(a, values, pos, limit, t, g + 1, ram)
  {
    hide EmitGroup, Apply, TestCheat, DoAll, OpsOf, Partly, U32;
    GroupOps(a, values);
    GroupHead(a, values, pos, limit, t, ram);
    PartlyStep(Put(32, a, values[0]), OpsOf(Group(U32(a + 4), values[1..])), g, t, ram);
  }

  lemma GuardNotRepeated(a: u32, values: seq<u32>, pos: nat, limit: nat, t: Test, ram: Ram)
    requires |values| == 1 || (values != [] && limit <= pos)
    ensures RunsPartly(a, values, pos, limit, t, 1, ram)
  {
    hide EmitGroup, Apply, TestCheat, DoAll, OpsOf, Partly, U32;
    var op := Put(32, a, values[0]);
    GroupOps(a, values);
    GroupHead(a, values, pos, limit, t, ram);
    PartlyStep(op, OpsOf(Group(U32(a + 4), values[1..])), 0, t, ram);
    GroupTail(U32(a + 4), values[1..], pos + 1, limit, TestCheat(t), DoAll([op], Some(t), ram));
  }

  /** The guard is repeated up to the end of the block and missing on the values behind it. */
  lemma {:induction false} GroupPartlyGuarded(a: u32, values: seq<u32>, pos: nat, limit: nat, t: Test, g: nat, ram: Ram)
    requires values != [] && g == Min(|values|, if pos < limit then limit - pos + 1 else 1)
    ensures RunsPartly(a, values, pos, limit, t, g, ram)
    decreases |values|
  {
    hide RunsPartly, DoAll;
    if |values| > 1 && pos < limit {
      var ram' := DoAll([Put(32, a, values[0])], Some(t), ram);
      GroupPartlyGuarded(U32(a + 4), values[1..], pos + 1, limit, t, g - 1, ram');
      GuardRepeated(a, values, pos, limit, t, g - 1, ram);
    } else {
      GuardNotRepeated(a, values, pos, limit, t, ram);
    }
  }

  /** The first value with its guard, and what is left to run. */
  lemma GroupHead(a: u32, values: seq<u32>, pos: nat, limit: nat, t: Test, ram: Ram)
    requires values != []
    ensures var c := TestCheat(t);
      var rest := EmitGroup(U32(a + 4), values[1..], pos + 1, limit, c);
      Apply(Machine(ram, false), [c] + EmitGroup(a, values, pos, limit, c))
      == Apply(Machine(DoAll([Put(32, a, values[0])], Some(t), ram), false),
               if |values| > 1 && pos < limit then [c] + rest else rest)
  {
    var c, w, op := TestCheat(t), Plain(SetValue, 32, a, values[0]), Put(32, a, values[0]);
    var rest := EmitGroup(U32(a + 4), values[1..], pos + 1, limit, c);
    var after := if |values| > 1 && pos < limit then [c] + rest else rest;
    assert [c] + EmitGroup(a, values, pos, limit, c) == [c, w] + after;
    ApplyGuarded(ram, t, w, op);
    hide EmitGroup, Apply, TestCheat, DoAll;
    ApplyConcat(Machine(ram, false), [c, w], after);
  }

  lemma GroupTail(a: u32, values: seq<u32>, pos: nat, limit: nat, c: Cheat, ram: Ram)
    requires values == [] || limit <= pos
    ensures Apply(Machine(ram, false), EmitGroup(a, values, pos, limit, c))
         == Machine(DoAll(OpsOf(Group(a, values)), None, ram), false)
  {
    if values == [] {
      assert Enabled([]) == [];
    } else {
      GroupUnguarded(a, values, pos, limit, c, ram);
    }
  }

  /**
   A block in front of one group write, for every line count: the values behind the block's end
   are written without a guard. The list agrees with the codes exactly when, among those values,
   the writes from the first failure of the test on change nothing.
   */
  lemma BlockEndsInsideGroup(words: seq<u32>, t: Test, k: nat, a: u32, values: seq<u32>, ram: Ram)
    requires TwoCodes(words, Block(t, k), Group(a, values)) && values != []
    ensures Compile(words).Compiled?
    ensures |OpsOf(Group(a, values))| == |values|
    ensures var r := Apply(Machine(ram, false), Compile(words).cheats).ram;
      var ops, g := OpsOf(Group(a, values)), GuardedValues(k, |values|);
      && r == Partly(ops, g, t, ram)
      && (r == Direct(words, 0, NoBlock, true, ram) <==>
            k == 0 || HarmlessTail(ops[g..], t, DoAll(ops[..g], Some(t), ram)))
  {
    CompileBlockOne(words, t, k, Group(a, values));
    DirectBlockOne(words, t, k, Group(a, values), ram);
    GroupInBlock(a, values, k, t, ram);
    NoneGuarded(OpsOf(Group(a, values)), t, ram);
    assert k == 0 ==> GuardedValues(k, |values|) == 0;
    hide *;
    PartlyAgrees(OpsOf(Group(a, values)), GuardedValues(k, |values|), t, ram);
  }

  lemma NoneGuarded(ops: seq<Op>, t: Test, ram: Ram)
    ensures Partly(ops, 0, t, ram) == DoAll(ops, None, ram)
  {
    hide Holds, Do;
    assert ops[0..] == ops && ops[..0] == [];
  }

  lemma PartlyAgrees(ops: seq<Op>, g: nat, t: Test, ram: Ram)
    requires g <= |ops|
    ensures Partly(ops, g, t, ram) == DoAll(ops, Some(t), ram)
       <==> HarmlessTail(ops[g..], t, DoAll(ops[..g], Some(t), ram))
  {
    assert ops[..g] + ops[g..] == ops;
    DoAllConcat(ops[..g], ops[g..], Some(t), ram);
    GuardDropped(ops[g..], t, DoAll(ops[..g], Some(t), ram));
  }

  lemma GroupInBlock(a: u32, values: seq<u32>, k: nat, t: Test, ram: Ram)
    requires values != []
    ensures |OpsOf(Group(a, values))| == |values|
    ensures Apply(Machine(ram, false), Emit(Group(a, values), 2, 1 + k, TestCheat(t)))
         == Machine(Partly(OpsOf(Group(a, values)), GuardedValues(k, |values|), t, ram), false)
  {
    var ops, g, e := OpsOf(Group(a, values)), GuardedValues(k, |values|), EmitGroup(a, values, 4, 1 + k, TestCheat(t));
    hide Apply, DoAll, TestCheat, EmitGroup;
    if k >= 2 {
      assert Emit(Group(a, values), 2, 1 + k, TestCheat(t)) == [TestCheat(t)] + e;
      assert g == Min(|values|, if 4 < 1 + k then 1 + k - 4 + 1 else 1);
      hide *;
      GroupPartlyGuarded(a, values, 4, 1 + k, t, g, ram);
    } else {
      EmitUnguarded(Group(a, values), 2, 1 + k, TestCheat(t), ram);
      NothingDone(Some(t), ram);
      assert ops[..0] == [] && ops[0..] == ops;
    }
  }

  lemma NothingDone(guard: Option<Test>, ram: Ram)
    ensures DoAll([], guard, ram) == ram
  {
  }

  // ---------------------------------------------------------------- 0x0D before an empty group write

  lemma DirectNextEmpty(words: seq<u32>, t: Test, a: u32, w: Instr, ram: Ram)
    requires ThreeCodes(words, Next(t), Group(a, []), w) && IsWrite(w) && |OpsOf(w)| == 1
    ensures Direct(words, 0, NoBlock, true, ram) == Do(OpsOf(w)[0], ram)
  {
    hide Decode, Holds, Do;
    assert OpsOf(Group(a, [])) == [];
    assert Direct(words, 0, NoBlock, true, ram) == Direct(words, 2, NoBlock, Holds(t, ram), ram);
    assert Direct(words, 2, NoBlock, Holds(t, ram), ram) == Direct(words, 4, NoBlock, true, ram);
    DirectLastOne(words, NoBlock, true, w, ram);
  }

  /** The group leaves no cheat behind, so the test falls on the write after it. */
  lemma NextBeforeEmptyGroup(words: seq<u32>, t: Test, a: u32, w: Instr, ram: Ram)
    requires ThreeCodes(words, Next(t), Group(a, []), w)
    requires IsWrite(w) && !w.Group? && (w.Repeat? ==> w.increment < 0x1_0000)
    ensures Compile(words).Compiled? && OpsOf(w) != []
    ensures var r, written := Apply(Machine(ram, false), Compile(words).cheats).ram, Do(OpsOf(w)[0], ram);
      && r == (if Holds(t, ram) then written else ram)
      && (r == Direct(words, 0, NoBlock, true, ram) <==> Holds(t, ram) || written == ram)
  {
    ThreeRun(words, Next(t), Group(a, []), w, t, ram);
    DirectNextEmpty(words, t, a, w, ram);
    RunsOf(t, t, t, ram);
    assert Tests(Next(t), Group(a, []), t) == [t];
  }

  // ---------------------------------------------------------------- a concrete input

  const SAMPLE: seq<u32> := [0x0E04_0000, 0x0000_0000, 0x0D00_0010, 0x0000_0001, 0x0000_0020, 0x0000_00FF]

  lemma SampleDecodes()
    ensures ThreeCodes(SAMPLE, Block(Test(Eq, 0, 0), 4), Next(Test(Eq, 0x10, 1)), Write(8, 0x20, 0xFF))
  {
    assert RelationOf(0) == Some(Eq);
  }

  /** On cleared memory the sample writes a byte that direct interpretation leaves alone. */
  lemma CompilationCanDiffer()
    ensures var ram: Ram := seq(RAM_SIZE, _ => 0);
      && Compile(SAMPLE).Compiled?
      && Apply(Machine(ram, false), Compile(SAMPLE).cheats).ram != Direct(SAMPLE, 0, NoBlock, true, ram)
  {
    var ram: Ram := seq(RAM_SIZE, _ => 0);
    SampleDecodes();
    var s, t, w := Test(Eq, 0, 0), Test(Eq, 0x10, 1), Write(8, 0x20, 0xFF);
    assert ReadRam(ram, 0, 16) == 0 by {
      assert LoadBytes(ram, 0, 2) == [0] + LoadBytes(ram, 1, 1);
      assert LoadBytes(ram, 1, 1) == [0] + LoadBytes(ram, 2, 0);
      assert LoadBytes(ram, 0, 2) == [0, 0];
      assert [0, 0][1..] == [0] && [0][1..] == [];
    }
    assert ReadRam(ram, 0x10, 16) == 0 by {
      assert LoadBytes(ram, 0x10, 2) == [0] + LoadBytes(ram, 0x11, 1);
      assert LoadBytes(ram, 0x11, 1) == [0] + LoadBytes(ram, 0x12, 0);
      assert LoadBytes(ram, 0x10, 2) == [0, 0];
      assert [0, 0][1..] == [0] && [0][1..] == [];
    }
    assert Do(OpsOf(w)[0], ram) != ram by {
      assert LittleEndian(0xFF, 1) == [0xFF] + LittleEndian(0, 0);
      assert [0xFF][1..] == [];
      assert StoreBytes(ram, 0x20, [0xFF]) == StoreBytes(ram[0x20 := 0xFF], 0x21, []);
      assert WriteRam(ram, 0x20, 0xFF, 8)[0x20] == 0xFF;
    }
    NextInsideBlock(SAMPLE, s, 4, t, w, ram);
  }
}
