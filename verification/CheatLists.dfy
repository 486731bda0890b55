/** The interpreter of cheat lists: which cheats run, and what the repeat loop of any value cheat writes. */
module CheatLists {
  import opened Bytes
  import opened Cheats

  function BuiltIns(cheats: seq<Cheat>): seq<Cheat> {
    if cheats == [] then []
    else (if cheats[0].builtIn then [cheats[0]] else []) + BuiltIns(cheats[1..])
  }

  /** In a network game only the built-in cheats of the list exist: the others neither run nor use up a skip. */
  lemma {:induction false} OnlineRunsBuiltIns(m: Machine, cheats: seq<Cheat>)
    ensures ApplyAll(m, cheats, true) == ApplyAll(m, BuiltIns(cheats), false)
    decreases |cheats|
  {
    hide RunOne, SkipsNext;
    if cheats == [] {
    } else {
      var rest := BuiltIns(cheats[1..]);
      OnlineRunsBuiltIns(StepCheat(m, cheats[0], true), cheats[1..]);
      if cheats[0].builtIn {
        assert ([cheats[0]] + rest)[1..] == rest;
        assert StepCheat(m, cheats[0], true) == StepCheat(m, cheats[0], false);
      } else {
        assert [] + rest == rest;
      }
    }
  }

  /** A list of disabled cheats changes nothing in memory. */
  lemma {:induction false} DisabledChangeNothing(m: Machine, cheats: seq<Cheat>, online: bool)
    requires forall i :: 0 <= i < |cheats| ==> !cheats[i].enabled
    ensures ApplyAll(m, cheats, online).ram == m.ram
    decreases |cheats|
  {
    hide RunOne, SkipsNext;
    if cheats == [] {
    } else {
      DisabledChangeNothing(StepCheat(m, cheats[0], online), cheats[1..], online);
    }
  }

  /** A failed test passes over the next cheat of the list, enabled or not. */
  lemma FailedTestPassesOver(ram: Ram, test: Cheat, next: Cheat, rest: seq<Cheat>)
    requires test.enabled && SkipsNext(test, ram) && RunOne(test, ram) == ram
    ensures ApplyAll(Machine(ram, false), [test, next] + rest, false) == ApplyAll(Machine(ram, false), rest, false)
  {
    hide RunOne, SkipsNext;
    var cheats := [test, next] + rest;
    assert cheats[1..] == [next] + rest && ([next] + rest)[1..] == rest;
    assert ApplyAll(Machine(ram, false), cheats, false) == ApplyAll(Machine(ram, true), [next] + rest, false);
    assert ApplyAll(Machine(ram, true), [next] + rest, false) == ApplyAll(Machine(ram, false), rest, false);
  }

  /** The writes of `n` rounds: addresses a stride apart, values an increment apart. */
  function Puts(c: Cheat, address: u32, value: u32, n: nat): seq<Op> {
    seq(n, k requires 0 <= k => Put(c.size, U32(address + k * Stride(c)), U32(value + k * c.repeatValueIncrement)))
  }

  lemma PutsStep(c: Cheat, address: u32, value: u32, n: nat)
    requires n > 0
    ensures Puts(c, address, value, n)
         == [Put(c.size, address, value)]
            + Puts(c, U32(address + Stride(c)), U32(value + c.repeatValueIncrement), n - 1)
  {
    hide Stride;
    var l := Puts(c, address, value, n);
    var a, v := U32(address + Stride(c)), U32(value + c.repeatValueIncrement);
    forall k | 0 <= k < n
      ensures l[k] == ([Put(c.size, address, value)] + Puts(c, a, v, n - 1))[k]
    {
      if k == 0 {
        SmallWord(address);
        SmallWord(value);
      } else {
        NextRound(address, Stride(c), k);
        NextRound(value, c.repeatValueIncrement, k);
      }
    }
  }

  lemma NextRound(x: int, step: int, k: nat)
    requires k > 0
    ensures U32(U32(x + step) + (k - 1) * step) == U32(x + k * step)
  {
    hide U32;
    U32Sum(x + step, (k - 1) * step);
    assert x + step + (k - 1) * step == x + k * step;
  }

  /** The repeat loop of a value cheat of any size, stride and increment makes exactly these writes, in order. */
  lemma {:induction false} SetLoopPuts(ram: Ram, c: Cheat, address: u32, value: u32, n: nat)
    ensures SetLoop(ram, c, address, value, n) == DoAll(Puts(c, address, value, n), None, ram)
    decreases n
  {
    hide ReadRam, WriteRam, Stride;
    if n == 0 {
    } else {
      var a, v := U32(address + Stride(c)), U32(value + c.repeatValueIncrement);
      OneRound(ram, c, address, value, n);
      PutsStep(c, address, value, n);
      SetLoopPuts(Do(Put(c.size, address, value), ram), c, a, v, n - 1);
      DoAllStep(Put(c.size, address, value), Puts(c, a, v, n - 1), None, ram);
      DoAllOne(Put(c.size, address, value), ram);
    }
  }

  lemma OneRound(ram: Ram, c: Cheat, address: u32, value: u32, n: nat)
    requires n > 0
    ensures SetLoop(ram, c, address, value, n)
         == SetLoop(Do(Put(c.size, address, value), ram), c,
                    U32(address + Stride(c)), U32(value + c.repeatValueIncrement), n - 1)
  {
    hide ReadRam, WriteRam, Stride;
    WriteBack(ram, address, c.size);
  }

  /** A stride is that many cells of the cheat's size. */
  lemma StrideIsCells(c: Cheat)
    requires c.repeatAddressIncrement * c.size < TWO_32
    ensures Stride(c) == c.repeatAddressIncrement * Width(c.size)
  {
    SmallWord(c.repeatAddressIncrement * 8);
    SmallWord(c.repeatAddressIncrement * 16);
    SmallWord(c.repeatAddressIncrement * 32);
  }
}
