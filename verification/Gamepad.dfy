/**
 The press/release state machine of a gamepad on top of a fixed button mapping: which inputs are
 down, which Dreamcast keys they hold, and the active-low button word of the port.
 */
module Gamepad {
  import opened Bytes
  import opened InputMapping

  const DC_BTN_BITMAPPED_LAST: Key := 0x20000
  const AXIS_ACTIVATION_VALUE: int := 16384

  /** The one-bit masks of the bitmapped buttons. */
  predicate Bitmapped(key: Key) {
    key in {0x1, 0x2, 0x4, 0x8, 0x10, 0x20, 0x40, 0x80, 0x100, 0x200, 0x400, 0x800,
            0x1000, 0x2000, 0x4000, 0x8000, 0x1_0000, 0x2_0000}
  }

  /** Key numbers up to the last bitmapped one are EMU_BTN_NONE or a one-bit mask. */
  predicate RealKey(key: Key) {
    key <= DC_BTN_BITMAPPED_LAST ==> key == EMU_BTN_NONE || Bitmapped(key)
  }

  /** The fixed part: port 0 of the mapping and the trigger table (code to "reversed"). */
  datatype Config = Config(map_: PortMap, triggers: map<u32, bool>)

  ghost predicate ValidConfig(c: Config) {
    && Consistent(c.map_)
    && (forall k :: k in c.map_.fwd ==> RealKey(c.map_.fwd[k].key))
  }

  /** `low` is the set of one-bit masks that are 0 in `kcode[port]`, which starts as all ones. */
  datatype Pad = Pad(inputs: seq<InputDef>, keys: seq<Key>, low: set<Key>)

  const AT_REST: Pad := Pad([], [], {})

  // ---------------------------------------------------------------- one input pressed or released

  /** `handleButtonInput` on the button word: `kcode &= ~key` and `kcode |= key`. */
  function SetKey(low: set<Key>, key: Key, pressed: bool): set<Key> {
    if key == EMU_BTN_NONE || key > DC_BTN_BITMAPPED_LAST then low
    else if pressed then low + {key}
    else low - {key}
  }

  function SetKeys(low: set<Key>, keys: seq<Key>, pressed: bool): set<Key>
    decreases |keys|
  {
    if keys == [] then low else SetKeys(SetKey(low, keys[0], pressed), keys[1..], pressed)
  }

  function WithoutAll(keys: seq<Key>, gone: seq<Key>): seq<Key>
    decreases |gone|
  {
    if gone == [] then keys else WithoutAll(Without(keys, gone[0]), gone[1..])
  }

  ghost function Press(c: Config, p: Pad, x: InputDef): Pad {
    var inputs := InsertBack(p.inputs, x);
    if x in p.inputs then p.(inputs := inputs)
    else
      var key := ButtonId(c.map_, inputs);
      if key == EMU_BTN_NONE then p.(inputs := inputs)
      else Pad(inputs, p.keys + [key], SetKey(p.low, key, true))
  }

  function Release(c: Config, p: Pad, x: InputDef): Pad {
    if x !in p.inputs then p
    else
      var released := ReleasedIds(c.map_, p.keys, x);
      Pad(Without(p.inputs, x), WithoutAll(p.keys, released), SetKeys(p.low, released, false))
  }

  ghost function OnInput(c: Config, p: Pad, x: InputDef, pressed: bool): Pad {
    if pressed then Press(c, p, x) else Release(c, p, x)
  }

  // ---------------------------------------------------------------- events

  datatype Event = ButtonEvent(code: u32, pressed: bool) | AxisEvent(code: u32, value: int)

  /** The tail of `gamepad_axis_input`: an axis used as a digital input. */
  predicate AxisPressed(c: Config, code: u32, value: int) {
    if code in c.triggers then
      if !c.triggers[code] then value >= -32768 + 100 else value <= 32767 - 100
    else value >= AXIS_ACTIVATION_VALUE || -value >= AXIS_ACTIVATION_VALUE
  }

  function Axis(code: u32, positive: bool): InputDef {
    InputDef(code, if positive then AxisPos else AxisNeg)
  }

  ghost function OnEvent(c: Config, p: Pad, e: Event): Pad {
    match e
    case ButtonEvent(code, pressed) => OnInput(c, p, InputDef(code, Button), pressed)
    case AxisEvent(code, value) =>
      var trigger := code in c.triggers;
      var positive := trigger || value >= 0;
      var p := if trigger then p else Release(c, p, Axis(code, !positive));
      OnInput(c, p, Axis(code, positive), AxisPressed(c, code, value))
  }

  ghost function OnEvents(c: Config, p: Pad, events: seq<Event>): Pad
    decreases |events|
  {
    if events == [] then p else OnEvents(c, OnEvent(c, p, events[0]), events[1..])
  }

  // ---------------------------------------------------------------- the invariant

  /** A held key is bound, real, and every input of its combo is down. */
  ghost predicate Held(c: Config, p: Pad, key: Key) {
    && key != EMU_BTN_NONE && RealKey(key)
    && key in c.map_.rev && c.map_.rev[key] != []
    && forall i :: i in ComboOf(c.map_, key).inputs ==> i in p.inputs
  }

  ghost predicate PadInv(c: Config, p: Pad) {
    && IsInputSet(p.inputs)
    && (forall i :: i in p.inputs && i.kind == AxisNeg ==> i.code !in c.triggers)
    && Distinct(p.keys)
    && (forall key :: key in p.keys ==> Held(c, p, key))
    && (forall key :: key in p.low <==> key in p.keys && Bitmapped(key))
  }

  lemma AtRestInv(c: Config)
    ensures PadInv(c, AT_REST)
  {
  }

  // ---------------------------------------------------------------- pressing

  /** The key a press activates is bound to a combo that contains the new input and lies in the inputs. */
  lemma PressedKey(c: Config, inputs: seq<InputDef>, x: InputDef)
    requires ValidConfig(c) && inputs != [] && inputs[|inputs| - 1] == x
    ensures var key := ButtonId(c.map_, inputs);
      key != EMU_BTN_NONE ==>
        && RealKey(key)
        && key in c.map_.rev && c.map_.rev[key] != []
        && x in ComboOf(c.map_, key).inputs
        && forall i :: i in ComboOf(c.map_, key).inputs ==> i in inputs
  {
    var m := c.map_;
    var key := ButtonId(m, inputs);
    if key != EMU_BTN_NONE {
      var k :| IsLongest(m, inputs, k) && key == m.fwd[k].key;
      assert HasReverse(m, k);
      var tail := inputs[|inputs| - |k|..];
      assert tail[|k| - 1] == x;
      assert x in tail;
      assert SameMembers(tail, k);
    }
  }

  lemma StillHeld(c: Config, p: Pad, q: Pad)
    requires forall key :: key in p.keys ==> Held(c, p, key)
    requires forall i :: i in p.inputs ==> i in q.inputs
    ensures forall key :: key in p.keys ==> Held(c, q, key)
  {
    forall key | key in p.keys
      ensures Held(c, q, key)
    {
      assert Held(c, p, key);
    }
  }

  /** A key whose combo contains an input that is up is not held. */
  lemma NotYetHeld(c: Config, p: Pad, x: InputDef, key: Key)
    requires PadInv(c, p) && x !in p.inputs
    requires key in c.map_.rev && c.map_.rev[key] != [] && x in ComboOf(c.map_, key).inputs
    ensures key !in p.keys
  {
    assert !Held(c, p, key);
  }

  lemma PressedInputs(c: Config, p: Pad, x: InputDef)
    requires PadInv(c, p) && (x.kind != Button ==> Inverse(x) !in p.inputs)
    ensures Press(c, p, x).inputs == if x in p.inputs then p.inputs else p.inputs + [x]
    ensures IsInputSet(Press(c, p, x).inputs)
  {
    if x.kind != Button {
      WithoutAbsent(p.inputs, Inverse(x));
    }
    InsertBackIsInputSet(p.inputs, x);
  }

  /** The effect of a press on the held keys. */
  lemma PressedKeys(c: Config, p: Pad, x: InputDef)
    requires ValidConfig(c) && PadInv(c, p) && (x.kind != Button ==> Inverse(x) !in p.inputs)
    ensures var q := Press(c, p, x);
      && Distinct(q.keys)
      && (forall key :: key in q.keys ==> Held(c, q, key))
      && (forall key :: key in q.low <==> key in q.keys && Bitmapped(key))
  {
    var q := Press(c, p, x);
    PressedInputs(c, p, x);
    StillHeld(c, p, q);
    if x !in p.inputs {
      PressedKey(c, q.inputs, x);
      var key := ButtonId(c.map_, q.inputs);
      if key != EMU_BTN_NONE {
        NotYetHeld(c, p, x, key);
        assert Held(c, q, key);
        OneMoreKey(p, key);
      }
    }
  }

  lemma OneMoreKey(p: Pad, key: Key)
    requires Distinct(p.keys) && key !in p.keys && key != EMU_BTN_NONE && RealKey(key)
    requires forall k :: k in p.low <==> k in p.keys && Bitmapped(k)
    ensures Distinct(p.keys + [key])
    ensures forall k :: k in SetKey(p.low, key, true) <==> k in p.keys + [key] && Bitmapped(k)
  {
  }

  lemma PressInv(c: Config, p: Pad, x: InputDef)
    requires ValidConfig(c) && PadInv(c, p)
    requires x.kind != Button ==> Inverse(x) !in p.inputs
    requires x.kind == AxisNeg ==> x.code !in c.triggers
    ensures PadInv(c, Press(c, p, x))
    ensures forall i :: i in Press(c, p, x).inputs <==> i in p.inputs || i == x
  {
    PressedInputs(c, p, x);
    PressedKeys(c, p, x);
  }

  // ---------------------------------------------------------------- releasing

  lemma {:induction false} WithoutAllMembers(keys: seq<Key>, gone: seq<Key>)
    requires Distinct(keys)
    ensures Distinct(WithoutAll(keys, gone))
    ensures forall k :: k in WithoutAll(keys, gone) <==> k in keys && k !in gone
    decreases |gone|
  {
    if gone == [] {
    } else {
      WithoutMembers(keys, gone[0]);
      WithoutDistinct(keys, gone[0]);
      WithoutAllMembers(Without(keys, gone[0]), gone[1..]);
      assert gone == [gone[0]] + gone[1..];
    }
  }

  lemma {:induction false} SetKeysReleased(low: set<Key>, keys: seq<Key>)
    requires forall j :: 0 <= j < |keys| ==> keys[j] != EMU_BTN_NONE && RealKey(keys[j])
    ensures forall k :: k in SetKeys(low, keys, false) <==> k in low && !(k in keys && Bitmapped(k))
    decreases |keys|
  {
    if keys == [] {
    } else {
      assert keys == [keys[0]] + keys[1..];
      assert keys[0] in keys;
      SetKeysReleased(SetKey(low, keys[0], false), keys[1..]);
    }
  }

  /** With one combo per key, exactly the active keys whose combo contains the input are released. */
  lemma {:induction false} ReleasedMembers(m: PortMap, active: seq<Key>, x: InputDef)
    requires Consistent(m)
    requires forall k :: k in active ==> k in m.rev && m.rev[k] != []
    ensures forall k :: k in ReleasedIds(m, active, x) <==> k in active && x in ComboOf(m, k).inputs
    decreases |active|
  {
    if active == [] {
    } else {
      var id := active[0];
      assert active == [id] + active[1..];
      ReleasedMembers(m, active[1..], x);
      assert HasForward(m, id);
      assert m.rev[id][1..] == [];
      assert HitsOf(id, m.rev[id], x) == if x in ComboOf(m, id).inputs then [id] else [];
    }
  }

  lemma ReleaseInv(c: Config, p: Pad, x: InputDef)
    requires ValidConfig(c) && PadInv(c, p)
    ensures PadInv(c, Release(c, p, x))
    ensures forall i :: i in Release(c, p, x).inputs <==> i in p.inputs && i != x
  {
    var q := Release(c, p, x);
    if x in p.inputs {
      forall k | k in p.keys
        ensures k in c.map_.rev && c.map_.rev[k] != [] && k != EMU_BTN_NONE && RealKey(k)
      {
        assert Held(c, p, k);
      }
      var released := ReleasedIds(c.map_, p.keys, x);
      ReleasedMembers(c.map_, p.keys, x);
      WithoutMembers(p.inputs, x);
      WithoutDistinct(p.inputs, x);
      WithoutAllMembers(p.keys, released);
      forall j | 0 <= j < |released|
        ensures released[j] != EMU_BTN_NONE && RealKey(released[j])
      {
        assert released[j] in released;
      }
      SetKeysReleased(p.low, released);
      forall k | k in q.keys
        ensures Held(c, q, k)
      {
        assert Held(c, p, k);
      }
    }
  }

  // ---------------------------------------------------------------- every run

  lemma EventInv(c: Config, p: Pad, e: Event)
    requires ValidConfig(c) && PadInv(c, p)
    ensures PadInv(c, OnEvent(c, p, e))
  {
    match e
    case ButtonEvent(code, pressed) =>
      if pressed { PressInv(c, p, InputDef(code, Button)); } else { ReleaseInv(c, p, InputDef(code, Button)); }
    case AxisEvent(code, value) =>
      var trigger := code in c.triggers;
      var positive := trigger || value >= 0;
      var q := p;
      if !trigger {
        ReleaseInv(c, p, Axis(code, !positive));
        q := Release(c, p, Axis(code, !positive));
      }
      if AxisPressed(c, code, value) {
        PressInv(c, q, Axis(code, positive));
      } else {
        ReleaseInv(c, q, Axis(code, positive));
      }
  }

  lemma {:induction false} EventsInv(c: Config, p: Pad, events: seq<Event>)
    requires ValidConfig(c) && PadInv(c, p)
    ensures PadInv(c, OnEvents(c, p, events))
    decreases |events|
  {
    if events == [] {
    } else {
      EventInv(c, p, events[0]);
      EventsInv(c, OnEvent(c, p, events[0]), events[1..]);
    }
  }

  /**
   Over every run of events with a fixed mapping: no key is held twice, the whole combo of each
   held key is down, and a button bit is low exactly while its key is held.
   */
  lemma HeldKeysHaveTheirCombos(c: Config, events: seq<Event>, key: Key)
    requires ValidConfig(c)
    ensures var p := OnEvents(c, AT_REST, events);
      && Distinct(p.keys)
      && (key in p.keys ==> Held(c, p, key))
      && (Bitmapped(key) ==> (key in p.low <==> key in p.keys))
  {
    AtRestInv(c);
    EventsInv(c, AT_REST, events);
    var p := OnEvents(c, AT_REST, events);
    if key in p.keys {
      assert Held(c, p, key);
    }
  }

  /** The event is about this input, or about the other direction of its axis. */
  predicate Named(e: Event, i: InputDef) {
    match e
    case ButtonEvent(code, pressed) => !pressed && i == InputDef(code, Button)
    case AxisEvent(code, _) => i.code == code && i.kind != Button
  }

  /** A press never drops the opposite direction of an axis behind the back of the held keys. */
  lemma NoSilentRemoval(c: Config, p: Pad, e: Event)
    requires ValidConfig(c) && PadInv(c, p)
    ensures forall i :: i in p.inputs && i !in OnEvent(c, p, e).inputs ==> Named(e, i)
  {
    match e
    case ButtonEvent(code, pressed) =>
      if pressed { PressInv(c, p, InputDef(code, Button)); } else { ReleaseInv(c, p, InputDef(code, Button)); }
    case AxisEvent(code, value) =>
      var trigger := code in c.triggers;
      var positive := trigger || value >= 0;
      var q := p;
      if !trigger {
        ReleaseInv(c, p, Axis(code, !positive));
        q := Release(c, p, Axis(code, !positive));
      }
      if AxisPressed(c, code, value) {
        PressInv(c, q, Axis(code, positive));
      } else {
        ReleaseInv(c, q, Axis(code, positive));
      }
  }

  // ---------------------------------------------------------------- letting go

  /** The event lets go of input `i`. */
  predicate LetsGo(c: Config, e: Event, i: InputDef) {
    match e
    case ButtonEvent(code, pressed) => !pressed && i == InputDef(code, Button)
    case AxisEvent(code, value) =>
      i.code == code && i.kind != Button && !AxisPressed(c, code, value) && (i.kind == AxisNeg ==> code !in c.triggers)
  }

  predicate IsRelease(c: Config, e: Event) {
    match e
    case ButtonEvent(_, pressed) => !pressed
    case AxisEvent(code, value) => !AxisPressed(c, code, value)
  }

  lemma ReleaseEvent(c: Config, p: Pad, e: Event)
    requires ValidConfig(c) && PadInv(c, p) && IsRelease(c, e)
    ensures PadInv(c, OnEvent(c, p, e))
    ensures forall i :: i in OnEvent(c, p, e).inputs <==> i in p.inputs && !LetsGo(c, e, i)
  {
    EventInv(c, p, e);
    match e
    case ButtonEvent(code, _) => ReleaseInv(c, p, InputDef(code, Button));
    case AxisEvent(code, value) =>
      var positive := code in c.triggers || value >= 0;
      if code in c.triggers {
        ReleaseInv(c, p, Axis(code, positive));
      } else {
        ReleaseInv(c, p, Axis(code, !positive));
        ReleaseInv(c, Release(c, p, Axis(code, !positive)), Axis(code, positive));
      }
  }

  lemma {:induction false} ReleaseEvents(c: Config, p: Pad, events: seq<Event>)
    requires ValidConfig(c) && PadInv(c, p)
    requires forall j :: 0 <= j < |events| ==> IsRelease(c, events[j])
    ensures PadInv(c, OnEvents(c, p, events))
    ensures forall i :: i in OnEvents(c, p, events).inputs <==>
      i in p.inputs && forall j :: 0 <= j < |events| ==> !LetsGo(c, events[j], i)
    decreases |events|
  {
    if events == [] {
    } else {
      ReleaseEvent(c, p, events[0]);
      var q := OnEvent(c, p, events[0]);
      ReleaseEvents(c, q, events[1..]);
      forall i
        ensures i in OnEvents(c, p, events).inputs <==>
          i in p.inputs && forall j :: 0 <= j < |events| ==> !LetsGo(c, events[j], i)
      {
        assert forall j :: 0 <= j < |events| - 1 ==> events[1..][j] == events[j + 1];
      }
    }
  }

  /** From any reachable state, letting go of every input that is down leaves no key held and every bit high. */
  lemma NothingStaysStuck(c: Config, run: seq<Event>, releases: seq<Event>)
    requires ValidConfig(c)
    requires forall j :: 0 <= j < |releases| ==> IsRelease(c, releases[j])
    requires forall i :: i in OnEvents(c, AT_REST, run).inputs ==>
      exists j :: 0 <= j < |releases| && LetsGo(c, releases[j], i)
    ensures OnEvents(c, OnEvents(c, AT_REST, run), releases) == AT_REST
  {
    AtRestInv(c);
    EventsInv(c, AT_REST, run);
    var p := OnEvents(c, AT_REST, run);
    ReleaseEvents(c, p, releases);
    var q := OnEvents(c, p, releases);
    if q.inputs != [] {
      HasMember(q.inputs);
    }
    NoInputsNoKeys(c, q);
  }

  lemma HasMember<T>(s: seq<T>)
    requires s != []
    ensures exists x :: x in s
  {
    assert s[0] in s;
  }

  lemma HeldNeedsInput(c: Config, q: Pad, key: Key)
    requires Consistent(c.map_) && Held(c, q, key)
    ensures q.inputs != []
  {
    assert HasForward(c.map_, key);
    var k := ComboOf(c.map_, key).inputs;
    assert k[0] in k;
  }

  lemma NoInputsNoKeys(c: Config, q: Pad)
    requires ValidConfig(c) && PadInv(c, q) && q.inputs == []
    ensures q.keys == [] && q.low == {}
  {
    if q.keys != [] {
      HeldNeedsInput(c, q, q.keys[0]);
    }
  }

  // ---------------------------------------------------------------- the device object

  /** One gamepad bound to ports 0 to 3, not detecting input. */
  class Device {
    const mapping: Mapping
    const triggers: map<u32, bool>
    var currentInputs: seq<InputDef>
    var currentKeys: seq<Key>
    var low: set<Key>

    constructor (mapping: Mapping, triggers: map<u32, bool>)
      ensures this.mapping == mapping && this.triggers == triggers && State() == AT_REST
    {
      this.mapping, this.triggers := mapping, triggers;
      currentInputs, currentKeys, low := [], [], {};
    }

    ghost function State(): Pad
      reads this
    {
      Pad(currentInputs, currentKeys, low)
    }

    ghost function Settings(): Config
      requires mapping.Valid()
      reads this, mapping
    {
      Config(mapping.ports[0], triggers)
    }

    method HandleButtonInput(key: Key, pressed: bool) returns (rc: bool)
      modifies this`low
      ensures low == SetKey(old(low), key, pressed)
      ensures rc <== key != EMU_BTN_NONE && key <= DC_BTN_BITMAPPED_LAST
    {
      if key == EMU_BTN_NONE {
        return false;
      }
      if key <= DC_BTN_BITMAPPED_LAST {
        low := if pressed then low + {key} else low - {key};
        return true;
      }
      rc := *;   // emulator functions and analog keys do not touch the button word
    }

    method InsertInput(x: InputDef) returns (added: bool)
      modifies this`currentInputs
      ensures currentInputs == InsertBack(old(currentInputs), x)
      ensures added <==> x !in old(currentInputs)
    {
      WithoutMembers(currentInputs, Inverse(x));
      if x.kind != Button {
        var r, _ := Remove(currentInputs, Inverse(x));
        currentInputs := r;
      }
      added := x !in currentInputs;
      if added {
        currentInputs := currentInputs + [x];
      }
    }

    method HandleButtonInputDef(x: InputDef, pressed: bool) returns (rc: bool)
      requires mapping.Valid() && IsInputSet(currentInputs)
      modifies this
      ensures State() == OnInput(Settings(), old(State()), x, pressed)
    {
      var mapped: seq<Key> := [];
      if pressed {
        InsertBackIsInputSet(currentInputs, x);
        var added := InsertInput(x);
        if added {
          var key := mapping.GetButtonId(0, currentInputs);
          if key != EMU_BTN_NONE {
            mapped := [key];
            currentKeys := currentKeys + [key];
          }
        }
      } else {
        var r, removed := Remove(currentInputs, x);
        currentInputs := r;
        if removed > 0 {
          mapped := mapping.GetButtonReleasedIds(0, currentKeys, x);
          currentKeys := RemoveKeys(currentKeys, mapped);
        } else {
          WithoutAbsent(old(currentInputs), x);
        }
      }
      rc := NotifyKeys(mapped, pressed);
    }

    /** A digital event: a button, or the tail of `gamepad_axis_input` for an axis. */
    method HandleEvent(e: Event) returns (rc: bool)
      requires mapping.Valid() && ValidConfig(Settings()) && PadInv(Settings(), State())
      modifies this
      ensures State() == OnEvent(Settings(), old(State()), e)
      ensures PadInv(Settings(), State())
    {
      ghost var c, p := Settings(), State();
      EventInv(c, p, e);
      match e {
        case ButtonEvent(code, pressed) =>
          rc := HandleButtonInputDef(InputDef(code, Button), pressed);
        case AxisEvent(code, value) =>
          var trigger := code in triggers;
          var positive := trigger || value >= 0;
          rc := false;
          if !trigger {
            ReleaseInv(c, p, Axis(code, !positive));
            rc := HandleButtonInputDef(Axis(code, !positive), false);
          }
          var pressed := if !trigger then value >= AXIS_ACTIVATION_VALUE || -value >= AXIS_ACTIVATION_VALUE
                         else if !triggers[code] then value >= -32768 + 100
                         else value <= 32767 - 100;
          var handled := HandleButtonInputDef(Axis(code, positive), pressed);
          rc := handled || rc;
      }
    }

    method RemoveKeys(keys: seq<Key>, gone: seq<Key>) returns (r: seq<Key>)
      ensures r == WithoutAll(keys, gone)
    {
      r := keys;
      for i := 0 to |gone|
        invariant WithoutAll(r, gone[i..]) == WithoutAll(keys, gone)
      {
        r := Without(r, gone[i]);
        assert gone[i..][1..] == gone[i + 1..];
      }
    }

    method NotifyKeys(keys: seq<Key>, pressed: bool) returns (rc: bool)
      modifies this`low
      ensures low == SetKeys(old(low), keys, pressed)
    {
      rc := false;
      for i := 0 to |keys|
        invariant SetKeys(low, keys[i..], pressed) == SetKeys(old(low), keys, pressed)
      {
        var handled := HandleButtonInput(keys[i], pressed);
        rc := handled || rc;
        assert keys[i..][1..] == keys[i + 1..];
      }
    }
  }
}
