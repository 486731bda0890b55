/** What a gamepad answers: which key a press holds, and which inputs and keys are down after any run of events. */
module GamepadResponse {
  import opened Bytes
  import opened InputMapping
  import opened Gamepad

  // ---------------------------------------------------------------- one press

  /** If some combo matches what has been pressed last, one of them is the longest. */
  lemma LongestExists(m: PortMap, inputs: seq<InputDef>, k: seq<InputDef>)
    requires Matches(m, inputs, k)
    ensures exists l :: IsLongest(m, inputs, l)
    decreases |inputs| - |k|
  {
    if IsLongest(m, inputs, k) {
    } else {
      var l :| Matches(m, inputs, l) && |l| > |k|;
      LongestExists(m, inputs, l);
    }
  }

  /** The new input goes last; the inputs down before it stay. */
  ghost predicate MayPress(c: Config, p: Pad, x: InputDef) {
    ValidConfig(c) && PadInv(c, p) && (x.kind != Button ==> Inverse(x) !in p.inputs)
  }

  /** Pressing an input that is down changes nothing. */
  lemma RepeatedPress(c: Config, p: Pad, x: InputDef)
    requires MayPress(c, p, x) && x in p.inputs
    ensures Press(c, p, x) == p
  {
    PressedInputs(c, p, x);
  }

  /**
   Pressing an input that was up: if a combo matches what has been pressed last, the key of the
   longest such combo is held from now on, and its bit is low if it has one.
   */
  lemma PressHoldsLongest(c: Config, p: Pad, x: InputDef, k: seq<InputDef>)
    requires MayPress(c, p, x) && x !in p.inputs && IsLongest(c.map_, p.inputs + [x], k)
    ensures var q, key := Press(c, p, x), c.map_.fwd[k].key;
      && q.inputs == p.inputs + [x]
      && q.keys == p.keys + [key] && key !in p.keys
      && q.low == if Bitmapped(key) then p.low + {key} else p.low
  {
    var inputs, key := p.inputs + [x], c.map_.fwd[k].key;
    ButtonIdIsLongest(c.map_, inputs, k);
    PressedKey(c, inputs, x);
    NotYetHeld(c, p, x, key);
    assert key != EMU_BTN_NONE && RealKey(key);
    hide *;
    PressAdds(c, p, x, key);
    LowBit(p.low, key);
  }

  lemma PressAdds(c: Config, p: Pad, x: InputDef, key: Key)
    requires MayPress(c, p, x) && x !in p.inputs && ButtonId(c.map_, p.inputs + [x]) == key != EMU_BTN_NONE
    ensures Press(c, p, x) == Pad(p.inputs + [x], p.keys + [key], SetKey(p.low, key, true))
  {
    PressedInputs(c, p, x);
  }

  lemma LowBit(low: set<Key>, key: Key)
    requires key != EMU_BTN_NONE && RealKey(key)
    ensures SetKey(low, key, true) == if Bitmapped(key) then low + {key} else low
  {
  }

  /** If no combo matches, no key is held that was not. */
  lemma PressWithoutMatch(c: Config, p: Pad, x: InputDef)
    requires MayPress(c, p, x) && x !in p.inputs && forall k :: !Matches(c.map_, p.inputs + [x], k)
    ensures Press(c, p, x) == p.(inputs := p.inputs + [x])
  {
    PressedInputs(c, p, x);
    NoMatchNoButton(c.map_, p.inputs + [x]);
  }

  /** Letting go of an input drops exactly the keys whose combo has it, and raises their bits. */
  lemma ReleaseDrops(c: Config, p: Pad, x: InputDef)
    requires ValidConfig(c) && PadInv(c, p) && x in p.inputs
    ensures var q := Release(c, p, x);
      && (forall key :: key in p.keys ==> key in c.map_.rev && c.map_.rev[key] != [])
      && (forall i :: i in q.inputs <==> i in p.inputs && i != x)
      && (forall key :: key in q.keys <==> key in p.keys && x !in ComboOf(c.map_, key).inputs)
      && (forall key :: key in q.low <==> key in p.low && key in q.keys)
  {
    forall key | key in p.keys
      ensures key in c.map_.rev && c.map_.rev[key] != []
    {
      assert Held(c, p, key);
    }
    ReleaseInv(c, p, x);
    ReleasedMembers(c.map_, p.keys, x);
    WithoutAllMembers(p.keys, ReleasedIds(c.map_, p.keys, x));
  }

  // ---------------------------------------------------------------- which inputs are down

  /** What an event says about an input: that it is down, that it is up, or nothing. */
  function Says(c: Config, e: Event, i: InputDef): Option<bool> {
    match e
    case ButtonEvent(code, pressed) => if i == InputDef(code, Button) then Some(pressed) else None
    case AxisEvent(code, value) =>
      if i.code != code || i.kind == Button then None
      else if code in c.triggers then
        if i.kind == AxisNeg then None
        else Some(if c.triggers[code] then value <= 32667 else value >= -32668)
      else Some(if i.kind == AxisPos then value >= 16384 else value <= -16384)
  }

  /** The last event that says something about the input says that it is down. */
  function LastSaid(c: Config, events: seq<Event>, i: InputDef): bool {
    if events == [] then false
    else
      var n := |events| - 1;
      match Says(c, events[n], i)
      case Some(down) => down
      case None => LastSaid(c, events[..n], i)
  }

  /** An event does what it says to its inputs, and nothing to any other. */
  lemma EventDoes(c: Config, p: Pad, e: Event, i: InputDef)
    requires ValidConfig(c) && PadInv(c, p)
    ensures PadInv(c, OnEvent(c, p, e))
    ensures i in OnEvent(c, p, e).inputs <==>
      match Says(c, e, i)
      case Some(down) => down
      case None => i in p.inputs
  {
    hide ValidConfig, PadInv;
    EventInv(c, p, e);
    match e
    case ButtonEvent(code, pressed) => InputDoes(c, p, InputDef(code, Button), pressed);
    case AxisEvent(code, value) => AxisDoes(c, p, code, value, i);
  }

  lemma InputDoes(c: Config, p: Pad, x: InputDef, pressed: bool)
    requires ValidConfig(c) && PadInv(c, p)
    requires pressed && x.kind != Button ==> Inverse(x) !in p.inputs
    requires pressed && x.kind == AxisNeg ==> x.code !in c.triggers
    ensures PadInv(c, OnInput(c, p, x, pressed))
    ensures forall i :: i in OnInput(c, p, x, pressed).inputs <==> if i == x then pressed else i in p.inputs
  {
    hide ValidConfig, PadInv;
    if pressed {
      PressInv(c, p, x);
    } else {
      ReleaseInv(c, p, x);
    }
  }

  lemma AxisDoes(c: Config, p: Pad, code: u32, value: int, i: InputDef)
    requires ValidConfig(c) && PadInv(c, p)
    ensures i in OnEvent(c, p, AxisEvent(code, value)).inputs <==>
      match Says(c, AxisEvent(code, value), i)
      case Some(down) => down
      case None => i in p.inputs
  {
    var trigger := code in c.triggers;
    var positive := trigger || value >= 0;
    var q := if trigger then p else Release(c, p, Axis(code, !positive));
    if trigger {
      assert Axis(code, false) !in p.inputs;
    } else {
      InputDoes(c, p, Axis(code, !positive), false);
    }
    hide ValidConfig, PadInv;
    InputDoes(c, q, Axis(code, positive), AxisPressed(c, code, value));
  }

  /** Over every run of events, an input is down exactly when the last event about it said so. */
  lemma {:induction false} InputsAreWhatWasSaid(c: Config, events: seq<Event>, i: InputDef)
    requires ValidConfig(c)
    ensures PadInv(c, OnEvents(c, AT_REST, events))
    ensures i in OnEvents(c, AT_REST, events).inputs <==> LastSaid(c, events, i)
    decreases |events|
  {
    hide ValidConfig, PadInv, Says, OnEvent;
    if events == [] {
      AtRestInv(c);
    } else {
      var n := |events| - 1;
      InputsAreWhatWasSaid(c, events[..n], i);
      LastEvent(c, AT_REST, events);
      EventDoes(c, OnEvents(c, AT_REST, events[..n]), events[n], i);
    }
  }

  lemma {:induction false} LastEvent(c: Config, p: Pad, events: seq<Event>)
    requires events != []
    ensures OnEvents(c, p, events) == OnEvent(c, OnEvents(c, p, events[..|events| - 1]), events[|events| - 1])
    decreases |events|
  {
    hide OnEvent;
    var n := |events| - 1;
    if n == 0 {
      assert events[1..] == [] && events[..0] == [];
    } else {
      LastEvent(c, OnEvent(c, p, events[0]), events[1..]);
      assert events[1..][..n - 1] == events[..n][1..];
    }
  }

  // ---------------------------------------------------------------- a button with a key of its own

  /** The input alone is bound to the key, and no other combo uses it. */
  ghost predicate OwnKey(m: PortMap, x: InputDef, key: Key) {
    && key != EMU_BTN_NONE
    && [x] in m.fwd && m.fwd[[x]].key == key
    && forall k :: k in m.fwd && x in k ==> k == [x]
  }

  /** Its key is held exactly while it is down. */
  ghost predicate Follows(p: Pad, x: InputDef, key: Key) {
    key in p.keys <==> x in p.inputs
  }

  lemma OwnCombo(m: PortMap, x: InputDef, key: Key)
    requires Consistent(m) && OwnKey(m, x, key)
    ensures key in m.rev && m.rev[key] != [] && ComboOf(m, key).inputs == [x]
  {
    assert HasReverse(m, [x]);
  }

  lemma OwnIsLongest(m: PortMap, x: InputDef, key: Key, inputs: seq<InputDef>)
    requires Consistent(m) && OwnKey(m, x, key)
    ensures IsLongest(m, inputs + [x], [x])
  {
    var all := inputs + [x];
    assert all[|all| - 1..] == [x];
    forall l | Matches(m, all, l)
      ensures |l| <= 1
    {
      var tail := all[|all| - |l|..];
      assert l != [] && tail[|l| - 1] == x;
      assert x in tail && x in l;
    }
  }

  lemma PressFollows(c: Config, p: Pad, y: InputDef, x: InputDef, key: Key)
    requires MayPress(c, p, y) && OwnKey(c.map_, x, key) && Follows(p, x, key)
    ensures Follows(Press(c, p, y), x, key)
  {
    PressedInputs(c, p, y);
    if y in p.inputs {
      RepeatedPress(c, p, y);
    } else if y == x {
      OwnIsLongest(c.map_, x, key, p.inputs);
      PressHoldsLongest(c, p, x, [x]);
    } else {
      OwnCombo(c.map_, x, key);
      PressedKeys(c, p, y);
      if key in Press(c, p, y).keys {
        assert Held(c, Press(c, p, y), key);
      }
    }
  }

  lemma ReleaseFollows(c: Config, p: Pad, y: InputDef, x: InputDef, key: Key)
    requires ValidConfig(c) && PadInv(c, p) && OwnKey(c.map_, x, key) && Follows(p, x, key)
    ensures Follows(Release(c, p, y), x, key)
  {
    if y in p.inputs {
      OwnCombo(c.map_, x, key);
      ReleaseDrops(c, p, y);
    }
  }

  lemma EventFollows(c: Config, p: Pad, e: Event, x: InputDef, key: Key)
    requires ValidConfig(c) && PadInv(c, p) && OwnKey(c.map_, x, key) && Follows(p, x, key)
    ensures Follows(OnEvent(c, p, e), x, key)
  {
    hide Press, Release, Follows, OwnKey;
    match e
    case ButtonEvent(code, pressed) =>
      if pressed {
        PressFollows(c, p, InputDef(code, Button), x, key);
      } else {
        ReleaseFollows(c, p, InputDef(code, Button), x, key);
      }
    case AxisEvent(code, value) =>
      var trigger := code in c.triggers;
      var positive := trigger || value >= 0;
      var q := p;
      if !trigger {
        ReleaseInv(c, p, Axis(code, !positive));
        ReleaseFollows(c, p, Axis(code, !positive), x, key);
        q := Release(c, p, Axis(code, !positive));
      }
      if AxisPressed(c, code, value) {
        PressFollows(c, q, Axis(code, positive), x, key);
      } else {
        ReleaseFollows(c, q, Axis(code, positive), x, key);
      }
  }

  lemma {:induction false} EventsFollow(c: Config, p: Pad, events: seq<Event>, x: InputDef, key: Key)
    requires ValidConfig(c) && PadInv(c, p) && OwnKey(c.map_, x, key) && Follows(p, x, key)
    ensures Follows(OnEvents(c, p, events), x, key)
    decreases |events|
  {
    hide ValidConfig, PadInv, OwnKey, Follows, OnEvent;
    if events == [] {
    } else {
      EventInv(c, p, events[0]);
      EventFollows(c, p, events[0], x, key);
      EventsFollow(c, OnEvent(c, p, events[0]), events[1..], x, key);
    }
  }

  /**
   A button with a key of its own: over every run of events, with whatever else is pressed, the key is
   held, and its bit is low if it has one, exactly while the last event about the button said it is down.
   */
  lemma OwnKeyFollowsButton(c: Config, events: seq<Event>, x: InputDef, key: Key)
    requires ValidConfig(c) && OwnKey(c.map_, x, key)
    ensures var p := OnEvents(c, AT_REST, events);
      && (key in p.keys <==> LastSaid(c, events, x))
      && (key in p.low <==> LastSaid(c, events, x) && Bitmapped(key))
  {
    hide ValidConfig, OwnKey;
    AtRestInv(c);
    EventsFollow(c, AT_REST, events, x, key);
    InputsAreWhatWasSaid(c, events, x);
  }
}
