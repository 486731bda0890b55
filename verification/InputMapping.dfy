/** Button combos: ordered input sets, and the forward and reverse maps of one controller mapping. */
module InputMapping {
  import opened Bytes

  datatype InputType = Button | AxisPos | AxisNeg
  datatype InputDef = InputDef(code: u32, kind: InputType)

  /** A Dreamcast key: a one-bit mask for the bitmapped buttons, another number for the rest. */
  type Key = u32
  const EMU_BTN_NONE: Key := 0

  const NUM_PORTS: nat := 4

  // ---------------------------------------------------------------- ordered input sets

  function Inverse(x: InputDef): InputDef {
    match x.kind
    case AxisPos => x.(kind := AxisNeg)
    case AxisNeg => x.(kind := AxisPos)
    case Button => x
  }

  /** What the `InputSet` class maintains: no input twice, never both directions of an axis. */
  ghost predicate IsInputSet(s: seq<InputDef>) {
    && Distinct(s)
    && (forall x :: x in s && x.kind != Button ==> Inverse(x) !in s)
  }

  function Without<T(==)>(s: seq<T>, x: T): seq<T> {
    if s == [] then []
    else if s[0] == x then Without(s[1..], x)
    else [s[0]] + Without(s[1..], x)
  }

  lemma {:induction false} WithoutMembers<T>(s: seq<T>, x: T)
    ensures forall y :: y in Without(s, x) <==> y in s && y != x
  {
    if s == [] {
    } else {
      WithoutMembers(s[1..], x);
      assert s == [s[0]] + s[1..];
    }
  }

  lemma {:induction false} WithoutDistinct<T(!new)>(s: seq<T>, x: T)
    requires Distinct(s)
    ensures Distinct(Without(s, x))
  {
    if s == [] {
    } else {
      WithoutDistinct(s[1..], x);
      WithoutMembers(s[1..], x);
      assert s[0] !in s[1..];
    }
  }

  lemma {:induction false} WithoutAbsent<T>(s: seq<T>, x: T)
    requires x !in s
    ensures Without(s, x) == s
  {
    if s == [] {
    } else {
      assert s == [s[0]] + s[1..];
      WithoutAbsent(s[1..], x);
    }
  }

  lemma {:induction false} WithoutAt<T>(s: seq<T>, x: T, i: nat)
    requires i < |s| && s[i] == x
    ensures Without(s[..i] + s[i + 1..], x) == Without(s, x)
  {
    if i == 0 {
      assert s[..0] + s[1..] == s[1..];
    } else {
      var t := s[..i] + s[i + 1..];
      WithoutAt(s[1..], x, i - 1);
      assert t[1..] == s[1..][..i - 1] + s[1..][i..];
    }
  }

  /** `InputSet::remove`: erases matches one at a time. */
  method Remove(s: seq<InputDef>, x: InputDef) returns (r: seq<InputDef>, removed: nat)
    ensures r == Without(s, x)
    ensures removed > 0 <==> x in s
    ensures removed == |s| - |r|
  {
    r, removed := s, 0;
    while x in r
      invariant Without(r, x) == Without(s, x)
      invariant removed == |s| - |r|
      invariant removed == 0 ==> r == s
      invariant removed > 0 ==> x in s
      decreases |r|
    {
      var i :| 0 <= i < |r| && r[i] == x;
      WithoutAt(r, x, i);
      r := r[..i] + r[i + 1..];
      removed := removed + 1;
    }
    WithoutAbsent(r, x);
  }

  /** `InputSet::insert_back`. */
  function InsertBack(s: seq<InputDef>, x: InputDef): seq<InputDef> {
    var s := if x.kind == Button then s else Without(s, Inverse(x));
    if x in s then s else s + [x]
  }

  lemma InsertBackIsInputSet(s: seq<InputDef>, x: InputDef)
    requires IsInputSet(s)
    ensures IsInputSet(InsertBack(s, x))
  {
    WithoutMembers(s, Inverse(x));
    WithoutDistinct(s, Inverse(x));
  }

  /** The inputs pressed last are those of `rhs`, in its order or in any order. */
  ghost predicate EndsWith(s: seq<InputDef>, rhs: seq<InputDef>, sequential: bool) {
    && |rhs| <= |s|
    && var tail := s[|s| - |rhs|..];
       if sequential then tail == rhs else SameMembers(tail, rhs)
  }

  ghost predicate SameMembers(a: seq<InputDef>, b: seq<InputDef>) {
    forall x :: x in a <==> x in b
  }

  lemma {:induction false} DistinctCount(s: seq<InputDef>)
    requires Distinct(s)
    ensures |set x | x in s| == |s|
  {
    if s == [] {
    } else {
      var t := s[..|s| - 1];
      DistinctCount(t);
      assert (set x | x in s) == (set x | x in t) + {s[|s| - 1]};
    }
  }

  /** Distinct inputs all taken from a list: no more of them than the list, and as many only if they are all of it. */
  lemma Pigeonhole(a: seq<InputDef>, b: seq<InputDef>)
    requires Distinct(a) && Distinct(b)
    requires forall x :: x in a ==> x in b
    ensures |a| <= |b|
    ensures |a| == |b| ==> SameMembers(a, b)
  {
    DistinctCount(a);
    DistinctCount(b);
    var A, B := set x | x in a, set x | x in b;
    assert A <= B;
    assert |B - A| == |B| - |A|;
    if |a| == |b| {
      assert B - A == {};
      forall x | x in b
        ensures x in a
      {
        assert x in B;
        assert x in A;
      }
    }
  }

  /** `InputSet::ends_with`, walking both lists from the back. */
  method CheckEndsWith(s: seq<InputDef>, rhs: seq<InputDef>, sequential: bool) returns (r: bool)
    requires Distinct(s) && Distinct(rhs)
    ensures r <==> EndsWith(s, rhs, sequential)
  {
    var n := 0;
    if sequential {
      while n < |s| && n < |rhs| && s[|s| - 1 - n] == rhs[|rhs| - 1 - n]
        invariant 0 <= n <= |s| && n <= |rhs|
        invariant s[|s| - n..] == rhs[|rhs| - n..]
      {
        n := n + 1;
      }
      r := n == |rhs|;
    } else {
      while n < |s| && s[|s| - 1 - n] in rhs
        invariant 0 <= n <= |s|
        invariant forall x :: x in s[|s| - n..] ==> x in rhs
      {
        n := n + 1;
      }
      r := n == |rhs|;
      Pigeonhole(s[|s| - n..], rhs);
      if n < |rhs| <= |s| {
        assert s[|s| - 1 - n] in s[|s| - |rhs|..];
      }
    }
  }

  // ---------------------------------------------------------------- combos

  datatype Combo = Combo(inputs: seq<InputDef>, sequential: bool)

  ghost predicate Intersects(a: Combo, b: Combo) {
    if !a.sequential || !b.sequential then
      |a.inputs| == |b.inputs| && EndsWith(a.inputs, b.inputs, false)
    else a == b
  }

  lemma IntersectsIsSymmetric(a: Combo, b: Combo)
    ensures Intersects(a, b) == Intersects(b, a)
  {
    if |a.inputs| == |b.inputs| {
      assert a.inputs[0..] == a.inputs && b.inputs[0..] == b.inputs;
    }
  }

  lemma SameInputsIntersect(a: Combo, b: Combo)
    requires a.inputs == b.inputs
    ensures Intersects(a, b)
  {
    assert a.inputs[0..] == a.inputs;
  }

  method CheckIntersects(a: Combo, b: Combo) returns (r: bool)
    requires Distinct(a.inputs) && Distinct(b.inputs)
    ensures r <==> Intersects(a, b)
  {
    if !a.sequential || !b.sequential {
      var e := CheckEndsWith(a.inputs, b.inputs, false);
      r := |a.inputs| == |b.inputs| && e;
    } else {
      r := a == b;
    }
  }

  // ---------------------------------------------------------------- the two maps of a port

  /** The combo map is ordered by inputs alone, so `sequential` belongs to the entry, not to the key. */
  datatype Binding = Binding(sequential: bool, key: Key)

  datatype PortMap = PortMap(
    fwd: map<seq<InputDef>, Binding>,
    rev: map<Key, seq<Combo>>)       // a multimap: the combos of a key, oldest first

  const EMPTY_MAP: PortMap := PortMap(map[], map[])

  function ComboAt(m: PortMap, k: seq<InputDef>): Combo
    requires k in m.fwd
  {
    Combo(k, m.fwd[k].sequential)
  }

  ghost predicate Inverses(m: PortMap) {
    && (forall k :: k in m.fwd ==> HasReverse(m, k))
    && (forall id :: id in m.rev ==> HasForward(m, id))
  }

  ghost predicate HasReverse(m: PortMap, k: seq<InputDef>)
    requires k in m.fwd
  {
    var id := m.fwd[k].key;
    id in m.rev && m.rev[id] == [ComboAt(m, k)]
  }

  ghost predicate HasForward(m: PortMap, id: Key)
    requires id in m.rev
  {
    |m.rev[id]| == 1 && m.rev[id][0].inputs in m.fwd && m.fwd[m.rev[id][0].inputs].key == id
  }

  ghost predicate NoIntersections(m: PortMap) {
    forall k, l :: k in m.fwd && l in m.fwd && k != l ==> !Intersects(ComboAt(m, k), ComboAt(m, l))
  }

  /** The forward and reverse maps are inverse, every key has one combo, no two combos intersect. */
  ghost predicate Consistent(m: PortMap) {
    && (forall k :: k in m.fwd ==> k != [] && IsInputSet(k))
    && Inverses(m)
    && NoIntersections(m)
  }

  /** The only combo of a bound key. */
  function ComboOf(m: PortMap, id: Key): Combo
    requires id in m.rev && m.rev[id] != []
  {
    m.rev[id][0]
  }

  /** `equal_range` of the multimap. */
  function RangeOf(m: PortMap, id: Key): seq<Combo> {
    if id in m.rev then m.rev[id] else []
  }

  // ---------------------------------------------------------------- clear_button and set_button

  ghost function Cleared(m: PortMap, id: Key): PortMap {
    if id in m.rev then PortMap(m.fwd - (set c | c in m.rev[id] :: c.inputs), m.rev - {id}) else m
  }

  /** Drops every combo that intersects `combo`, with all reverse entries of its key. */
  ghost function WithoutIntersecting(m: PortMap, combo: Combo): PortMap {
    Minus(m, HitSet(m, combo, {}))
  }

  /** The combos outside `todo` that intersect `combo`. */
  ghost function HitSet(m: PortMap, combo: Combo, todo: set<seq<InputDef>>): (hits: set<seq<InputDef>>)
    ensures hits <= m.fwd.Keys
  {
    set k | k in m.fwd && k !in todo && Intersects(combo, ComboAt(m, k))
  }

  lemma HitSetStep(m: PortMap, combo: Combo, todo: set<seq<InputDef>>, k: seq<InputDef>)
    requires k in todo && k in m.fwd
    ensures HitSet(m, combo, todo - {k}) ==
      HitSet(m, combo, todo) + (if Intersects(combo, ComboAt(m, k)) then {k} else {})
  {
  }

  ghost function Minus(m: PortMap, gone: set<seq<InputDef>>): PortMap
    requires gone <= m.fwd.Keys
  {
    PortMap(m.fwd - gone, m.rev - (set k | k in gone :: m.fwd[k].key))
  }

  lemma MinusOneMore(m: PortMap, gone: set<seq<InputDef>>, k: seq<InputDef>)
    requires gone <= m.fwd.Keys && k in m.fwd
    ensures Minus(m, gone + {k}) == PortMap(Minus(m, gone).fwd - {k}, Minus(m, gone).rev - {m.fwd[k].key})
  {
    var a, b := set l | l in gone + {k} :: m.fwd[l].key, set l | l in gone :: m.fwd[l].key;
    assert a == b + {m.fwd[k].key};
  }

  lemma EraseStep(m: PortMap, combo: Combo, todo: set<seq<InputDef>>, k: seq<InputDef>)
    requires k in todo && k in m.fwd
    ensures var r, r' := Minus(m, HitSet(m, combo, todo)), Minus(m, HitSet(m, combo, todo - {k}));
      r' == if Intersects(combo, ComboAt(m, k)) then PortMap(r.fwd - {k}, r.rev - {m.fwd[k].key}) else r
  {
    HitSetStep(m, combo, todo, k);
    MinusOneMore(m, HitSet(m, combo, todo), k);
    assert HitSet(m, combo, todo) + {} == HitSet(m, combo, todo);
  }

  ghost function Bound(m: PortMap, id: Key, combo: Combo): PortMap {
    var m := WithoutIntersecting(Cleared(m, id), combo);
    PortMap(
      m.fwd[combo.inputs := Binding(combo.sequential, id)],
      m.rev[id := RangeOf(m, id) + [combo]])
  }

  /** Clearing a key takes its combo away and nothing else. */
  lemma ClearedOthers(m: PortMap, id: Key, key: Key)
    requires Consistent(m)
    ensures key in Cleared(m, id).rev <==> key in m.rev && key != id
    ensures key in m.rev && key != id ==>
      && Cleared(m, id).rev[key] == m.rev[key] && m.rev[key] != []
      && ComboOf(m, key).inputs in Cleared(m, id).fwd && Cleared(m, id).fwd[ComboOf(m, key).inputs].key == key
    ensures id in m.rev ==> m.rev[id] != [] && ComboOf(m, id).inputs !in Cleared(m, id).fwd
  {
    if id in m.rev {
      assert HasForward(m, id);
      assert (set c | c in m.rev[id] :: c.inputs) == {ComboOf(m, id).inputs};
    }
    if key in m.rev {
      assert HasForward(m, key);
    }
  }

  lemma ClearedConsistent(m: PortMap, id: Key)
    requires Consistent(m)
    ensures Consistent(Cleared(m, id))
    ensures id !in Cleared(m, id).rev
  {
    if id in m.rev {
      assert HasForward(m, id);
      var k0 := ComboOf(m, id).inputs;
      assert (set c | c in m.rev[id] :: c.inputs) == {k0};
      RemovePair(m, {k0}, {id});
    }
  }

  /** Removing combos together with exactly their keys keeps the maps consistent. */
  lemma RemovePair(m: PortMap, gone: set<seq<InputDef>>, ids: set<Key>)
    requires Consistent(m)
    requires forall k :: k in m.fwd ==> (k in gone <==> m.fwd[k].key in ids)
    ensures Consistent(PortMap(m.fwd - gone, m.rev - ids))
  {
    var t := PortMap(m.fwd - gone, m.rev - ids);
    forall k | k in t.fwd
      ensures HasReverse(t, k)
    {
      assert HasReverse(m, k);
    }
    forall id | id in t.rev
      ensures HasForward(t, id)
    {
      assert HasForward(m, id);
    }
    forall k, l | k in t.fwd && l in t.fwd && k != l
      ensures !Intersects(ComboAt(t, k), ComboAt(t, l))
    {
      assert !Intersects(ComboAt(m, k), ComboAt(m, l));
    }
  }

  lemma WithoutIntersectingConsistent(m: PortMap, combo: Combo)
    requires Consistent(m)
    ensures Consistent(WithoutIntersecting(m, combo))
    ensures WithoutIntersecting(m, combo).rev.Keys <= m.rev.Keys
    ensures forall k :: k in WithoutIntersecting(m, combo).fwd ==>
      !Intersects(combo, ComboAt(WithoutIntersecting(m, combo), k))
  {
    var gone := HitSet(m, combo, {});
    var ids := set k | k in gone :: m.fwd[k].key;
    forall k | k in m.fwd && m.fwd[k].key in ids
      ensures k in gone
    {
      var l :| l in gone && m.fwd[l].key == m.fwd[k].key;
      assert HasReverse(m, k) && HasReverse(m, l);
    }
    RemovePair(m, gone, ids);
  }

  lemma BoundConsistent(m: PortMap, id: Key, combo: Combo)
    requires Consistent(m) && combo.inputs != [] && IsInputSet(combo.inputs)
    ensures Consistent(Bound(m, id, combo))
    ensures id in Bound(m, id, combo).rev && ComboOf(Bound(m, id, combo), id) == combo
  {
    ClearedConsistent(m, id);
    WithoutIntersectingConsistent(Cleared(m, id), combo);
    var t := WithoutIntersecting(Cleared(m, id), combo);
    assert combo.inputs !in t.fwd by {
      if combo.inputs in t.fwd {
        SameInputsIntersect(combo, ComboAt(t, combo.inputs));
      }
    }
    AddConsistent(t, id, combo);
    assert [] + [combo] == [combo];
    assert Bound(m, id, combo) == Added(t, id, combo);
  }

  ghost function Added(t: PortMap, id: Key, combo: Combo): PortMap {
    PortMap(t.fwd[combo.inputs := Binding(combo.sequential, id)], t.rev[id := [combo]])
  }

  /** Another key keeps its combo exactly when that combo does not intersect the new one. */
  lemma OthersKeepTheirCombo(m: PortMap, id: Key, combo: Combo, other: Key)
    requires Consistent(m) && combo.inputs != [] && IsInputSet(combo.inputs)
    requires other in m.rev && other != id
    ensures m.rev[other] != []
    ensures other in Bound(m, id, combo).rev <==> !Intersects(combo, ComboOf(m, other))
    ensures other in Bound(m, id, combo).rev ==> Bound(m, id, combo).rev[other] == m.rev[other]
  {
    ClearedConsistent(m, id);
    var c := Cleared(m, id);
    assert HasForward(m, other);
    var k := ComboOf(m, other).inputs;
    assert HasReverse(m, k);
    assert other in c.rev && HasForward(c, other);
    WithoutIntersectingConsistent(c, combo);
    var t := WithoutIntersecting(c, combo);
    if Intersects(combo, ComboOf(m, other)) {
      assert k in HitSet(c, combo, {});
      assert c.fwd[k].key == other;
    } else {
      forall l | l in HitSet(c, combo, {})
        ensures c.fwd[l].key != other
      {
        assert HasReverse(c, l) && HasReverse(c, k);
      }
    }
  }

  lemma AddConsistent(t: PortMap, id: Key, combo: Combo)
    requires Consistent(t) && combo.inputs != [] && IsInputSet(combo.inputs)
    requires id !in t.rev && combo.inputs !in t.fwd
    requires forall k :: k in t.fwd ==> !Intersects(combo, ComboAt(t, k))
    ensures Consistent(Added(t, id, combo))
  {
    var m := Added(t, id, combo);
    forall k | k in m.fwd
      ensures HasReverse(m, k)
    {
      if k != combo.inputs {
        assert HasReverse(t, k);
      }
    }
    forall i | i in m.rev
      ensures HasForward(m, i)
    {
      if i != id {
        assert HasForward(t, i);
      }
    }
    forall k, l | k in m.fwd && l in m.fwd && k != l
      ensures !Intersects(ComboAt(m, k), ComboAt(m, l))
    {
      if k == combo.inputs {
        assert ComboAt(m, l) == ComboAt(t, l);
      } else if l == combo.inputs {
        assert ComboAt(m, k) == ComboAt(t, k);
        IntersectsIsSymmetric(ComboAt(m, k), combo);
      } else {
        assert ComboAt(m, k) == ComboAt(t, k) && ComboAt(m, l) == ComboAt(t, l);
      }
    }
  }

  // ---------------------------------------------------------------- every sequence of edits

  datatype Edit = Set(id: Key, combo: Combo) | Clear(id: Key)

  ghost predicate ValidEdit(e: Edit) {
    e.Set? ==> IsInputSet(e.combo.inputs)
  }

  /** An edit with an empty combo is refused and changes nothing. */
  ghost function Apply(m: PortMap, e: Edit): PortMap {
    match e
    case Set(id, combo) => if combo.inputs == [] then m else Bound(m, id, combo)
    case Clear(id) => Cleared(m, id)
  }

  ghost function ApplyAll(m: PortMap, edits: seq<Edit>): PortMap
    decreases |edits|
  {
    if edits == [] then m else ApplyAll(Apply(m, edits[0]), edits[1..])
  }

  /** After any edits, starting from an empty mapping, the maps are exact inverses without intersections. */
  lemma {:induction false} EditsKeepConsistency(m: PortMap, edits: seq<Edit>)
    requires Consistent(m)
    requires forall i :: 0 <= i < |edits| ==> ValidEdit(edits[i])
    ensures Consistent(ApplyAll(m, edits))
    decreases |edits|
  {
    if edits == [] {
    } else {
      match edits[0] {
        case Set(id, combo) => if combo.inputs != [] { BoundConsistent(m, id, combo); }
        case Clear(id) => ClearedConsistent(m, id);
      }
      EditsKeepConsistency(Apply(m, edits[0]), edits[1..]);
    }
  }

  // ---------------------------------------------------------------- lookup

  ghost predicate Matches(m: PortMap, inputs: seq<InputDef>, k: seq<InputDef>) {
    k in m.fwd && m.fwd[k].key != EMU_BTN_NONE && EndsWith(inputs, k, m.fwd[k].sequential)
  }

  ghost predicate IsLongest(m: PortMap, inputs: seq<InputDef>, k: seq<InputDef>) {
    Matches(m, inputs, k) && forall l :: Matches(m, inputs, l) ==> |l| <= |k|
  }

  /** Two combos that match the same inputs with the same length would intersect. */
  lemma EqualLengthMatchesCoincide(m: PortMap, inputs: seq<InputDef>, k: seq<InputDef>, l: seq<InputDef>)
    requires Consistent(m)
    requires Matches(m, inputs, k) && Matches(m, inputs, l) && |k| == |l|
    ensures k == l
  {
    var tail := inputs[|inputs| - |k|..];
    if k != l {
      assert !Intersects(ComboAt(m, k), ComboAt(m, l));
      assert k[0..] == k;
      assert SameMembers(tail, k) && SameMembers(tail, l);
    }
  }

  lemma LongestIsUnique(m: PortMap, inputs: seq<InputDef>, k: seq<InputDef>, l: seq<InputDef>)
    requires Consistent(m) && IsLongest(m, inputs, k) && IsLongest(m, inputs, l)
    ensures k == l
  {
    EqualLengthMatchesCoincide(m, inputs, k, l);
  }

  /** The key of the longest matching combo. */
  ghost function ButtonId(m: PortMap, inputs: seq<InputDef>): Key {
    if k :| IsLongest(m, inputs, k) then m.fwd[k].key else EMU_BTN_NONE
  }

  /** The combos of the active keys that contain the released input, one key per combo. */
  function ReleasedIds(m: PortMap, active: seq<Key>, x: InputDef): seq<Key> {
    if active == [] then []
    else HitsOf(active[0], RangeOf(m, active[0]), x) + ReleasedIds(m, active[1..], x)
  }

  lemma ReleasedIdsStep(m: PortMap, active: seq<Key>, i: nat, x: InputDef, keys: seq<Key>)
    requires i < |active|
    ensures var hits := HitsOf(active[i], RangeOf(m, active[i]), x);
      keys + ReleasedIds(m, active[i..], x) == (keys + hits) + ReleasedIds(m, active[i + 1..], x)
  {
    assert active[i..][1..] == active[i + 1..];
  }

  function HitsOf(id: Key, combos: seq<Combo>, x: InputDef): seq<Key> {
    if combos == [] then []
    else (if x in combos[0].inputs then [id] else []) + HitsOf(id, combos[1..], x)
  }

  /** What `get_button_id` answers is the key of the only longest suffix match. */
  lemma ButtonIdIsLongest(m: PortMap, inputs: seq<InputDef>, k: seq<InputDef>)
    requires Consistent(m) && IsLongest(m, inputs, k)
    ensures ButtonId(m, inputs) == m.fwd[k].key
  {
    var l :| IsLongest(m, inputs, l) && ButtonId(m, inputs) == m.fwd[l].key;
    LongestIsUnique(m, inputs, k, l);
  }

  lemma NoMatchNoButton(m: PortMap, inputs: seq<InputDef>)
    requires forall k :: !Matches(m, inputs, k)
    ensures ButtonId(m, inputs) == EMU_BTN_NONE
  {
  }

  // ---------------------------------------------------------------- the mapping object

  class Mapping {
    var ports: seq<PortMap>
    var dirty: bool

    ghost predicate Valid()
      reads this
    {
      |ports| == NUM_PORTS && forall p :: 0 <= p < NUM_PORTS ==> Consistent(ports[p])
    }

    constructor ()
      ensures Valid() && ports == seq(NUM_PORTS, _ => EMPTY_MAP) && !dirty
    {
      ports := seq(NUM_PORTS, _ => EMPTY_MAP);
      dirty := false;
    }

    method ClearButton(port: nat, id: Key)
      requires Valid()
      modifies this
      ensures Valid()
      ensures port >= NUM_PORTS ==> ports == old(ports)
      ensures port < NUM_PORTS ==> ports == old(ports)[port := Cleared(old(ports)[port], id)]
      ensures dirty <==>
        old(dirty) || (port < NUM_PORTS && id in old(ports)[port].rev && old(ports)[port].rev[id] != [])
    {
      if port >= NUM_PORTS {
        return;
      }
      ClearedConsistent(ports[port], id);
      var m := ports[port];
      if id in m.rev {
        var fwd := EraseCombos(m.fwd, m.rev[id]);
        dirty := dirty || m.rev[id] != [];
        m := PortMap(fwd, m.rev - {id});
      }
      ports := ports[port := m];
    }

    method EraseCombos(fwd: map<seq<InputDef>, Binding>, combos: seq<Combo>) returns (r: map<seq<InputDef>, Binding>)
      ensures r == fwd - (set c | c in combos :: c.inputs)
    {
      r := fwd;
      for i := 0 to |combos|
        invariant r == fwd - (set c | c in combos[..i] :: c.inputs)
      {
        assert combos[..i + 1] == combos[..i] + [combos[i]];
        r := r - {combos[i].inputs};
      }
      assert combos[..|combos|] == combos;
    }

    method EraseIfHit(m: PortMap, combo: Combo, k: seq<InputDef>, r: PortMap) returns (r': PortMap)
      requires k in m.fwd && Distinct(k) && Distinct(combo.inputs)
      ensures r' == if Intersects(combo, ComboAt(m, k)) then PortMap(r.fwd - {k}, r.rev - {m.fwd[k].key}) else r
    {
      var hit := CheckIntersects(combo, ComboAt(m, k));
      r' := if hit then PortMap(r.fwd - {k}, r.rev - {m.fwd[k].key}) else r;
    }

    /** Erases the intersecting combos in whatever order the map is walked. */
    method EraseIntersecting(m: PortMap, combo: Combo) returns (r: PortMap)
      requires Distinct(combo.inputs) && forall k :: k in m.fwd ==> Distinct(k)
      ensures r == WithoutIntersecting(m, combo)
    {
      var todo := m.fwd.Keys;
      assert HitSet(m, combo, todo) == {};
      r := m;
      assert Minus(m, {}) == m;
      while todo != {}
        invariant todo <= m.fwd.Keys
        invariant r == Minus(m, HitSet(m, combo, todo))
        decreases |todo|
      {
        var k :| k in todo;
        EraseStep(m, combo, todo, k);
        r := EraseIfHit(m, combo, k, r);
        todo := todo - {k};
      }
    }

    method SetButton(port: nat, id: Key, combo: Combo) returns (ok: bool)
      requires Valid() && IsInputSet(combo.inputs)
      modifies this
      ensures Valid()
      ensures ok <==> port < NUM_PORTS && combo.inputs != []
      ensures ports == if ok then old(ports)[port := Bound(old(ports)[port], id, combo)] else old(ports)
      ensures dirty <==> old(dirty) || ok
    {
      if port >= NUM_PORTS || |combo.inputs| <= 0 {
        return false;
      }
      BoundConsistent(ports[port], id, combo);
      ClearButton(port, id);
      var m := EraseIntersecting(ports[port], combo);
      m := PortMap(m.fwd[combo.inputs := Binding(combo.sequential, id)], m.rev[id := RangeOf(m, id) + [combo]]);
      ports := ports[port := m];
      dirty := true;
      return true;
    }

    /** Walks the combos in any order; the answer does not depend on it. */
    method GetButtonId(port: nat, inputs: seq<InputDef>) returns (key: Key)
      requires Valid() && Distinct(inputs)
      ensures port >= NUM_PORTS || inputs == [] ==> key == EMU_BTN_NONE
      ensures port < NUM_PORTS && inputs != [] ==> key == ButtonId(ports[port], inputs)
    {
      if port >= NUM_PORTS || inputs == [] {
        return EMU_BTN_NONE;
      }
      var m := ports[port];
      var todo := m.fwd.Keys;
      ghost var best := [];
      var size := 0;
      key := EMU_BTN_NONE;
      while todo != {}
        invariant todo <= m.fwd.Keys
        invariant size == |best|
        invariant size == 0 ==> key == EMU_BTN_NONE
        invariant size > 0 ==> Matches(m, inputs, best) && key == m.fwd[best].key
        invariant forall k :: Matches(m, inputs, k) && k !in todo ==> |k| <= size
        decreases |todo|
      {
        var k :| k in todo;
        if m.fwd[k].key != EMU_BTN_NONE {
          var match_ := CheckEndsWith(inputs, k, m.fwd[k].sequential);
          if match_ && |k| > size {
            size, key, best := |k|, m.fwd[k].key, k;
          }
        }
        todo := todo - {k};
      }
      if size > 0 {
        ButtonIdIsLongest(m, inputs, best);
      } else {
        assert forall k :: Matches(m, inputs, k) ==> k != [];
        NoMatchNoButton(m, inputs);
      }
    }

    method Hits(id: Key, combos: seq<Combo>, x: InputDef) returns (keys: seq<Key>)
      ensures keys == HitsOf(id, combos, x)
    {
      keys := [];
      for j := 0 to |combos|
        invariant keys + HitsOf(id, combos[j..], x) == HitsOf(id, combos, x)
      {
        if x in combos[j].inputs {
          keys := keys + [id];
        }
        assert combos[j..][1..] == combos[j + 1..];
      }
    }

    method GetButtonReleasedIds(port: nat, active: seq<Key>, x: InputDef) returns (keys: seq<Key>)
      requires Valid()
      ensures port >= NUM_PORTS ==> keys == []
      ensures port < NUM_PORTS ==> keys == ReleasedIds(ports[port], active, x)
    {
      keys := [];
      if port >= NUM_PORTS || active == [] {
        return;
      }
      var m := ports[port];
      for i := 0 to |active|
        invariant keys + ReleasedIds(m, active[i..], x) == ReleasedIds(m, active, x)
      {
        var hits := Hits(active[i], RangeOf(m, active[i]), x);
        ReleasedIdsStep(m, active, i, x, keys);
        keys := keys + hits;
      }
    }
  }
}
