/** Lists of paths in one configuration string: items separated by `;`, quoted when they have to be. */
module PathList {
  import opened Bytes
  import Ini

  // ---------------------------------------------------------------- writing

  predicate NeedsQuotes(v: string) {
    ';' in v || (v != [] && v[0] == '"')
  }

  function Doubled(v: string): string {
    if v == [] then [] else (if v[0] == '"' then "\"\"" else [v[0]]) + Doubled(v[1..])
  }

  function Item(v: string): string {
    if NeedsQuotes(v) then "\"" + Doubled(v) + "\"" else v
  }

  /** Each item follows a separator, unless nothing has been written yet. */
  function Encode(list: seq<string>): string {
    if list == [] then []
    else
      var s := Encode(list[..|list| - 1]);
      s + (if s == [] then "" else ";") + Item(list[|list| - 1])
  }

  /** What is doubled up to and including the first quote. */
  lemma {:induction false} DoubledStep(v: string, pos: nat)
    requires pos <= |v|
    requires forall i :: 0 <= i < pos ==> v[i] != '"'
    requires pos < |v| ==> v[pos] == '"'
    ensures Doubled(v) == if pos < |v| then v[..pos + 1] + "\"" + Doubled(v[pos + 1..]) else v
  {
    if pos == 0 {
      if v != [] {
        assert v[..1] == "\"";
      }
    } else {
      assert Doubled(v) == [v[0]] + Doubled(v[1..]);
      hide Doubled;
      DoubledStep(v[1..], pos - 1);
      if pos < |v| {
        var rest := Doubled(v[pos + 1..]);
        assert v[1..][pos..] == v[pos + 1..];
        Regroup(v, pos, rest);
      } else {
        assert [v[0]] + v[1..] == v;
      }
    }
  }

  lemma Regroup(v: string, pos: nat, rest: string)
    requires 0 < pos < |v|
    ensures [v[0]] + (v[1..][..pos] + "\"" + rest) == v[..pos + 1] + "\"" + rest
  {
    assert [v[0]] + v[1..][..pos] == v[..pos + 1];
  }

  /** The loop that copies up to each quote and writes it twice. */
  method Quote(v: string) returns (s: string)
    ensures s == "\"" + Doubled(v) + "\""
  {
    hide Doubled;
    s := "\"";
    var v2 := v;
    while true
      invariant s + Doubled(v2) == "\"" + Doubled(v)
      decreases |v2|
    {
      var pos := Ini.Find(v2, '"', 0);
      Ini.FindFound(v2, '"', 0);
      DoubledStep(v2, pos);
      if pos < |v2| {
        assert s + (v2[..pos + 1] + "\"" + Doubled(v2[pos + 1..]))
            == s + (v2[..pos + 1] + "\"") + Doubled(v2[pos + 1..]);
        s := s + (v2[..pos + 1] + "\"");
        v2 := v2[pos + 1..];
      } else {
        s := s + v2;
        break;
      }
    }
    s := s + "\"";
  }

  method SavePaths(value: seq<string>) returns (s: string)
    ensures s == Encode(value)
  {
    s := "";
    for k := 0 to |value|
      invariant s == Encode(value[..k])
    {
      assert value[..k + 1][..k] == value[..k];
      var v := value[k];
      if s != "" {
        s := s + ";";
      }
      if NeedsQuotes(v) {
        var q := Quote(v);
        s := s + q;
      } else {
        s := s + v;
      }
    }
    assert value[..|value|] == value;
  }

  // ---------------------------------------------------------------- reading

  /** Reading past the end of the text is undefined; an unclosed quote leads there. */
  datatype Decoded = Undefined | Paths(list: seq<string>)

  function Prepend(items: seq<string>, d: Decoded): Decoded {
    if d.Undefined? then d else Paths(items + d.list)
  }

  function Items(t: string): Decoded
    decreases |t|
  {
    if t != [] && t[0] == '"' then InQuotes(t[1..], "")
    else
      var end := Ini.Find(t, ';', 0);
      var head := if end == 0 then [] else [t[..Min(end, |t|)]];
      if end >= |t| then Paths(head) else Prepend(head, Items(t[end + 1..]))
  }

  /** Inside quotes: `v` has been read, `t` is left. */
  function InQuotes(t: string, v: string): Decoded
    decreases |t|
  {
    if t == [] then Undefined
    else if t[0] != '"' then InQuotes(t[1..], v + [t[0]])
    else if |t| == 1 then Paths([v])
    else if t[1] == '"' then InQuotes(t[2..], v + "\"")
    else if t[1] == ';' then Prepend([v], Items(t[2..]))
    else InQuotes(t[1..], v + "\"")
  }

  /** `doLoad`: an empty text leaves the current value. */
  function Decode(text: string, current: seq<string>): Decoded {
    if text == [] then Paths(current) else Items(text)
  }

  /** How the loop inside quotes ends: off the end of the text, at its last quote, or at a separator. */
  datatype Closing = OffEnd | AtEnd | AtSeparator

  method ReadQuoted(paths: string, from: nat) returns (v: string, start: nat, closing: Closing)
    requires from <= |paths|
    ensures from <= start <= |paths|
    ensures InQuotes(paths[from..], "") ==
      match closing
      case OffEnd => Undefined
      case AtEnd => Paths([v])
      case AtSeparator => Prepend([v], Items(paths[start..]))
    ensures closing.AtSeparator? ==> from < start
  {
    hide Items, Prepend;
    start := from;
    v := "";
    while true
      invariant from <= start <= |paths|
      invariant InQuotes(paths[start..], v) == InQuotes(paths[from..], "")
      decreases |paths| - start
    {
      if start == |paths| {
        return v, start, OffEnd;
      }
      var t := paths[start..];
      assert t[1..] == paths[start + 1..];
      if paths[start] == '"' {
        if start + 1 >= |paths| {
          return v, start, AtEnd;
        }
        assert t[2..] == paths[start + 2..];
        if paths[start + 1] == '"' {
          v := v + "\"";
          start := start + 2;
        } else if paths[start + 1] == ';' {
          return v, start + 2, AtSeparator;
        } else {
          v := v + "\"";
          start := start + 1;
        }
      } else {
        v := v + [paths[start]];
        start := start + 1;
      }
    }
  }

  method LoadPaths(paths: string, current: seq<string>) returns (r: Decoded)
    ensures r == Decode(paths, current)
  {
    hide InQuotes, Ini.Find;
    if paths == [] {
      return Paths(current);
    }
    var start := 0;
    var newValue := [];
    assert paths[0..] == paths;
    while true
      invariant start <= |paths|
      invariant Prepend(newValue, Items(paths[start..])) == Items(paths)
      decreases |paths| - start
    {
      var t := paths[start..];
      if start < |paths| && paths[start] == '"' {
        assert t[1..] == paths[start + 1..];
        var v, next, closing := ReadQuoted(paths, start + 1);
        match closing {
          case OffEnd =>
            return Undefined;
          case AtEnd =>
            newValue := newValue + [v];
            return Paths(newValue);
          case AtSeparator =>
            PrependTwice(newValue, [v], Items(paths[next..]));
            newValue := newValue + [v];
            start := next;
        }
      } else {
        var end := Ini.Find(paths, ';', start);
        FindInSuffix(paths, ';', start);
        Ini.FindFound(paths, ';', start);
        assert t[..end - start] == paths[start..end];
        var head := if start != end then [paths[start..end]] else [];
        newValue := newValue + head;
        if end == |paths| {
          return Paths(newValue);
        }
        assert t[end - start + 1..] == paths[end + 1..];
        PrependTwice(newValue[..|newValue| - |head|], head, Items(paths[end + 1..]));
        assert newValue[..|newValue| - |head|] + head == newValue;
        start := end + 1;
      }
    }
  }

  lemma PrependTwice(a: seq<string>, b: seq<string>, d: Decoded)
    ensures Prepend(a, Prepend(b, d)) == Prepend(a + b, d)
  {
    if d.Paths? {
      assert a + (b + d.list) == a + b + d.list;
    }
  }

  lemma {:induction false} FindInSuffix(s: string, c: char, pos: nat)
    requires pos <= |s|
    ensures Ini.Find(s, c, pos) == pos + Ini.Find(s[pos..], c, 0)
  {
    Ini.FindFound(s, c, pos);
    Ini.FindIs(s[pos..], c, 0, Ini.Find(s, c, pos) - pos);
  }

  // ---------------------------------------------------------------- the round trip

  /** Where an item ends. */
  predicate Ends(rest: string) {
    rest == [] || rest[0] == ';'
  }

  lemma {:induction false} InQuotesDoubled(e: string, v: string, rest: string)
    requires Ends(rest)
    ensures InQuotes(Doubled(e) + "\"" + rest, v)
         == if rest == [] then Paths([v + e]) else Prepend([v + e], Items(rest[1..]))
    decreases |e|
  {
    var t := Doubled(e) + "\"" + rest;
    if e == [] {
      assert v + e == v;
      assert rest != [] ==> t[2..] == rest[1..];
    } else {
      InQuotesDoubled(e[1..], v + [e[0]], rest);
      assert v + [e[0]] + e[1..] == v + e;
      if e[0] == '"' {
        assert t[2..] == Doubled(e[1..]) + "\"" + rest;
      } else {
        assert t[1..] == Doubled(e[1..]) + "\"" + rest;
      }
    }
  }

  lemma QuotedItemIsRead(e: string, rest: string)
    requires Ends(rest) && NeedsQuotes(e)
    ensures Items(Item(e) + rest) == if rest == [] then Paths([e]) else Prepend([e], Items(rest[1..]))
  {
    hide InQuotes, Doubled, Prepend;
    var t := Item(e) + rest;
    assert t[0] == '"';
    assert t[1..] == Doubled(e) + "\"" + rest;
    InQuotesDoubled(e, "", rest);
    assert "" + e == e;
  }

  lemma PlainItemIsRead(e: string, rest: string)
    requires Ends(rest) && !NeedsQuotes(e)
    ensures Items(e + rest)
         == var head := if e == [] then [] else [e];
            if rest == [] then Paths(head) else Prepend(head, Items(rest[1..]))
  {
    hide InQuotes, Ini.Find, Prepend;
    var t := e + rest;
    Ini.FindIs(t, ';', 0, |e|);
    assert t[..|e|] == e;
    assert rest != [] ==> t[|e| + 1..] == rest[1..];
  }

  lemma ItemIsRead(e: string, rest: string)
    requires Ends(rest)
    ensures Items(Item(e) + rest)
         == Prepend(if e == [] then [] else [e], if rest == [] then Paths([]) else Items(rest[1..]))
  {
    hide Items, Doubled;
    if NeedsQuotes(e) {
      QuotedItemIsRead(e, rest);
    } else {
      PlainItemIsRead(e, rest);
    }
  }

  function Tail(list: seq<string>): string {
    if list == [] then [] else ";" + Item(list[0]) + Tail(list[1..])
  }

  function NonEmpty(list: seq<string>): seq<string> {
    if list == [] then []
    else (if list[0] == [] then [] else [list[0]]) + NonEmpty(list[1..])
  }

  lemma {:induction false} TailSnoc(list: seq<string>, v: string)
    ensures Tail(list + [v]) == Tail(list) + ";" + Item(v)
  {
    if list == [] {
      assert (list + [v])[1..] == [];
    } else {
      assert (list + [v])[1..] == list[1..] + [v];
      TailSnoc(list[1..], v);
    }
  }

  /** The same text, written from the front: leading empty items leave no trace. */
  lemma {:induction false} EncodeFromFront(list: seq<string>)
    ensures Encode(list) == FromFront(list)
    decreases |list|
  {
    hide Item, FromFront, Tail;
    if list == [] {
      FromFrontOfOne("");
    } else {
      var n := |list| - 1;
      EncodeFromFront(list[..n]);
      assert list == list[..n] + [list[n]];
      if n == 0 {
        assert list == [list[0]] && list[..n] == [];
        FromFrontOfOne(list[0]);
      } else {
        FromFrontSnoc(list[..n], list[n]);
      }
    }
  }

  function FromFront(list: seq<string>): string {
    if list == [] then [] else if list[0] == [] then FromFront(list[1..]) else Item(list[0]) + Tail(list[1..])
  }

  lemma FromFrontOfOne(v: string)
    ensures FromFront([]) == [] && FromFront([v]) == Item(v)
  {
    assert [v][1..] == [];
  }

  lemma {:induction false} FromFrontSnoc(list: seq<string>, v: string)
    ensures FromFront(list + [v]) == FromFront(list) + (if FromFront(list) == [] then "" else ";") + Item(v)
    decreases |list|
  {
    hide Doubled;
    if list == [] {
      assert list + [v] == [v];
      FromFrontOfOne(v);
    } else {
      assert (list + [v])[1..] == list[1..] + [v];
      if list[0] == [] {
        FromFrontSnoc(list[1..], v);
      } else {
        TailSnoc(list[1..], v);
        assert Item(list[0]) != [];
      }
    }
  }

  lemma {:induction false} ItemsOfTail(v: string, list: seq<string>)
    ensures Items(Item(v) + Tail(list)) == Paths(NonEmpty([v] + list))
    decreases |list|
  {
    hide Items, Item;
    ItemIsRead(v, Tail(list));
    assert ([v] + list)[1..] == list;
    if list == [] {
    } else {
      ItemsOfTail(list[0], list[1..]);
      assert Tail(list)[1..] == Item(list[0]) + Tail(list[1..]);
      assert [list[0]] + list[1..] == list;
    }
  }

  /** Whatever the list, reading what was written gives its non-empty items, or the current value if there are none. */
  lemma {:induction false} DecodeOfEncode(list: seq<string>, current: seq<string>)
    ensures Encode(list) == [] <==> NonEmpty(list) == []
    ensures Decode(Encode(list), current) == Paths(if NonEmpty(list) == [] then current else NonEmpty(list))
    decreases |list|
  {
    hide Encode, Items, Tail, Doubled;
    EncodeFromFront(list);
    if list == [] {
    } else {
      if list[0] == [] {
        EncodeFromFront(list[1..]);
        DecodeOfEncode(list[1..], current);
      } else {
        ItemsOfTail(list[0], list[1..]);
        assert [list[0]] + list[1..] == list;
      }
    }
  }

  lemma {:induction false} NonEmptyKeepsAll(list: seq<string>)
    ensures |NonEmpty(list)| <= |list|
    ensures NonEmpty(list) == list <==> "" !in list
  {
    if list == [] {
    } else {
      NonEmptyKeepsAll(list[1..]);
      assert list == [list[0]] + list[1..];
    }
  }

  /**
   The list comes back exactly when it has no empty item, or when it has none but empty items and
   was the value already.
   */
  lemma RoundTrip(list: seq<string>, current: seq<string>)
    ensures Decode(Encode(list), current) == Paths(list)
       <==> if NonEmpty(list) == [] then list == current else "" !in list
  {
    DecodeOfEncode(list, current);
    NonEmptyKeepsAll(list);
  }

  lemma NonEmptyListsComeBack(list: seq<string>, current: seq<string>)
    requires list != [] && "" !in list
    ensures Decode(Encode(list), current) == Paths(list)
  {
    RoundTrip(list, current);
    NonEmptyKeepsAll(list);
  }
}
