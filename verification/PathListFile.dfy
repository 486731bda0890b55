/** Path lists through the INI file, which takes the outer quotes off a value that starts with one. */
module PathListFile {
  import Ini
  import IniFile
  import opened Bytes
  import opened PathList

  /** The text of a list whose first item is not empty. */
  function Text(list: seq<string>): string
    requires list != []
  {
    Item(list[0]) + Tail(list[1..])
  }

  ghost predicate NoneEmpty(list: seq<string>) {
    forall i :: 0 <= i < |list| ==> list[i] != []
  }

  ghost predicate LastQuote(s: string, q: nat) {
    q < |s| && s[q] == '"' && forall j :: q < j < |s| ==> s[j] != '"'
  }

  // ---------------------------------------------------------------- how the decoder starts

  /** Whatever follows, the first item read starts with `v`. */
  ghost predicate StartsWith(d: Decoded, v: string) {
    d.Undefined? || (d.list != [] && v <= d.list[0])
  }

  lemma {:induction false} InQuotesKeeps(t: string, v: string)
    ensures StartsWith(InQuotes(t, v), v)
    decreases |t|
  {
    hide Items;
    if t == [] {
    } else if t[0] != '"' {
      InQuotesKeeps(t[1..], v + [t[0]]);
    } else if |t| > 1 && t[1] == '"' {
      InQuotesKeeps(t[2..], v + "\"");
    } else if |t| > 1 && t[1] != ';' {
      InQuotesKeeps(t[1..], v + "\"");
    }
  }

  lemma {:induction false} InQuotesConsumes(a: string, x: string, v: string)
    ensures InQuotes(Doubled(a) + x, v) == InQuotes(x, v + a)
    decreases |a|
  {
    hide Items;
    var t := Doubled(a) + x;
    if a == [] {
      assert t == x && v + a == v;
    } else {
      InQuotesConsumes(a[1..], x, v + [a[0]]);
      assert v + [a[0]] + a[1..] == v + a;
      if a[0] == '"' {
        assert t[2..] == Doubled(a[1..]) + x;
      } else {
        assert t[1..] == Doubled(a[1..]) + x;
      }
    }
  }

  /** A quote right after the opening one gives an item that is empty or starts with a quote. */
  lemma QuoteFirst(t: string)
    ensures var d := InQuotes("\"" + t, "");
      d.Undefined? || (d.list != [] && (d.list[0] == [] || d.list[0][0] == '"'))
  {
    hide Items;
    var u := "\"" + t;
    assert u[1..] == t && "" + "\"" == "\"";
    if t != [] && t[0] == '"' {
      InQuotesKeeps(u[2..], "\"");
    } else if t != [] && t[0] != ';' {
      InQuotesKeeps(t, "\"");
    }
  }

  /** An item that is not quoted has no separator. */
  lemma PlainFirst(t: string)
    requires t != [] && t[0] != '"' && t[0] != ';'
    ensures var d := Items(t); d.Undefined? || (d.list != [] && ';' !in d.list[0])
  {
    hide InQuotes;
    Ini.FindFound(t, ';', 0);
  }

  lemma SeparatorFirst(t: string)
    requires t != [] && t[0] == ';'
    ensures Items(t) == Items(t[1..])
  {
    Ini.FindIs(t, ';', 0, 0);
    var d := Items(t[1..]);
    assert d.Paths? ==> [] + d.list == d.list;
  }

  lemma PrependDiffers(e: string, d: Decoded, list: seq<string>)
    requires list != [] && d != Paths(list[1..])
    ensures Prepend([e], d) != Paths(list)
  {
    if d.Paths? {
      assert ([e] + d.list)[1..] == d.list;
    }
  }

  lemma NextText(list: seq<string>)
    requires |list| >= 2
    ensures Tail(list[1..]) == ";" + Text(list[1..])
  {
  }

  // ---------------------------------------------------------------- a text cut at its last quote

  /** Cut there, a list loses a closing quote or the end of an item. */
  lemma {:induction false} CutLoses(list: seq<string>, q: nat)
    requires list != [] && NoneEmpty(list) && LastQuote(Text(list), q)
    ensures Items(Text(list)[..q]) != Paths(list)
    decreases |list|
  {
    hide Items, Tail, Doubled;
    var item, tail := Item(list[0]), Tail(list[1..]);
    if q < |item| {
      assert item[q] == '"' && Text(list)[..q] == item[..q];
      LastInItem(list, q);
    } else {
      TailHasNext(list);
      LastInRest(list, q);
      var rest, p := list[1..], q - |item| - 1;
      CutLoses(rest, p);
      var cut := ";" + Text(rest)[..p];
      assert cut[1..] == Text(rest)[..p];
      ItemIsRead(list[0], cut);
      PrependDiffers(list[0], Items(Text(rest)[..p]), list);
    }
  }

  /** A last quote behind the first item is the last quote of the rest of the list. */
  lemma LastInRest(list: seq<string>, q: nat)
    requires |list| >= 2 && LastQuote(Text(list), q) && q >= |Item(list[0])|
    ensures var n, rest := |Item(list[0])| + 1, list[1..];
      && q >= n && LastQuote(Text(rest), q - n)
      && Text(list)[..q] == Item(list[0]) + (";" + Text(rest)[..q - n])
  {
    hide Tail, Item;
    NextText(list);
    var head, rest := Item(list[0]) + ";", list[1..];
    var n := |head|;
    assert Text(list) == head + Text(rest);
    assert head[n - 1] == ';' && q != n - 1;
    hide Text;
    QuoteBehind(head, Text(rest), q);
    assert head + Text(rest)[..q - n] == Item(list[0]) + (";" + Text(rest)[..q - n]);
  }

  lemma QuoteBehind(head: string, rest: string, q: nat)
    requires LastQuote(head + rest, q) && q >= |head|
    ensures LastQuote(rest, q - |head|) && (head + rest)[..q] == head + rest[..q - |head|]
  {
    assert forall j :: 0 <= j < |rest| ==> rest[j] == (head + rest)[|head| + j];
  }

  lemma TailHasNext(list: seq<string>)
    requires list != [] && Tail(list[1..]) != []
    ensures |list| >= 2
  {
  }

  lemma LastInItem(list: seq<string>, q: nat)
    requires list != [] && NoneEmpty(list) && LastQuote(Text(list), q) && q < |Item(list[0])|
    ensures Items(Item(list[0])[..q]) != Paths(list)
  {
    var e := list[0];
    var item := Item(e);
    if NeedsQuotes(e) {
      assert Text(list)[|item| - 1] == item[|item| - 1] == '"';
      assert item[..q] == "\"" + Doubled(e);
      assert item[..q][1..] == Doubled(e) + "";
      InQuotesConsumes(e, "", "");
      assert InQuotes("", "" + e) == Undefined;
    } else {
      assert e[q] == Text(list)[q] && q > 0;
      assert !NeedsQuotes(e[..q]) && e[..q] + "" == e[..q];
      PlainItemIsRead(e[..q], "");
      assert e[..q] != e;
    }
  }

  // ---------------------------------------------------------------- a text without its outer quotes

  /** What follows the doubled first item: nothing, or its closing quote and the next items up to the last quote. */
  ghost predicate Remainder(list: seq<string>, x: string, p: nat)
    requires list != []
  {
    x == [] || (|list| >= 2 && LastQuote(Text(list[1..]), p) && x == "\";" + Text(list[1..])[..p])
  }

  lemma Unquote(d: string, y: string)
    ensures (("\"" + d + "\"") + (";" + y))[1..] == d + ("\";" + y)
    ensures ("\"" + d + "\"")[1..|d| + 1] == d + ""
  {
    var a, b := (("\"" + d + "\"") + (";" + y))[1..], d + ("\";" + y);
    assert |a| == |b| && forall i :: 0 <= i < |a| ==> a[i] == b[i];
  }

  lemma SliceOfPrefix(s: string, q: nat)
    requires 1 <= q <= |s|
    ensures s[..q][1..] == s[1..q]
  {
  }

  lemma Stripped(list: seq<string>, q: nat) returns (x: string, p: nat)
    requires list != [] && NeedsQuotes(list[0]) && LastQuote(Text(list), q)
    ensures 1 <= q && Text(list)[1..q] == Doubled(list[0]) + x && Remainder(list, x, p)
  {
    hide Tail, Doubled, NeedsQuotes;
    var item, d := Item(list[0]), Doubled(list[0]);
    assert item == "\"" + d + "\"";
    assert Text(list)[|item| - 1] == item[|item| - 1] == '"';
    assert q >= |item| - 1;
    SliceOfPrefix(Text(list), q);
    x, p := [], 0;
    if q == |item| - 1 {
      assert Text(list)[..q] == item[..q];
      SliceOfPrefix(item, q);
      Unquote(d, "");
    } else {
      TailHasNext(list);
      LastInRest(list, q);
      hide Text, Item;
      p := q - |item| - 1;
      x := "\";" + Text(list[1..])[..p];
      Unquote(d, Text(list[1..])[..p]);
    }
  }

  /** The first item starts with a quote: reading goes on one quote late. */
  lemma {:induction false} QuoteShifted(list: seq<string>, v: string, e: string, x: string, p: nat)
    requires list != [] && NoneEmpty(list) && list[0] == v + "\"" + e && Remainder(list, x, p)
    ensures InQuotes("\"" + (Doubled(e) + x), v) != Paths(list)
    decreases |e|
  {
    hide Items, Text;
    var t := "\"" + (Doubled(e) + x);
    if e == [] {
      assert t == "\"" + x;
      if x != [] {
        assert t[2..] == x[1..] && x[1..][0] == ';';
        InQuotesKeeps(x[1..][1..], v + "\"" + ";");
        assert |v + "\"" + ";"| > |list[0]|;
      }
    } else if e[0] == '"' {
      assert t[2..] == "\"" + (Doubled(e[1..]) + x);
      assert list[0] == (v + "\"") + "\"" + e[1..];
      QuoteShifted(list, v + "\"", e[1..], x, p);
    } else if e[0] == ';' {
      assert t[1] == ';';
      assert |v| < |list[0]|;
    } else {
      assert t[1..] == Doubled(e) + x && t[1] == e[0];
      InQuotesConsumes(e, x, v + "\"");
      ClosedItem(list, x, p);
    }
  }

  /** A first item read whole is followed by a text cut at its last quote, or by nothing. */
  lemma ClosedItem(list: seq<string>, x: string, p: nat)
    requires list != [] && NoneEmpty(list) && Remainder(list, x, p)
    ensures InQuotes(x, list[0]) != Paths(list)
  {
    hide Items, Text;
    if x != [] {
      assert x[2..] == Text(list[1..])[..p];
      CutLoses(list[1..], p);
      PrependDiffers(list[0], Items(x[2..]), list);
    }
  }

  ghost predicate Separators(s: string) {
    forall i :: 0 <= i < |s| ==> s[i] == ';'
  }

  /** The first item holds a separator and does not start with a quote; `s` are separators already passed over. */
  lemma {:induction false} SeparatorShifted(list: seq<string>, s: string, e: string, x: string, p: nat)
    requires list != [] && NoneEmpty(list) && list[0] == s + e && Remainder(list, x, p)
    requires ';' in list[0] && list[0][0] != '"' && Separators(s)
    ensures Items(Doubled(e) + x) != Paths(list)
    decreases |list|, 1, |e|
  {
    hide Items, InQuotes, Text;
    var t := Doubled(e) + x;
    if e == [] {
      assert list[0] == s && t == x;
      SeparatorsOnly(list, x, p);
    } else if e[0] == ';' {
      assert t[0] == ';' && t[1..] == Doubled(e[1..]) + x;
      SeparatorFirst(t);
      assert list[0] == (s + ";") + e[1..];
      SeparatorShifted(list, s + ";", e[1..], x, p);
    } else if e[0] == '"' {
      assert t == "\"" + ("\"" + (Doubled(e[1..]) + x));
      QuotedStart("\"" + (Doubled(e[1..]) + x));
      QuoteFirst(Doubled(e[1..]) + x);
    } else {
      assert t[0] == e[0];
      PlainFirst(t);
    }
  }

  lemma QuotedStart(u: string)
    ensures Items("\"" + u) == InQuotes(u, "")
  {
    assert ("\"" + u)[1..] == u;
  }

  /** An item of separators only: either the next item is like it, or something else is read. */
  lemma {:induction false} SeparatorsOnly(list: seq<string>, x: string, p: nat)
    requires list != [] && NoneEmpty(list) && Separators(list[0]) && Remainder(list, x, p)
    ensures Items(x) != Paths(list)
    decreases |list|, 0
  {
    hide Text, Tail, Items;
    if x == [] {
      NothingToRead();
    } else {
      var rest := list[1..];
      var u := Text(rest)[..p];
      assert x == "\"" + (";" + u) && (";" + u)[1..] == u;
      QuotedStart(";" + u);
      assert InQuotes(";" + u, "") == InQuotes(u, ";") by { assert "" + ";" == ";"; }
      if u != [] {
        TextStart(rest);
        if u[0] != '"' {
          InQuotesKeeps(u[1..], ";" + [u[0]]);
          assert (";" + [u[0]])[1] == u[0];
        } else if |u| > 1 && u[1] == ';' {
          StripLoses(rest, p);
          assert Text(rest)[1..p] == u[1..] && u[1..][1..] == u[2..];
          SeparatorFirst(u[1..]);
          PrependDiffers(";", Items(u[2..]), list);
        } else if |u| > 1 {
          InQuotesKeeps(if u[1] == '"' then u[2..] else u[1..], ";" + "\"");
          assert (";" + "\"")[1] == '"';
        }
      }
    }
  }

  lemma NothingToRead()
    ensures Items("") == Paths([])
  {
  }

  lemma TextStart(list: seq<string>)
    requires list != [] && NoneEmpty(list)
    ensures Text(list) != [] && (Text(list)[0] == '"' <==> NeedsQuotes(list[0])) && Text(list)[0] != ';'
  {
  }

  /** Without its outer quotes, a list whose first item was quoted is read as another list or not at all. */
  lemma {:induction false} StripLoses(list: seq<string>, q: nat)
    requires list != [] && NoneEmpty(list) && NeedsQuotes(list[0]) && LastQuote(Text(list), q)
    ensures 2 <= q && Items(Text(list)[1..q]) != Paths(list)
    decreases |list|, 2
  {
    hide Items, InQuotes, Text;
    var e := list[0];
    var x, p := Stripped(list, q);
    assert |Doubled(e)| >= 1;
    if e[0] == '"' {
      var u := "\"" + (Doubled(e[1..]) + x);
      assert Text(list)[1..q] == "\"" + u;
      QuotedStart(u);
      assert e == "" + "\"" + e[1..];
      QuoteShifted(list, "", e[1..], x, p);
    } else {
      assert e == "" + e;
      SeparatorShifted(list, "", e, x, p);
    }
  }

  // ---------------------------------------------------------------- the list read back

  lemma {:induction false} FindLastIs(s: string, q: nat)
    requires LastQuote(s, q)
    ensures Ini.FindLast(s, '"') == Some(q)
    decreases |s|
  {
    if s[|s| - 1] == '"' {
    } else {
      FindLastIs(s[..|s| - 1], q);
    }
  }

  lemma {:induction false} HasLastQuote(s: string) returns (q: nat)
    requires '"' in s
    ensures LastQuote(s, q)
    decreases |s|
  {
    var n := |s| - 1;
    if s[n] == '"' {
      q := n;
    } else {
      assert s == s[..n] + [s[n]];
      q := HasLastQuote(s[..n]);
    }
  }

  /**
   A list of non-empty paths comes back from a value of its own exactly when its first path is
   written without quotes.
   */
  lemma ComesBackAsValue(list: seq<string>, current: seq<string>)
    requires list != [] && "" !in list
    ensures Decode(Ini.ParseValue(" " + Encode(list)), current) == Paths(list) <==> !NeedsQuotes(list[0])
  {
    hide Items, Encode, NeedsQuotes, Tail;
    assert NoneEmpty(list) by {
      forall i | 0 <= i < |list| ensures list[i] != [] { assert list[i] in list; }
    }
    assert Encode(list) == Text(list) by { TextOf(list); }
    TextStart(list);
    if NeedsQuotes(list[0]) {
      assert Text(list)[0] == '"';
      var q := HasLastQuote(Text(list));
      FindLastIs(Text(list), q);
      StripLoses(list, q);
      assert (" " + Text(list))[1..] == Text(list);
    } else {
      Ini.ValueComesBack(Text(list));
      NonEmptyListsComeBack(list, current);
    }
  }

  lemma TextOf(list: seq<string>)
    requires list != [] && list[0] != []
    ensures Encode(list) == Text(list)
  {
    hide Encode, Tail, Item;
    EncodeFromFront(list);
  }

  // ---------------------------------------------------------------- through a whole file

  ghost predicate NoBreaks(list: seq<string>) {
    forall i :: 0 <= i < |list| ==> '\n' !in list[i]
  }

  lemma {:induction false} DoubledKeepsLine(v: string)
    requires '\n' !in v
    ensures '\n' !in Doubled(v)
  {
    if v == [] {
    } else {
      assert v[0] in v && forall c :: c in v[1..] ==> c in v;
      DoubledKeepsLine(v[1..]);
    }
  }

  lemma ItemKeepsLine(v: string)
    requires '\n' !in v
    ensures '\n' !in Item(v)
  {
    hide Doubled;
    DoubledKeepsLine(v);
  }

  /** Writing adds no line breaks, */
  lemma {:induction false} EncodeKeepsLine(list: seq<string>)
    requires NoBreaks(list)
    ensures '\n' !in Encode(list)
  {
    hide Item;
    if list == [] {
    } else {
      EncodeKeepsLine(list[..|list| - 1]);
      ItemKeepsLine(list[|list| - 1]);
    }
  }

  ghost predicate OnLines(d: Decoded) {
    d.Paths? ==> NoBreaks(d.list)
  }

  lemma PrependKeepsLines(items: seq<string>, d: Decoded)
    requires NoBreaks(items) && OnLines(d)
    ensures OnLines(Prepend(items, d))
  {
  }

  lemma TailKeepsLine(t: string, k: nat)
    requires '\n' !in t && k <= |t|
    ensures '\n' !in t[k..] && '\n' !in t[..k]
  {
    assert forall c :: c in t[k..] ==> c in t;
    assert forall c :: c in t[..k] ==> c in t;
  }

  /** and neither does reading. */
  lemma {:induction false} ItemsKeepLines(t: string)
    requires '\n' !in t
    ensures OnLines(Items(t))
    decreases |t|, 0
  {
    hide InQuotes, OnLines;
    if t != [] && t[0] == '"' {
      TailKeepsLine(t, 1);
      InQuotesKeepsLines(t[1..], "");
    } else {
      var end := Ini.Find(t, ';', 0);
      Ini.FindFound(t, ';', 0);
      TailKeepsLine(t, end);
      var head := if end == 0 then [] else [t[..end]];
      if end >= |t| {
        assert OnLines(Paths(head)) by { PlainOnLines(head); }
      } else {
        TailKeepsLine(t, end + 1);
        ItemsKeepLines(t[end + 1..]);
        PrependKeepsLines(head, Items(t[end + 1..]));
      }
    }
  }

  lemma PlainOnLines(list: seq<string>)
    requires NoBreaks(list)
    ensures OnLines(Paths(list)) && OnLines(Undefined)
  {
  }

  lemma {:induction false} InQuotesKeepsLines(t: string, v: string)
    requires '\n' !in t && '\n' !in v
    ensures OnLines(InQuotes(t, v))
    decreases |t|, 1
  {
    hide Items, OnLines;
    PlainOnLines([v]);
    if t == [] {
    } else if t[0] != '"' {
      TailKeepsLine(t, 1);
      InQuotesKeepsLines(t[1..], v + [t[0]]);
    } else if |t| == 1 {
    } else if t[1] == '"' {
      TailKeepsLine(t, 2);
      InQuotesKeepsLines(t[2..], v + "\"");
    } else if t[1] == ';' {
      TailKeepsLine(t, 2);
      ItemsKeepLines(t[2..]);
      PrependKeepsLines([v], Items(t[2..]));
    } else {
      TailKeepsLine(t, 1);
      InQuotesKeepsLines(t[1..], v + "\"");
    }
  }

  /** The list that an option gets from an entry; without one it keeps its current value. */
  function ReadBack(value: Option<string>, current: seq<string>): Decoded {
    match value
    case None => Paths(current)
    case Some(text) => Decode(text, current)
  }

  /** The database with the value of one entry left out. */
  function Blanked(db: Ini.Db, section: string, name: string): Ini.Db
    requires section in db && name in db[section]
  {
    db[section := db[section][name := db[section][name].(value := "")]]
  }

  lemma RestGood(db: Ini.Db, section: string, name: string)
    requires section in db && name in db[section] && !db[section][name].transient && '\n' !in db[section][name].value
    requires IniFile.GoodNames(Blanked(db, section, name))
    ensures IniFile.GoodNames(db)
  {
    hide Ini.GoodName;
    var rest := Blanked(db, section, name);
    forall s | s in db
      ensures IniFile.GoodSection(s, db[s])
    {
      assert IniFile.GoodSection(s, rest[s]);
      if s == section {
        assert IniFile.GoodEntry(name, rest[s][name]);
        assert IniFile.HasSaved(rest[s]) by { assert IniFile.Saved(rest[s][name]); }
        forall n | n in db[s]
          ensures IniFile.GoodEntry(n, db[s][n])
        {
          assert IniFile.GoodEntry(n, rest[s][n]);
        }
      }
    }
  }

  lemma ReloadedText(db: Ini.Db, section: string, name: string)
    requires section in db && name in db[section] && !db[section][name].transient
    ensures Ini.GetRaw(IniFile.Reloaded(db), section, name) == Some(Ini.ParseValue(" " + db[section][name].value))
  {
    hide Ini.ParseValue;
    assert name in IniFile.KeptMap(db[section]);
  }

  /** What any file gives a list option has no line breaks, unless the option keeps its current value. */
  lemma FileHasNoBreaks(text: string, section: string, name: string, current: seq<string>)
    ensures var d := ReadBack(Ini.GetRaw(IniFile.Load(map[], text), section, name), current);
      d == Paths(current) || OnLines(d)
  {
    hide IniFile.Load, Items, OnLines, Ini.GoodName;
    IniFile.LoadIsPrintable(text);
    var value := Ini.GetRaw(IniFile.Load(map[], text), section, name);
    if value.Some? {
      assert '\n' !in value.value;
      ItemsKeepLines(value.value);
    }
  }

  /**
   A list of non-empty paths, saved in a configuration file whose other entries are good, comes back
   in a process with another current value exactly when its first path is written without quotes and
   no path has a line break.
   */
  lemma ComesBackFromIniFile(
    list: seq<string>, current: seq<string>,
    db: Ini.Db, section: string, name: string, order: seq<string>, names: map<string, seq<string>>)
    requires list != [] && "" !in list && current != list
    requires section in db && name in db[section]
    requires !db[section][name].transient && db[section][name].value == Encode(list)
    requires IniFile.GoodNames(Blanked(db, section, name)) && IniFile.Orders(db, order, names)
    requires forall i, j :: 0 <= i < j < |order| ==> IniFile.Less(order[i], order[j])
    ensures var loaded := Ini.GetRaw(IniFile.Load(map[], IniFile.Save(db, order, names)), section, name);
      ReadBack(loaded, current) == Paths(list) <==> !NeedsQuotes(list[0]) && NoBreaks(list)
  {
    hide Encode, Items, IniFile.Load, IniFile.Save, IniFile.Reloaded, IniFile.GoodNames, Blanked, NeedsQuotes,
      Ini.GetRaw, NoBreaks;
    if NoBreaks(list) {
      EncodeKeepsLine(list);
      RestGood(db, section, name);
      IniFile.SortedPutsUnnamedFirst(order);
      IniFile.LoadOfSave(db, order, names);
      ReloadedText(db, section, name);
      ComesBackAsValue(list, current);
    } else {
      FileHasNoBreaks(IniFile.Save(db, order, names), section, name, current);
    }
  }

  // ---------------------------------------------------------------- a witness

  lemma QuotedText()
    ensures Encode(["a;b"]) == "\"a;b\""
  {
    hide Encode, Doubled, FromFront;
    EncodeFromFront(["a;b"]);
    FromFrontOfOne("a;b");
    DoubledStep("a;b", 3);
    assert ';' in "a;b" by { assert "a;b"[1] == ';'; }
  }

  lemma UnquotedText()
    ensures Ini.ParseValue(" \"a;b\"") == "a;b"
  {
    assert " \"a;b\""[1..] == "\"a;b\"";
    assert "\"a;b\""[1..4] == "a;b";
  }

  /** A single path that holds a separator comes back from the file as two paths. */
  lemma SplitByIniFile()
    ensures Decode(Ini.ParseValue(" " + Encode(["a;b"])), []) == Paths(["a", "b"])
  {
    QuotedText();
    UnquotedText();
    assert " " + "\"a;b\"" == " \"a;b\"";
    hide Ini.ParseValue, Encode;
    ItemsOfTail("a", ["b"]);
    assert Tail(["b"]) == ";b" by { assert ["b"][1..] == []; }
    assert Item("a") + Tail(["b"]) == "a;b";
    assert NonEmpty(["a"] + ["b"]) == ["a", "b"] by {
      assert (["a"] + ["b"])[1..] == ["b"] && ["b"][1..] == [];
    }
  }
}
