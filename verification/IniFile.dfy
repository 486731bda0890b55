/** Whole INI files: `IniFile::save` and `IniFile::load`, and what survives a save and a load. */
module IniFile {
  import opened Bytes
  import opened Ini

  // ---------------------------------------------------------------- text and lines

  /** `getline` until the stream is exhausted. */
  function Lines(text: string): seq<string>
    decreases |text|
  {
    if text == [] then []
    else
      var k := Find(text, '\n', 0);
      if k >= |text| then [text] else [text[..k]] + Lines(text[k + 1..])
  }

  function Unlines(lines: seq<string>): string {
    if lines == [] then [] else lines[0] + "\n" + Unlines(lines[1..])
  }

  lemma {:induction false} LinesOfUnlines(lines: seq<string>)
    requires forall i :: 0 <= i < |lines| ==> '\n' !in lines[i]
    ensures Lines(Unlines(lines)) == lines
    decreases |lines|
  {
    if lines == [] {
    } else {
      var text, k := Unlines(lines), |lines[0]|;
      assert text[k] == '\n';
      assert forall i :: 0 <= i < k ==> text[i] == lines[0][i];
      FindIs(text, '\n', 0, k);
      assert text[..k] == lines[0] && text[k + 1..] == Unlines(lines[1..]);
      LinesOfUnlines(lines[1..]);
    }
  }

  lemma {:induction false} UnlinesConcat(a: seq<string>, b: seq<string>)
    ensures Unlines(a + b) == Unlines(a) + Unlines(b)
    decreases |a|
  {
    if a == [] {
      assert a + b == b;
    } else {
      assert (a + b)[1..] == a[1..] + b;
      UnlinesConcat(a[1..], b);
    }
  }

  // ---------------------------------------------------------------- loading

  datatype Loading = Loading(db: Db, section: string)

  function LoadLine(st: Loading, line: string): Loading {
    match ParseLine(line)
    case Ignored => st
    case SectionLine(name) => st.(section := name)
    case EntryLine(name, value) => st.(db := SetRaw(st.db, st.section, name, value, false))
  }

  function LoadLines(st: Loading, lines: seq<string>): Loading
    decreases |lines|
  {
    if lines == [] then st else LoadLines(LoadLine(st, lines[0]), lines[1..])
  }

  /** `load` on top of what the database already holds. */
  function Load(db: Db, text: string): Db {
    LoadLines(Loading(db, ""), Lines(text)).db
  }

  lemma {:induction false} LoadLinesConcat(st: Loading, a: seq<string>, b: seq<string>)
    ensures LoadLines(st, a + b) == LoadLines(LoadLines(st, a), b)
    decreases |a|
  {
    if a == [] {
      assert a + b == b;
    } else {
      assert (a + b)[1..] == a[1..] + b;
      LoadLinesConcat(LoadLine(st, a[0]), a[1..], b);
    }
  }

  lemma LoadOneLine(st: Loading, line: string)
    ensures LoadLines(st, [line]) == LoadLine(st, line)
  {
    assert [line][1..] == [];
    assert LoadLines(LoadLine(st, line), []) == LoadLine(st, line);
  }

  // ---------------------------------------------------------------- saving

  /** Transient-only values are not written. */
  predicate Saved(e: Entry) {
    !(e.transient && e.value == [])
  }

  function Kept(entries: map<string, Entry>, names: seq<string>): seq<string> {
    if names == [] then []
    else
      var n := names[|names| - 1];
      Kept(entries, names[..|names| - 1]) + (if n in entries && Saved(entries[n]) then [n] else [])
  }

  function EntryLines(entries: map<string, Entry>, kept: seq<string>): seq<string> {
    seq(|kept|, i requires 0 <= i < |kept| => EntryText(kept[i], EntryOf(map["" := entries], "", kept[i]).value))
  }

  /** The block of one section: a header unless it is unnamed or has nothing to save, the entries, an empty line. */
  function Block(section: string, entries: map<string, Entry>, names: seq<string>): seq<string> {
    var kept := Kept(entries, names);
    (if section != [] && kept != [] then [SectionText(section)] else []) + EntryLines(entries, kept) + [""]
  }

  /** `order` and `names` are the iteration orders of the two maps. */
  function SavedLines(db: Db, order: seq<string>, names: map<string, seq<string>>): seq<string> {
    if order == [] then []
    else
      var s := order[|order| - 1];
      SavedLines(db, order[..|order| - 1], names) + Block(s, SectionOf(db, s), NamesOf(names, s))
  }

  function NamesOf(names: map<string, seq<string>>, s: string): seq<string> {
    if s in names then names[s] else []
  }

  function Save(db: Db, order: seq<string>, names: map<string, seq<string>>): string {
    Unlines(SavedLines(db, order, names))
  }

  /** The inner loop, which prints the header before the first entry it saves. */
  method SaveSection(section: string, entries: map<string, Entry>, names: seq<string>) returns (text: string)
    ensures text == Unlines(Block(section, entries, names))
  {
    hide Saved, EntryText, SectionText, EntryLines;
    NoEntryLines(entries);
    var lines := [];
    var sectionSaved := section == [];
    assert names[..0] == [];
    for k := 0 to |names|
      invariant sectionSaved == (section == [] || Kept(entries, names[..k]) != [])
      invariant lines == (if section != [] && Kept(entries, names[..k]) != [] then [SectionText(section)] else [])
                         + EntryLines(entries, Kept(entries, names[..k]))
    {
      assert names[..k + 1][..k] == names[..k];
      var n := names[k];
      if n in entries && Saved(entries[n]) {
        EntryLinesStep(entries, Kept(entries, names[..k]), n);
        if !sectionSaved {
          lines := lines + [SectionText(section)];
          sectionSaved := true;
        }
        lines := lines + [EntryText(n, entries[n].value)];
      } else {
        assert Kept(entries, names[..k]) + [] == Kept(entries, names[..k]);
      }
    }
    assert names[..|names|] == names;
    lines := lines + [""];
    text := Unlines(lines);
  }

  lemma NoEntryLines(entries: map<string, Entry>)
    ensures EntryLines(entries, []) == []
  {
  }

  lemma EntryLinesStep(entries: map<string, Entry>, kept: seq<string>, n: string)
    requires n in entries
    ensures EntryLines(entries, kept + [n]) == EntryLines(entries, kept) + [EntryText(n, entries[n].value)]
  {
  }

  // ---------------------------------------------------------------- what survives

  function Clean(e: Entry): Entry {
    Entry(e.value, "", false)
  }

  /** The persistent part of a database: entries with a saved value, sections with such an entry. */
  function Persistent(db: Db): Db {
    map s | s in db && HasSaved(db[s]) :: map n | n in db[s] && Saved(db[s][n]) :: Clean(db[s][n])
  }

  predicate HasSaved(entries: map<string, Entry>) {
    exists n :: n in entries && Saved(entries[n])
  }

  /** The entry that a printed value reads back as. */
  function Reread(e: Entry): Entry {
    Entry(ParseValue(" " + e.value), "", false)
  }

  function KeptMap(entries: map<string, Entry>): map<string, Entry> {
    map n | n in entries && Saved(entries[n]) :: Reread(entries[n])
  }

  /** What loading a saved file gives when its names are good. */
  function Reloaded(db: Db): Db {
    map s | s in db && KeptMap(db[s]) != map[] :: KeptMap(db[s])
  }

  ghost predicate Enumerates(order: seq<string>, keys: set<string>) {
    Distinct(order) && forall k :: k in order <==> k in keys
  }

  /** A saved entry whose line is one line and whose name is read back. */
  ghost predicate GoodEntry(n: string, e: Entry) {
    Saved(e) ==> GoodName(n) && '\n' !in n && '\n' !in e.value
  }

  ghost predicate GoodSection(s: string, entries: map<string, Entry>) {
    && (HasSaved(entries) ==> ']' !in s && '\n' !in s)
    && forall n :: n in entries ==> GoodEntry(n, entries[n])
  }

  ghost predicate GoodNames(db: Db) {
    forall s :: s in db ==> GoodSection(s, db[s])
  }

  ghost predicate GoodValues(db: Db) {
    forall s, n :: s in db && n in db[s] && Saved(db[s][n]) ==> GoodValue(db[s][n].value)
  }

  ghost predicate Orders(db: Db, order: seq<string>, names: map<string, seq<string>>) {
    && Enumerates(order, db.Keys)
    && (forall s :: s in db ==> s in names && Enumerates(names[s], db[s].Keys))
  }

  /** The unnamed section, if there is one, comes before all others. */
  predicate UnnamedFirst(order: seq<string>) {
    "" in order ==> order[0] == ""
  }

  // ---------------------------------------------------------------- sorted maps put the unnamed section first

  predicate Less(a: string, b: string) {
    if b == [] then false
    else if a == [] then true
    else a[0] < b[0] || (a[0] == b[0] && Less(a[1..], b[1..]))
  }

  lemma SortedPutsUnnamedFirst(order: seq<string>)
    requires forall i, j :: 0 <= i < j < |order| ==> Less(order[i], order[j])
    ensures UnnamedFirst(order)
  {
    if "" in order {
      var j :| 0 <= j < |order| && order[j] == "";
      assert j > 0 ==> Less(order[0], order[j]);
    }
  }

  // ---------------------------------------------------------------- loading one block

  /** Entries added one after the other to a section. */
  function AddKept(sec: map<string, Entry>, entries: map<string, Entry>, kept: seq<string>): map<string, Entry> {
    if kept == [] then sec
    else
      var n := kept[|kept| - 1];
      AddKept(sec, entries, kept[..|kept| - 1])[n := Reread(EntryOf(map["" := entries], "", n))]
  }

  lemma {:induction false} KeptMembers(entries: map<string, Entry>, names: seq<string>)
    ensures forall n :: n in Kept(entries, names) <==> n in names && n in entries && Saved(entries[n])
    ensures Distinct(names) ==> Distinct(Kept(entries, names))
  {
    if names == [] {
    } else {
      var k := |names| - 1;
      KeptMembers(entries, names[..k]);
      assert names == names[..k] + [names[k]];
      assert Distinct(names) ==> Distinct(names[..k]) && names[k] !in names[..k];
    }
  }

  lemma {:induction false} AddKeptMembers(sec: map<string, Entry>, entries: map<string, Entry>, kept: seq<string>)
    requires forall i :: 0 <= i < |kept| ==> kept[i] in entries
    ensures forall n :: n in AddKept(sec, entries, kept) <==> n in sec || n in kept
    ensures forall n :: n in kept ==> AddKept(sec, entries, kept)[n] == Reread(entries[n])
    ensures forall n :: n in sec && n !in kept ==> AddKept(sec, entries, kept)[n] == sec[n]
  {
    if kept == [] {
    } else {
      var k := |kept| - 1;
      AddKeptMembers(sec, entries, kept[..k]);
      assert kept == kept[..k] + [kept[k]];
    }
  }

  lemma {:induction false} LoadEntries(db: Db, section: string, entries: map<string, Entry>, kept: seq<string>)
    requires section !in db && Distinct(kept)
    requires forall i :: 0 <= i < |kept| ==>
      kept[i] in entries && GoodName(kept[i])
    ensures LoadLines(Loading(db, section), EntryLines(entries, kept))
         == Loading(if kept == [] then db else db[section := AddKept(map[], entries, kept)], section)
    decreases |kept|
  {
    hide ParseLine, ParseValue, GoodName, EntryText;
    if kept == [] {
    } else {
      var k := |kept| - 1;
      var init, n := kept[..k], kept[k];
      LoadEntries(db, section, entries, init);
      assert kept == init + [n];
      EntryLinesStep(entries, init, n);
      var st := LoadLines(Loading(db, section), EntryLines(entries, init));
      LoadLinesConcat(Loading(db, section), EntryLines(entries, init), [EntryText(n, entries[n].value)]);
      AddKeptMembers(map[], entries, init);
      assert n !in init;
      assert SectionOf(st.db, section) == AddKept(map[], entries, init);
      LoadFresh(st, n, entries[n].value);
    }
  }

  lemma LoadFresh(st: Loading, n: string, value: string)
    requires n !in SectionOf(st.db, st.section) && GoodName(n)
    ensures LoadLines(st, [EntryText(n, value)])
         == st.(db := st.db[st.section := SectionOf(st.db, st.section)[n := Entry(ParseValue(" " + value), "", false)]])
  {
    hide ParseLine, ParseValue, EntryText;
    LoadOneLine(st, EntryText(n, value));
    GoodNameParses(n, value);
    SetFresh(st.db, st.section, n, ParseValue(" " + value));
  }

  lemma SetFresh(db: Db, section: string, n: string, value: string)
    requires n !in SectionOf(db, section)
    ensures SetRaw(db, section, n, value, false) == db[section := SectionOf(db, section)[n := Entry(value, "", false)]]
  {
  }

  function HeadOf(section: string, kept: seq<string>): seq<string> {
    if section != [] && kept != [] then [SectionText(section)] else []
  }

  lemma KeptAreGood(section: string, entries: map<string, Entry>, names: seq<string>)
    requires GoodSection(section, entries)
    ensures var kept := Kept(entries, names);
      && (forall i :: 0 <= i < |kept| ==> kept[i] in entries && GoodName(kept[i]))
      && (kept != [] ==> ']' !in section)
  {
    hide GoodName, Kept, Saved;
    var kept := Kept(entries, names);
    KeptMembers(entries, names);
    forall i | 0 <= i < |kept|
      ensures kept[i] in entries && GoodName(kept[i])
    {
      assert kept[i] in kept;
      assert GoodEntry(kept[i], entries[kept[i]]);
    }
    if kept != [] {
      assert kept[0] in kept;
      assert HasSaved(entries);
    }
  }

  lemma LoadHead(st: Loading, section: string, kept: seq<string>)
    requires section == [] ==> st.section == []
    requires kept != [] ==> ']' !in section
    ensures LoadLines(st, HeadOf(section, kept)) == if kept == [] then st else Loading(st.db, section)
  {
    hide ParseLine, SectionText;
    if section != [] && kept != [] {
      LoadOneLine(st, SectionText(section));
      SectionLineParses(section);
    }
  }

  lemma LoadBlank(st: Loading)
    ensures LoadLines(st, [""]) == st && LoadLines(st, []) == st
  {
    LoadOneLine(st, "");
    BlankLine();
  }

  /** A saved block, loaded where its section is not yet known, adds exactly what was kept of it. */
  lemma LoadBlock(st: Loading, section: string, entries: map<string, Entry>, names: seq<string>)
    requires section !in st.db
    requires section == [] ==> st.section == []
    requires Enumerates(names, entries.Keys)
    requires GoodSection(section, entries)
    ensures LoadLines(st, Block(section, entries, names)).db
         == if KeptMap(entries) == map[] then st.db else st.db[section := KeptMap(entries)]
  {
    assert EntryLines(entries, []) == [];
    hide GoodName, SectionText, LoadLines, Kept, KeptMap, AddKept, EntryLines, GoodSection, HeadOf;
    var kept := Kept(entries, names);
    KeptMembers(entries, names);
    KeptAreGood(section, entries, names);
    KeptIsKeptMap(entries, names);
    var head, body := HeadOf(section, kept), EntryLines(entries, kept);
    assert Block(section, entries, names) == head + body + [""] by { BlockParts(section, entries, names); }
    LoadLinesConcat(st, head + body, [""]);
    LoadLinesConcat(st, head, body);
    LoadHead(st, section, kept);
    LoadBlank(LoadLines(st, head + body));
    LoadBlank(st);
    if kept != [] {
      LoadEntries(st.db, section, entries, kept);
    }
  }

  lemma BlockParts(section: string, entries: map<string, Entry>, names: seq<string>)
    ensures Block(section, entries, names)
         == HeadOf(section, Kept(entries, names)) + EntryLines(entries, Kept(entries, names)) + [""]
  {
  }

  lemma BlankLine()
    ensures ParseLine("") == Ignored
  {
  }

  lemma KeptIsKeptMap(entries: map<string, Entry>, names: seq<string>)
    requires Enumerates(names, entries.Keys)
    ensures AddKept(map[], entries, Kept(entries, names)) == KeptMap(entries)
    ensures Kept(entries, names) == [] <==> KeptMap(entries) == map[]
  {
    hide AddKept, Kept, Saved, Reread;
    var kept := Kept(entries, names);
    KeptMembers(entries, names);
    forall i | 0 <= i < |kept|
      ensures kept[i] in entries
    {
      assert kept[i] in kept;
    }
    AddKeptMembers(map[], entries, kept);
    var a, b := AddKept(map[], entries, kept), KeptMap(entries);
    assert a.Keys == b.Keys;
    assert forall n :: n in a ==> a[n] == b[n];
    if kept != [] {
      assert kept[0] in kept;
      assert kept[0] in b;
    }
  }

  // ---------------------------------------------------------------- the whole file

  function ReloadedPart(db: Db, order: seq<string>): Db {
    map s | s in Reloaded(db) && s in order :: Reloaded(db)[s]
  }

  lemma {:induction false} LoadSaved(db: Db, order: seq<string>, names: map<string, seq<string>>, k: nat)
    requires GoodNames(db) && Orders(db, order, names) && UnnamedFirst(order) && k <= |order|
    ensures LoadLines(Loading(map[], ""), SavedLines(db, order[..k], names)).db == ReloadedPart(db, order[..k])
    ensures k == 0 ==> LoadLines(Loading(map[], ""), SavedLines(db, order[..k], names)).section == ""
    decreases k
  {
    hide Block, KeptMap, GoodSection, ReloadedPart;
    if k > 0 {
      var n := k - 1;
      LoadSaved(db, order, names, n);
      var s := order[n];
      assert s in order && s in db;
      assert order[..k][..n] == order[..n];
      ReloadedStep(db, order, n);
      var st := LoadLines(Loading(map[], ""), SavedLines(db, order[..n], names));
      LoadLinesConcat(Loading(map[], ""), SavedLines(db, order[..n], names), Block(s, db[s], names[s]));
      LoadBlock(st, s, db[s], names[s]);
    } else {
      ReloadedNone(db, order);
    }
  }

  lemma ReloadedNone(db: Db, order: seq<string>)
    ensures ReloadedPart(db, order[..0]) == map[]
  {
  }

  lemma ReloadedStep(db: Db, order: seq<string>, n: nat)
    requires n < |order| && Distinct(order) && order[n] in db
    ensures var s, part := order[n], ReloadedPart(db, order[..n]);
      && s !in part
      && ReloadedPart(db, order[..n + 1]) == if KeptMap(db[s]) == map[] then part else part[s := KeptMap(db[s])]
  {
    hide KeptMap;
    assert order[..n + 1] == order[..n] + [order[n]];
    assert order[n] !in order[..n];
  }

  lemma {:induction false} SavedLinesAreLines(db: Db, order: seq<string>, names: map<string, seq<string>>, k: nat)
    requires GoodNames(db) && Orders(db, order, names) && k <= |order|
    ensures forall i :: 0 <= i < |SavedLines(db, order[..k], names)| ==> '\n' !in SavedLines(db, order[..k], names)[i]
    decreases k
  {
    hide GoodSection, Block;
    if k == 0 {
    } else {
      var n := k - 1;
      SavedLinesAreLines(db, order, names, n);
      assert order[n] in order && order[n] in db;
      assert order[..k][..n] == order[..n];
      BlockHasLines(order[n], db[order[n]], names[order[n]]);
    }
  }

  lemma BlockHasLines(section: string, entries: map<string, Entry>, names: seq<string>)
    requires GoodSection(section, entries) && Enumerates(names, entries.Keys)
    ensures forall i :: 0 <= i < |Block(section, entries, names)| ==> '\n' !in Block(section, entries, names)[i]
  {
    hide GoodName;
    var kept := Kept(entries, names);
    KeptMembers(entries, names);
    var lines := EntryLines(entries, kept);
    forall i | 0 <= i < |lines|
      ensures '\n' !in lines[i]
    {
      assert kept[i] in kept;
      assert GoodEntry(kept[i], entries[kept[i]]);
    }
    if kept != [] {
      assert kept[0] in kept;
    }
  }

  lemma LoadOfSave(db: Db, order: seq<string>, names: map<string, seq<string>>)
    requires GoodNames(db) && Orders(db, order, names) && UnnamedFirst(order)
    ensures Load(map[], Save(db, order, names)) == Reloaded(db)
  {
    hide KeptMap, GoodSection, SavedLines;
    LoadSaved(db, order, names, |order|);
    SavedLinesAreLines(db, order, names, |order|);
    assert order[..|order|] == order;
    LinesOfUnlines(SavedLines(db, order, names));
    assert ReloadedPart(db, order) == Reloaded(db);
  }

  lemma ReloadedIsPersistent(db: Db)
    ensures Reloaded(db) == Persistent(db) <==> GoodValues(db)
  {
    hide ParseValue, GoodValue, Saved;
    forall s, n | s in db && n in db[s] && Saved(db[s][n])
      ensures s in Reloaded(db) && s in Persistent(db) && n in Reloaded(db)[s] && n in Persistent(db)[s]
      ensures Reloaded(db)[s][n] == Persistent(db)[s][n] <==> GoodValue(db[s][n].value)
    {
      assert n in KeptMap(db[s]);
      ValueComesBack(db[s][n].value);
    }
    if GoodValues(db) {
      forall s | s in db
        ensures s in Reloaded(db) <==> s in Persistent(db)
        ensures s in Reloaded(db) ==> Reloaded(db)[s] == Persistent(db)[s]
      {
        if s in Reloaded(db) {
          var n :| n in KeptMap(db[s]);
          assert Reloaded(db)[s].Keys == Persistent(db)[s].Keys;
        }
      }
    }
  }

  // ---------------------------------------------------------------- what any file can hold

  /**
   Loaded databases: every name and every value fits on a line and would be read back as such;
   nothing is transient.
   */
  ghost predicate Printable(db: Db) {
    forall s, n :: s in db && n in db[s] ==>
      ']' !in s && '\n' !in s && GoodName(n) && '\n' !in n && '\n' !in db[s][n].value && !db[s][n].transient
  }

  lemma {:induction false} LoadLinesPrintable(st: Loading, lines: seq<string>)
    requires Printable(st.db) && ']' !in st.section && '\n' !in st.section
    requires forall i :: 0 <= i < |lines| ==> '\n' !in lines[i]
    ensures Printable(LoadLines(st, lines).db)
    decreases |lines|
  {
    hide ParseLine, GoodName;
    if lines == [] {
    } else {
      ParsedLineIsGood(lines[0]);
      LoadLinesPrintable(LoadLine(st, lines[0]), lines[1..]);
    }
  }

  lemma {:induction false} LinesHaveNoBreaks(text: string)
    ensures forall i :: 0 <= i < |Lines(text)| ==> '\n' !in Lines(text)[i]
    decreases |text|
  {
    if text == [] {
    } else {
      var k := Find(text, '\n', 0);
      FindFound(text, '\n', 0);
      if k < |text| {
        LinesHaveNoBreaks(text[k + 1..]);
      }
    }
  }

  lemma LoadIsPrintable(text: string)
    ensures Printable(Load(map[], text))
  {
    LinesHaveNoBreaks(text);
    LoadLinesPrintable(Loading(map[], ""), Lines(text));
  }

  lemma PrintableMeansGoodNames(db: Db)
    requires Printable(Persistent(db))
    ensures GoodNames(db)
  {
    hide GoodName, Saved;
    forall s, n | s in db && n in db[s] && Saved(db[s][n])
      ensures ']' !in s && '\n' !in s && GoodName(n) && '\n' !in n && '\n' !in db[s][n].value
    {
      assert s in Persistent(db) && n in Persistent(db)[s];
    }
  }

  // ---------------------------------------------------------------- the round trip

  /**
   Saving and loading into an empty database restores every persistent entry and drops the
   transient-only ones exactly when what is saved has good names and good values.
   */
  lemma SaveLoadRoundTrip(db: Db, order: seq<string>, names: map<string, seq<string>>)
    requires Orders(db, order, names)
    requires forall i, j :: 0 <= i < j < |order| ==> Less(order[i], order[j])
    ensures Load(map[], Save(db, order, names)) == Persistent(db) <==> GoodNames(db) && GoodValues(db)
  {
    hide Load, Save, GoodNames, GoodValues, Persistent, Reloaded, Orders;
    SortedPutsUnnamedFirst(order);
    LoadIsPrintable(Save(db, order, names));
    if Load(map[], Save(db, order, names)) == Persistent(db) {
      PrintableMeansGoodNames(db);
    }
    if GoodNames(db) {
      LoadOfSave(db, order, names);
      ReloadedIsPersistent(db);
    }
  }

  /** What a reader of the reloaded file sees of each entry. */
  lemma ReloadedValue(db: Db, order: seq<string>, names: map<string, seq<string>>, section: string, name: string)
    requires GoodNames(db) && GoodValues(db) && Orders(db, order, names)
    requires forall i, j :: 0 <= i < j < |order| ==> Less(order[i], order[j])
    requires name in SectionOf(db, section)
    ensures GetRaw(Load(map[], Save(db, order, names)), section, name)
         == if Saved(SectionOf(db, section)[name]) then Some(SectionOf(db, section)[name].value) else None
  {
    hide Load, Save, GoodNames, GoodValues, Orders;
    SaveLoadRoundTrip(db, order, names);
    if Saved(db[section][name]) {
      assert name in Persistent(db)[section];
    }
  }

  // ---------------------------------------------------------------- the database object

  /** `IniFile`: the maps of sections and entries, changed in place. */
  class Database {
    var sections: Db

    constructor ()
      ensures sections == map[]
    {
      sections := map[];
    }

    method SetValue(section: string, name: string, value: string, transient: bool)
      modifies this
      ensures sections == SetRaw(old(sections), section, name, value, transient)
    {
      var entries := if section in sections then sections[section] else map[];
      var e := if name in entries then entries[name] else Entry("", "", false);
      if transient {
        e := e.(transientValue := value, transient := true);
      } else {
        e := e.(value := value);
      }
      sections := sections[section := entries[name := e]];
    }

    method LoadText(text: string)
      modifies this
      ensures sections == Load(old(sections), text)
    {
      hide ParseLine;
      var section := "";
      var rest := text;
      while rest != []
        invariant LoadLines(Loading(sections, section), Lines(rest))
               == LoadLines(Loading(old(sections), ""), Lines(text))
        decreases |rest|
      {
        var k := Find(rest, '\n', 0);
        FindFound(rest, '\n', 0);
        var line := rest[..k];
        assert k == |rest| ==> line == rest;
        assert Lines(rest)[0] == line;
        assert Lines(rest)[1..] == if k < |rest| then Lines(rest[k + 1..]) else [];
        match ParseLine(line) {
          case Ignored =>
          case SectionLine(name) => section := name;
          case EntryLine(name, value) => SetValue(section, name, value, false);
        }
        rest := if k < |rest| then rest[k + 1..] else [];
      }
    }

    /** `order` and `names` are the iteration orders of the two levels of maps. */
    method SaveText(order: seq<string>, names: map<string, seq<string>>) returns (text: string)
      ensures text == Save(sections, order, names)
    {
      text := "";
      assert order[..0] == [];
      for k := 0 to |order|
        invariant text == Save(sections, order[..k], names)
      {
        var s := order[k];
        var block := SaveSection(s, SectionOf(sections, s), NamesOf(names, s));
        assert order[..k + 1][..k] == order[..k];
        UnlinesConcat(SavedLines(sections, order[..k], names), Block(s, SectionOf(sections, s), NamesOf(names, s)));
        text := text + block;
      }
      assert order[..|order|] == order;
    }

    /** A saved database, loaded into a new one. */
    method Reload(order: seq<string>, names: map<string, seq<string>>) returns (copy: Database)
      requires Orders(sections, order, names)
      requires forall i, j :: 0 <= i < j < |order| ==> Less(order[i], order[j])
      ensures fresh(copy)
      ensures copy.sections == Persistent(sections) <==> GoodNames(sections) && GoodValues(sections)
    {
      hide Load, Save, GoodNames, GoodValues, Persistent, Orders;
      var text := SaveText(order, names);
      copy := new Database();
      copy.LoadText(text);
      SaveLoadRoundTrip(sections, order, names);
    }
  }
}
