/** A game's settings through the configuration file: saved, written, read by a new process, loaded. */
module SettingsFile {
  import opened Bytes
  import opened OptionCodec
  import opened Settings
  import Ini
  import IniFile

  /** The entry that a saved entry is read back as. */
  function FromFile(e: Option<Ini.Entry>): Option<Ini.Entry> {
    if e.Some? && IniFile.Saved(e.value) then Some(IniFile.Reread(e.value)) else None
  }

  lemma ReloadedEntry(db: Ini.Db, section: string, name: string)
    ensures EntryAt(IniFile.Reloaded(db), section, name) == FromFile(EntryAt(db, section, name))
  {
    hide IniFile.Saved, IniFile.Reread;
    if section in db && name in db[section] && IniFile.Saved(db[section][name]) {
      assert name in IniFile.KeptMap(db[section]);
    }
  }

  /** The text of a boolean or a number does not start with a quote. */
  lemma ShownIsGood(v: Value)
    ensures !v.TextValue? ==> Ini.GoodValue(Show(v))
  {
    hide Digits;
    match v {
      case BoolValue(_) =>
      case IntValue(n) =>
        DigitsAreDigits(if n < 0 then 0 - n else n);
      case TextValue(_) =>
    }
  }

  /** A value read back from the file is the one written exactly when its text does not start with a quote. */
  lemma ParsedBack(current: Value, v: Value)
    requires SameKind(v, current)
    ensures Parse(current, Ini.ParseValue(" " + Show(v))) == v <==> Ini.GoodValue(Show(v))
  {
    hide Ini.ParseValue, Ini.GoodValue;
    Ini.ValueComesBack(Show(v));
    ShownIsGood(v);
    if Ini.GoodValue(Show(v)) {
      ValueRoundTrip(current, v);
    }
  }

  /** The save writes an entry for the option: it has no per-game entry, or differs from the global one. */
  predicate IsWritten(o: Opt, db: Ini.Db) {
    !o.perGame || o.value != ValueAt(EntryAt(db, o.section, o.name), o.value)
  }

  /**
   When an option's value is found again in the file: a value that was written, if its text does
   not start with a quote; otherwise, if the global entry gives it as read back, or if there is
   none and it is the default.
   */
  predicate FoundAgain(o: Opt, db: Ini.Db) {
    if IsWritten(o, db) then Ini.GoodValue(Show(o.value))
    else ValueAt(FromFile(EntryAt(db, o.section, o.name)), o.defaultValue) == o.value
  }

  /** What a new process finds of an entry that the save wrote. */
  lemma WrittenFromFile(e: Option<Ini.Entry>, v: Value, current: Value)
    requires e.Some? ==> !e.value.transient
    requires SameKind(v, current)
    ensures ValueAt(FromFile(Some(Written(e, Show(v)))), current) == v <==> Ini.GoodValue(Show(v))
  {
    hide Show, Parse, Ini.ParseValue, Ini.GoodValue;
    ParsedBack(current, v);
  }

  lemma RestartFromEntries(o: Opt, gameId: string, before: Ini.Db, after: Ini.Db, file: Ini.Db)
    requires WellTyped(o) && !IsTransient(before, o.section, o.name) && !IsTransient(before, gameId, Key(o))
    requires At(after, Slot(o, gameId)) == Saved(o, gameId, before)
    requires o.perGame ==> EntryAt(after, o.section, o.name) == EntryAt(before, o.section, o.name)
    requires At(file, Slot(o, gameId)) == FromFile(At(after, Slot(o, gameId)))
    requires EntryAt(file, o.section, o.name) == FromFile(EntryAt(after, o.section, o.name))
    ensures RestartedOption(o, gameId, file).value == o.value <==> FoundAgain(o, before)
  {
    hide Show, Parse, Key, RestartedOption, ValueAt, SameKind, Written, FromFile, Ini.GoodValue;
    RestartedValue(o, gameId, file);
    var was := At(before, Slot(o, gameId));
    var entry := EntryAt(file, o.section, o.name);
    var global := ValueAt(entry, o.defaultValue);
    ValueKeepsKind(entry, o.defaultValue);
    assert SameKind(o.value, global) by { KindsAgree(o.value, o.defaultValue, global); }
    assert was.Some? ==> !was.value.transient;
    if IsWritten(o, before) {
      WrittenFromFile(was, o.value, global);
      WrittenFromFile(was, o.value, o.defaultValue);
    } else {
      NoneFromFile();
      MissingGivesCurrent(global);
    }
  }

  lemma NoneFromFile()
    ensures FromFile(None) == None
  {
  }

  /**
   Saving a game's settings, writing the configuration, and starting the game in a new process that
   reads the file restores an option exactly when `FoundAgain` says so. A game section left without
   entries is not in the file.
   */
  lemma FileRoundTrip(options: seq<Opt>, gameId: string, db: Ini.Db, order: seq<string>,
      names: map<string, seq<string>>, i: nat)
    requires gameId != "" && Separate(options, gameId) && Plain(options, gameId, db) && i < |options|
    requires var after := SaveAll(options, gameId, true, db);
      IniFile.GoodNames(after) && IniFile.Orders(after, order, names)
    requires forall i, j :: 0 <= i < j < |order| ==> IniFile.Less(order[i], order[j])
    ensures var file := IniFile.Load(map[], IniFile.Save(SaveAll(options, gameId, true, db), order, names));
      && |Restarted(options, gameId, file)| == |options|
      && (Restarted(options, gameId, file)[i].value == options[i].value <==> FoundAgain(options[i], db))
  {
    hide *;
    var after := SaveAll(options, gameId, true, db);
    IniFile.SortedPutsUnnamedFirst(order);
    IniFile.LoadOfSave(after, order, names);
    RestartFromReloaded(options, gameId, db, i);
    RestartedAt(options, gameId, IniFile.Reloaded(after), i);
  }

  lemma RestartFromReloaded(options: seq<Opt>, gameId: string, db: Ini.Db, i: nat)
    requires gameId != "" && Separate(options, gameId) && Plain(options, gameId, db) && i < |options|
    ensures RestartedOption(options[i], gameId, IniFile.Reloaded(SaveAll(options, gameId, true, db))).value
         == options[i].value
       <==> FoundAgain(options[i], db)
  {
    hide SaveAll, Saved, IsTransient, EntryAt, IniFile.Reloaded, FoundAgain, FromFile, RestartedOption;
    var o, after := options[i], SaveAll(options, gameId, true, db);
    assert options[..|options|] == options;
    SaveAllEntries(options, gameId, db, |options|, Slot(o, gameId));
    if o.perGame {
      GlobalEntriesKept(options, gameId, db, o.section, o.name);
    }
    ReloadedEntry(after, o.section, o.name);
    ReloadedEntry(after, Slot(o, gameId).0, Slot(o, gameId).1);
    RestartFromEntries(o, gameId, db, after, IniFile.Reloaded(after));
  }

  /** With a global entry whose text the file keeps, the file changes nothing about what comes back. */
  lemma FileKeepsWhatComesBack(o: Opt, db: Ini.Db)
    requires WellTyped(o) && !IsTransient(db, o.section, o.name)
    requires Ini.GoodValue(Show(o.value))
    requires EntryAt(db, o.section, o.name).Some? ==> Ini.GoodValue(EntryAt(db, o.section, o.name).value.value)
    ensures FoundAgain(o, db) <==> ComesBack(o, db)
  {
    var e := EntryAt(db, o.section, o.name);
    hide Show, Parse, GivesValue, SameKind, Ini.ParseValue, Ini.GoodValue;
    GivesValueMeans(e, o.value, o.defaultValue);
    if e.Some? {
      Ini.ValueComesBack(e.value.value);
    }
    assert SameKind(o.defaultValue, o.value) by { KindsAgree(o.value, o.defaultValue, o.value); }
    GivesValueMeans(e, o.defaultValue, o.value);
  }
}
