/** Options with a global entry and a per-game entry, and what a game's settings come back as. */
module Settings {
  import opened Bytes
  import opened OptionCodec
  import Ini

  // ---------------------------------------------------------------- the database, entry by entry

  function EntryAt(db: Ini.Db, section: string, name: string): Option<Ini.Entry> {
    if section in db && name in db[section] then Some(db[section][name]) else None
  }

  function DeleteEntry(db: Ini.Db, section: string, name: string): Ini.Db {
    if section in db then db[section := db[section] - {name}] else db
  }

  function Text(e: Ini.Entry): string {
    if e.transient then e.transientValue else e.value
  }

  /** A value loaded from an entry; a missing entry leaves the current value. */
  function ValueAt(e: Option<Ini.Entry>, current: Value): Value {
    match e
    case None => current
    case Some(entry) => Parse(current, Text(entry))
  }

  function LoadValue(db: Ini.Db, section: string, name: string, current: Value): Value {
    match Ini.GetRaw(db, section, name)
    case None => current
    case Some(text) => Parse(current, text)
  }

  lemma LoadIsByEntry(db: Ini.Db, section: string, name: string, current: Value)
    ensures LoadValue(db, section, name, current) == ValueAt(EntryAt(db, section, name), current)
  {
    hide Parse;
  }

  function Written(e: Option<Ini.Entry>, text: string): Ini.Entry {
    if e.Some? then e.value.(value := text) else Ini.Entry(text, "", false)
  }

  lemma WriteEntry(db: Ini.Db, section: string, name: string, text: string, s: string, n: string)
    ensures EntryAt(Ini.SetRaw(db, section, name, text, false), s, n)
         == if s == section && n == name then Some(Written(EntryAt(db, section, name), text)) else EntryAt(db, s, n)
  {
  }

  lemma RemoveEntry(db: Ini.Db, section: string, name: string, s: string, n: string)
    ensures EntryAt(DeleteEntry(db, section, name), s, n)
         == if s == section && n == name then None else EntryAt(db, s, n)
  {
  }

  // ---------------------------------------------------------------- one option

  datatype Opt = Opt(section: string, name: string, perGame: bool,
                     value: Value, defaultValue: Value, overriddenDefault: Value, overridden: bool)

  predicate WellTyped(o: Opt) {
    SameKind(o.value, o.defaultValue)
  }

  function Key(o: Opt): string {
    o.section + "." + o.name
  }

  function ResetOption(o: Opt): Opt {
    o.(value := o.defaultValue, overridden := false)
  }

  predicate IsTransient(db: Ini.Db, section: string, name: string) {
    section in db && name in db[section] && db[section][name].transient
  }

  function LoadOption(o: Opt, gameId: string, perGameConfig: bool, db: Ini.Db): Opt {
    if o.perGame && perGameConfig then o.(value := LoadValue(db, gameId, Key(o), o.value))
    else
      var v := LoadValue(db, o.section, o.name, o.value);
      if IsTransient(db, o.section, o.name) then o.(value := v, overriddenDefault := v, overridden := true)
      else o.(value := v)
  }

  function SaveOption(o: Opt, gameId: string, perGameConfig: bool, db: Ini.Db): Ini.Db {
    var game := o.perGame && perGameConfig;
    if o.overridden && (o.value == o.overriddenDefault || !perGameConfig) then db
    else if !o.overridden && game && o.value == LoadValue(db, o.section, o.name, o.value) then
      DeleteEntry(db, gameId, Key(o))
    else if game then Ini.SetRaw(db, gameId, Key(o), Show(o.value), false)
    else Ini.SetRaw(db, o.section, o.name, Show(o.value), false)
  }

  // ---------------------------------------------------------------- all options

  function ResetAll(options: seq<Opt>): seq<Opt> {
    seq(|options|, i requires 0 <= i < |options| => ResetOption(options[i]))
  }

  function LoadAll(options: seq<Opt>, gameId: string, perGameConfig: bool, db: Ini.Db): seq<Opt> {
    seq(|options|, i requires 0 <= i < |options| => LoadOption(options[i], gameId, perGameConfig, db))
  }

  function SaveAll(options: seq<Opt>, gameId: string, perGameConfig: bool, db: Ini.Db): Ini.Db {
    if options == [] then db
    else
      var n := |options| - 1;
      SaveOption(options[n], gameId, perGameConfig, SaveAll(options[..n], gameId, perGameConfig, db))
  }

  /** The options of the emulator and the configuration they are kept in. */
  class Settings {
    var options: seq<Opt>
    var gameId: string
    var perGameConfig: bool
    var db: Ini.Db

    constructor (options: seq<Opt>, db: Ini.Db)
      ensures this.options == options && this.db == db && gameId == "" && !perGameConfig
    {
      this.options, this.db := options, db;
      gameId, perGameConfig := "", false;
    }

    method Reset()
      modifies this
      ensures options == ResetAll(old(options)) && gameId == "" && !perGameConfig && db == old(db)
    {
      for k := 0 to |options|
        invariant |options| == |old(options)| && db == old(db)
        invariant forall i :: 0 <= i < |options| ==>
          options[i] == if i < k then ResetOption(old(options)[i]) else old(options)[i]
      {
        options := options[k := options[k].(value := options[k].defaultValue, overridden := false)];
      }
      gameId, perGameConfig := "", false;
    }

    method Load(gameSpecific: bool)
      modifies this
      ensures gameId == old(gameId) && db == old(db)
      ensures gameSpecific && (gameId == "" || gameId !in db) ==>
        options == old(options) && perGameConfig == old(perGameConfig)
      ensures !(gameSpecific && (gameId == "" || gameId !in db)) ==>
        && perGameConfig == (gameSpecific || old(perGameConfig))
        && options == LoadAll(old(options), gameId, perGameConfig, db)
    {
      hide LoadOption;
      if gameSpecific {
        if gameId == "" || gameId !in db {
          return;
        }
        perGameConfig := true;
      }
      for k := 0 to |options|
        invariant |options| == |old(options)| && gameId == old(gameId) && db == old(db)
        invariant perGameConfig == (gameSpecific || old(perGameConfig))
        invariant forall i :: 0 <= i < |options| ==>
          options[i] == if i < k then LoadOption(old(options)[i], gameId, perGameConfig, db) else old(options)[i]
      {
        options := options[k := LoadOption(options[k], gameId, perGameConfig, db)];
      }
    }

    method Save()
      modifies this`db
      ensures db == SaveAll(options, gameId, perGameConfig, old(db))
    {
      assert options[..0] == [];
      for k := 0 to |options|
        invariant db == SaveAll(options[..k], gameId, perGameConfig, old(db))
      {
        assert options[..k + 1][..k] == options[..k];
        db := SaveOption(options[k], gameId, perGameConfig, db);
      }
      assert options[..|options|] == options;
    }

    method SetGameId(id: string)
      modifies this`gameId
      ensures gameId == id
    {
      gameId := id;
    }

    /** Turning the game's own settings off forgets them. */
    method SetPerGameConfig(on: bool)
      modifies this
      ensures on ==> perGameConfig && options == old(options) && gameId == old(gameId) && db == old(db)
      ensures !on ==>
        && options == ResetAll(old(options)) && gameId == "" && !perGameConfig
        && db == if old(gameId) == "" then old(db) else old(db) - {old(gameId)}
    {
      perGameConfig := on;
      if !on {
        if gameId != "" {
          db := db - {gameId};
        }
        Reset();
      }
    }

    /** A game's settings are saved, everything is reset, and the game is started again. */
    method SaveAndRestart()
      requires perGameConfig && gameId != ""
      modifies this
      ensures db == SaveAll(old(options), gameId, true, old(db)) && gameId == old(gameId)
      ensures options == Restarted(old(options), gameId, db)
    {
      var id := gameId;
      Save();
      Reset();
      Load(false);
      SetGameId(id);
      Load(true);
    }
  }

  function Restarted(options: seq<Opt>, gameId: string, db: Ini.Db): seq<Opt> {
    var loaded := LoadAll(ResetAll(options), "", false, db);
    if gameId !in db then loaded else LoadAll(loaded, gameId, true, db)
  }

  // ---------------------------------------------------------------- what a save writes

  /** The entry that saving in per-game mode may change. */
  function Slot(o: Opt, gameId: string): (string, string) {
    if o.perGame then (gameId, Key(o)) else (o.section, o.name)
  }

  /** No two options share an entry, and no per-game entry is some option's global one. */
  ghost predicate Separate(options: seq<Opt>, gameId: string) {
    && (forall i, j :: 0 <= i < j < |options| ==> Slot(options[i], gameId) != Slot(options[j], gameId))
    && (forall i, j :: 0 <= i < |options| && 0 <= j < |options| && i != j ==>
          (options[i].section, options[i].name) != Slot(options[j], gameId))
    && (forall i :: 0 <= i < |options| && options[i].perGame ==>
          (options[i].section, options[i].name) != (gameId, Key(options[i])))
  }

  function At(db: Ini.Db, slot: (string, string)): Option<Ini.Entry> {
    EntryAt(db, slot.0, slot.1)
  }

  /** What the entry of an option that is not overridden is after the save. */
  function Saved(o: Opt, gameId: string, db: Ini.Db): Option<Ini.Entry> {
    if o.perGame && o.value == ValueAt(EntryAt(db, o.section, o.name), o.value) then None
    else Some(Written(At(db, Slot(o, gameId)), Show(o.value)))
  }

  lemma SaveOneOption(o: Opt, gameId: string, db: Ini.Db, slot: (string, string))
    requires !o.overridden
    ensures At(SaveOption(o, gameId, true, db), slot)
         == if slot == Slot(o, gameId) then Saved(o, gameId, db) else At(db, slot)
  {
    hide Show, Parse, Ini.SetRaw, DeleteEntry, EntryAt, LoadValue, Key;
    LoadIsByEntry(db, o.section, o.name, o.value);
    WriteEntry(db, gameId, Key(o), Show(o.value), slot.0, slot.1);
    WriteEntry(db, o.section, o.name, Show(o.value), slot.0, slot.1);
    RemoveEntry(db, gameId, Key(o), slot.0, slot.1);
  }

  /** After a save each option's entry is as if it had been saved alone, and no other entry has changed. */
  lemma {:induction false} SaveAllEntries(options: seq<Opt>, gameId: string, db: Ini.Db, k: nat, slot: (string, string))
    requires Separate(options, gameId) && k <= |options|
    requires forall i :: 0 <= i < |options| ==> !options[i].overridden
    ensures (forall i :: 0 <= i < k ==> slot != Slot(options[i], gameId)) ==>
      At(SaveAll(options[..k], gameId, true, db), slot) == At(db, slot)
    ensures forall i :: 0 <= i < k && slot == Slot(options[i], gameId) ==>
      At(SaveAll(options[..k], gameId, true, db), slot) == Saved(options[i], gameId, db)
    decreases k, 0
  {
    hide SaveOption, At, Saved, Slot;
    if k == 0 {
    } else {
      var n := k - 1;
      var o := options[n];
      var before := SaveAll(options[..n], gameId, true, db);
      assert options[..k][..n] == options[..n];
      SaveAllEntries(options, gameId, db, n, slot);
      SaveOneOption(o, gameId, before, slot);
      SavedSame(options, gameId, db, n);
    }
  }

  /** Saving the options before it does not change what an option saves. */
  lemma {:induction false} SavedSame(options: seq<Opt>, gameId: string, db: Ini.Db, n: nat)
    requires Separate(options, gameId) && n < |options|
    requires forall i :: 0 <= i < |options| ==> !options[i].overridden
    ensures Saved(options[n], gameId, SaveAll(options[..n], gameId, true, db)) == Saved(options[n], gameId, db)
    decreases n, 1
  {
    hide SaveAll, Show, Key;
    var o := options[n];
    SaveAllEntries(options, gameId, db, n, Slot(o, gameId));
    SaveAllEntries(options, gameId, db, n, (o.section, o.name));
  }

  // ---------------------------------------------------------------- what comes back

  /** The global entry gives the option a value of its own. */
  predicate GivesValue(e: Option<Ini.Entry>, kind: Value) {
    e.Some? && (kind.IntValue? ==> Ini.SkipSpaces(Text(e.value), 0) < |Text(e.value)|)
  }

  lemma GivesValueMeans(e: Option<Ini.Entry>, a: Value, b: Value)
    requires SameKind(a, b)
    ensures GivesValue(e, a) == GivesValue(e, b)
    ensures GivesValue(e, a) ==> ValueAt(e, a) == ValueAt(e, b)
    ensures !GivesValue(e, a) ==> ValueAt(e, a) == a
  {
    if e.Some? {
      Ini.SkipSpacesFound(Text(e.value), 0);
    }
  }

  ghost predicate Plain(options: seq<Opt>, gameId: string, db: Ini.Db) {
    forall i :: 0 <= i < |options| ==>
      && !options[i].overridden && WellTyped(options[i])
      && !IsTransient(db, options[i].section, options[i].name)
      && !IsTransient(db, gameId, Key(options[i]))
  }

  function RestartedOption(o: Opt, gameId: string, db: Ini.Db): Opt {
    var first := LoadOption(ResetOption(o), "", false, db);
    if gameId !in db then first else LoadOption(first, gameId, true, db)
  }

  lemma RestartedAt(options: seq<Opt>, gameId: string, db: Ini.Db, i: nat)
    requires i < |options|
    ensures |Restarted(options, gameId, db)| == |options|
    ensures Restarted(options, gameId, db)[i] == RestartedOption(options[i], gameId, db)
  {
    hide LoadOption;
  }

  /** What a restart gives one option, entry by entry. */
  lemma RestartedValue(o: Opt, gameId: string, db: Ini.Db)
    ensures var global := ValueAt(EntryAt(db, o.section, o.name), o.defaultValue);
      RestartedOption(o, gameId, db).value ==
        (if o.perGame then ValueAt(EntryAt(db, gameId, Key(o)), global)
         else if gameId !in db then global
         else ValueAt(EntryAt(db, o.section, o.name), global))
  {
    hide Parse, LoadValue;
    var global := ValueAt(EntryAt(db, o.section, o.name), o.defaultValue);
    LoadIsByEntry(db, o.section, o.name, o.defaultValue);
    LoadIsByEntry(db, gameId, Key(o), global);
    LoadIsByEntry(db, o.section, o.name, global);
  }

  /** A value written to an entry that is not transient is what any option of its type loads from it. */
  lemma WrittenComesBack(e: Option<Ini.Entry>, v: Value, current: Value)
    requires e.Some? ==> !e.value.transient
    requires SameKind(v, current)
    ensures ValueAt(Some(Written(e, Show(v))), current) == v
  {
    hide Show, Parse;
    ValueRoundTrip(current, v);
  }

  lemma ValueKeepsKind(e: Option<Ini.Entry>, current: Value)
    ensures SameKind(ValueAt(e, current), current)
  {
  }

  /** One option, restarted from the entries that the save left. */
  lemma RestartOne(o: Opt, gameId: string, before: Ini.Db, after: Ini.Db)
    requires WellTyped(o) && !IsTransient(before, o.section, o.name) && !IsTransient(before, gameId, Key(o))
    requires At(after, Slot(o, gameId)) == Saved(o, gameId, before)
    requires o.perGame ==> EntryAt(after, o.section, o.name) == EntryAt(before, o.section, o.name)
    ensures RestartedOption(o, gameId, after).value == o.value <==> ComesBack(o, before)
  {
    hide Show, Parse, Key, GivesValue, RestartedOption, ValueAt, SameKind, Written;
    RestartedValue(o, gameId, after);
    var e := EntryAt(before, o.section, o.name);
    var was := At(before, Slot(o, gameId));
    var global := ValueAt(EntryAt(after, o.section, o.name), o.defaultValue);
    ValueKeepsKind(EntryAt(after, o.section, o.name), o.defaultValue);
    GivesValueMeans(e, o.value, o.defaultValue);
    assert SameKind(o.value, global) by { KindsAgree(o.value, o.defaultValue, global); }
    assert was.Some? ==> !was.value.transient;
    WrittenComesBack(was, o.value, global);
    WrittenComesBack(was, o.value, o.defaultValue);
    assert SameKind(o.defaultValue, o.value) by { KindsAgree(o.value, o.defaultValue, global); }
    GivesValueMeans(e, o.defaultValue, o.value);
    MissingGivesCurrent(global);
  }

  lemma MissingGivesCurrent(v: Value)
    ensures ValueAt(None, v) == v
  {
  }

  lemma KindsAgree(a: Value, b: Value, c: Value)
    requires SameKind(a, b) && SameKind(c, b)
    ensures SameKind(a, c) && SameKind(b, a)
  {
  }

  /** When an option's value is found again after a save and a restart. */
  predicate ComesBack(o: Opt, db: Ini.Db) {
    !o.perGame || GivesValue(EntryAt(db, o.section, o.name), o.value) || o.value == o.defaultValue
  }

  /**
   Saving a game's settings and starting it again restores a per-game option exactly when its global
   entry gives a value or the option had its default value, and always restores the other options.
   */
  lemma PerGameRoundTrip(options: seq<Opt>, gameId: string, db: Ini.Db, i: nat)
    requires gameId != "" && Separate(options, gameId) && Plain(options, gameId, db) && i < |options|
    ensures |Restarted(options, gameId, SaveAll(options, gameId, true, db))| == |options|
    ensures Restarted(options, gameId, SaveAll(options, gameId, true, db))[i].value == options[i].value
       <==> ComesBack(options[i], db)
  {
    hide SaveAll, LoadOption, GivesValue, Saved, IsTransient, EntryAt, At;
    var o, after := options[i], SaveAll(options, gameId, true, db);
    assert options[..|options|] == options;
    SaveAllEntries(options, gameId, db, |options|, Slot(o, gameId));
    if o.perGame {
      GlobalEntriesKept(options, gameId, db, o.section, o.name);
    }
    RestartOne(o, gameId, db, after);
  }

  /** Saving in per-game mode changes no global entry but those of options that have no per-game one. */
  lemma GlobalEntriesKept(options: seq<Opt>, gameId: string, db: Ini.Db, section: string, name: string)
    requires Separate(options, gameId)
    requires forall i :: 0 <= i < |options| ==> !options[i].overridden
    requires forall i :: 0 <= i < |options| ==> (section, name) != Slot(options[i], gameId)
    ensures EntryAt(SaveAll(options, gameId, true, db), section, name) == EntryAt(db, section, name)
  {
    hide SaveAll, EntryAt, Slot;
    assert options[..|options|] == options;
    SaveAllEntries(options, gameId, db, |options|, (section, name));
  }

  /** With a global entry for every option, every value comes back. */
  lemma AllValuesComeBack(options: seq<Opt>, gameId: string, db: Ini.Db)
    requires gameId != "" && Separate(options, gameId) && Plain(options, gameId, db)
    requires forall i :: 0 <= i < |options| && options[i].perGame ==>
      GivesValue(EntryAt(db, options[i].section, options[i].name), options[i].value)
    ensures var after := Restarted(options, gameId, SaveAll(options, gameId, true, db));
      |after| == |options| && forall i :: 0 <= i < |options| ==> after[i].value == options[i].value
  {
    hide SaveAll, Restarted, GivesValue, Separate, Plain;
    var after := Restarted(options, gameId, SaveAll(options, gameId, true, db));
    RestartedLength(options, gameId, SaveAll(options, gameId, true, db));
    forall i | 0 <= i < |options|
      ensures after[i].value == options[i].value
    {
      PerGameRoundTrip(options, gameId, db, i);
    }
  }

  lemma RestartedLength(options: seq<Opt>, gameId: string, db: Ini.Db)
    ensures |Restarted(options, gameId, db)| == |options|
  {
  }

  /** A setting changed for one game only is lost when the configuration has no global entry for it. */
  lemma LostWithoutGlobalEntry(gameId: string)
    requires gameId != "" && gameId != "config"
    ensures var o := Opt("config", "Dreamcast.Region", true, IntValue(2), IntValue(3), IntValue(0), false);
      var after := Restarted([o], gameId, SaveAll([o], gameId, true, map[]));
      |after| == 1 && after[0].value != IntValue(2)
  {
    var o := Opt("config", "Dreamcast.Region", true, IntValue(2), IntValue(3), IntValue(0), false);
    PerGameRoundTrip([o], gameId, map[], 0);
  }

  /** The options as loaded, with values changed since. */
  ghost predicate ChangedSince(options: seq<Opt>, changed: seq<Opt>, gameId: string, db: Ini.Db) {
    && |changed| == |options|
    && forall i :: 0 <= i < |options| ==>
      changed[i] == LoadOption(options[i], gameId, false, db).(value := changed[i].value)
  }

  lemma {:induction false} TransientEntryKept(options: seq<Opt>, changed: seq<Opt>, gameId: string, db: Ini.Db,
      k: nat, section: string, name: string)
    requires ChangedSince(options, changed, gameId, db) && IsTransient(db, section, name) && k <= |changed|
    ensures EntryAt(SaveAll(changed[..k], gameId, false, db), section, name) == EntryAt(db, section, name)
    decreases k
  {
    hide Show, Ini.SetRaw, LoadValue, EntryAt, DeleteEntry;
    if k == 0 {
      assert changed[..0] == [];
    } else {
      var n := k - 1;
      TransientEntryKept(options, changed, gameId, db, n, section, name);
      assert changed[..k][..n] == changed[..n];
      var o, before := changed[n], SaveAll(changed[..n], gameId, false, db);
      WriteEntry(before, o.section, o.name, Show(o.value), section, name);
      assert changed[n] == LoadOption(options[n], gameId, false, db).(value := changed[n].value);
    }
  }

  /**
   A value given for this session only: every option that has one starts with it, and whatever the
   values of the options are changed to, saving the global settings leaves its entry as it was.
   */
  lemma TransientValuesStayTransient(options: seq<Opt>, changed: seq<Opt>, gameId: string, db: Ini.Db,
      section: string, name: string)
    requires ChangedSince(options, changed, gameId, db) && IsTransient(db, section, name)
    ensures EntryAt(SaveAll(changed, gameId, false, db), section, name) == EntryAt(db, section, name)
    ensures forall i :: 0 <= i < |options| && options[i].section == section && options[i].name == name ==>
      LoadOption(options[i], gameId, false, db).value == Parse(options[i].value, db[section][name].transientValue)
  {
    hide SaveAll, Parse;
    assert changed[..|changed|] == changed;
    TransientEntryKept(options, changed, gameId, db, |changed|, section, name);
  }
}
