/**
 What saving the settings writes, in both modes and for options overridden for the session, and what
 is loaded afterwards.
 */
module SettingsSave {
  import opened Bytes
  import opened OptionCodec
  import opened Settings
  import Ini

  /** The entry that a save is about. */
  function SlotIn(o: Opt, gameId: string, perGameConfig: bool): (string, string) {
    if o.perGame && perGameConfig then (gameId, Key(o)) else (o.section, o.name)
  }

  function GlobalSlot(o: Opt): (string, string) {
    (o.section, o.name)
  }

  /** Every option has entries of its own. */
  ghost predicate Apart(options: seq<Opt>, gameId: string, perGameConfig: bool) {
    && (forall i, j :: 0 <= i < |options| && 0 <= j < |options| && i != j ==>
          && SlotIn(options[i], gameId, perGameConfig) != SlotIn(options[j], gameId, perGameConfig)
          && GlobalSlot(options[i]) != SlotIn(options[j], gameId, perGameConfig))
    && (forall i :: 0 <= i < |options| && options[i].perGame && perGameConfig ==>
          GlobalSlot(options[i]) != SlotIn(options[i], gameId, perGameConfig))
  }

  /** The value is the one that the global entry gives. */
  predicate LikeGlobal(o: Opt, db: Ini.Db) {
    o.value == ValueAt(At(db, GlobalSlot(o)), o.value)
  }

  /**
   The value is written: for an overridden option, in per-game mode if it differs from the overriding
   value; for any other one always, unless it has a per-game entry and is like the global one.
   */
  predicate IsSaved(o: Opt, perGameConfig: bool, db: Ini.Db) {
    if o.overridden then perGameConfig && o.value != o.overriddenDefault
    else o.perGame && perGameConfig ==> !LikeGlobal(o, db)
  }

  /** What a save leaves in the option's entry. */
  function Outcome(o: Opt, gameId: string, perGameConfig: bool, db: Ini.Db): Option<Ini.Entry> {
    var was := At(db, SlotIn(o, gameId, perGameConfig));
    if IsSaved(o, perGameConfig, db) then Some(Written(was, Show(o.value)))
    else if o.overridden then was
    else None
  }

  lemma SaveOne(o: Opt, gameId: string, perGameConfig: bool, db: Ini.Db, slot: (string, string))
    ensures At(SaveOption(o, gameId, perGameConfig, db), slot)
         == if slot == SlotIn(o, gameId, perGameConfig) then Outcome(o, gameId, perGameConfig, db) else At(db, slot)
  {
    hide Show, Parse, Ini.SetRaw, DeleteEntry, EntryAt, LoadValue, Key;
    LoadIsByEntry(db, o.section, o.name, o.value);
    WriteEntry(db, gameId, Key(o), Show(o.value), slot.0, slot.1);
    WriteEntry(db, o.section, o.name, Show(o.value), slot.0, slot.1);
    RemoveEntry(db, gameId, Key(o), slot.0, slot.1);
  }

  lemma {:induction false} SavedSoFar(
    options: seq<Opt>, gameId: string, perGameConfig: bool, db: Ini.Db, k: nat, slot: (string, string))
    requires Apart(options, gameId, perGameConfig) && k <= |options|
    ensures (forall i :: 0 <= i < k ==> slot != SlotIn(options[i], gameId, perGameConfig)) ==>
      At(SaveAll(options[..k], gameId, perGameConfig, db), slot) == At(db, slot)
    ensures forall i :: 0 <= i < k && slot == SlotIn(options[i], gameId, perGameConfig) ==>
      At(SaveAll(options[..k], gameId, perGameConfig, db), slot) == Outcome(options[i], gameId, perGameConfig, db)
    decreases k, 0
  {
    hide SaveOption, At, Outcome, SlotIn, GlobalSlot;
    if k == 0 {
      assert options[..0] == [];
    } else {
      var n := k - 1;
      var before := SaveAll(options[..n], gameId, perGameConfig, db);
      assert options[..k][..n] == options[..n];
      SavedSoFar(options, gameId, perGameConfig, db, n, slot);
      SaveOne(options[n], gameId, perGameConfig, before, slot);
      SameOutcome(options, gameId, perGameConfig, db, n);
    }
  }

  /** Saving the options before it does not change what becomes of an option. */
  lemma {:induction false} SameOutcome(options: seq<Opt>, gameId: string, perGameConfig: bool, db: Ini.Db, n: nat)
    requires Apart(options, gameId, perGameConfig) && n < |options|
    ensures Outcome(options[n], gameId, perGameConfig, SaveAll(options[..n], gameId, perGameConfig, db))
         == Outcome(options[n], gameId, perGameConfig, db)
    decreases n, 1
  {
    hide SaveAll, Show, At, SlotIn, GlobalSlot;
    SavedSoFar(options, gameId, perGameConfig, db, n, SlotIn(options[n], gameId, perGameConfig));
    SavedSoFar(options, gameId, perGameConfig, db, n, GlobalSlot(options[n]));
  }

  /** In either mode, what a save of all options leaves in each entry; entries of no option stay as they were. */
  lemma SaveOutcomes(options: seq<Opt>, gameId: string, perGameConfig: bool, db: Ini.Db, slot: (string, string))
    requires Apart(options, gameId, perGameConfig)
    ensures var after := SaveAll(options, gameId, perGameConfig, db);
      && ((forall i :: 0 <= i < |options| ==> slot != SlotIn(options[i], gameId, perGameConfig)) ==>
            At(after, slot) == At(db, slot))
      && (forall i :: 0 <= i < |options| && slot == SlotIn(options[i], gameId, perGameConfig) ==>
            At(after, slot) == Outcome(options[i], gameId, perGameConfig, db))
  {
    hide SaveAll, At, Outcome, SlotIn, Apart;
    assert options[..|options|] == options;
    SavedSoFar(options, gameId, perGameConfig, db, |options|, slot);
  }

  // ---------------------------------------------------------------- global settings

  lemma LoadedValue(o: Opt, gameId: string, db: Ini.Db)
    ensures LoadOption(o, gameId, false, db).value == ValueAt(At(db, GlobalSlot(o)), o.value)
  {
    hide Parse, LoadValue;
    LoadIsByEntry(db, o.section, o.name, o.value);
  }

  /**
   Saving the global settings, resetting every option and loading them again restores each value that
   is not overridden, and leaves the entry of each overridden option alone.
   */
  lemma GlobalRoundTrip(options: seq<Opt>, gameId: string, db: Ini.Db, i: nat)
    requires Apart(options, gameId, false) && i < |options| && WellTyped(options[i])
    requires !options[i].overridden ==> !IsTransient(db, options[i].section, options[i].name)
    ensures var after, o := SaveAll(options, gameId, false, db), options[i];
      && (!o.overridden ==> LoadAll(ResetAll(options), gameId, false, after)[i].value == o.value)
      && (o.overridden ==> At(after, GlobalSlot(o)) == At(db, GlobalSlot(o)))
  {
    var o, after := options[i], SaveAll(options, gameId, false, db);
    var was := At(db, GlobalSlot(o));
    assert !o.overridden ==> (was.Some? ==> !was.value.transient);
    hide SaveAll, LoadOption, At, Written, ValueAt, Show, IsTransient, Apart;
    SaveOutcomes(options, gameId, false, db, GlobalSlot(o));
    LoadedValue(ResetOption(o), gameId, after);
    if !o.overridden {
      KindsAgree(o.value, o.defaultValue, o.value);
      WrittenComesBack(was, o.value, o.defaultValue);
    }
  }

  /** And no other entry has changed. */
  lemma GlobalSaveLeavesOthers(options: seq<Opt>, gameId: string, db: Ini.Db, slot: (string, string))
    requires Apart(options, gameId, false)
    requires forall i :: 0 <= i < |options| ==> slot != GlobalSlot(options[i])
    ensures At(SaveAll(options, gameId, false, db), slot) == At(db, slot)
  {
    hide SaveAll, At, Outcome, Apart;
    SaveOutcomes(options, gameId, false, db, slot);
  }

  // ---------------------------------------------------------------- overridden options in per-game mode

  /** The value that the session gives to an option, as it was loaded. */
  predicate OverriddenBy(o: Opt, db: Ini.Db) {
    && o.overridden && o.perGame && WellTyped(o)
    && ValueAt(At(db, GlobalSlot(o)), o.defaultValue) == o.overriddenDefault
  }

  /**
   An overridden option whose value was changed for a game comes back when the game is started again.
   One that was changed back to the overriding value comes back only if the game's entry, which is not
   deleted then, is missing or gives that value.
   */
  lemma OverriddenComesBack(options: seq<Opt>, gameId: string, db: Ini.Db, i: nat)
    requires gameId != "" && Apart(options, gameId, true) && i < |options| && OverriddenBy(options[i], db)
    requires !IsTransient(db, gameId, Key(options[i]))
    ensures var o, after := options[i], SaveAll(options, gameId, true, db);
      && |Restarted(options, gameId, after)| == |options|
      && (Restarted(options, gameId, after)[i].value == o.value <==>
            o.value != o.overriddenDefault || ValueAt(EntryAt(db, gameId, Key(o)), o.value) == o.value)
  {
    var o, after := options[i], SaveAll(options, gameId, true, db);
    var was := At(db, SlotIn(o, gameId, true));
    assert was.Some? ==> !was.value.transient;
    hide SaveAll, LoadOption, Written, ValueAt, Show, IsTransient, Apart, Key, EntryAt;
    SaveOutcomes(options, gameId, true, db, SlotIn(o, gameId, true));
    GlobalSlotKept(options, gameId, db, i);
    RestartedValue(o, gameId, after);
    RestartedAt(options, gameId, after, i);
    hide SlotIn, RestartedOption;
    assert RestartedOption(o, gameId, after).value == ValueAt(At(after, (gameId, Key(o))), o.overriddenDefault);
    OverriddenKind(o, db);
    WrittenComesBack(was, o.value, o.overriddenDefault);
  }

  lemma GlobalSlotKept(options: seq<Opt>, gameId: string, db: Ini.Db, i: nat)
    requires Apart(options, gameId, true) && i < |options| && options[i].perGame
    ensures At(SaveAll(options, gameId, true, db), GlobalSlot(options[i])) == At(db, GlobalSlot(options[i]))
  {
    hide SaveAll, At, Outcome, SlotIn, GlobalSlot;
    SaveOutcomes(options, gameId, true, db, GlobalSlot(options[i]));
  }

  lemma OverriddenKind(o: Opt, db: Ini.Db)
    requires OverriddenBy(o, db)
    ensures SameKind(o.value, o.overriddenDefault)
  {
    ValueKeepsKind(At(db, GlobalSlot(o)), o.defaultValue);
    KindsAgree(o.value, o.defaultValue, o.overriddenDefault);
  }
}
