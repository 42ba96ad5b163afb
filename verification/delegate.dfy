/** `MyDelegate::command`, src/structs.rs:38-112: on `SAVE_FILE_AS` with a
    path, rebuild the mod list from the preset's two name lists, sort it,
    report missing required mods and write the formatted list. */
module Delegate {
  import opened Wrappers
  import Dlc
  import ModName
  import StableSort
  import Required
  import Format

  /** The application state shown in the window, src/structs.rs:9-14. */
  datatype ModListInfo = ModListInfo(mods: string, backticks: bool, missingMods: string)

  /** The delegate's state, src/structs.rs:16-21, with the shared buffers
      as plain values. */
  datatype MyDelegate = MyDelegate(
    modList: seq<string>,
    dlcPrefixes: map<string, string>,
    ignoredMods: seq<string>)

  /** What the two HTML selectors yield: the DLC display names and the
      community mod display names, in document order. */
  datatype Preset = Preset(dlcNames: seq<string>, modNames: seq<string>)

  /** The commands the delegate can receive: `SAVE_FILE_AS`, carrying the
      preset read from the chosen path when there is one, or anything else. */
  datatype Command = SaveFileAs(preset: Option<Preset>) | OtherCommand

  datatype Handled = Yes | No

  /** The buffer before sorting: DLC identifiers, then the kept community
      identifiers. */
  function Unsorted(preset: Preset, table: map<string, string>, ignored: seq<string>): (u: seq<string>)
    ensures |u| <= |preset.dlcNames| + |preset.modNames|
    ensures forall i :: 0 <= i < |u| && u[i] in ignored ==> u[i] in table.Values
  {
    Dlc.Resolve(preset.dlcNames, table) + ModName.Community(preset.modNames, ignored)
  }

  /** The sorted mod list of src/structs.rs:54-90. */
  function CompileModList(preset: Preset, table: map<string, string>, ignored: seq<string>): (modList: seq<string>)
    ensures StableSort.SortedByKey(modList)
  {
    StableSort.SortByKey(Unsorted(preset, table, ignored))
  }

  /** The sorted list is a stable rearrangement of the DLC identifiers
      followed by the kept community identifiers: nothing is added, lost or
      merged, and the ignore list removes community identifiers only. */
  lemma CompileModListFacts(preset: Preset, table: map<string, string>, ignored: seq<string>)
    ensures StableSort.Stable(Unsorted(preset, table, ignored), CompileModList(preset, table, ignored))
    ensures multiset(CompileModList(preset, table, ignored))
            == multiset(Dlc.Resolve(preset.dlcNames, table)) + multiset(ModName.Community(preset.modNames, ignored))
    ensures forall x :: x in ignored ==>
              multiset(CompileModList(preset, table, ignored))[x] == multiset(Dlc.Resolve(preset.dlcNames, table))[x]
  {
    StableSort.SortByKeyStable(Unsorted(preset, table, ignored));
    ModName.CommunityExcludesIgnored(preset.modNames, ignored);
  }

  /** The command handler as a function of the delegate state, the window
      state and the command, giving the new delegate state, the new window
      state and whether the command was handled. */
  function Run(d: MyDelegate, data: ModListInfo, cmd: Command, required: seq<string>)
    : (r: (MyDelegate, ModListInfo, Handled))
    ensures cmd.OtherCommand? ==> r == (d, data, No)
    ensures cmd.SaveFileAs? ==> r.2 == Yes
    ensures cmd.SaveFileAs? && cmd.preset.None? ==> r.0 == d && r.1 == data
    ensures r.0.dlcPrefixes == d.dlcPrefixes && r.0.ignoredMods == d.ignoredMods
    ensures r.1.backticks == data.backticks
  {
    match cmd
    case OtherCommand => (d, data, No)
    case SaveFileAs(None) => (d, data, Yes)
    case SaveFileAs(Some(preset)) =>
      var modList := CompileModList(preset, d.dlcPrefixes, d.ignoredMods);
      var data' := data.(
        missingMods := Required.UpdateMissingMods(data.missingMods, required, modList),
        mods := Format.ModsText(modList, data.backticks));
      (d.(modList := modList), data', Yes)
  }

  /** What handling `SAVE_FILE_AS` with a preset writes: the delegate's
      list becomes the compiled list, `mods` its `;`-join (fenced when
      `backticks` is set), and `missing_mods` the diagnostic when a required
      mod is absent, or what it was before when none is. */
  lemma RunSaveFileAs(d: MyDelegate, data: ModListInfo, preset: Preset, required: seq<string>)
    ensures var r := Run(d, data, SaveFileAs(Some(preset)), required);
            var modList := CompileModList(preset, d.dlcPrefixes, d.ignoredMods);
            && r.0.modList == modList
            && (data.backticks ==> Format.Unfence(r.1.mods) == Some(Format.Join(modList, ";")))
            && (!data.backticks ==> r.1.mods == Format.Join(modList, ";"))
            && ((forall x :: x in required ==> x in modList) ==> r.1.missingMods == data.missingMods)
            && ((exists x :: x in required && x !in modList) ==>
                  r.1.missingMods == Required.MessagePrefix
                                     + Format.Join(Required.Missing(required, modList), ", "))
  {
  }

  /** The buffer is cleared first (src/structs.rs:55): what it held before
      has no effect on the outcome. */
  lemma RunIgnoresPreviousBuffer(d: MyDelegate, other: seq<string>, data: ModListInfo, cmd: Command, required: seq<string>)
    requires cmd.SaveFileAs? && cmd.preset.Some?
    ensures Run(d, data, cmd, required) == Run(d.(modList := other), data, cmd, required)
  {
  }

  /** Handling the same command twice leaves the same state as handling it
      once: the list is rebuilt identically and a stale diagnostic is only
      ever rewritten to the same text. */
  lemma RunIdempotent(d: MyDelegate, data: ModListInfo, cmd: Command, required: seq<string>)
    ensures var (d1, data1, _) := Run(d, data, cmd, required);
            Run(d1, data1, cmd, required) == Run(d, data, cmd, required)
  {
  }

  /** src/structs.rs:54-90 as statements: a cleared buffer, the DLC loop,
      the community loop and the sort. */
  method BuildModList(preset: Preset, table: map<string, string>, ignored: seq<string>)
    returns (buffer: seq<string>)
    ensures buffer == CompileModList(preset, table, ignored)
  {
    buffer := [];
    buffer := Dlc.PushResolved(buffer, preset.dlcNames, table);
    buffer := ModName.PushCommunity(buffer, preset.modNames, ignored);
    assert buffer == Unsorted(preset, table, ignored);
    buffer := StableSort.SortByKey(buffer);
  }

  /** src/structs.rs:92-106 as statements: the required-mods loop, the
      diagnostic and the formatted list. */
  method Publish(data: ModListInfo, modList: seq<string>, required: seq<string>)
    returns (data': ModListInfo)
    ensures data' == data.(
              missingMods := Required.UpdateMissingMods(data.missingMods, required, modList),
              mods := Format.ModsText(modList, data.backticks))
  {
    data' := data;
    var missing := Required.CollectMissing(required, modList);
    if |missing| > 0 {
      data' := data'.(missingMods := Required.MessagePrefix + Format.Join(missing, ", "));
    }
    if data.backticks {
      data' := data'.(mods := Format.Fenced(Format.Join(modList, ";")));
    } else {
      data' := data'.(mods := Format.Join(modList, ";"));
    }
  }

  /** The whole handler written as the source's statements. */
  method RunCommand(d: MyDelegate, data: ModListInfo, cmd: Command, required: seq<string>)
    returns (d': MyDelegate, data': ModListInfo, handled: Handled)
    ensures (d', data', handled) == Run(d, data, cmd, required)
  {
    d', data' := d, data;
    if !cmd.SaveFileAs? {
      return d', data', No;
    }
    if cmd.preset.Some? {
      var modList := BuildModList(cmd.preset.value, d.dlcPrefixes, d.ignoredMods);
      data' := Publish(data, modList, required);
      d' := d.(modList := modList);
    }
    handled := Yes;
  }
}
