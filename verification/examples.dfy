/** The model's result on small concrete inputs, stated and proved. */
module Examples {
  import opened Wrappers
  import ModName
  import StableSort
  import Required
  import Format
  import Delegate

  /** Punctuation and spaces disappear. */
  lemma NormalizeDropsPunctuation()
    ensures ModName.Normalize("Some Mod!") == "@SomeMod"
  {
    assert ModName.Retain("!") == "";
    assert ModName.Retain("d!") == "d";
    assert ModName.Retain("od!") == "od";
    assert ModName.Retain("Mod!") == "Mod";
    assert ModName.Retain(" Mod!") == "Mod";
    assert ModName.Retain("e Mod!") == "eMod";
    assert ModName.Retain("me Mod!") == "meMod";
    assert ModName.Retain("ome Mod!") == "omeMod";
    assert ModName.Retain("Some Mod!") == "SomeMod";
  }

  /** An existing `@` is stripped and put back as the single prefix. */
  lemma NormalizeKeepsOneAt()
    ensures ModName.Normalize("@Ace-3") == "@Ace3"
  {
    assert ModName.Retain("3") == "3";
    assert ModName.Retain("-3") == "3";
    assert ModName.Retain("e-3") == "e3";
    assert ModName.Retain("ce-3") == "ce3";
    assert ModName.Retain("Ace-3") == "Ace3";
    assert ModName.Retain("@Ace-3") == "Ace3";
  }

  /** A name without any alphanumeric character is kept, as a bare `@`. */
  lemma NoAlphanumericGivesBareAt()
    ensures ModName.Normalize("!?") == "@"
    ensures ModName.Community(["!?"], []) == ["@"]
  {
    assert ModName.Retain("?") == "";
    assert ModName.Retain("!?") == "";
  }

  /** Only the absent required entry is reported. */
  lemma MissingExample()
    ensures Required.Missing(["@A", "@B", "@C"], ["@A", "@C"]) == ["@B"]
    ensures Required.MissingMessage(["@B"]) == Some("Required mods missing: @B")
  {
    assert Format.Join(["@B"], ", ") == "@B";
    assert Required.MessagePrefix + "@B" == "Required mods missing: @B";
  }

  /** Upper-case `ACE` in a preset becomes `@ACE`, which is not the
      required `@ace`: the check is case-sensitive. */
  lemma UpperCaseAceIsReportedMissing()
    ensures "@ace" in Required.Missing(Required.RequiredMods,
                                       Delegate.CompileModList(Delegate.Preset([], ["ACE"]), map[], []))
  {
    assert ModName.Retain("E") == "E";
    assert ModName.Retain("CE") == "CE";
    assert ModName.Retain("ACE") == "ACE";
    assert ModName.Normalize("ACE") == "@ACE";
    assert ["ACE"][1..] == [];
    assert ModName.Community(["ACE"], []) == ["@ACE"];
    assert Delegate.Unsorted(Delegate.Preset([], ["ACE"]), map[], []) == ["@ACE"];
    var modList := Delegate.CompileModList(Delegate.Preset([], ["ACE"]), map[], []);
    assert modList == ["@ACE"];
    Required.MissingFacts(Required.RequiredMods, modList);
  }

  lemma KeysOfExample()
    ensures StableSort.Key("@Apple") == "@apple"
    ensures StableSort.Key("@apple") == "@apple"
    ensures StableSort.Key("@banana") == "@banana"
  {
  }

  /** Case-insensitive order, with the two spellings of `apple` left in
      their input order. */
  lemma SortExample()
    ensures StableSort.SortByKey(["@banana", "@Apple", "@apple"]) == ["@Apple", "@apple", "@banana"]
  {
    KeysOfExample();
    SortTwoApples();
    var s := ["@banana", "@Apple", "@apple"];
    assert s[1..] == ["@Apple", "@apple"];
    assert !StableSort.KeyLe("@banana", "@Apple");
    assert !StableSort.KeyLe("@banana", "@apple");
  }

  /** Two names with equal keys stay in input order. */
  lemma SortTwoApples()
    ensures StableSort.SortByKey(["@Apple", "@apple"]) == ["@Apple", "@apple"]
  {
    KeysOfExample();
    var s := ["@Apple", "@apple"];
    assert s[1..] == ["@apple"];
    assert StableSort.KeyLe("@Apple", "@apple");
  }

  lemma RetainCbaA3()
    ensures ModName.Retain("CBA A3") == "CBAA3"
  {
  }

  lemma RetainAce()
    ensures ModName.Retain("ace") == "ace"
  {
  }

  lemma ExampleCommunity()
    ensures ModName.Community(["CBA A3", "ace"], []) == ["@CBAA3", "@ace"]
  {
    RetainCbaA3();
    RetainAce();
    var names := ["CBA A3", "ace"];
    assert names[1..] == ["ace"] && names[1..][1..] == [];
    assert ModName.Normalize("CBA A3") == "@CBAA3";
    assert ModName.Normalize("ace") == "@ace";
    assert ModName.Community(["ace"], []) == ["@ace"];
  }

  lemma ExampleModList()
    ensures Delegate.CompileModList(Delegate.Preset([], ["CBA A3", "ace"]), map[], []) == ["@ace", "@CBAA3"]
  {
    ExampleCommunity();
    ExampleSort();
    var preset := Delegate.Preset([], ["CBA A3", "ace"]);
    assert Delegate.Unsorted(preset, map[], []) == ["@CBAA3", "@ace"];
  }

  lemma ExampleSort()
    ensures StableSort.SortByKey(["@CBAA3", "@ace"]) == ["@ace", "@CBAA3"]
  {
  }

  /** A two-mod preset with no DLC section, an empty ignore list and both
      required mods present: the sorted list is joined with `;` and the
      previous diagnostic is left alone. */
  lemma EndToEnd(d: Delegate.MyDelegate, data: Delegate.ModListInfo)
    requires d.dlcPrefixes == map[] && d.ignoredMods == [] && !data.backticks
    ensures Delegate.Run(d, data, Delegate.SaveFileAs(Some(Delegate.Preset([], ["CBA A3", "ace"]))), ["@ace", "@CBAA3"]).1
            == data.(mods := "@ace;@CBAA3")
  {
    ExampleModList();
    ExampleOutput(data.missingMods);
  }

  lemma ExampleOutput(current: string)
    ensures Required.UpdateMissingMods(current, ["@ace", "@CBAA3"], ["@ace", "@CBAA3"]) == current
    ensures Format.ModsText(["@ace", "@CBAA3"], false) == "@ace;@CBAA3"
  {
    var modList := ["@ace", "@CBAA3"];
    assert forall x :: x in modList ==> x in modList;
    ExampleJoin();
  }

  lemma ExampleJoin()
    ensures Format.Join(["@ace", "@CBAA3"], ";") == "@ace;@CBAA3"
  {
    var modList := ["@ace", "@CBAA3"];
    assert modList[1..] == ["@CBAA3"];
    assert Format.Join(["@CBAA3"], ";") == "@CBAA3";
  }
}
