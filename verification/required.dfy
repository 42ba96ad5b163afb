/** The required-mods check, src/structs.rs:23-36 and 92-100: every entry
    of the required list that has no exact (case-sensitive) match in the
    sorted mod list is reported, in the required list's order. */
module Required {
  import Seqs
  import Format
  import opened Wrappers

  /** `REQUIRED_MODS`, src/structs.rs:23-36. */
  const RequiredMods: seq<string> := [
    "@ace",
    "@ArmorModifierACE",
    "@CBAA3",
    "@DiwakosPunishunknownweapon",
    "@EnhancedMovement",
    "@EnhancedMovementRework",
    "@MetisMarker",
    "@ProneLauncher",
    "@TaskForceArrowheadRadioBETA",
    "@UnitVoiceOversAETAiO",
    "@ZeusEnhanced",
    "@ZeusEnhancedACE3Compatibility"
  ]

  /** Holds the required identifiers that `modList` lacks. */
  function Absent(modList: seq<string>): string -> bool {
    id => id !in modList
  }

  /** The required identifiers with no exact match in `modList`. */
  function Missing(required: seq<string>, modList: seq<string>): (missing: seq<string>)
    ensures |missing| <= |required|
    ensures forall i :: 0 <= i < |missing| ==> missing[i] !in modList
  {
    Seqs.Filter(required, Absent(modList))
  }

  /** `Missing` is the sub-list of `required`, in order and with
      repetitions, of exactly the entries absent from `modList`. */
  lemma MissingFacts(required: seq<string>, modList: seq<string>)
    ensures forall x :: x in Missing(required, modList) <==> x in required && x !in modList
    ensures forall x :: multiset(Missing(required, modList))[x] == if x in modList then 0 else multiset(required)[x]
    ensures Seqs.IsSubseq(Missing(required, modList), required)
    ensures Missing(required, modList) == [] <==> forall x :: x in required ==> x in modList
  {
    Seqs.FilterFacts(required, Absent(modList));
    if Missing(required, modList) != [] {
      assert Missing(required, modList)[0] in Missing(required, modList);
    }
  }

  /** The loop of src/structs.rs:92-97. */
  method CollectMissing(required: seq<string>, modList: seq<string>) returns (missing: seq<string>)
    ensures missing == Missing(required, modList)
  {
    missing := [];
    for i := 0 to |required|
      invariant missing == Missing(required[..i], modList)
    {
      if !(required[i] in modList) {
        missing := missing + [required[i]];
      }
      Seqs.FilterAppend(required[..i], [required[i]], Absent(modList));
      Seqs.FilterSingleton(required[i], Absent(modList));
      assert required[..i + 1] == required[..i] + [required[i]];
    }
    assert required[..|required|] == required;
  }

  const MessagePrefix: string := "Required mods missing: "

  /** The diagnostic of src/structs.rs:98-100: present only when something
      is missing. */
  function MissingMessage(missing: seq<string>): (message: Option<string>)
    ensures message.None? <==> |missing| == 0
    ensures message.Some? ==> |message.value| >= |MessagePrefix|
    ensures message.Some? ==> message.value[..|MessagePrefix|] == MessagePrefix
    ensures message.Some? ==> message.value[|MessagePrefix|..] == Format.Join(missing, ", ")
  {
    if |missing| > 0 then Some(MessagePrefix + Format.Join(missing, ", ")) else None
  }

  /** The list in a diagnostic reads back to the missing identifiers, as
      long as none of them contains a comma. */
  lemma MessageListsMissing(missing: seq<string>)
    requires |missing| > 0 && Format.SeparatorFree(missing, ", ")
    ensures Format.Split(MissingMessage(missing).value[|MessagePrefix|..], ", ") == missing
  {
    Format.SplitJoin(missing, ", ");
  }

  /** `data.missing_mods` after the check: overwritten when something is
      missing, otherwise left as it was. */
  function UpdateMissingMods(current: string, required: seq<string>, modList: seq<string>): (updated: string)
    ensures (forall x :: x in required ==> x in modList) ==> updated == current
    ensures (exists x :: x in required && x !in modList) ==>
              updated == MessagePrefix + Format.Join(Missing(required, modList), ", ")
  {
    MissingFacts(required, modList);
    MissingMessage(Missing(required, modList)).GetOr(current)
  }
}
