# Mod-Preset-Parser: verified model of the mod-list compiler

The program reads an Arma 3 launcher "mod preset" (an HTML export), and
turns it into one `;`-joined line of mod identifiers for the game's command
line. It also writes a warning that lists any required mods the preset
lacks. All of that work happens in `MyDelegate::command` in
`src/structs.rs`. This project models that handler as pure Dafny functions,
plus methods that restate its loops statement by statement, and proves what
each stage guarantees.

The pipeline, stage by stage:

- **DLC resolution** (`dlc.dfy`, module `Dlc`). Each DLC display name is looked up in `dlc_prefixes`. A hit pushes the mapped identifier and a miss pushes nothing.
- **Name normalisation** (`mod_name.dfy`, module `ModName`). A community mod name keeps only its alphanumeric characters and gets an `@` prefix.
- **Ignore filter** (`ModName.Community`). Identifiers on `ignored_mods` are not pushed. The filter applies to community mods only, never to DLC identifiers.
- **Sort** (`stable_sort.dfy`, module `StableSort`, with `lex_order.dfy`). A stable sort by each identifier's lower-case form, using Rust's string order (`LexOrder`).
- **Required-mods check** (`required.dfy`, module `Required`). Every entry of `REQUIRED_MODS` with no exact, case-sensitive match is reported, in list order.
- **Formatting** (`format.dfy`, module `Format`). The list is joined with `;` and can be wrapped in a triple-backtick fence.
- **The handler** (`delegate.dfy`, module `Delegate`). It holds the state records `ModListInfo` and `MyDelegate`, and `Run` / `RunCommand` for the whole command.

`seqs.dfy` holds the generic order-preserving `Filter` and `Map`.
`chars.dfy` holds the character classes. `wrappers.dfy` holds `Option`.
`examples.dfy` states and proves the model's result on small concrete inputs.

The ordering facts `LexLeReflexive`, `LexLeAntisymmetric`, `LexLeTransitive`
and `LexLeTotal` show that the key order is a total order. With them,
`SortByKeyCharacterized` proves that any stable, key-sorted rearrangement of
the input equals `SortByKey`. So, for the ASCII key of `StableSort.Key`, the
insertion sort used here yields exactly what Rust's stable sort (`sort_by`)
yields.

## Behaviour of the code worth knowing

- A name with no alphanumeric character is not dropped. It becomes a bare `"@"` and is pushed like any other identifier (src/structs.rs:79-84, `Examples.NoAlphanumericGivesBareAt`).
- The `starts_with("@")` test never succeeds. `retain(is_alphanumeric)` on line 79 has already removed every `@`, so the test `!mod_name.starts_with("@")` on line 80 is always true, and the path that would keep an existing prefix never runs. Every identifier is `@` followed by the name's alphanumeric characters (`ModName.Normalize`).
- When nothing is missing, `missing_mods` is not written at all (src/structs.rs:98-100). A warning from an earlier preset therefore stays in place (`Delegate.RunSaveFileAs`).
- `"@ace"` in `REQUIRED_MODS` is compared case-sensitively (src/structs.rs:92-97). A preset entry `ACE` becomes `@ACE`, and `@ace` is still reported missing (`Examples.UpperCaseAceIsReportedMissing`).

## Model

| member | source | states |
|---|---|---|
| `Dlc.Resolve` | src/structs.rs:67-74 | Every pushed identifier is a value of the table. Every DLC name the table knows gets its value pushed. If the table knows none of the names, nothing is pushed. At most one identifier is pushed per name. |
| `Dlc.ResolveIsLookupOfKnown` | src/structs.rs:67-74 | DLC resolution keeps the names the table knows, in document order, and replaces each with its mapped value. A present key adds exactly its value and an absent key adds nothing. |
| `Dlc.ResolveAppend` | src/structs.rs:67-74 | Resolving two name lists one after the other gives the two results concatenated, so the loop can be run one name at a time. |
| `Dlc.PushResolved` | src/structs.rs:67-74 | The DLC loop appends exactly the resolved identifiers after whatever the buffer already holds. |
| `Chars.IsAlphanumeric` | src/structs.rs:79 | A character is alphanumeric exactly when it is an ASCII letter or digit. Everything else, `@`, the space and punctuation included, is dropped by `retain`; this is why no `@` survives. Only ASCII characters qualify; see `Chars.IsAlphanumeric` under "Left out". |
| `ModName.Retain` | src/structs.rs:79 | After `retain`, every remaining character is alphanumeric and the string is no longer than before. |
| `ModName.RetainFacts` | src/structs.rs:79 | `retain` keeps every alphanumeric character as often as it occurs and drops all others. The kept characters stay in their original order. |
| `ModName.RetainIdempotent` | src/structs.rs:79 | Running `retain` a second time changes nothing. |
| `ModName.Normalize` | src/structs.rs:78-82 | A community identifier is `@` followed by exactly the name's alphanumeric characters. The `starts_with("@")` branch is never taken, and an empty result gives a bare `@`. |
| `ModName.NormalizeHasOneAt` | src/structs.rs:78-82 | An identifier has exactly one `@`, its first character. |
| `ModName.NormalizeIdempotent` | src/structs.rs:78-82 | Normalising an identifier again gives the same identifier. |
| `ModName.Community` | src/structs.rs:77-88 | The community loop pushes at most one identifier per name, and none that is on the ignore list. Its partner `ModName.CommunityIsFilteredNormalization` gives the full definition. |
| `ModName.CommunityIsFilteredNormalization` | src/structs.rs:77-88 | The community loop normalises every name in document order, then drops the identifiers that are on the ignore list. |
| `ModName.CommunityExcludesIgnored` | src/structs.rs:78-87 | No pushed community identifier is on the ignore list, and each starts with `@`. |
| `ModName.CommunityKeepsUnignored` | src/structs.rs:83-84 | Every name whose identifier is not on the ignore list is pushed. |
| `ModName.CommunityInOrder` | src/structs.rs:77-88 | The pushed identifiers follow document order, with at most one per name. |
| `ModName.CommunitySnoc` | src/structs.rs:83-87 | One more name adds its identifier at the end of the output, unless the ignore list holds it. |
| `ModName.PushCommunity` | src/structs.rs:77-88 | The community loop appends exactly the kept community identifiers after the DLC identifiers already in the buffer. |
| `LexOrder.LexLeReflexive` | src/structs.rs:90 | Every string compares less than or equal to itself. |
| `LexOrder.LexLeAntisymmetric` | src/structs.rs:90 | Two strings that are each `<=` the other are equal. |
| `LexOrder.LexLeTransitive` | src/structs.rs:90 | The string order is transitive. |
| `LexOrder.LexLeTotal` | src/structs.rs:90 | Any two strings are comparable. |
| `StableSort.Key` | src/structs.rs:90 | The sort key `to_lowercase` keeps the length and turns each upper-case ASCII letter into its lower-case letter. It leaves no upper-case letter and leaves every other character as it was. The mapping covers ASCII only; see `StableSort.Key` under "Left out". |
| `StableSort.Insert` | src/structs.rs:90 | Inserting one element adds exactly that element and keeps every other one. |
| `StableSort.InsertSorted` | src/structs.rs:90 | Inserting into a list sorted by lower-case key leaves it sorted. |
| `StableSort.InsertWithKey` | src/structs.rs:90 | An inserted element goes to the front of its group of equal keys. Every other group is unchanged. |
| `StableSort.SortByKey` | src/structs.rs:90 | The sorted list is a permutation of the input and is ordered by lower-case form. |
| `StableSort.SortByKeyStable` | src/structs.rs:90 | Elements whose lower-case forms are equal keep their relative input order. |
| `StableSort.StableIsPermutation` | src/structs.rs:90 | Any output that keeps every equal-key group of the input is a permutation of the input. So sorting adds, drops or merges nothing. |
| `StableSort.StableSortUnique` | src/structs.rs:90 | Two key-sorted lists with the same equal-key groups are identical. |
| `StableSort.SortByKeyCharacterized` | src/structs.rs:90 | Any stable rearrangement sorted by lower-case key equals `SortByKey`, so the model gives the same result as `sort_by`. |
| `Required.Missing` | src/structs.rs:92-97 | Every reported entry is absent from the mod list, and there are no more entries than in the required list. |
| `Required.MissingFacts` | src/structs.rs:92-97 | The missing list holds exactly the required entries that have no exact match, each with its multiplicity, in required-list order. It is empty exactly when every required entry is present. |
| `Required.CollectMissing` | src/structs.rs:92-97 | The required-mods loop builds exactly that missing list. |
| `Required.MissingMessage` | src/structs.rs:98-100 | A message exists exactly when something is missing. It is `Required mods missing: ` followed by the missing entries joined with `, `. |
| `Required.MessageListsMissing` | src/structs.rs:99 | Splitting the message's list part at `, ` gives back the missing entries, provided none of them contains a comma. |
| `Required.UpdateMissingMods` | src/structs.rs:98-100 | `missing_mods` is overwritten with the message when a required mod is absent. Otherwise it is left as it was. |
| `Format.Join` | src/structs.rs:99-105 | `join` of no parts is empty. Otherwise the result starts with the first part, followed by the separator when there is a second part, and ends with the last part. Its partner `Format.SplitJoin` shows that `Split` recovers the parts. |
| `Format.SplitJoin` | src/structs.rs:105 | Splitting a `;`-join gives back the list, provided the list is non-empty and no element contains the separator's first character. |
| `Format.Fenced` | src/structs.rs:103 | The fence adds exactly eight characters. |
| `Format.UnfenceFenced` | src/structs.rs:103 | Removing the four-character prefix and suffix from a fenced text gives back the unfenced text. |
| `Format.FencedUnfence` | src/structs.rs:103 | Any text that unfences is exactly the fence around its body. |
| `Format.ModsText` | src/structs.rs:102-106 | With `backticks` set, `mods` unfences to the `;`-joined list. Without it, `mods` is the `;`-joined list itself. |
| `Delegate.Unsorted` | src/structs.rs:54-88 | The buffer before `sort_by` holds no more identifiers than the two name lists have names together. An identifier in it that is on the ignore list is a DLC identifier from the table. |
| `Delegate.CompileModList` | src/structs.rs:54-90 | The compiled list is sorted by lower-case form. |
| `Delegate.CompileModListFacts` | src/structs.rs:54-90 | The compiled list is a stable permutation of the DLC identifiers followed by the kept community identifiers. An ignored identifier occurs only as often as the DLC stage produced it. |
| `Delegate.Run` | src/structs.rs:47-111 | Commands other than `SAVE_FILE_AS` are not handled and change nothing. `SAVE_FILE_AS` without a path is handled and changes nothing. The DLC table, the ignore list and `backticks` are never changed. |
| `Delegate.RunSaveFileAs` | src/structs.rs:54-106 | With a preset, the delegate's list becomes the compiled list and `mods` its `;`-join, fenced when `backticks` is set. `missing_mods` becomes the message when something is missing and otherwise keeps its old value. |
| `Delegate.RunIgnoresPreviousBuffer` | src/structs.rs:54-55 | The buffer is cleared first, so what it held before has no effect on the result. |
| `Delegate.RunIdempotent` | src/structs.rs:54-106 | Handling the same command a second time leaves the same state as handling it once. |
| `Delegate.BuildModList` | src/structs.rs:54-90 | The statement-level buffer building (clear, DLC loop, community loop, sort) computes the compiled list. |
| `Delegate.Publish` | src/structs.rs:92-106 | The statement-level check and formatting write the same `missing_mods` and `mods` as the functional model. |
| `Delegate.RunCommand` | src/structs.rs:47-111 | The statement-level handler computes the same result as `Run`. |
| `Examples.NormalizeDropsPunctuation` | src/structs.rs:78-82 | `Some Mod!` becomes `@SomeMod`. |
| `Examples.NormalizeKeepsOneAt` | src/structs.rs:78-82 | `@Ace-3` becomes `@Ace3`. |
| `Examples.NoAlphanumericGivesBareAt` | src/structs.rs:78-84 | `!?` becomes `@` and is pushed. |
| `Examples.SortExample` | src/structs.rs:90 | `@banana, @Apple, @apple` sorts to `@Apple, @apple, @banana`. |
| `Examples.MissingExample` | src/structs.rs:92-100 | With `@A, @B, @C` required and `@A, @C` present, the message is `Required mods missing: @B`. |
| `Examples.UpperCaseAceIsReportedMissing` | src/structs.rs:92-97 | A preset entry `ACE` still leaves `@ace` reported missing. |
| `Examples.EndToEnd` | src/structs.rs:54-106 | The preset names `CBA A3` and `ace` give `@ace;@CBAA3`. Both required mods are present, so the old warning stays. |

## Left out

- HTML parsing with `scraper` (src/structs.rs:57-66, 67-68, 77-78) is a foreign library. Its result, the first text node of each selected display-name cell, is the input `Delegate.Preset`: two lists of display names in document order.
- The panics are left out. These are the file read with `expect` (src/structs.rs:51-52) and a cell without a text node hitting `unwrap` (lines 68 and 78). The model starts from text that was read successfully and from cells that have text.
- `Arc<Mutex<…>>` locking and druid's `AppDelegate` dispatch are left out. This covers `_ctx`, `_target` and `_env`. The shared buffers are plain values in `Delegate.MyDelegate`, and whether a path was chosen is modelled by the `Option` around the preset in `Delegate.Command`.
- The `dbg!` logging (src/structs.rs:69, 76, 86) is left out, because its only effect is output.
- `REQUIRED_MODS` is kept as `Required.RequiredMods`. The handler functions take the required list as a parameter so that they also cover other lists.
- `src/main.rs` (window and widget layout) and `build.rs` (a build-time file copy) are not part of this model.
- Chars.IsAlphanumeric: accepts ASCII letters and digits only. It rejects non-ASCII letters and digits, which Rust's `char::is_alphanumeric` accepts.
- ModName.Retain: keeps ASCII letters and digits only. Rust's `char::is_alphanumeric` also keeps non-ASCII letters and digits.
- StableSort.Key: lower-cases ASCII only. Rust's `str::to_lowercase` also maps non-ASCII letters, and for some characters it changes the length.
