# Verified model of the Switch port wrapper

A Dafny model of the parts of the port wrapper that carry real algorithms, with proofs of what they are for. Each
module follows one source file or one of its parts; code that works by changing things step by step is modelled by
methods over arrays and classes, and each such method is proved against a specification function whose own
properties are then proved as lemmas.

| modules | what they model |
|---|---|
| `Bytes`, `FnvLaws`, `Slices`, `Arith`, `Edits`, `CStrings` | little-endian integers, the FNV-1a fold and what it computes, slices, division, in-place edits, C strings in `strcmp` order |
| `PackFormat`, `PackSort`, `PackLayout`, `PackBuild`, `PackLookup`, `PackDamage` | the asset pack: serialise, validate, mount, look up, notice damage |
| `PackDirectory`, `PackPaths`, `PackListing`, `PackTwins` | path normalisation, the two directory tests, directory listing and when it repeats a name |
| `PackHandles` | the handle table with its per-handle 64 KiB cache |
| `PackInstall` | installing a pack with crashes and failing file operations, and the decision at boot |
| `FontAtlas`, `FontPatch`, `FontRewrite`, `FontRepair`, `FontOutgrown` | the repair of the '.' glyph in font atlases, and where the repaired file stops being readable |
| `AtlasWriter`, `AtlasRepair` | atlases written from pixels and glyphs, and the repair seen on them |
| `ScriptTokens`, `ScriptPatch`, `ScriptRewrite`, `ScriptFile` | patching constants of compiled scripts |
| `ScriptWriter`, `ScriptMeaning` | scripts written from constants and tokens, and the patch seen on them |
| `ObbReadAhead` | the adaptive read-ahead window in front of the OBB file |
| `Resampler` | the phase-continuous resampler |
| `LazyMutex`, `C11Pool`, `RecursiveMutex` | the compare-exchange protocol of lazily made mutexes, the C11 handle pool, recursive C11 mutexes |
| `Relr`, `RelrWriter`, `Relocation`, `PagePermissions` | ELF relocation, the packed table as a linker writes it, import resolution and page permissions |
| `PadInput`, `TouchInput`, `Utf8`, `Keyboard` | button, touch and keyboard events, replayed on a plain consumer |

## How the main results are connected

- The writer and the loader of the asset pack share no code. `PackBuild.Build` is proved to write `PackBytes` and
  `IndexBytes`; `PackLayout.PairAccepted` and `PackLookup.PackRoundTrip` prove about these bytes, from the loader's
  side, that they are accepted and that every path reads back exactly what was packed.
- Readers of foreign formats are proved against writers that share no code with them: `AtlasWriter` writes atlases from
  rows of pixels, `ScriptWriter` scripts from constants and tokens, `RelrWriter` packed relocations from byte addresses.
  On what these write, the font repair gives the atlas with repaired fonts (`AtlasRepair.RepairedFile`), the script patch
  the script with replaced constants (`ScriptMeaning.PatchedIs`), and relocation moves exactly the listed addresses
  (`RelrWriter.EncodedRebased`), byte for byte.
- What the hash is good for is proved apart from how it is computed: `FnvLaws.ByteCounts`, and from it which damaged packs
  and indices are refused (`PackDamage`).
- A run of a concurrent protocol is a schedule: any sequence of single memory accesses by any threads. Safety results
  (`LazyMutex.OneObjectForAll`, `RecursiveMutex.MutualExclusion`) are for all schedules.
- Event translators are proved by replay: a consumer that only knows the meaning of single events, fed with the
  emitted trace, ends in the sampled state.

## Results that correct an expectation

- `asset_pack_build` aligns with wrap-around (source/asset_pack.c:465-467), so a layout near 2^64 wraps silently.
  `PackBuild.Build` keeps that, and succeeds exactly for `Buildable` inputs: a wrapped pack never passes the loader.
- Mounting notices no damaged byte of content, as its own note says (source/asset_pack.c:269-274). The check that a new
  build ends with notices every one (`PackDamage.DamagedPackRefused`, `PackDamage.DamagedBuildRefused`).
- The linear scan of `opendir` and the binary-search directory test agree on every path but the root, and on the root
  exactly when some entry has a name; a valid index may name its only file with a single NUL byte
  (`PackDirectory.DirectoryChecksAgree`, `PackDirectory.NamelessPack`).
- The repaired font file is accepted by the same parser exactly when no growing font had 4096 glyphs already
  (`FontRepair.RepairReparses`, `FontOutgrown.ColonFileRepaired`).
- Pages become executable for an empty executable LOAD segment too: all of them when it lies at address 0, its own page
  when it is not page-aligned. They hold code anyway exactly under the condition of `PagePermissions.ExactlyCode`;
  `StrayExample` and `StrayInsideExample` are files of either kind that fail it.
- A directory listing is exact just when no name in the directory is that of a file and of a directory, which the loader
  does not check; a name comes twice exactly when another child stands between the two (`PackListing.ListingExact`,
  `PackTwins.NamesDistinct`, `PackTwins.TwinsExample`).
- The latch for presses during a stall is one bit: several taps between two polls are shown as one, and a tap between
  two polls of which the first finds the button down is not shown. `PadInput.EachPressShown` gives the exact condition,
  `MergedTapsExample` and `HeldTapExample` the two failing runs.
- Touch events leave the protocol that the source's comments describe (first finger ACTION_DOWN, last finger
  ACTION_UP) when all earlier fingers are gone and either there were several, or new ones have come: then a further
  pointer goes last, or comes first. `TouchInput.TouchPoll.Poll` gives the exact condition; the consumer still ends with
  the right fingers.
- `lseek_fake` differs from `lseek` exactly at negative targets, reads and seeks from the end differ when `fstat` failed
  while the slot was set up, and once the table is initialised `obb_find(-1)` answers with any free slot
  (`ObbReadAhead.SeekAgrees`, `ReadAgrees`, `BlindSeekAgrees`, `ServesTracked`, each with an example).
- A caret beyond the old text makes the count of forward deletions wrap to nearly 2^64; the text that results is right
  all the same (`Keyboard.EmitText`, `Keyboard.ForwardExactly`).
- The last row of `k_scripts` gives count 2 for a one-element table (source/script_patch.c:112-120). The model takes the
  table itself, so the count is its length.
- A narrow literal token (one type byte) counts as a use of constant 0 (source/script_patch.c:237-241); the model keeps
  that.

## Model

| member | source | states |
|---|---|---|
| Bytes.FnvBytes | source/asset_pack.c:98-105 | the hash loop is the left fold of FNV-1a over the bytes |
| Bytes.FnvConcat | source/asset_pack.c:486-488 | hashing in chunks is hashing the concatenation, so writer and verifier may cut differently |
| FnvLaws.XorBit | source/asset_pack.c:101 | a bit of the exclusive or is set exactly when the two bits differ |
| FnvLaws.StepInjective | source/asset_pack.c:100-103 | one step keeps different states apart, and different bytes |
| FnvLaws.ByteCounts | source/asset_pack.c:98-105 | another byte anywhere gives another hash |
| FnvLaws.PublishedValue | source/asset_pack.c:98-105 | the published FNV-1a value of "a" |
| FnvLaws.PortValue | source/asset_pack.c:221-222 | from the port's seed, the number of a directory "a" |
| Bytes.RoundTrip32 | source/asset_pack.c:627-637 | a stored 32-bit field loads back |
| Bytes.RoundTrip64 | source/asset_pack.c:550-554 | a stored 64-bit field loads back |
| CStrings.LessTransitive | source/asset_pack.c:413-416 | `strcmp` order is transitive |
| CStrings.LessTotal | source/asset_pack.c:413-416 | `strcmp` order decides any two paths |
| CStrings.LessIs | source/asset_pack.c:413-416 | the order is that of the first difference, as unsigned bytes, and of a proper prefix before what it begins |
| CStrings.PrefixInterval | source/asset_pack.c:216-220 | what lies between two extensions of a prefix extends it too: entries under a directory are contiguous |
| PackFormat.ValidRelative | source/asset_pack.c:128-142 | the scan accepts exactly the paths whose components are non-empty, not dots, and free of backslash and colon |
| PackFormat.ReadAt | source/asset_pack.c:107-116 | however the device cuts its answers, the accumulated bytes are the whole range, or nothing when the file ends before |
| PackFormat.FieldsStand | source/asset_pack.c:23-47 | where the fields of the three records stand |
| PackFormat.PackHeaderRoundTrip | source/asset_pack.c:550-554 | a written pack header parses back |
| PackFormat.IndexHeaderRoundTrip | source/asset_pack.c:627-637 | a written index header parses back |
| PackFormat.EntryRoundTrip | source/asset_pack.c:618-626 | a written entry parses back |
| PackFormat.CheckEntries | source/asset_pack.c:292-305 | the entry loop accepts exactly the valid tables: ranges inside, terminated valid paths, strictly ascending |
| PackFormat.LoadPair | source/asset_pack.c:233-318 | mounts exactly the valid pairs, and says which class of error it met otherwise |
| PackFormat.PathsSorted | source/asset_pack.c:300-301 | the neighbour test makes the whole table ascend |
| PackFormat.PathsDistinct | source/asset_pack.c:300-301 | no path occurs twice in a mounted pack |
| PackSort.SortKeeps | source/asset_pack.c:522 | sorting gives an ordered permutation |
| PackSort.StrictIffDistinct | source/asset_pack.c:522 | an ordered list is strictly ordered exactly when its paths are distinct |
| PackLayout.ContentPlaced | source/asset_pack.c:566-599 | each content stands at its planned offset, and the offset is a multiple of 16 |
| PackLayout.PathPlaced | source/asset_pack.c:617-626 | each path stands at its planned offset, terminated |
| PackLayout.MountReadsBack | source/asset_pack.c:233-312 | the written pair parses to the entries and paths it was made of |
| PackLayout.PairAccepted | source/asset_pack.c:233-318 | the loader accepts the written pair exactly when the items are strictly ordered valid paths within its limits |
| PackBuild.PlanLayout | source/asset_pack.c:523-539 | the layout loop, with its wrap-around and its error exits |
| PackBuild.WriteData | source/asset_pack.c:562-599 | what is written is the padded contents, and the checksum is that of the contents alone |
| PackBuild.ComputePackId | source/asset_pack.c:541-548 | the identity folds paths, sizes and nonce and is never 0 |
| PackBuild.WriteIndexBody | source/asset_pack.c:614-626 | the entry table and the path blob of the planned layout |
| PackBuild.WriteFiles | source/asset_pack.c:541-640 | both files are the specified ones when the layout did not wrap; when it did, the headers disagree with the file |
| PackBuild.VerifyPackData | source/asset_pack.c:469-500 | passes exactly when every entry can be read and their contents hash to the expected value |
| PackDamage.DamageFound | source/asset_pack.c:469-500 | on any mount with disjoint entries, the check passes for data with one byte replaced exactly when the byte belongs to no entry |
| PackDamage.DamagedBuildRefused | source/asset_pack.c:469-500 | so a new build with one byte replaced passes just when the byte is padding or header |
| PackDamage.DamagedIndexRefused | source/asset_pack.c:252-291 | an index with any one byte replaced is refused |
| PackDamage.DamagedPackRefused | source/asset_pack.c:252-272 | a data file with one byte replaced is refused at loading exactly when the byte is in the header and not reserved |
| PackDamage.IdentityIs | source/asset_pack.c:541-548 | the identity is the hash of all paths and sizes in order and the nonce, with 0 replaced by 1 |
| PackDamage.WrittenHeader | source/asset_pack.c:550-592 | the header of a written data file, field by field |
| PackBuild.WrappedRejected | source/asset_pack.c:245-260 | a pack whose layout wrapped is refused by the loader |
| PackBuild.Build | source/asset_pack.c:502-662 | succeeds exactly for buildable inputs, and then writes exactly the specified pack and index; the file length is the computed size |
| PackLookup.EntryComparePath | source/asset_pack.c:184-196 | finds the path if it is there, else the place where it would stand |
| PackLookup.FindRelative | source/asset_pack.c:198-203 | finds exactly the paths of the pack |
| PackLookup.ReadAll | source/asset_pack.c:940-957 | the stored content of the path, or nothing |
| PackLookup.PackRoundTrip | source/asset_pack.c:502-662 | what was packed under a path is what the mounted pack reads there, and any other path is not found |
| PackLookup.EntriesDisjoint | source/asset_pack.c:523-539 | ranges of different entries do not overlap and start after the header |
| PackDirectory.FindMount | source/asset_pack.c:152-159 | the last place where `assets` stands as a whole component |
| PackDirectory.CollapseParts | source/asset_pack.c:161-178 | the joined components that are neither empty nor a dot; nothing exactly when two dots occur or the result does not fit the buffer |
| PackDirectory.CollapsedFits | source/asset_pack.c:161-175 | collapsing makes no path longer, so a buffer as large as the input never cuts |
| PackDirectory.NormalizeAssetPath | source/asset_pack.c:144-178 | the components after the last `assets`, joined; nothing when there are none, they climb or do not fit |
| PackDirectory.NormalizedValid | source/asset_pack.c:144-178 | a normalised path is empty, or passes the validity scan exactly when no component holds a colon |
| PackDirectory.NormalizedBack | source/asset_pack.c:144-178 | what stands behind the mount point is found as it is, when a pack can store it |
| PackPaths.MountedExactly | source/asset_pack.c:152-159 | there is a mount point just when some component is "assets" |
| PackPaths.LastMountIs | source/asset_pack.c:152-178 | what is kept is kept of the components behind the last "assets" |
| PackDirectory.OpenDir | source/asset_pack.c:973-994 | the linear scan finds exactly the directories with an entry under them |
| PackDirectory.FindDirectory | source/asset_pack.c:205-225 | the binary-search test, with the directory's number |
| PackDirectory.DirectoryChecksAgree | source/asset_pack.c:205-225 | both tests agree on every path but the root, and there exactly when some entry has a name |
| PackDirectory.NamelessPack | source/asset_pack.c:980-981 | a pack and an index that the loader accepts, whose root the two tests disagree about |
| PackListing.DirStream.ReadDir | source/asset_pack.c:1000-1033 | dots first, then the next pending child; the cursor and the last name are all it keeps |
| PackListing.ChildrenContiguous | source/asset_pack.c:1013-1024 | the entries of one child are contiguous in a sorted pack where no name of the directory is both file and directory |
| PackListing.ListingExact | source/asset_pack.c:1000-1033 | the listing yields each immediate child with a name under 256 bytes exactly once, with its type, and nothing else, if and only if no name in the directory is both file and directory |
| PackListing.TreesListExactly | source/asset_pack.c:1000-1033 | so it does in every directory of a pack where no path is both file and directory |
| PackTwins.NamesDistinct | source/asset_pack.c:1013-1024 | no name is listed twice, if and only if no entry of another child stands between a file and a directory of one name |
| PackTwins.TwinsExample | source/asset_pack.c:1024 | an accepted pack whose root lists "a" twice |
| PackHandles.PackTable.GetHandle | source/asset_pack.c:764-769 | finds the one live handle of a descriptor |
| PackHandles.PackTable.AddHandle | source/asset_pack.c:725-744 | adds a cursor with an empty cache, or fails when all handles are used |
| PackHandles.PackTable.Open | source/asset_pack.c:755-761 | a new cursor at position 0 under the new descriptor |
| PackHandles.PackTable.Dup | source/asset_pack.c:775-787 | a second cursor with the same entry and position |
| PackHandles.PackTable.Dup2 | source/asset_pack.c:789-807 | the target is closed if live and then shows the source's cursor |
| PackHandles.PackTable.Close | source/asset_pack.c:920-938 | exactly that cursor disappears |
| PackHandles.PackTable.ReadHandleAt | source/asset_pack.c:821-828 | the slice of the content, cut at its end |
| PackHandles.PackTable.ReadCached | source/asset_pack.c:845-865 | the cached loop delivers the plain slice and leaves a cache that matches the content |
| PackHandles.PackTable.Read | source/asset_pack.c:830-869 | cached or not, a read delivers the plain slice and advances that cursor by its length, no other |
| PackHandles.PackTable.PRead | source/asset_pack.c:871-880 | the slice at an offset, no cursor moves |
| PackHandles.PackTable.LSeek | source/asset_pack.c:882-903 | where the cursor goes, and which errors leave it |
| PackHandles.ViewIs | source/asset_pack.c:764-769 | the table's meaning as a map from descriptors to cursors |
| PackHandles.WindowIs | source/asset_pack.c:809-819 | what a read delivers, byte by byte, and that two reads in a row are one |
| PackInstall.LoadedIdsAgree | source/asset_pack.c:255 | a pack and an index that load together carry one identity |
| PackInstall.AssetRoot.LoadsOneBuild | source/asset_pack.c:233-312 | whatever is on the card, what mounts comes from one build |
| PackInstall.AssetRoot.Prepare | source/asset_pack.c:510-662 | the part of the build that touches only the temporary files: it ends well exactly when the files can be packed, written and read back |
| PackInstall.AssetRoot.Swap | source/asset_pack.c:664-670 | unlink, unlink, rename, rename, each of which may fail or be the last |
| PackInstall.AssetRoot.Install | source/asset_pack.c:502-688 | stopped or failing anywhere, the installed files stay outputs of builds, and untouched unless both new files were written; success means the new files read back |
| PackInstall.AssetRoot.OpenExisting | source/asset_pack.c:320-337 | mounts exactly a valid pair that can be opened, which then reads as the files of one build |
| PackInstall.AssetRoot.Stale | source/asset_pack.c:388-407 | when the installed pack is to be rebuilt |
| PackInstall.AssetRoot.Boot | source/main.c:1333-1349 | mounts the pack, rebuilds it, or reports failure, and what is mounted is one build |
| PackInstall.PackedCopyDiffers | source/asset_pack.c:342-377 | the chunked comparison differs exactly when the loose file does |
| FontAtlas.FontsReadBack | source/godot_shim.c:526-548 | tables written with acceptable glyphs parse back to themselves |
| FontPatch.IsVisible | source/godot_shim.c:569-581 | finds a pixel with non-zero alpha in the rectangle exactly when there is one |
| FontPatch.ScanGlyphs | source/godot_shim.c:536-561 | all rectangles are checked; the last '.' and the best-ranked stand-in are found |
| FontPatch.PlanFont | source/godot_shim.c:526-613 | what one font needs, or that its table is bad |
| FontPatch.PlanPatches | source/godot_shim.c:521-613 | the plan for all fonts, and how many grow |
| FontRewrite.WriteFont | source/godot_shim.c:626-675 | one table with its repair applied, at the new place |
| FontRewrite.RewriteFonts | source/godot_shim.c:623-676 | all tables, repaired, one after the other |
| FontRewrite.PatchAeiDot | source/godot_shim.c:500-689 | goes ahead exactly for repairable files; then head and pixels are byte-identical and the tables are the repaired ones |
| FontRepair.BestSourceIs | source/godot_shim.c:553-560 | the stand-in is the first glyph of the best rank there is |
| FontRepair.LastDotIs | source/godot_shim.c:550-551 | the dot that counts is the last one |
| FontRepair.RepairKeeps | source/godot_shim.c:651-673 | every other glyph keeps code, rectangle and order; all rectangles stay in the image |
| FontRepair.RepairServes | source/godot_shim.c:563-609 | a font with a stand-in ends with a '.' that was visible or shares the stand-in's rectangle |
| FontRepair.AllFixedOk | source/godot_shim.c:533-534 | the repaired fonts are acceptable exactly when no font that grows has 4096 glyphs before |
| FontRepair.RepairReparses | source/godot_shim.c:500-689 | the same parser accepts the result, and reads the repaired fonts, exactly under that condition |
| FontOutgrown.ColonFileRepaired | source/godot_shim.c:533-609 | a family of files that are repaired, and refused afterwards just when their font has 4096 glyphs |
| FontRepair.RepairStable | source/godot_shim.c:500-689 | a second repair changes no byte |
| AtlasWriter.HeaderRead | source/godot_shim.c:504-519 | the reader finds width, height and all parts of a written atlas, and refuses exactly those outside the limits |
| AtlasWriter.HeaderNeeds | source/godot_shim.c:504-517 | other magic bytes, another version or an early end are refused |
| AtlasWriter.TablesRead | source/godot_shim.c:526-549 | and all written glyph tables, up to the end of the file |
| AtlasWriter.VisibleIs | source/godot_shim.c:569-581 | visible means that some pixel of the image inside the rectangle has alpha other than 0 |
| AtlasWriter.FontInside | source/godot_shim.c:533-548 | a font passes exactly when it has 1 to 4096 glyphs whose rectangles are non-empty and lie in the image |
| AtlasRepair.BestIsStandIn | source/godot_shim.c:553-560 | the stand-in is the first middle dot, else the first colon, comma or apostrophe |
| AtlasRepair.FixedIsRepaired | source/godot_shim.c:563-609 | what one font becomes, in terms of codes, rectangles and pixels |
| AtlasRepair.RepairableIs | source/godot_shim.c:500-617 | which written atlases are rewritten, if and only if |
| AtlasRepair.RepairedFile | source/godot_shim.c:500-689 | the result is the atlas of the same picture with repaired fonts, byte for byte |
| ScriptTokens.OffsetsOrdered | source/script_patch.c:225-230 | constants do not overlap |
| ScriptTokens.SizeKept | source/script_patch.c:136-153 | changing payloads changes no header, length or size |
| ScriptTokens.StructureKept | source/script_patch.c:208-245 | whatever happens inside payloads, the buffer parses to the same layout and use counts |
| ScriptTokens.OffsetsKept | source/script_patch.c:225-230 | and every constant stays where it is |
| ScriptWriter.ParsedIs | source/script_patch.c:208-245 | a written script parses exactly when its literals name constants it has, and then to its own layout |
| ScriptWriter.ConstantAt | source/script_patch.c:225-230 | every written constant stands where the parser looks for it |
| ScriptWriter.UsesAre | source/script_patch.c:233-244 | a constant's use count is the number of its literal tokens, narrow and wide |
| ScriptWriter.UnknownRefused | source/script_patch.c:136-153 | constants of other kinds, and those cut off, are refused |
| ScriptMeaning.MatchIs | source/script_patch.c:155-186 | the test on the stored bytes is that on the constant's value, in each width and kind |
| ScriptMeaning.SelectsIs | source/script_patch.c:247-263 | a patch selects the only constant with its value, named by as many tokens as it expects |
| ScriptMeaning.PayloadIs | source/script_patch.c:188-206 | the written payload makes the constant into the one with the new value |
| ScriptMeaning.PatchableIs | source/script_patch.c:208-263 | which written scripts are patched, if and only if |
| ScriptMeaning.PatchedIs | source/script_patch.c:264-266 | the result is the script with those constants replaced, byte for byte |
| ScriptMeaning.GdcTokens | source/script_patch.c:275-296 | what the tokens of a script file are, packed and not |
| ScriptMeaning.StoredScriptReplaced | source/script_patch.c:275-294 | the file of a script stored as it is becomes that of the patched script |
| ScriptPatch.ParseIdentifiers | source/script_patch.c:212-218 | the identifier loop |
| ScriptPatch.ParseConstants | source/script_patch.c:225-230 | the constant loop and its offsets |
| ScriptPatch.CountUses | source/script_patch.c:233-244 | the token loop and the use counts |
| ScriptPatch.ParseBuffer | source/script_patch.c:208-245 | succeeds exactly when the buffer parses to its end |
| ScriptPatch.MatchFits | source/script_patch.c:155-206 | the replacement of a matching constant stays inside its payload |
| ScriptPatch.FindTarget | source/script_patch.c:248-258 | the only match, or nothing when there is none or more than one |
| ScriptPatch.SelectTargets | source/script_patch.c:247-263 | one target for each patch with the expected number of uses, or the patch that has none |
| ScriptRewrite.RewriteConstant | source/script_patch.c:188-206 | writes the payload and nothing else |
| ScriptRewrite.PatchTokenBuffer | source/script_patch.c:208-272 | all patches or none: succeeds exactly for patchable buffers, and leaves the buffer unchanged otherwise |
| ScriptRewrite.OneOutcome | source/script_patch.c:247-266 | buffer and patches determine the outcome |
| ScriptRewrite.PatchKeepsStructure | source/script_patch.c:264-266 | the patched buffer parses to the same identifiers, offsets, sizes, tokens and use counts |
| ScriptRewrite.ChangedByte | source/script_patch.c:264-266 | a changed byte lies in the replaced payload of a selected constant |
| ScriptRewrite.OthersKept | source/script_patch.c:264-266 | constants that no patch selects keep every byte |
| ScriptRewrite.SameTargetSameValue | source/script_patch.c:155-174 | patches that look for different values have different targets |
| ScriptRewrite.PatchTakesEffect | source/script_patch.c:188-206 | with distinct targets, each target then matches the new value |
| ScriptRewrite.PatchUndone | source/script_patch.c:188-206 | writing the old values back restores the buffer byte for byte |
| ScriptFile.FillIsSkippable | source/script_patch.c:299-311 | the gap is filled by one skippable frame that ends at the end of the file |
| ScriptFile.FillExactly | source/script_patch.c:299-311 | a gap can be filled exactly when it is none or takes a frame's header |
| ScriptFile.LevelsInOrder | source/script_patch.c:297-298 | the levels 19, 12 and 6 are tried in this order |
| ScriptFile.Compress | source/script_patch.c:297-312 | the first level that fills the old length |
| ScriptFile.PatchScript | source/script_patch.c:275-330 | succeeds exactly for replaceable files; length and header stay, and the engine decodes exactly the patched tokens |
| ObbReadAhead.ObbSlot.Refill | source/libc_shim.c:559-576 | the window moves to the position's page, covers it, fits the buffer, and doubles only on sequential reads |
| ObbReadAhead.ObbSlot.Read | source/libc_shim.c:551-588 | moves the position by what it delivers and stops short only where the card fails; the bytes are those of a plain read exactly when the size is known or there is nothing to read |
| ObbReadAhead.ReadAgrees | source/libc_shim.c:545-556 | with `fstat` failed, a read is the plain one exactly when that one delivers nothing |
| ObbReadAhead.BlindReadExample | source/libc_shim.c:545-546 | one byte and a failed `fstat`: end of file instead of the byte |
| ObbReadAhead.ObbSlot.LSeek | source/libc_shim.c:590-602 | returns and moves as a plain `lseek` exactly when the target is not negative |
| ObbReadAhead.SeekAgrees | source/libc_shim.c:594-598 | the same for every size, position, offset and origin |
| ObbReadAhead.PlainReadIs | source/libc_shim.c:551-588 | what a plain read delivers, byte by byte |
| ObbReadAhead.PlainSeekLaws | source/libc_shim.c:590-602 | what the plain cursor means: from the start, on and back, from the end, and refusal before the start |
| ObbReadAhead.ReadOn | source/libc_shim.c:551-602 | reading on from where a read has come to reads on in the file |
| ObbReadAhead.BlindSeekAgrees | source/libc_shim.c:594-598 | with `fstat` failed, a seek from the end agrees only when it would go to the start |
| ObbReadAhead.NegativeSeekExample | source/libc_shim.c:597 | `lseek(fd, -1, SEEK_SET)` goes to the start instead of failing |
| ObbReadAhead.ObbSlot.StreamRefilled | source/libc_shim.c:562-576 | in a run without seeks a refill starts where the last one ended, on a page boundary, without slack |
| ObbReadAhead.CoverClosed | source/libc_shim.c:564-565 | 32, 64, 128 and then 256 KiB each time |
| ObbReadAhead.StreamCost | source/libc_shim.c:562-576 | at most 3 + ceil(max(0, P - 224 KiB) / 256 KiB) refills for P bytes, and no byte fetched twice |
| ObbReadAhead.ObbTable.Find | source/libc_shim.c:522-526 | a slot answers just for tracked descriptors, exactly when the descriptor is not -1 or no slot is free |
| ObbReadAhead.ServesTracked | source/libc_shim.c:522-526 | that condition, on every table |
| ObbReadAhead.AnswersItsOwn | source/libc_shim.c:525 | a tracked descriptor is answered by its own slot |
| ObbReadAhead.FreeSlotExample | source/libc_shim.c:522-556 | a table with nothing tracked on which -1 is served instead of refused |
| ObbReadAhead.ObbTable.Track | source/libc_shim.c:534-549 | the first free slot takes the descriptor; descriptors stay distinct |
| ObbReadAhead.ObbTable.Close | source/libc_shim.c:604-609 | exactly that slot is freed |
| Resampler.Mix | source/audio.c:151-152 | an interpolated sample lies between its neighbours, so it fits 16 bits |
| Resampler.MixFollows | source/audio.c:151-152 | it starts at the earlier sample and stays within one unit of the line to the later one |
| Resampler.FramesBack | source/audio.c:146-147 | stereo data is taken as interleaved, mono data on both sides |
| Resampler.CountCovers | source/audio.c:149-155 | an output frame exists exactly when its position lies before the end of the input |
| Resampler.FreshSample | source/audio.c:145-158 | from the start, n input frames give ceil(n * 48000 / rate) frames; frame k lies within one unit of the line between the input frames around k * rate / 48000, left from left and right from right |
| Resampler.OutputSplit | source/audio.c:145-158 | two buffers give the frames and the state of one |
| Resampler.ChunkInvariance | source/audio.c:123-160 | however the input is cut into buffers, the output is the same |
| Resampler.PhaseBounded | source/audio.c:154-156 | the carried phase is less than one output step |
| Resampler.GuardNeverCuts | source/audio.c:142-149 | the room that is asked for always suffices, so the guard never cuts |
| Resampler.OutBuf.EnsureCap | source/audio.c:113-120 | room for what is asked, or failure |
| Resampler.OutBuf.HeldInterleaved | source/audio.c:151-152 | what the buffer holds is interleaved |
| Resampler.Player.Emit | source/audio.c:149-155 | the inner loop writes exactly the frames due in this input frame |
| Resampler.Player.Resample | source/audio.c:145-158 | the loops compute the output and the carried state of the specification |
| Resampler.Player.Convert | source/audio.c:123-160 | 48 kHz passes through; else the specified output; nothing happens without memory |
| LazyMutex.SlotFits | source/imports.c:97-99 | the aligned slot is the first or second word and fits the storage |
| LazyMutex.MarksAre | source/imports.c:80-81 | the three static initialisers and which of them ask for recursion |
| LazyMutex.MarkOverlaid | source/imports.c:133 | in 8-aligned storage the mark is the low half of the slot |
| LazyMutex.StepKeepsInv | source/imports.c:129-143 | every single step of any thread keeps the protocol's invariant |
| LazyMutex.SlotChangesOnce | source/imports.c:138-140 | in every schedule the slot changes at most once |
| LazyMutex.OneObjectForAll | source/imports.c:129-144 | all successful callers get the same live object, recursive exactly when the mark is 0x8000 or 0x4000 |
| LazyMutex.LoserGetsTheWinner | source/imports.c:141-143 | a lost race frees the loser's own object only and returns the winner's |
| LazyMutex.FailsOnlyWithoutMemory | source/imports.c:134-135 | no call fails unless an allocation failed |
| LazyMutex.NoObjectLeaked | source/imports.c:141-142 | when no call is under way, only the published object is alive |
| C11Pool.ScanIsBijective | source/nx_c11.c:165-168 | the rotated scan looks at every slot exactly once |
| C11Pool.Pool.SlotOf | source/nx_c11.c:142-157 | a handle denotes the slot below it; zero denotes none |
| C11Pool.Pool.Scan | source/nx_c11.c:165-177 | a free slot, or the certainty that all are in use |
| C11Pool.Pool.Grow | source/nx_c11.c:180-205 | the chunks stay a prefix |
| C11Pool.Pool.New | source/nx_c11.c:159-223 | a fresh handle to a zeroed slot; fails exactly when all is in use and no chunk can be had |
| C11Pool.Pool.Destroy | source/nx_c11.c:232-241 | exactly that slot is free again |
| RecursiveMutex.OwnerReadIsSafe | source/nx_c11.c:247-249 | only the holder finds its own identity in the owner word |
| RecursiveMutex.StepKeepsInv | source/nx_c11.c:243-287 | every single access keeps the invariant |
| RecursiveMutex.MutualExclusion | source/nx_c11.c:243-287 | in every schedule at most one thread has locked more often than unlocked |
| RecursiveMutex.DepthIsNesting | source/nx_c11.c:249-285 | between calls the depth is the holder's locks minus unlocks |
| RecursiveMutex.RelockNeverWaits | source/nx_c11.c:248-249 | the holder gets the mutex again without waiting |
| RecursiveMutex.FreeLockTaken | source/nx_c11.c:243-274 | a free mutex is taken in four own steps |
| RecursiveMutex.OnlyTriesGiveUp | source/nx_c11.c:260-268 | waiting ends with the mutex; only an attempt gives up, and only when it is held |
| RecursiveMutex.UnlockGives | source/nx_c11.c:276-287 | the last unlock frees the mutex, one before it counts down |
| RecursiveMutex.AllReleased | source/nx_c11.c:280-286 | after as many unlocks as locks the mutex is free |
| Relr.NamedOnce | source/so_util.c:242-260 | a well-formed table encodes every word at most once |
| Relr.ApplyBitmap | source/so_util.c:253-257 | a bitmap moves exactly the words of its set bits |
| Relr.ProcessRelr | source/so_util.c:242-261 | the base is added once to each encoded word and to no other |
| RelrWriter.AddressRead | source/so_util.c:247-250 | an even entry names the word at that byte address |
| RelrWriter.BitmapRead | source/so_util.c:252-258 | an odd entry marks exactly the listed words among the 63 from its start |
| RelrWriter.EncodeReadsBack | source/so_util.c:242-261 | a table written from ascending byte addresses encodes exactly these |
| RelrWriter.EncodedRebased | source/so_util.c:242-261 | applying it adds the base to the words at these addresses, once, and to no other |
| Relocation.LookupExport | source/so_util.c:322-333 | the first defined non-local symbol of that name |
| Relocation.OneSymbol | source/so_util.c:324-330 | global and weak definitions are exports, local and undefined symbols are not |
| Relocation.ResolveSymbol | source/so_util.c:335-351 | the lookup of the specification |
| Relocation.ShimWins | source/so_util.c:336-340 | a shim wins over every module |
| Relocation.FirstModuleWins | source/so_util.c:342-348 | without one, the first other module in load order that offers the name |
| Relocation.MissingExactly | source/so_util.c:335-351 | a name is missing exactly when its first shim is at 0, or when it has no shim and no other module offers it |
| Relocation.RelocateRelas | source/so_util.c:263-303 | the first phase, table by table |
| Relocation.Relocate | source/so_util.c:263-318 | tables, then packed relocations |
| Relocation.Resolve | source/so_util.c:353-396 | the second phase, and how many imports it reports as missing |
| Relocation.FinalSlot | source/so_util.c:263-396 | what every relocated word holds in the end |
| Relocation.FinalOther | source/so_util.c:263-396 | every other word is moved by the base if packed, else untouched |
| Relocation.LinkTimeMoves | source/so_util.c:272-296 | a module's own addresses count from its base and move with it |
| Relocation.SlotMoves | source/so_util.c:263-396 | another load base moves exactly the slots of the module's own addresses |
| PagePermissions.LoopBounds | source/so_util.c:76-80 | the marking loop's wrapping bounds, decided |
| PagePermissions.MarkAll | source/so_util.c:71-82 | the page map |
| PagePermissions.Pass | source/so_util.c:85-102 | one pass emits disjoint runs that cover exactly the wanted pages |
| PagePermissions.Finalize | source/so_util.c:56-106 | every page exactly once, RX exactly where marked, all RX before all RW |
| PagePermissions.ExactlyCode | source/so_util.c:74-82 | RX means that the page holds a byte of an executable segment, if and only if every page that an empty executable segment marks does |
| PagePermissions.StrayExample | source/so_util.c:78-79 | an empty executable segment at address 0 makes a page of data executable |
| PagePermissions.StrayInsideExample | source/so_util.c:78-79 | one off a page boundary does so too, with no code in the file |
| PadInput.EveryTapOnce | source/main.c:398-465 | in every run of captures and polls a button is shown pressed once for each poll that finds it newly down and once for each interval between two polls that find it up in which a press was captured |
| PadInput.EachPressShown | source/main.c:398-465 | never more presses are shown than captured or seen by a poll alone, and each is shown as its own exactly when at most one is captured between two polls, and none after a poll that finds the button down |
| PadInput.MergedTapsExample | source/main.c:457-464 | two captured taps between two polls are shown as one press |
| PadInput.HeldTapExample | source/main.c:460-464 | a tap captured after a poll that finds the button down is not shown |
| PadInput.TraceAlternates | source/main.c:448-465 | what is shown of a button alternates, starting with a press |
| PadInput.PadPoll.ReleaseSynthetic | source/main.c:448-455 | every synthetic press is released first |
| PadInput.PadPoll.Poll | source/main.c:441-467 | replay gives the sample plus the synthetic taps, and of every button exactly what its own run prescribes |
| PadInput.ButtonsDistinct | source/main.c:365-380 | the button table names no button and no code twice |
| TouchInput.TouchPoll.Removed | source/main.c:545-621 | exactly the fingers that are gone are reported |
| TouchInput.TouchPoll.Added | source/main.c:628-683 | exactly the new fingers are reported |
| TouchInput.TouchPoll.Poll | source/main.c:488-738 | replay gives the fingers of the sample, positions included; the events keep to the protocol exactly when nothing was down, a finger stays, or one finger was lifted |
| TouchInput.ReplacedFinger | source/main.c:545-683 | the only finger replaced between two polls: the new one comes as a further pointer with none down |
| TouchInput.BothLifted | source/main.c:563-569 | two fingers lifted between two polls: the last goes as a further pointer |
| Utf8.TakeAdvances | source/jni_fake.c:552-579 | decoding advances and never passes the terminator |
| Utf8.NextCodePoint | source/jni_fake.c:552-579 | one code point and the place of the next |
| Utf8.RoundTrip | source/jni_fake.c:552-579 | decoding inverts the encoding of RFC 3629 |
| Utf8.PublishedValues | source/jni_fake.c:552-579 | one known encoding of each length |
| Utf8.MalformedReplaced | source/jni_fake.c:552-579 | stray, impossible and cut-off sequences give one replacement each |
| Keyboard.DeleteBefore | source/jni_fake.c:602-603 | what stands before the caret is deleted, however many deletions are too many |
| Keyboard.DeleteAfter | source/jni_fake.c:604-605 | what stands behind the caret is deleted, however many deletions are too many |
| Keyboard.TypeText | source/jni_fake.c:612-622 | the new text is typed code point by code point |
| Keyboard.EmitText | source/jni_fake.c:586-623 | for every cursor argument the events leave exactly the new text, and their number is exact |
| Keyboard.ForwardExactly | source/jni_fake.c:604 | no more is deleted forward than the text holds, exactly when the selection ends inside the text |
| Keyboard.CaretBehindExample | source/jni_fake.c:604 | a caret one behind an empty text asks for 2^64 - 1 deletions |

## Left out

- Real file I/O, directory walking (`collect_files`), path buffers of 768 and 1024 bytes for the file system, and the
  SD card's quirks: files are byte sequences; failing and interrupted operations are modelled in `PackInstall` only.
- `qsort` is modelled as an insertion sort; the order of equal paths does not matter, since such a list is refused.
- Progress messages, logging, errno values other than the ones named, and reference counts of statistics.
- Failing `malloc` outside the handle cache, the resampler's buffer, the C11 chunks and the lazy mutex.
- The `uint32_t` entry count, path offsets and use counts are unbounded where the limits checked before make them fit.
- PackHandles.PackTable.LSeek: does not model overflow of `base + offset` beyond 64 bits.
- PackHandles.PackTable.Read: the handle locks are taken as given; one call runs at a time.
- PackInstall.AssetRoot.Install: takes `rename` and `unlink` as atomic, and the identities of different builds as distinct;
  a build's source files do not change or vanish while it reads them.
- ScriptRewrite.PatchUndone: leaves out float patches, whose old bytes the patch does not name.
- ScriptPatch.FindTarget: which stored floats match is an abstract predicate on their bytes; rounding is not modelled.
- ScriptFile.PatchScript: the compressor is an abstract pair of functions; only its length handling is concrete.
- ObbReadAhead.ObbSlot.Read: takes a backing read to be short only at the end of the file, or to fail for a page; before
  the first `obb_track` no call looks at the table, which is not modelled.
- ObbReadAhead.ObbSlot.LSeek: does not model overflow beyond 64 bits.
- ObbReadAhead.ObbTable.Track: the slot's lock and its buffer allocation are not part of this model.
- Resampler.Player.Convert: works on exact integers in 48000ths; the double arithmetic of the original is not modelled.
- LazyMutex.OneObjectForAll: no `pthread_mutex_init` or `pthread_mutex_destroy` while calls are under way; `ensure_cond`
  is the same scheme without a mark.
- RecursiveMutex.MutualExclusion: threads have distinct non-zero tags and unlock only what they hold; `cnd_wait` on a
  recursive mutex and nesting beyond 2^32 - 2 are excluded.
- Relocation.FinalSlot: relocated words are aligned, and no word is the target of two relocations.
- PadInput.PadPoll.Poll: sticks and triggers are not modelled; the event hook is taken to be present throughout.
- PadInput.EachPressShown: counts what the two threads see, each sample and its latching or collecting as one moment. A
  press that the poll sees first and the capture thread later is seen twice, and so is one latched between a poll's
  sample of the pad and its taking of the latch, which is shown as a tap and then as a press.
- TouchInput.TouchPoll.Poll: coordinates are not scaled; finger identities within one sample are distinct.
- The `.pck` pool, the JNI registry, the audio queue, configuration, shader overrides, instruction patches and the
  import tables: name lists, thin wrappers, or statements that need heavy restrictions of their callers.
