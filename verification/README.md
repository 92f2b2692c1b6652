# A verified model of the riscv-from-scratch software

This project models the parts of the repository that compute: the Kconfig value engine behind the core generator, the boot chain from a packed BOOT.BIN through the QSPI flash to an image running in RAM, the device-tree library that the boot ROM edits its tree with, and a few smaller state machines. It proves what each part promises, for all inputs and over whole runs. `dafny verify dfyconfig.toml` checks everything.

## The parts

**Kconfig** (`Kconfig*.dfy`). Symbol and choice values are computed lazily and cached. Setting a value invalidates only part of the dependency graph: the recursion stops at items whose visibility is not cached. `KconfigModel` defines every value and visibility as an equation over a cell, with the set of cells that its short-circuit evaluation reads. `KconfigFresh` defines cache-free evaluation and shows that it is the only solution; `KconfigLaws` and `KconfigTexts` say what its values mean, without the calculation: select, imply, defaults, visibility, choices, ranges and relations. `KconfigCoherence` proves the pruned invalidation sound, `KconfigEngine` is the class with its caches, and every method is proved to return the cache-free value and to keep every cached cell equal to it. `KconfigWalk`, `KconfigOrder` and `KconfigLoops` are the loop check, choices included; `KconfigLayers` proves what it buys, and `KconfigMissed` what it misses. `KconfigExprText` proves the printer against the parser, `KconfigStrings` the quoting of strings, and `KconfigConf` the lines of a .config against their reader.

**Boot images** (`Crc`, `CrcPoly`, `BootBin`, `BootLaws`, `BootBuild`). The table-driven and the bitwise CRC-32 are the same function: the remainder of a polynomial division, which sees every burst of up to four bytes. The BOOT.BIN parser gives every file the verdict that it deserves and inverts the writer.

**Flash** (`FlashDevice`, `FlashCommands`, `QspiDriver`, `FlashProtocol`, `FlashServer`). The device is a strict controller with a NOR flash behind it that counts every protocol violation. The driver never causes one and writes what it was given. The server's byte matcher is exact; over any stream it writes only what will boot, and what it reports as done does.

**Boot ROM** (`RomImage`, `RomLaws`, `RomLoader`, `RomRoundTrip`). An image from the line or from memory is checked before the first byte is written, and lands exactly where its table says; damage of up to four neighbouring bytes, in the data or in a head whose length stays, is always refused.

**Device tree** (`Fdt*.dfy`). Tokens and their bytes (which determine each other), the tree behind the tokens, the walk, lookups by name and path, and the in-place editor with its moving of bytes. The main result, `FdtLaw.SetPropLaw`, is the law of an update: after setting one property every other property of every node reads as before.

**State machines** (`SbiTimer`, `SbiConsole`, `Sv32`, `Vector*.dfy`). Timer forwarding under every interleaving, the console's memory accesses, two isolated address spaces, and the generator of random vector programs with every memory access that its programs make.

## Where the code does not keep a promise

Each of these is a lemma with the exact condition beside it.

- A choice with a default symbol outside the choice is only warned about. Its selection can then stay stale (`KconfigStale.StaleSelection`). The dependencies are complete exactly when all choice defaults lie inside their choices (`KconfigCoherence.RecordedIffContained`).
- The loop check does not find every loop. It does not follow the read of the modules symbol for the type of a tristate (`KconfigMissed.ModulesLoopIsMissed`). It takes the members of a choice one by one, so that a member which depends on a later one is finished too early (`KconfigMissed.MembersLoopIsMissed`). And it does not follow a choice to items that mention it without being members (`KconfigMissed.OutsiderLoopIsMissed`). These three are all: an accepted configuration can be evaluated if and only if they are clear (`KconfigLayers.RankableIffClear`).
- The boot ROM adds the segment sizes in 32 bits. The total is right for every table exactly when the payload area is smaller than 512 MiB (`RomImage.TotalNeverWraps`).
- The ROM looks up `/chosen` before it edits `/memory`. The offset is still right afterwards exactly when `/chosen` comes first or the edit changes no size (`FdtFixup.OffsetStays`). `FdtStale.OffsetGoesStale` is a blob for which it is not.

## Model

| member | source | states |
|---|---|---|
| `KconfigFresh.BodySame` | tools/kconfig/kconfiglib.py:4287-4505 | a value or visibility is decided by what its evaluation actually reads (short-circuit included) and by the item's own user input: two environments that agree on those reads give the same value and the same reads |
| `KconfigFresh.BodyReadsAll` | tools/kconfig/kconfiglib.py:5988-6042 | no evaluation reads a cell outside the set its expressions mention, whatever the user values are |
| `KconfigFresh.FreshSolves` | tools/kconfig/kconfiglib.py:4287-4505 | cache-free evaluation, by recursion over a ranking of the cells, satisfies the defining equation of every cell |
| `KconfigFresh.FreshUnique` | tools/kconfig/kconfiglib.py:4287-4505 | any assignment that satisfies all the defining equations is the cache-free one, so "what a fresh evaluation gives" is well defined |
| `KconfigLaws.StrCmpMeans` | tools/kconfig/kconfiglib.py:6361-6364 | the comparison of strings is 0 exactly for equal ones and otherwise decides at the first place where they differ or one ends |
| `KconfigLaws.ExprMeans` | tools/kconfig/kconfiglib.py:5988-6042 | && is the smaller of its sides and || the larger in spite of the short-circuits, ! the mirror image, and a relation is y or n: as numbers where both sides are numbers and not both are strings, else as strings |
| `KconfigLaws.TypeMeans` | tools/kconfig/kconfiglib.py:4274-4284 | a tristate symbol is bool exactly while modules are off or its choice is in y mode |
| `KconfigLaws.ModeMeans` | tools/kconfig/kconfiglib.py:5190-5207 | the mode of a choice is the user's, at least m unless the choice is optional, at most the visibility, and y for m where the choice is bool |
| `KconfigLaws.VisMeans` | tools/kconfig/kconfiglib.py:6286-6313 | the visibility of a symbol is the largest condition of its prompts, y for m unless it is tristate now, and n for a member that its choice hides |
| `KconfigLaws.ChoiceVisMeans` | tools/kconfig/kconfiglib.py:6292-6313 | the visibility of a choice is the largest condition of its prompts, y for m unless it is tristate now |
| `KconfigLaws.MemberVisible` | tools/kconfig/kconfiglib.py:6298-6313 | in a choice in y mode a member is visible with y or not at all |
| `KconfigLaws.TriMeans` | tools/kconfig/kconfiglib.py:4453-4490 | a bool or tristate symbol outside choices has the largest of three values, y for m where m stands for y: its own (the user's, at most the visibility, or else the first default that applies, at most its condition), what is implied where its dependencies are met and the user has not decided, and what is selected |
| `KconfigLaws.TriLaws` | tools/kconfig/kconfiglib.py:4453-4490 | the value is never below what is selected; never below what is implied if the user has not decided and the dependencies are met; with nothing selected or implied it is the symbol's own value; and it is m for tristate symbols only |
| `KconfigLaws.OtherTri` | tools/kconfig/kconfiglib.py:4435-4444 | a symbol of any other type is n wherever a tristate value is asked for |
| `KconfigLaws.SelMeans` | tools/kconfig/kconfiglib.py:5424-5453 | a choice selects in y mode only: the user's selection if it is visible, else the first default that applies and is visible, else the first visible member, else nothing |
| `KconfigLaws.OneIsChosen` | tools/kconfig/kconfiglib.py:4492-4496 | of the members of a choice exactly the selected one is y, in y mode every other is n, and one is selected as soon as a member is visible |
| `KconfigLaws.ManyMayBeModules` | tools/kconfig/kconfiglib.py:4492-4502 | outside y mode a member is m exactly if it is visible with m and has a user value other than n, else n |
| `KconfigTexts.StrMeans` | tools/kconfig/kconfiglib.py:4287-4425 | the string value by type: n, m or y, the name of an undefined symbol, the user's text or else the first default's, and for numbers the user's text if it lies in the first active range, else a default's or, outside the range, the nearer end of it |
| `KconfigTexts.NumbersAreInRange` | tools/kconfig/kconfiglib.py:4315-4390 | whatever the user, the defaults and other symbols say, a number lies in its active range, if that is not empty and numbers read back as written |
| `KconfigTexts.TriWritten` | tools/kconfig/kconfiglib.py:4446-4485 | a bool or tristate symbol is written exactly if it is visible, selected, implied or has a default other than n |
| `KconfigTexts.TextWritten` | tools/kconfig/kconfiglib.py:4409-4425 | a member of a choice is written exactly while it is visible, a number or string while it is visible or a default applies, and nothing that stands for the environment |
| `KconfigCoherence.RecordedIffContained` | tools/kconfig/kconfiglib.py:3466-3539 | the recorded dependency edges cover every cell that any evaluation can read if and only if every choice default lies inside its choice |
| `KconfigCoherence.CachedVisibility` | tools/kconfig/kconfiglib.py:4875-4892 | in a coherent cache every item that has a cached value and is not undefined also has its visibility cached, which is what lets invalidation stop at items without one |
| `KconfigCoherence.SurvivorIsFresh` | tools/kconfig/kconfiglib.py:4865-4894 | a cached cell that the pruned invalidation leaves alone still equals cache-free evaluation under the new user values |
| `KconfigCoherence.InvalidationKeepsCoherence` | tools/kconfig/kconfiglib.py:4865-4894 | after a change of user values, clearing a set of items that is closed under dependents with cached visibilities leaves a cache in which every remaining cell is right |
| `KconfigDependents.DependOn` | tools/kconfig/kconfiglib.py:6316-6332 | exactly the symbols and choices that occur in an expression get the depending item added |
| `KconfigDependents.BuildDep` | tools/kconfig/kconfiglib.py:3466-3525 | after it, j is a dependent of i exactly when i occurs in one of the expressions j depends on |
| `KconfigDependents.AddChoiceDeps` | tools/kconfig/kconfiglib.py:3527-3539 | afterwards the dependents are exactly the inverse of the dependency relation, choice members included |
| `KconfigEngine.Engine.constructor` | tools/kconfig/kconfiglib.py:1114-1125 | a new engine is coherent: empty cache, no user values, complete dependents |
| `KconfigEngine.Engine.ExprValue` | tools/kconfig/kconfiglib.py:5988-6042 | evaluating an expression through the caches gives its cache-free value, and everything it read is then cached |
| `KconfigEngine.Engine.TypeOf` | tools/kconfig/kconfiglib.py:4274-4284 | the type seen (a choice symbol in y mode is bool, tristate without modules is bool) is that of cache-free evaluation |
| `KconfigEngine.Engine.ChoiceTriValue` | tools/kconfig/kconfiglib.py:5190-5207 | the mode of a choice through the caches is its cache-free mode |
| `KconfigEngine.Engine.Visibility` | tools/kconfig/kconfiglib.py:4517-4523 | the visibility of a symbol or choice is that of cache-free evaluation, which `KconfigLaws.VisMeans` says, and the cache stays coherent |
| `KconfigEngine.Engine.TriValue` | tools/kconfig/kconfiglib.py:4428-4505 | the tristate value is that of cache-free evaluation, which `KconfigLaws.TriMeans` and `KconfigLaws.OneIsChosen` say, and the cache stays coherent |
| `KconfigEngine.Engine.StrValue` | tools/kconfig/kconfiglib.py:4287-4425 | the string value is that of cache-free evaluation, which `KconfigTexts.StrMeans` says, and the cache stays coherent |
| `KconfigEngine.Engine.Selection` | tools/kconfig/kconfiglib.py:5236-5242 | the selected symbol of a choice is that of cache-free evaluation, which `KconfigLaws.SelMeans` says, and the cache stays coherent |
| `KconfigEngine.Engine.ConfigString` | tools/kconfig/kconfiglib.py:4416-4549 | the .config line, prefix included, is made from the cache-free value and the cache-free decision whether to write it (never for environment variables), although the write flag is a side effect of another property |
| `KconfigEngine.Engine.InvalidateAll` | tools/kconfig/kconfiglib.py:3541-3554 | clears every cell of every item |
| `KconfigEngine.Engine.RecInvalidate` | tools/kconfig/kconfiglib.py:4865-4894 | the recursion, which stops at items without a cached visibility, terminates on cyclic choice edges and clears a set closed under dependents with cached visibilities |
| `KconfigEngine.Engine.RefreshIfPrompt` | tools/kconfig/kconfiglib.py:4896-4916 | skipping invalidation for a symbol without prompts leaves the cache coherent |
| `KconfigEngine.Engine.SetValue` | tools/kconfig/kconfiglib.py:4558-4645 | returns whether the value has a form the symbol accepts, changes the user values exactly so, and leaves every cached cell equal to cache-free evaluation of the new user values |
| `KconfigEngine.Engine.UnsetValue` | tools/kconfig/kconfiglib.py:4647-4655 | removes the user value and leaves the cache coherent |
| `KconfigEngine.Engine.SetMode` | tools/kconfig/kconfiglib.py:5244-5283 | takes a mode as a number or as n, m or y, sets it if the type of the choice allows it, and leaves the cache coherent |
| `KconfigEngine.Engine.UnsetChoice` | tools/kconfig/kconfiglib.py:5285-5293 | removes mode and selection and leaves the cache coherent |
| `KconfigConf.AcceptedForms` | tools/kconfig/kconfiglib.py:4576-4617 | set_value takes n, m and y as numbers or letters, m for tristate symbols only, texts for strings, and texts of numbers (not negative for hex) for numbers; nothing for an undefined symbol |
| `KconfigConf.SetTakes` | tools/kconfig/kconfiglib.py:4558-4645 | a value set for a visible symbol outside choices, if not above its visibility, becomes the larger of itself and what is selected, y for m where m stands for y |
| `KconfigConf.ChoosingTakes` | tools/kconfig/kconfiglib.py:4569-4573 | a member that is set to y in a choice in y mode is the selection and y as soon as it is visible, and every other member is n |
| `KconfigConf.LineReadsBack` | tools/kconfig/kconfiglib.py:1271-1354 | loading the line that was written for a symbol of any type assigns the value that was written, quoting, comments for n and the first-letter rule included |
| `KconfigConf.SavedValueLoads` | tools/kconfig/kconfiglib.py:4526-4549 | for every configuration: the line of a bool or tristate symbol assigns exactly its value, in a form that the symbol accepts |
| `KconfigStale.StaleSelection` | tools/kconfig/kconfiglib.py:5424-5453 | a choice whose default symbol lies outside the choice (only warned about) keeps a stale selection after the invalidation that the code makes: coherence fails for a concrete configuration |
| `KconfigWalk.RaisedIsCircle` | tools/kconfig/kconfiglib.py:6668-6711 | the check raises only for a loop: the items it names are those of calls that were really made, all different, each calling the next and the last coming back to the first |
| `KconfigWalk.NoFalsePair` | tools/kconfig/kconfiglib.py:6584-6587 | a symbol and its choice alone are reported only if the choice depends on the symbol; being a member is never reported as a loop |
| `KconfigOrder.AcceptedIsOrdered` | tools/kconfig/kconfiglib.py:6559-6665 | if the check finds nothing, the order in which items were finished has every symbol after its dependents and every choice after its members, except the one it was entered through, whose dependents are then finished |
| `KconfigOrder.DownCirclesAreFound` | tools/kconfig/kconfiglib.py:6559-6665 | every loop that leads from symbols to dependents and from choices to members is found; only a loop in which a member calls for its own choice can escape |
| `KconfigLoops.LoopCheck.CheckSym` | tools/kconfig/kconfiglib.py:6559-6631 | the calls, results and colours are those of the specified depth-first search, with the ignore_choice flag |
| `KconfigLoops.LoopCheck.CheckChoice` | tools/kconfig/kconfiglib.py:6634-6665 | the same for a choice, with the member to skip |
| `KconfigLoops.CheckAll` | tools/kconfig/kconfiglib.py:1117-1120 | the check of all defined symbols, with choices: raised means a genuine loop, and otherwise the items are ordered and no loop is left but those through a member to its own choice |
| `KconfigLayers.RankableIffClear` | tools/kconfig/kconfiglib.py:1114-1120 | for every accepted configuration, with or without choices: cache-free evaluation is well founded if and only if no cell needs itself through the modules symbol, through a choice mentioned by a non-member, or through the members' visibilities that a selection asks for |
| `KconfigLayers.ExactWithoutChoices` | tools/kconfig/kconfiglib.py:1114-1120 | without choices the check accepts a configuration if and only if its dependency graph has no loop |
| `KconfigLayers.CheckConfig` | tools/kconfig/kconfiglib.py:1114-1120 | building the dependents and checking all defined symbols: a raised loop is genuine, and for an accepted configuration the exact condition under which evaluation is well founded |
| `KconfigMissed.ModulesLoopIsMissed` | tools/kconfig/kconfiglib.py:4274-4284 | a concrete configuration without any loop in its graph is accepted, and with the user value T=m its evaluation asks for MODULES from T and for T from MODULES |
| `KconfigMissed.MembersLoopIsMissed` | tools/kconfig/kconfiglib.py:6642-6650 | a concrete choice of three, the second depending on the third, is accepted, and with the second selected the value of the third asks for the selection, that for the second's visibility, and that for the third's value |
| `KconfigMissed.OutsiderLoopIsMissed` | tools/kconfig/kconfiglib.py:3637-3659 | a concrete choice that depends on a symbol in a menu inside it is accepted, and its visibility asks for itself whatever the values are |
| `KconfigMissed.OrderlyChoice` | tools/kconfig/kconfiglib.py:5424-5453 | a configuration with a choice whose dependencies are all recorded and whose cells are ranked, as the engine asks for |
| `KconfigExprText.Parser.Expression` | tools/kconfig/kconfiglib.py:3376-3415 | the recursive-descent parser returns what the grammar function says, and fails exactly when it does |
| `KconfigExprText.Parser.Conjunction` | tools/kconfig/kconfiglib.py:3417-3424 | the same for an and-chain |
| `KconfigExprText.Parser.Factor` | tools/kconfig/kconfiglib.py:3426-3464 | the same for a factor, with the rewrite of m where it is asked for |
| `KconfigExprText.ExprReadBack` | tools/kconfig/kconfiglib.py:6060-6101 | the tokens of a printed expression over symbols parse back to that expression with its and-chains and or-chains associated to the right, whatever follows |
| `KconfigExprText.ReadBackMeansTheSame` | tools/kconfig/kconfiglib.py:5988-6014 | the expression read back has the same value under every assignment |
| `KconfigExprText.RewriteLimits` | tools/kconfig/kconfiglib.py:3433-3441 | parsing with the rewrite of m is parsing without it and then limiting every m that is not compared by MODULES; the same inputs are malformed |
| `KconfigStrings.EscapeIsEach` | tools/kconfig/kconfiglib.py:6176-6183 | the two replacements one after the other escape each character once |
| `KconfigStrings.StringRoundTrip` | tools/kconfig/kconfiglib.py:7160 | for every string, the quoted-string pattern takes exactly the escaped text out of the written line, and unescaping gives the string back |
| `Crc.CrcByte` | sw/boot/lib.h:32-37 | eight masked shift/xor steps are one byte of the bitwise CRC-32, which `CrcPoly.CrcIsRemainder` says |
| `Crc.CrcLoop` | sw/boot/lib.c:69-75 | the loop computes the CRC-32 of the bytes, continuing a previous one; `CrcPoly.CrcIsRemainder` says what that is |
| `Crc.Table.Fill` | sw/linux/board/ps/bootbin.c:42-48 | entry i of the table is eight bit steps of i |
| `Crc.TableStep` | sw/linux/board/ps/bootbin.c:50 | one table lookup equals eight bit steps for every state and byte |
| `Crc.Table.Update` | sw/linux/board/ps/bootbin.c:40-52 | the table-driven CRC equals the bitwise one for every byte sequence, from an empty or a filled table |
| `Crc.Crc32Concat` | sw/linux/board/ps/bootbin.c:65-67 | updating in pieces equals one update over the concatenation |
| `Crc.BurstChangesCrc` | sw/boot/lib.h:32-37 | messages of any length that differ only inside one window of up to four bytes have different CRCs |
| `CrcPoly.BvIs` | sw/boot/lib.h:34 | the bits that a byte is xored in as are the byte's |
| `CrcPoly.CrcIsRemainder` | sw/boot/lib.h:26-37 | for every message the bits of its CRC are the complement of the remainder of long division by the CRC-32 polynomial: of the message bits, low bit of each byte first and 32 zeros behind, with the first 32 complemented |
| `CrcPoly.CheckValue` | sw/boot/lib.h:26-27 | the CRC of the digits 1 to 9 is 0xcbf43926, the check value of IEEE 802.3 |
| `BootBin.RvbiOk` | sw/linux/board/ps/bootbin.c:57-71 | recognises exactly the RVBI images with a good header CRC that fit, and returns their size |
| `BootBin.PartitionSum` | sw/linux/board/ps/bootbin.c:90-91 | the sum of 15 words modulo 2^32 |
| `BootBin.ScanFindsFirst` | sw/linux/board/ps/bootbin.c:88-101 | the scan accepts exactly the tables in which every checksum is right and every payload lies inside the file; the bitstream is then the first partition for the PL, and the image the first other partition that holds an RVBI image |
| `BootBin.ScanPartitions` | sw/linux/board/ps/bootbin.c:88-101 | the loop over partition headers gives the verdict and the findings of the recursive scan |
| `BootBin.BootbinParse` | sw/linux/board/ps/bootbin.c:73-106 | returns, for any buffer and with aligned word loads only, the verdict and findings of the declarative parse, which `BootLaws.AcceptedMeans` and `BootLaws.VerdictMeans` say |
| `BootBin.ParsePrefix` | sw/linux/board/ps/bootbin.c:73-106 | an accepted BOOT.BIN is accepted with anything behind it, with the same payloads in the same places |
| `BootBin.ParseInside` | sw/linux/board/ps/bootbin.c:73-106 | for any buffer whatsoever, everything reported lies inside it, on word boundaries |
| `BootLaws.ChecksumMeans` | sw/linux/board/ps/bootbin.c:90-92 | a partition header is in order exactly if its sixteen words add up to 2^32 - 1 modulo 2^32 |
| `BootLaws.RvbiMeans` | sw/linux/board/ps/bootbin.c:57-71 | an RVBI image of a size is recognised exactly if the magic bytes, 1 to 8 segments, the CRC of the head with the CRC field as zero and the sizes are right |
| `BootLaws.AcceptedMeans` | sw/linux/board/ps/bootbin.c:73-106 | a file is accepted with these findings exactly if boot header, tables, every sum and every payload are in order, the bitstream is that of the first partition for the PL and the image the first RVBI image of the others |
| `BootLaws.VerdictMeans` | sw/linux/board/ps/bootbin.c:76-105 | each of the nine verdicts is given exactly to the files that deserve it: the first header that is not in order decides between a wrong checksum and a payload past the end |
| `BootLaws.ChangedWordIsRefused` | sw/linux/board/ps/test/host_test.c:210-211 | an accepted file in which any one word of any partition header is changed is refused for its checksum |
| `BootBuild.RvbiIsRecognised` | sw/linux/board/ps/test/mkbootbin.py:28-34 | an image made by rvbi() is recognised with its exact size, whatever follows it |
| `BootBuild.PartsInOrder` | sw/linux/board/ps/test/mkbootbin.py:45-51 | payloads are padded and appended in order |
| `BootBuild.PutPartitionHeaders` | sw/linux/board/ps/test/mkbootbin.py:71-73 | each partition header is written with its checksum, and only the header table is touched |
| `BootBuild.Build` | sw/linux/board/ps/test/mkbootbin.py:41-74 | the built file has the headers that the parser looks for and the payloads where they say |
| `BootBuild.ParseBuilt` | sw/linux/board/ps/test/mkbootbin.py:41-74 | parsing a built file finds exactly the partitions it was built from |
| `BootBuild.BootBinRoundTrip` | sw/linux/board/ps/test/mkbootbin.py:28-74 | for any loader that is not itself an RVBI image, any bitstream and any packed image of 1 to 8 segments, parsing the built file gives back exactly that bitstream and that image |
| `FlashDevice.Device.constructor` | sw/linux/board/ps/test/host_test.c:85-87 | the controller after reset and an idle flash with any contents |
| `FlashDevice.Device.EraseBlock` | sw/linux/board/ps/test/host_test.c:68-71 | a 64 KiB block becomes 0xff and nothing else changes |
| `FlashDevice.Device.ProgramPage` | sw/linux/board/ps/test/host_test.c:74-78 | bits are only cleared, and the address wraps inside its 256-byte page |
| `FlashDevice.Device.ShiftOut` | sw/linux/board/ps/test/host_test.c:89-102 | the queued bytes go to the flash in order, as many words come back, and every objection (disabled, linear mode, no chip select, FIFO overflow) is counted exactly |
| `FlashDevice.Device.DeselectFlash` | sw/linux/board/ps/test/host_test.c:59-82 | a command takes effect when chip select rises, and only with write enable |
| `FlashDevice.Device.HwWr` | sw/linux/board/ps/test/host_test.c:120-144 | what each register write does to controller, flash and objections |
| `FlashDevice.Device.HwRd` | sw/linux/board/ps/test/host_test.c:104-118 | what each register reads as; only RXD has a side effect |
| `FlashDevice.Device.FlashMap` | sw/linux/board/ps/test/host_test.c:146-151 | the linear map objects unless linear mode is fully set up |
| `FlashCommands.StatusCommand` | sw/linux/board/ps/test/host_test.c:37-57 | a status read makes the flash one step less busy and the third byte back is its status afterwards |
| `FlashCommands.AddressCommand` | sw/linux/board/ps/qspi.c:104-108 | the command byte and the 24-bit address arrive in the right order for every address |
| `FlashCommands.DataBytes` | sw/linux/board/ps/test/host_test.c:52 | data behind the address fills the page buffer in order, without wrapping |
| `FlashCommands.ProgramErased` | sw/linux/board/ps/test/host_test.c:74-78 | programming erased cells stores exactly the page |
| `QspiDriver.CommandBytes` | sw/linux/board/ps/qspi.c:89-93 | the words queued by a command carry its bytes in order |
| `QspiDriver.Driver.Mode` | sw/linux/board/ps/qspi.c:61-75 | either mode is reached without objection from any idle state; nothing is left in the receive queue for I/O mode |
| `QspiDriver.Driver.Cmd` | sw/linux/board/ps/qspi.c:85-102 | a whole command goes out under one chip select, takes effect at its end, and the last received word is returned; the driver ends where it started |
| `QspiDriver.Driver.Collect` | sw/linux/board/ps/qspi.c:95-99 | the poll loop terminates: it collects the words, or gives up with the time-out flag set if too few come |
| `QspiDriver.Driver.Rdsr` | sw/linux/board/ps/qspi.c:110-111 | returns the flash's status and nothing else changes but one step of busy |
| `QspiDriver.Driver.Wren` | sw/linux/board/ps/qspi.c:121-125 | succeeds exactly when the write-enable latch ends up set |
| `QspiDriver.Driver.WaitReady` | sw/linux/board/ps/qspi.c:127-132 | returns success exactly when the flash becomes ready within the poll limit |
| `QspiDriver.Driver.JedecId` | sw/linux/board/ps/qspi.c:113-119 | the identification is 0xef4018 and linear mode is restored |
| `QspiDriver.Driver.WriteBlock` | sw/linux/board/ps/qspi.c:140-152 | one turn of the block loop turns a correct prefix of the image into a longer one, or stops at an ignored write enable |
| `QspiDriver.ReadBack` | sw/linux/board/ps/qspi.c:153-159 | comparing words and then bytes accepts exactly when all n bytes agree |
| `QspiDriver.Driver.QspiWrite` | sw/linux/board/ps/qspi.c:134-165 | for any contents, any source and any length: no protocol objection is ever raised; an out-of-range length touches nothing; an unprotected flash ends with the source, 0xff to the end of the last 64 KiB block, all later blocks as before and one erase per block; a protected one is refused; linear mode is restored |
| `FlashProtocol.MatcherIsExact` | sw/linux/board/ps/main.c:245-251 | over every byte stream the matcher's state is the length of the longest prefix of "RVFLASH1" that is a suffix of the bytes seen, so none is missed and none imagined |
| `FlashProtocol.OnlyRecords` | sw/linux/board/ps/main.c:164-189 | whatever is on the line: every image written stands there behind a magic, with its own length and its own CRC, and parses as a BOOT.BIN |
| `FlashProtocol.OnlyFlashable` | sw/linux/board/ps/main.c:164-189 | from any state of the matcher, only length-checked images that parse as a BOOT.BIN are ever written |
| `FlashProtocol.RecordIsWritten` | sw/linux/board/ps/main.c:144-189 | behind any noise that holds no magic of its own, a record is written exactly once and the server listens again behind it |
| `FlashServer.Server.Get32` | sw/linux/board/ps/main.c:157-162 | four bytes of the line, least significant first |
| `FlashServer.Server.ServeFlash` | sw/linux/board/ps/main.c:164-189 | takes exactly one record off the line; the flash changes only if length, CRC and BOOT.BIN check out, and then holds the image; success is reported exactly for an accepted image on an unprotected flash, and then the whole flash parses as the image does |
| `FlashServer.Server.Run` | sw/linux/board/ps/main.c:245-252 | over any stream an unprotected flash ends as if the accepted images had been written one after the other, and boots if it booted before; a protected one is unchanged |
| `FlashServer.ReadBackBoots` | sw/linux/board/ps/qspi.c:153-159 | whatever the flash has done: if the read-back agrees with the image, the whole flash parses as the image does |
| `FlashServer.FlashedBoots` | sw/linux/board/ps/main.c:180-188 | parsing the whole flash after the write finds both payloads at the same places as parsing the received buffer |
| `FlashServer.StaysBootable` | sw/linux/board/ps/main.c:164-189 | any sequence of accepted images keeps the flash bootable |
| `FlashServer.SentBootBinBoots` | sw/linux/board/ps/test/mkbootbin.py:28-74 | from packer to loader: a built BOOT.BIN sent as a record is found again whole in the flash, bitstream and image byte for byte |
| `RomImage.TotalNeverWraps` | sw/boot/rom_main.c:169-180 | the 32-bit size total equals the true sum for all tables that pass the range check if and only if eight payload areas are less than 4 GiB |
| `RomImage.LoadedElsewhere` | sw/boot/rom_main.c:185-189 | RAM outside the segments is unchanged |
| `RomImage.LoadedSegment` | sw/boot/rom_main.c:185-189 | each byte of a segment is its file byte, or zero past them, unless a later segment lies over it |
| `RomImage.LoadedStaysInside` | sw/boot/rom_main.c:171-189 | nothing outside [PAYLOAD_BASE, payload_end) is written, for any accepted table, overlapping or not |
| `RomImage.BurstIsRefused` | sw/boot/rom_main.c:183-196 | two images with the same head whose data differ only inside one window of up to four bytes are never both accepted |
| `RomLaws.AnswerMeans` | sw/boot/rom_main.c:146-197 | when each answer is given, field by field: loaded means version, counts, header CRC, ranges, the sum of the sizes, the entry point, a clean line and the data CRC are all right |
| `RomLaws.DamagedHeadIsRefused` | sw/boot/rom_main.c:152-166 | an image that is loaded is refused, for its header CRC unless already for its header, once up to four neighbouring bytes of header, segment table or command line have changed |
| `RomLaws.DamagedHeadIsNotRvbi` | sw/linux/board/ps/test/host_test.c:212-214 | such an image is not recognised as an RVBI image by the BOOT.BIN parser either |
| `RomLoader.Rom.RxBytes` | sw/boot/rom_main.c:85-100 | n bytes off the line land in order, with the running CRC and the line errors of exactly those bytes |
| `RomLoader.Rom.CopyBytes` | sw/boot/rom_main.c:124-130 | n bytes of memory land in order although source and target are the same RAM, and the unread source is not overwritten |
| `RomLoader.Rom.GetBytes` | sw/boot/rom_main.c:121-131 | both sources behave alike: the next n bytes are moved and folded into the CRC |
| `RomLoader.Rom.Hunt` | sw/boot/rom_main.c:151 | stops exactly behind the first RVBI magic on the line, and only if there is one |
| `RomLoader.Rom.GetHeader` | sw/boot/rom_main.c:152-158 | the CRC folded while the header streams in covers it with its own CRC field as zero |
| `RomLoader.Rom.GetTable` | sw/boot/rom_main.c:162-166 | the streamed CRC of header, table and command line is the one rvbi_ok computes in three pieces; the command line is zero-terminated |
| `RomLoader.Rom.CheckSegments` | sw/boot/rom_main.c:168-181 | 32-bit arithmetic included, returns the first segment out of range, else a size mismatch, else a missing entry point, else success |
| `RomLoader.Rom.PutSegments` | sw/boot/rom_main.c:185-189 | the segments are put in place in order and the CRC covers their data |
| `RomLoader.Rom.LoadImage` | sw/boot/rom_main.c:146-197 | returns the declarative verdict on the image from its magic on, which `RomLaws.AnswerMeans` says; until every check on the head has passed RAM is untouched; afterwards it is exactly the loaded RAM; nothing outside the payload area ever changes |
| `RomLoader.Rom.BootFromMemory` | sw/boot/rom_main.c:260-284 | an image in memory is tried exactly when it is there and no key is pressed, goes through the same checks, and is itself never overwritten |
| `RomRoundTrip.PackedImageLoads` | sw/linux/board/ps/test/mkbootbin.py:28-34 | every packed image whose segments fit and hold the entry point is accepted, whatever follows it |
| `RomRoundTrip.PackedSegmentInPlace` | sw/boot/rom_main.c:185-189 | each byte of a packed segment ends up at its address unless a later segment covers it |
| `FdtTree.NodeDepth` | sw/boot/fdt.c:58-70 | inside a node the token walk is deeper than outside, and its END_NODE is the first place that brings it back |
| `FdtWalk.NextTag` | sw/boot/fdt.c:25-51 | at the start of a token: its tag and the start of the next, padding included |
| `FdtQuery.SkipNode` | sw/boot/fdt.c:58-70 | lands just past the matching END_NODE |
| `FdtQuery.SkipProps` | sw/boot/fdt.c:72-81 | lands on the first token that is neither property nor NOP |
| `FdtQuery.FirstSubnode` | sw/boot/fdt.c:83-89 | the first child, NOPs invisible, or not found exactly when there is none |
| `FdtQuery.NextSubnode` | sw/boot/fdt.c:91-97 | the next child, NOPs invisible, or not found exactly when there is none |
| `FdtQuery.FirstProp` | sw/boot/fdt.c:99-106 | the first property, or not found exactly when there is none |
| `FdtQuery.NextProp` | sw/boot/fdt.c:108-114 | the next property, or not found exactly when there is none |
| `FdtQuery.PropValue` | sw/boot/fdt.c:116-122 | value, length and name of the property |
| `FdtQuery.SameName` | sw/boot/lib.c:47-51 | comparing zero-terminated strings decides equality of the strings |
| `FdtQuery.GetProp` | sw/boot/fdt.c:124-132 | the value of the first property with the name, or none exactly when no property has it |
| `FdtQuery.FindPropMeans` | sw/boot/fdt.c:124-132 | the property found is the first with the name, and none is found exactly when none has it |
| `FdtPath.MatchesMeans` | sw/boot/fdt.c:154-159 | a component matches exactly the name that it is and, if it has no @ itself, that name followed by @ and any unit address |
| `FdtNames.CallsCut` | sw/boot/fdt.c:154-159 | a component without @ names exactly the nodes whose name, cut at its first @, it is |
| `FdtPath.FindKidMeans` | sw/boot/fdt.c:170-172 | the child found is the first that the component names, and none is found exactly when it names none |
| `FdtPath.SpellsOne` | sw/boot/fdt.c:165-169 | a path spells one list of components only: those between its runs of slashes |
| `FdtPath.PathMeans` | sw/boot/fdt.c:161-178 | the lookup finds a node exactly if the components of the path lead to it, each from a node to the first child that it names |
| `FdtPath.NameMatches` | sw/boot/fdt.c:154-159 | decides whether a component names a zero-terminated name, as `FdtPath.MatchesMeans` says |
| `FdtPath.PathOffset` | sw/boot/fdt.c:161-178 | returns where the node starts that the path leads to, each component from a node to its first child whose name, cut at its first @ unless the component has one, is the component; not found exactly if it leads nowhere |
| `FdtEdit.Memcpy` | sw/boot/lib.c:6-14 | copies forwards, by words or bytes, also where target and source overlap with the target first |
| `FdtEdit.Memmove` | sw/boot/lib.c:16-22 | moves any stretch onto any other, however they overlap |
| `FdtEdit.Splice` | sw/boot/fdt.c:219-232 | opens or closes the gap, moves everything behind it and corrects the three header words; refuses exactly when the blob would not fit, and then changes nothing |
| `FdtEdit.TokensReplaced` | sw/boot/fdt.c:205-232 | a gap filled with the bytes of tokens replaces tokens of the structure block; layout and strings are kept |
| `FdtSetProp.StringOffset` | sw/boot/fdt.c:234-246 | the first place where the name and its zero stand, else it is appended, else no space; the structure block is untouched |
| `FdtSetProp.SetProp` | sw/boot/fdt.c:248-280 | succeeds exactly when the layout is right and the result fits; then the blob encodes the tree with that property set and has grown by exactly that much; with no space the encoded tree is unchanged; no byte past the capacity and the old blob is touched |
| `FdtUnique.FlatUnique` | sw/boot/fdt.c:25-51 | two token sequences with the same bytes are the same sequence, so a structure block has one reading only |
| `FdtMake.MakeIsBlob` | sw/boot/fdt.c:205-215 | every well-formed tree below the size limit, with a strings block that holds its property names, has a blob that encodes exactly that tree, passes the header check and has the layout that the editor accepts |
| `FdtLaw.SetIsTree` | sw/boot/fdt.c:248-280 | the edited tokens are those of the tree with the one node replaced |
| `FdtLaw.SetPropLaw` | sw/boot/fdt.c:248-280 | for every path and every property name: after the edit the property that was set reads as set, and every other property of every node reads as before |
| `FdtShift.LookupShift` | sw/boot/fdt.c:161-178 | after an edit every path leads to the same node, which has moved exactly if it lies behind the edited one |
| `FdtFixup.FdtCheck` | sw/boot/fdt.c:13-23 | accepts exactly the right magic and versions, on a well-formed blob |
| `FdtFixup.OffsetStays` | sw/boot/rom_main.c:240-245 | the offset of /chosen found before /memory is edited is still its offset afterwards if and only if /chosen comes first or the edit changes no size |
| `FdtStale.OffsetGoesStale` | sw/boot/rom_main.c:240-245 | a concrete blob that the ROM accepts, with /memory first and without reg: after the first edit /chosen is not at the offset that was found |
| `FdtFixup.FixupDtb` | sw/boot/rom_main.c:235-246 | when the offset stays valid, the error is decided exactly (magic, missing node, layout, size of the result), and with no error the result is the blob of the tree with both properties set; nothing outside the area is touched |
| `FdtFixup.FixedUpReads` | sw/boot/rom_main.c:235-246 | what fixup_dtb leaves in the buffer reads so: memory size and command line as set, every other property of every path as in the original |
| `FdtFixup.FixupLaw` | sw/boot/rom_main.c:235-246 | for every path and name: memory size and command line read as set, everything else as in the original tree |
| `SbiTimer.Registers.SetTimer` | sw/boot/rom_sbi.c:27-34 | takes exactly the five steps of the state machine and leaves the deadline in the compare register, STIP clear and MTIE set |
| `SbiTimer.Registers.TimerTrap` | sw/boot/rom_sbi.c:130-137 | takes exactly the two steps of the trap |
| `SbiTimer.RunInv` | sw/boot/rom_sbi.c:25-34 | every state of every run, at any interleaving of clock, calls, stores and traps, satisfies the invariant |
| `SbiTimer.NeverEarly` | sw/boot/rom_sbi.c:130-137 | the supervisor timer is raised only once the latest deadline has passed; MTIE and STIP are never both set outside the handler; there are never more forwardings than requests |
| `SbiTimer.NeverLost` | sw/boot/rom_sbi.c:130-137 | once the deadline has passed, exactly one of: the payload already has the interrupt, or the trap can be taken |
| `SbiTimer.NeverInThePast` | sw/boot/rom_sbi.c:29-31 | between the first and the last of the three stores the compare register is never below 0xffffffff00000000 |
| `SbiTimer.OncePerRequest` | sw/boot/rom_sbi.c:130-137 | between two forwardings in a run the payload has asked again |
| `SbiTimer.RdtimeIsExact` | sw/boot/rom_main.c:35-40 | equal high halves before and after make the two halves one moment of the clock |
| `SbiConsole.BufferIsPayload` | sw/boot/rom_sbi.c:48-52 | in spite of 32-bit wrap-around, exactly the buffers inside the payload's RAM are accepted; none if RAM ends at the end of the address space |
| `SbiConsole.Dbcn` | sw/boot/rom_sbi.c:100-115 | writes send exactly the buffer, reads change exactly the bytes received, refused calls change nothing |
| `Sv32.BuildBoth` | sw/sched_mmu.c:60-96 | what the two calls leave in zeroed RAM |
| `Sv32.Isolation` | sw/sched_mmu.c:23-33 | for all pairs of virtual addresses, accesses of the two tasks meet only in the UART superpage (or in the execute-only code page), and neither task reaches a page-table page |
| `Sv32.OwnPages` | sw/sched_mmu.c:73-76 | both tasks do have their data and stack page at the same virtual addresses |
| `Sv32.NonInterference` | sw/sched_mmu.c:58-100 | over every run of user stores, what a task finds in its pages depends on its own stores only, and the tables stay as built |
| `VectorGroups.Fits` | tools/vtest/vgen.py:65-74 | every element below VLMAX lies inside its register group, for every legal combination of VLEN, SEW, LMUL and EEW |
| `VectorGroups.VlmaxMeans` | tools/vtest/vgen.py:65-66 | VLMAX elements fit into the group and one more does not |
| `VectorGroups.Group` | tools/vtest/vgen.py:110-120 | a group found is aligned, in range, apart from the avoided one and free of v0 where asked |
| `VectorMemory.StoredReadsBack` | tools/vtest/vgen.py:375-381 | what a sequence of element stores put into memory reads back, for elements that share no byte with another |
| `VectorMemory.StoreThenLoad` | tools/vtest/vgen.py:375-381 | a masked strided store followed by the same load changes no register, for every stride but zero |
| `VectorGen.Gen.constructor` | tools/vtest/vgen.py:78-96 | the data is placed and the three index tables hold offsets below 256 only |
| `VectorGen.Gen.SaveScalar` | tools/vtest/vgen.py:104-107 | the result goes to the next slot; every earlier result stays in its slot, however many there are |
| `VectorGen.Gen.VSet` | tools/vtest/vgen.py:123-140 | vl is the smaller of the application length and VLMAX, and is stored as a result |
| `VectorGen.Gen.WriteElements` | tools/vtest/vgen.py:201-204 | the elements given hold the values given, cut to their width; tail and masked-off elements are undisturbed |
| `VectorGen.Gen.WriteMask` | tools/vtest/vgen.py:55-57 | the bits given are in the mask register, every other bit of it is as before, and no other register changes |
| `VectorGen.Gen.Strided` | tools/vtest/vgen.py:357-381 | every access lies in the data region; a load brings each active element from its address and leaves all others undisturbed, a store puts the active elements to theirs, one after the other |
| `VectorGen.Gen.Indexed` | tools/vtest/vgen.py:382-406 | index registers are read from a table and hold offsets below 256, so every access lies in the data region; loads and stores are of the active elements at exactly those offsets |
| `VectorGen.Gen.MaskMem` | tools/vtest/vgen.py:407-414 | exactly the bytes that hold vl mask bits move, inside the data region and one register |
| `VectorGen.Gen.WholeRegs` | tools/vtest/vgen.py:415-423 | exactly the bytes of the group move, inside the data region |
| `VectorGen.Gen.Exec` | tools/vtest/vgen.py:122-423 | for every instruction kind, whatever the dice say: which registers it may write, that memory changes in the data region only or by one scalar result in its slot, and that each access lies where it may |
| `VectorGen.Gen.Build` | tools/vtest/vgen.py:425-443 | over a whole program of any length: every access ever made lies in the data region, a table or the results; memory outside the data region changes only in the scalar slots, one per result and all still there, and where the registers are stored at the end |
| `VectorBits.WithDigitMeans` | tools/vtest/vgen.py:55-57 | writing one bit of a number sets that bit as asked and leaves every other |
| `Bytes.WordsAreNumbers` | sw/boot/fdt.c:11 | words are the numbers that their bytes make, least or most significant first |

## Left out

- KconfigEngine.Engine.constructor: a ranking of the cells is a ghost argument (`KconfigLayers.RankableIffClear` says when there is one), and choice defaults lie inside their choices (`KconfigStale.StaleSelection` shows why).
- KconfigMissed.MembersLoopIsMissed: that Python then ends with a recursion error is not modelled; the lemma shows the circle of reads.
- KconfigEngine.Engine.SetValue: conversion of numbers to and from text is a parameter of the configuration, and warnings are not modelled.
- KconfigStrings.StringRoundTrip: reading the file line by line is not modelled, so the law also covers strings with line breaks, which a file would split.
- KconfigConf.LineReadsBack: names without `=` or space, as the tokenizer gives them; a line is taken whole, so that strings with line breaks, which a file would split, are covered too; trailing space is that of ASCII.
- BootLaws.ChangedWordIsRefused: not for a table that lies over the boot header's own words or the partition count, where the change moves the table.
- RomLaws.DamagedHeadIsRefused: the window lies before, in or after the CRC field, and does not change the length of the head.
- BootBuild.Build: fields that the parser does not read (vectors, the boot header's own checksum, image names) are written but not specified; at most 32 partitions.
- QspiDriver.Driver.QspiWrite: the progress callback is not modelled.
- FlashServer.Server.Run: the line is a finite sequence of bytes; where the program would wait for more, the run ends. Console output is not modelled.
- RomLoader.Rom.LoadImage: a line that falls silent and memory that ends are one outcome, `Cut`, where the code would wait or fault. Cycle counts and messages are not modelled.
- FdtWalk.NextTag: well-formed blobs below 256 MiB with zero padding only; malformed trees are not modelled.
- FdtFixup.FdtCheck: blobs that encode some tree only, as for `FdtWalk.NextTag`.
- FdtFixup.FixupDtb: covers the trees for which `FdtFixup.OffsetStays` says that the offset stays valid; what the second edit does at any other offset is not modelled.
- SbiTimer.NeverEarly: the 64-bit clock does not wrap around.
- Sv32.Isolation: the accessed and dirty bits are left to the hardware; stores are whole words.
- VectorGen.Gen.Exec: the values that arithmetic instructions compute are taken as they come, and the assembly text is not modelled.
- Kconfig files, macros, menus, the .config reader beyond single lines, `assignable` and minimal configurations: text plumbing or finite case tables.
- `fdt_resolve`, `fdt_node_by_phandle`, `fdt_getprop_u32` and string lists: easy members on top of the lookups that are modelled.
- The rest of the SBI (base and reset calls), the PCAP and DDR code, the printf families, the demo programs, the host tools, the assembly and the RTL.
