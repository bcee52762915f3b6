# Models of the repository's core algorithms

Eight components, each a group of Dafny modules that share no state:

- **Kconfig evaluator** (`KconfigExpr`, `KconfigParser`, `KconfigGrammar`, `KconfigGraph`, `KconfigDeps`,
  `KconfigEval`, `KconfigChoice`, `KconfigMeaning`, `KconfigEscape`): symbols and choices with three caches, the dependency sets that
  decide what a user assignment invalidates, the expression parser and printer, the string escapes.
  The plain recursive definition of values is a set of functions; the objects that cache are classes
  proved to agree with it after any history.
- **Two-pass assemblers** (`AsmBase`, `AsmThumb`, `AsmThumbMov`, `AsmThumbEmit`, `AsmX64`): a program is a
  list of labels, alignments and instructions replayed in both passes. `AsmBase` proves stability for
  any encoder whose sizes survive later labels; the two back ends prove that theirs do, and decode
  the finished code as the processor does.
- **JSON loader** (`JsonNumber`, `JsonLexer`, `Json`, `JsonLanguage`, `JsonTokens`, `JsonLoader`): the explicit-stack loop with a
  store of containers addressed by number, against a recursive grammar, and the exact set of texts it accepts, down
  to the runtime's parsers of integers and decimals.
- **Mount table** (`Vfs`): the linked list, its insertion and refusal rules, as a longest-prefix router.
- **Frame buffer** (`Pixels`, `Lines`, `FrameBuffer`): five packed formats, fast fills, scrolling, lines.
- **WebSocket stream** (`WebSocket`, `WebSocketStream`): the resumable decoder under arbitrary short reads.
- **Heaps** (`SiftHeap`, `HeapQ`, `UTimeQ`, `UTimeQRuns`): the shared sift algorithm, and the comparison on a
  time ring.
- **Base64** (`Base64`): in-place two-pass encoder and bit-accumulating decoder.

`Options` and `Arithmetic` hold what several of them use. Where a source function updates an object
or a buffer, the model is a method proved against a function, and the properties are proved of that
function, among them what it means in terms that do not use it (`KconfigMeaning`, `KconfigGrammar`,
`JsonTokens`, the layouts in `Pixels`, the bits in `WebSocket`). A failed C assertion or a raised exception is a result value.

Where the code differs from what is said about it, the model follows the code:

- the wide conditional Thumb branch is right only in the ranges of `AsmThumb.BccWAgrees`; the code calls
  it unconditionally (`AsmThumb.WideCondRoundTrip`, `AsmThumb.WideCondGoesAstray`);
- a control frame overwrites the data opcode that a comment says only data frames set
  (`WebSocket.HeaderKeepsOpcode`, `WebSocket.ControlReplacesOpcode`), and the close reply is framed with the opcode set
  for data, so with text or binary it is a data frame (`WebSocket.CloseReplyIs`);
- control frames with a payload of two bytes or more depend on how the stream is cut
  (`WebSocket.ControlPayloadDependsOnChunks`);
- an environment symbol with a prompt keeps the visibility first read (`KconfigEval.Config.ReadVisibilityAgain`,
  `KconfigChoice.EnvVisibilityGoesStale`), and in a choice this makes values of other members stale
  (`KconfigChoice.EnvChoiceGoesStale`);
- a chdir to a path that no volume serves leaves no current volume (`Vfs.MountTable.FailedChangeDirLosesVolume`), and one
  that the volume refuses switches to it (`Vfs.MountTable.RefusedChangeDirSwitches`);
- the JSON loader accepts more than the grammar: `JsonLanguage.AcceptsExactly` says what, for one a top-level container
  that the end of the input cuts off (`JsonLanguage.CutOffLoads`), and numbers with next to no digits
  (`JsonNumber.ConvertsExactly`, `JsonNumber.NotOnlyRfcNumbers`);
- scrolling runs out of the buffer unless the steps are within `FrameBuffer.ScrollEnds`
  (`FrameBuffer.ScrollEndsExactly`);
- mounting at "/" is never refused, so there may be several root mounts, newest first.

## Model

| member | source | states |
|---|---|---|
| KconfigExpr.EvalDependsOnSyms | esp-idf/docs/kconfiglib.py:1371-1456 | An expression's value depends only on the symbols the syntax collector finds in it, so those symbols are all the dependency edges it needs |
| KconfigExpr.MakeAndIsMin | esp-idf/docs/kconfiglib.py:3168-3189 | The and-combining constructor, with its flattening and its absent operands, evaluates to the minimum of its arguments under every assignment |
| KconfigExpr.MakeOrIsMax | esp-idf/docs/kconfiglib.py:3190-3212 | The or-combining constructor evaluates to the maximum of its arguments under every assignment |
| KconfigExpr.EvalAllConcat | esp-idf/docs/kconfiglib.py:1376-1456 | Conjunctions and disjunctions of joined operand lists are the minimum and maximum of the parts, which is what flattening relies on |
| KconfigParser.Feed.Check | esp-idf/docs/kconfiglib.py:3056-3086 | The token feed advances exactly when the next token is the one asked for |
| KconfigParser.ParseExprRec | esp-idf/docs/kconfiglib.py:1133-1142 | The or-level of the recursive-descent parser returns the tree or raises the error of the grammar function and leaves exactly its rest of the tokens |
| KconfigParser.ParseOrTermRec | esp-idf/docs/kconfiglib.py:1144-1153 | The same for the and-level |
| KconfigParser.ParseFactorRec | esp-idf/docs/kconfiglib.py:1155-1188 | The same for negation, parentheses, symbols and relations, errors included |
| KconfigParser.ParsePrintedExpr | esp-idf/docs/kconfiglib.py:3260-3315 | Printed text followed by anything that may follow an expression parses to the flattened tree and leaves what follows |
| KconfigParser.PrintThenParse | esp-idf/docs/kconfiglib.py:1133-1188 | Parsing the printed form of any expression gives the tree up to flattening of nested && and || |
| KconfigParser.FlattenKeepsValue | esp-idf/docs/kconfiglib.py:1390-1439 | Flattening changes no value under any assignment |
| KconfigParser.PrintThenParseKeepsValue | esp-idf/docs/kconfiglib.py:3260-3315 | So the printed and reparsed expression has the same tristate value under every assignment: no dropped parenthesis changes meaning |
| KconfigParser.FlatRoundTrip | esp-idf/docs/kconfiglib.py:3260-3315 | On trees without nested && in && or || in || the round trip is exact |
| KconfigGrammar.ParsesExactly | esp-idf/docs/kconfiglib.py:1133-1188 | The parser returns an expression and the tokens left if and only if some derivation tree of the grammar, redundant parentheses and repeated negation included, yields the tokens before those, stands for the expression and could not go on |
| KconfigGrammar.MissingParenthesis | esp-idf/docs/kconfiglib.py:1180-1185 | A parenthesis that is not closed after a whole expression is that error |
| KconfigGrammar.SomeParses | esp-idf/docs/kconfiglib.py:1155-1188 | Double negation, a negated comparison and nested parentheses give the trees one expects |
| KconfigGraph.CalcDepends | esp-idf/docs/kconfiglib.py:1872-2026 | A symbol's value is determined by the values of the symbols its definition mentions, its choice's inputs and its own user value |
| KconfigGraph.ChoiceDepends | esp-idf/docs/kconfiglib.py:2712-2808 | A choice's visibility, mode and selection are determined by the symbols its definition and members mention and by its own user state |
| KconfigDeps.SolutionExists | esp-idf/docs/kconfiglib.py:1872-2026 | On an acyclic graph there is an assignment of values in which every symbol has the value the plain recursive definition gives it |
| KconfigDeps.SolutionIsUnique | esp-idf/docs/kconfiglib.py:1872-2026 | There is only one such assignment, so the uncached value of a symbol is well defined |
| KconfigDeps.AffectedIsClosed | esp-idf/docs/kconfiglib.py:2469-2492 | A symbol together with its dependents is closed under dependency edges and choice siblings, though siblings depend on each other |
| KconfigDeps.DependentsAreLeast | esp-idf/docs/kconfiglib.py:2469-2492 | It is the least such set: nothing is invalidated without need |
| KconfigDeps.UnaffectedValue | esp-idf/docs/kconfiglib.py:2469-2492 | Changing one symbol's user value, with its effect on the choice's selection and mode, leaves the recomputed value of every symbol outside its dependents as it was |
| KconfigDeps.UnaffectedVisibility | esp-idf/docs/kconfiglib.py:3147-3166 | The same for visibilities |
| KconfigDeps.UnaffectedChoice | esp-idf/docs/kconfiglib.py:2712-2808 | The same for visibility, mode and selection of choices with no affected member |
| KconfigEval.Config.BuildDep | esp-idf/docs/kconfiglib.py:1462-1503 | After the pass over all symbols each symbol's dep set is exactly the set of symbols that mention it, as a default, condition, range, prompt, reverse dependency or through a choice |
| KconfigEval.Config.GetDependent | esp-idf/docs/kconfiglib.py:2469-2492 | The recursive collector terminates, returns exactly the dependents, and its cache of them is right |
| KconfigEval.Config.InvalidateAll | esp-idf/docs/kconfiglib.py:1552-1554 | Drops every cache of every symbol and choice that invalidation reaches, and nothing else |
| KconfigEval.Config.EvalExpr | esp-idf/docs/kconfiglib.py:1371-1456 | Evaluating through the caching getters gives the value of the expression in the current solution and keeps every cache current |
| KconfigEval.Config.GetVisibility | esp-idf/docs/kconfiglib.py:3147-3166 | Returns the visibility under the current user values for every symbol whose visibility is tracked, from cache or not, and keeps the caches current |
| KconfigEval.Config.GetMode | esp-idf/docs/kconfiglib.py:2797-2808 | Returns the mode of the choice under the current user values |
| KconfigEval.Config.GetSelection | esp-idf/docs/kconfiglib.py:2712-2731 | Returns the selection under the current user values and caches it |
| KconfigEval.Config.GetSelectionFromDefaults | esp-idf/docs/kconfiglib.py:2733-2754 | Returns the first default whose condition holds and that is visible, else the first visible member |
| KconfigEval.Config.GetMemberValue | esp-idf/docs/kconfiglib.py:1895-1908 | A choice member's value by mode, selection and visibility |
| KconfigEval.Config.GetTriValue | esp-idf/docs/kconfiglib.py:1887-1937 | A bool or tristate value by user value, visibility, defaults and reverse dependency, with the promotion of m |
| KconfigEval.Config.GetNumberValue | esp-idf/docs/kconfiglib.py:1939-2007 | An int or hex value by active range, user value and clamped default |
| KconfigEval.Config.GetValue | esp-idf/docs/kconfiglib.py:1872-2026 | Returns the value of the uncached recursive definition and caches it |
| KconfigEval.Config.SetUserValue | esp-idf/docs/kconfiglib.py:2171-2203 | The user state becomes the one the assignment rules give, every cache that is kept is still current |
| KconfigEval.Config.UnsetUserValue | esp-idf/docs/kconfiglib.py:2205-2210 | Clears the user value and the choice's user state; every cache that is kept is still current |
| KconfigEval.Config.UnsetUserValues | esp-idf/docs/kconfiglib.py:556-560 | Resets all user values, drops all caches |
| KconfigEval.Config.LoadConfig | esp-idf/docs/kconfiglib.py:440-504 | The user state is that of the file's assignments in order, on top of the old ones or of none |
| KconfigEval.Config.InvalidateDependent | esp-idf/docs/kconfiglib.py:2360-2372 | Only caches are dropped, and those of all dependents are |
| KconfigDeps.CurrentSeenIsHarmless | esp-idf/docs/kconfiglib.py:2360-2372 | A value can be stale only through the frozen visibility of a special symbol in a choice: where those are what they would be now, the values are those of the assignments alone |
| KconfigDeps.SameSolution | esp-idf/docs/kconfiglib.py:2712-2754 | Two user states with the same assignments in which every member of a choice looks the same have the same values |
| KconfigEval.Config.CachesAreRecomputed | esp-idf/docs/kconfiglib.py:1872-2026 | In every configuration each cached value equals the one recomputed with no caches from the assignments and from what is frozen, the visibilities of special symbols as first read; each cached visibility too; if no choice has a special member, from the assignments alone |
| KconfigEval.Config.ChoiceCachesAreRecomputed | esp-idf/docs/kconfiglib.py:2712-2731 | The same for the cached visibility and selection of a choice with a member that is not special |
| KconfigEval.Config.Run | esp-idf/docs/kconfiglib.py:2171-2210 | After any sequence of reads, sets, unsets, resets and loads the user state is the fold of the assignments and every cached value is the recomputed one, by the assignments alone if no choice has a special member; a visibility that nothing refreshes is the one read first |
| KconfigEval.Config.ReadVisibilityAgain | esp-idf/docs/kconfiglib.py:2360-2372 | A visibility that nothing refreshes, read again after any history, is the one read first, so it is stale exactly when the recomputed one has changed since |
| KconfigEval.Config.FindNumberDefault | esp-idf/docs/kconfiglib.py:1976-2001 | The default loop of numbers passes over enabled defaults that are no numbers, keeping their text |
| KconfigChoice.AtMostOneY | esp-idf/docs/kconfiglib.py:1895-1907 | No two members of a choice that are not special have value y in mode y |
| KconfigChoice.SelectionExists | esp-idf/docs/kconfiglib.py:2712-2754 | There is a selection if and only if the mode is y and the user's pick is fully visible, or the choice is not optional and has a visible member, as the choice sees them |
| KconfigChoice.SelectionIsVisible | esp-idf/docs/kconfiglib.py:2712-2754 | A selection is a visible member |
| KconfigChoice.ExactlyOneY | esp-idf/docs/kconfiglib.py:1895-1907 | In mode y a non-optional choice without special members and with a visible one has exactly one member at y |
| KconfigChoice.SelectWins | esp-idf/docs/kconfiglib.py:1910-1933 | Outside choices a value is never below the select conditions on it, whatever the user set |
| KconfigChoice.EnvVisibilityGoesStale | esp-idf/docs/kconfiglib.py:2360-2372 | An environment symbol with a prompt keeps a stale cached visibility: invalidation passes special symbols over |
| KconfigChoice.EnvChoiceGoesStale | esp-idf/docs/kconfiglib.py:2360-2372 | With an environment symbol in a choice a value goes stale too: a bool stays y where the environment symbol should be selected, and both are y |
| KconfigChoice.SelectionIsPicked | esp-idf/docs/kconfiglib.py:2712-2754 | In mode y the selection is the first candidate taken: the user's pick if fully visible, then unless the choice is optional the preferred member and the members in order, if visible |
| KconfigChoice.FrozenDefaultsDecide | esp-idf/docs/kconfiglib.py:2712-2754 | Whatever members are special, when no pick is fully visible as read or now: the selection is the right one if and only if the first candidate that the frozen or the current visibilities would take is taken by both |
| KconfigChoice.FrozenPickDecides | esp-idf/docs/kconfiglib.py:2712-2754 | With a pick that is fully visible in both views it is the selection in both; in just one, the selection is the right one if and only if the other view comes upon the same member among the defaults |
| KconfigChoice.OnlyFrozenDiffer | esp-idf/docs/kconfiglib.py:2360-2372 | Only a special member whose frozen visibility is no longer the current one can be taken in one view and not in the other |
| KconfigMeaning.EvalMeans | esp-idf/docs/kconfiglib.py:1390-1442 | Comparisons are y or n by the text on both sides, not turns the scale round, and and or are the least and the greatest of their terms |
| KconfigMeaning.ChoiceVisMeans | esp-idf/docs/kconfiglib.py:3147-3166 | A choice is as visible as its most visible prompt; m is y for what is no tristate |
| KconfigMeaning.SymVisMeans | esp-idf/docs/kconfiglib.py:3147-3166 | A symbol is as visible as its most visible prompt and in a choice no more than the choice; m is y for what is no tristate |
| KconfigMeaning.ModeMeans | esp-idf/docs/kconfiglib.py:2797-2808 | The mode is what the user asked for, else n for an optional choice and m for another, but no more than the visibility; m is y in a bool choice |
| KconfigMeaning.PreferredMeans | esp-idf/docs/kconfiglib.py:2740-2745 | The first default that is on is preferred, and without one the first member |
| KconfigMeaning.NumberMeans | esp-idf/docs/kconfiglib.py:1939-2007 | In every solution a number symbol has the user's text if it is visible and the text is a number inside the range that is on, and else what its defaults give: the first numeric one that is on, moved to the low end below the range and to the high end above it; or a positive low end, or the last one that is on |
| KconfigMeaning.UserTextExactly | esp-idf/docs/kconfiglib.py:1960-1973 | It has the user's text if and only if that decides or the defaults give the same text |
| KconfigMeaning.NumberInRange | esp-idf/docs/kconfiglib.py:1948-2002 | While a range is on whose ends are in order, a number that the user or a default gives lies in it |
| KconfigMeaning.StringMeans | esp-idf/docs/kconfiglib.py:2009-2023 | A visible string symbol has the user's text, any other the first default that is on, or nothing |
| KconfigMeaning.TriMeans | esp-idf/docs/kconfiglib.py:1910-1937 | Outside choices a bool or tristate has the greater of its select condition and its own level: the user value up to the visibility, else the first default that is on up to its condition |
| KconfigMeaning.MemberMeans | esp-idf/docs/kconfiglib.py:1892-1908 | In a choice: the selection is y in mode y, what the user asked for is m in mode m, the rest is n |
| KconfigMeaning.FixedMeans | esp-idf/docs/kconfiglib.py:1876-1884 | A symbol with a fixed value has that, and one without a definition its name |
| KconfigMeaning.SetMemberIsY | esp-idf/docs/kconfiglib.py:2422-2431 | A member set to y that is fully visible afterwards in a fully visible choice is y, and its siblings are n |
| KconfigMeaning.SetMemberIsM | esp-idf/docs/kconfiglib.py:2422-2431 | A visible tristate member set to m in a visible tristate choice is m |
| KconfigMeaning.AssignRemembers | esp-idf/docs/kconfiglib.py:2374-2431 | A text legal for the type is remembered, any other and any for a fixed symbol ignored, and no other user value changes |
| KconfigMeaning.LastLineWins | esp-idf/docs/kconfiglib.py:451-508 | After a file the user value is that of the last accepted line, or what it was before the file |
| KconfigMeaning.ResetForgets | esp-idf/docs/kconfiglib.py:556-560 | After the reset no symbol has a user value, and no choice with a member a user selection or mode |
| KconfigEscape.EscapeMeans | esp-idf/docs/kconfiglib.py:2459-2463 | The two replacements put a backslash before every backslash and quote and change nothing else |
| KconfigEscape.LoadMeans | esp-idf/docs/kconfiglib.py:462-469 | Only a text that starts with a quote is a string literal, malformed if it does not end with another |
| KconfigEscape.UnescapeEscape | esp-idf/docs/kconfiglib.py:2459-2463 | The two global replacements of the loader undo the two of the writer, for every string |
| KconfigEscape.WrittenThenLoaded | esp-idf/docs/kconfiglib.py:462-469 | A string value without newlines written to a .config line loads back unchanged |
| KconfigEscape.WrittenIsInjective | esp-idf/docs/kconfiglib.py:2459-2463 | Different values have different lines |
| AsmBase.AlignedIsMultiple | micropython-esp32/py/asmbase.c:86-89 | Masking moves the offset to the next multiple of a power of two, by less than one step |
| AsmBase.ComputeRuns | micropython-esp32/py/asmbase.c:48-84 | In pass COMPUTE no assertion fails and every label known lies at or before the current offset |
| AsmBase.LabelsGrow | micropython-esp32/py/asmbase.c:74-84 | Labels found stay, and later ones lie at or after where the pass stood |
| AsmBase.EmitRetraces | micropython-esp32/py/asmbase.c:48-84 | Two-pass stability for any encoder whose sizes survive later labels: at every item pass EMIT stands where pass COMPUTE stood, so no label or buffer assertion fails |
| AsmBase.EmittedBytes | micropython-esp32/py/asmbase.c:62-72 | In the finished code the bytes of each item stand at its COMPUTE offset, encoded with all labels known, and later items leave them alone |
| AsmBase.LabelStands | micropython-esp32/py/asmbase.c:74-84 | A label's final offset is where its item stood |
| AsmBase.LittleEndianReadsBack | micropython-esp32/py/asmbase.c:91-100 | Reading back the bytes of a word gives it modulo its width |
| AsmBase.LittleEndianByte | micropython-esp32/py/asmbase.c:92-100 | Byte k of a datum is its k-th digit in base 256, for every width and integer |
| AsmBase.Assembler.StartPass | micropython-esp32/py/asmbase.c:48-60 | Pass COMPUTE forgets all labels, pass EMIT keeps them and gets a buffer of the size found |
| AsmBase.Assembler.GetCurToWriteBytes | micropython-esp32/py/asmbase.c:62-72 | Reserves bytes; fails exactly when pass EMIT would leave the buffer |
| AsmBase.Assembler.LabelAssign | micropython-esp32/py/asmbase.c:74-84 | Assigns once in COMPUTE, checks in EMIT; succeeds exactly when the assertions hold |
| AsmBase.Assembler.Data | micropython-esp32/py/asmbase.c:91-100 | The byte loop writes the little-endian bytes at the current offset and nothing else |
| AsmThumb.EncodeIsStable | micropython-esp32/py/asmthumb.c:318-354 | For every Thumb operation, with forward branches wide and backward ones by fit, and for the aligned load with its optional NOP, the size chosen while later labels are unknown is the size chosen once they are known |
| AsmThumb.ThumbTwoPass | micropython-esp32/py/asmthumb.c:275-286 | So every program with labels assigned once has the same offsets in both passes |
| AsmThumb.ShortestBranches | micropython-esp32/py/asmthumb.c:318-357 | A branch is two bytes if and only if its label is known, not ahead and in the reach of the narrow form |
| AsmThumb.ShortestLoads | micropython-esp32/py/asmthumb.c:263-271 | A constant load is as short as its register and value allow |
| AsmThumb.NarrowRoundTrip | micropython-esp32/py/asmthumb.c:215-223 | B.N decodes to the displacement if and only if it fits 12 bits |
| AsmThumb.NarrowCondRoundTrip | micropython-esp32/py/asmthumb.c:225-238 | Bcc.N decodes to condition and displacement if and only if it fits 9 bits |
| AsmThumb.WideRoundTrip | micropython-esp32/py/asmthumb.c:244-253 | B.W and BL decode to the displacement if and only if it fits 23 bits |
| AsmThumb.WideCondRoundTrip | micropython-esp32/py/asmthumb.c:227-229 | Bcc.W decodes to the displacement if and only if it lies in [-4096, 4095] or in one of two windows at the ends of the 21-bit range; the source has no check |
| AsmThumb.WideCondGoesAstray | micropython-esp32/py/asmthumb.c:227-229 | The displacement 4096 is read by the processor as 0x80000 |
| AsmThumb.BranchDecodes | micropython-esp32/py/asmthumb.c:215-253 | Any branch's bytes decode to its label if and only if the distance is even and in reach of that form |
| AsmThumb.BranchLands | micropython-esp32/py/asmthumb.c:315-354 | In the assembled program every branch, read by the processor, goes to where its label's item stands, if and only if that distance is even and in reach |
| AsmThumbMov.MovI32Runs | micropython-esp32/py/asmthumb.c:255-261 | Executing MOVW and MOVT leaves the constant modulo 2^32 in the register and every other register alone |
| AsmThumbMov.MovI32OptimisedRuns | micropython-esp32/py/asmthumb.c:263-271 | The shorter forms leave the same value |
| AsmThumbMov.MovI32AlignedRuns | micropython-esp32/py/asmthumb.c:273-286 | The literal word stands at a multiple of four and holds the constant, and execution jumps over it and loads the register |
| AsmThumbEmit.MovRegI32Aligned | micropython-esp32/py/asmthumb.c:273-286 | The emitter writes those bytes, in either pass |
| AsmThumbEmit.BLabel | micropython-esp32/py/asmthumb.c:318-335 | The emitter takes the branch size the encoding function takes and fails only with its assertions |
| AsmThumbEmit.BccLabel | micropython-esp32/py/asmthumb.c:337-354 | The same for conditional branches |
| AsmThumbEmit.BNLabel | micropython-esp32/py/asmthumb.c:217-223 | Writes the narrow branch; in pass EMIT the flag returned says exactly whether the label is in reach |
| AsmThumbEmit.BccNWLabel | micropython-esp32/py/asmthumb.c:231-242 | The same for the conditional branch of chosen width; the wide form always reports success |
| AsmThumbEmit.BlLabel | micropython-esp32/py/asmthumb.c:247-253 | The same for the branch with link |
| AsmThumbEmit.Assemble | micropython-esp32/py/asmbase.c:48-84 | Running both passes over any valid program never fails an assertion and leaves the code that BranchLands speaks of |
| AsmX64.EncodeIsStable | micropython-esp32/py/asmx64.c:484-526 | For every x86-64 operation, the padded aligned load included, sizes do not change once later labels are known |
| AsmX64.X64TwoPass | micropython-esp32/py/asmx64.c:365-371 | So every program with labels assigned once has the same offsets in both passes |
| AsmX64.ShortestJumps | micropython-esp32/py/asmx64.c:484-526 | A jump is two bytes if and only if its label is known, behind and within a signed byte |
| AsmX64.ShortestLoads | micropython-esp32/py/asmx64.c:354-371 | A constant below 2^32 is loaded with the short form |
| AsmX64.JumpDecodes | micropython-esp32/py/asmx64.c:484-526 | In the first 2^31 bytes every jmp and jcc, in 8-bit or 32-bit form, decodes to its label |
| AsmX64.JumpLands | micropython-esp32/py/asmx64.c:484-526 | In an assembled program below 2^31 bytes every jump goes to where its label's item stands |
| AsmX64.MovI64OptimisedRuns | micropython-esp32/py/asmx64.c:353-362 | The 32-bit form loads the same 64-bit value and advances past its own bytes |
| AsmX64.MovI64AlignedRuns | micropython-esp32/py/asmx64.c:364-371 | The immediate stands at a multiple of eight, reads back, and the padding and load execute to the constant in the register |
| AsmX64.JmpLabel | micropython-esp32/py/asmx64.c:484-504 | The emitter, with its step-by-step rework of the displacement, writes what the encoding function says |
| AsmX64.JccLabel | micropython-esp32/py/asmx64.c:506-526 | The same for conditional jumps |
| AsmX64.MovI64ToR64Aligned | micropython-esp32/py/asmx64.c:364-371 | The padding loop and the load write the aligned form |
| AsmX64.WriteWord64 | micropython-esp32/py/asmx64.c:157-169 | The eight unrolled byte stores are the little-endian word |
| AsmX64.Assemble | micropython-esp32/py/asmbase.c:48-84 | Running both passes over any valid program below 2^31 bytes never fails an assertion and leaves the code that JumpLands speaks of |
| JsonNumber.ParseDigits | micropython-esp32/py/parsenum.c:85-143 | The digits up to the first other character and their value, as a small integer while it fits and over again as a long one when it does not |
| JsonNumber.ParseInteger | micropython-esp32/py/parsenum.c:49-163 | The signed value, or the error when there are no digits or something follows them |
| JsonNumber.IntegerReadsBack | micropython-esp32/py/parsenum.c:49-163 | Every integer, of any length, is read back from its decimal text |
| JsonNumber.ParseDecimal | micropython-esp32/py/parsenum.c:171-306 | The loop with its three phases, its look at a sign after e and its checks of an empty number and of the end accepts the texts of the phase function |
| JsonNumber.DecimalExactly | micropython-esp32/py/parsenum.c:171-306 | Those are exactly an optional sign, digits, an optional point with digits, and an optional exponent with at least one digit, not all absent |
| JsonNumber.ConvertsExactly | micropython-esp32/py/parsenum.c:49-306 | The two parsers between them take exactly the texts of such numbers |
| JsonNumber.RfcNumberConverts | micropython-esp32/extmod/modujson.c:187-191 | Every number of RFC 4627 converts |
| JsonNumber.NotOnlyRfcNumbers | micropython-esp32/py/parsenum.c:171-306 | So do -. and -e5 and 007 |
| JsonNumber.RefusedNumbers | micropython-esp32/py/parsenum.c:49-306 | A lone sign, a sign inside and an exponent without digits do not |
| JsonLexer.ScalarReads | micropython-esp32/extmod/modujson.c:115-212 | null, booleans, strings with every escape, and numbers followed by a non-number character are read as one token with the value the grammar gives, and nothing more is consumed |
| JsonLexer.PartReads | micropython-esp32/extmod/modujson.c:137-166 | A plain character is itself, a short escape the byte of the table of section 2.5 of RFC 4627, a four-digit escape its code point in UTF-8 |
| JsonLexer.Utf8Exactly | micropython-esp32/extmod/modujson.c:152-160 | What is stored for a code point is exactly the one text that a decoder which insists on the shortest form reads as it |
| JsonTokens.TokenKinds | micropython-esp32/extmod/modujson.c:107-212 | White space, commas and colons are skipped, brackets open and close, and the three words are read exactly where the text has them in full |
| JsonTokens.NumberTokens | micropython-esp32/extmod/modujson.c:171-193 | A minus or a digit starts the longest piece of number characters, which is a number if it converts |
| JsonTokens.OtherTokens | micropython-esp32/extmod/modujson.c:128-212 | A quote starts a string if and only if parts and a quote follow; no other character starts a token |
| JsonTokens.StringEnds | micropython-esp32/extmod/modujson.c:128-170 | The loader takes any character but a quote, a backslash and NUL, a backslash with any one character but u, and backslash u with any four |
| JsonTokens.OnlySpaceIs | micropython-esp32/extmod/modujson.c:254-262 | After the value only the six white-space characters may come, up to the end or a NUL |
| JsonTokens.RfcNumberIsScalar | micropython-esp32/extmod/modujson.c:171-193 | Every number of RFC 4627 without a plus sign is a scalar of the grammar |
| JsonLexer.HexNibbleIs | micropython-esp32/extmod/modujson.c:144-150 | The byte arithmetic on an escape digit gives its hexadecimal value for both letter cases |
| JsonLexer.StringReads | micropython-esp32/extmod/modujson.c:128-164 | Any sequence of plain characters and escapes up to the quote gives their bytes |
| Json.BuiltAdds | micropython-esp32/extmod/modujson.c:213-256 | Reading a document inside a container delivers exactly one value that stands for the grammar's, empties the key register, restores the stack and touches no other container, although containers are inserted before they are filled |
| Json.DocLoop | micropython-esp32/extmod/modujson.c:94-257 | The loop over a document's text inside any container ends with the text that follows and the machine that building the document gives |
| Json.LoaderAgreesWithGrammar | micropython-esp32/extmod/modujson.c:82-272 | For every valid document, with white space around it, the loader's value is the recursive grammar's; the last of equal keys wins |
| JsonLanguage.EndAccepts | micropython-esp32/extmod/modujson.c:102-106 | The end of the input is accepted exactly where one container is open at the top |
| JsonLanguage.CutOffLoads | micropython-esp32/extmod/modujson.c:102-106 | Every list and object loads the same value without its last bracket |
| JsonLanguage.NestedCutOffIsRefused | micropython-esp32/extmod/modujson.c:259-266 | One level further down the same text is refused |
| JsonLanguage.CutOffIs | micropython-esp32/extmod/modujson.c:102-106 | The cut-off text is the grammar's text but for its last bracket |
| JsonLanguage.AcceptsExactly | micropython-esp32/extmod/modujson.c:82-272 | A text is accepted if and only if, up to the token that completes the first value, no token is unreadable, be it a number that does not convert, no bracket closes nothing and no container stands where a key is due, with only white space after it; or no token completes one, all are so, and exactly one container is open at the end |
| JsonLanguage.NumberLoads | micropython-esp32/extmod/modujson.c:171-193 | A text of number characters loads if and only if it is the text of a number with optional parts |
| JsonLanguage.HandleFollows | micropython-esp32/extmod/modujson.c:213-256 | One key register serves all depths: a key is due exactly in an object after an even number of items put into objects |
| JsonLoader.Loader.ReadToken | micropython-esp32/extmod/modujson.c:107-212 | The character switch reads the token of the token function |
| JsonLoader.Loader.ReadString | micropython-esp32/extmod/modujson.c:128-170 | The string loop gives the bytes of the string function, or fails at the end of input |
| JsonLoader.Loader.Insert | micropython-esp32/extmod/modujson.c:217-234 | Appending, keeping a key, or storing a pair, in place |
| JsonLoader.Loader.OpenContainer | micropython-esp32/extmod/modujson.c:213-248 | Entering a container inserts it in its parent first, and fails where a key should be |
| JsonLoader.Loader.LoadAll | micropython-esp32/extmod/modujson.c:82-272 | The loop over stream cursor, stack, top and key returns the result of the loop function for every text, valid or not |
| JsonLoader.LoadDocument | micropython-esp32/extmod/modujson.c:82-272 | On the text of any valid document it returns a value standing for the grammar's |
| Vfs.FirstMatchIsLongest | micropython-esp32/extmod/vfs.c:62-78 | In an ordered table the first match is a longest match, and the only one of its length unless it is the root |
| Vfs.RefusedExactlyWhenCovered | micropython-esp32/extmod/vfs.c:175-186 | A mount is refused if and only if a non-root mount point equals it or lies above it |
| Vfs.MountKeepsOrder | micropython-esp32/extmod/vfs.c:188-197 | Insertion before the root mounts keeps the table ordered |
| Vfs.UmountKeepsOrder | micropython-esp32/extmod/vfs.c:211-217 | Removal keeps it ordered |
| Vfs.MountReroutes | micropython-esp32/extmod/vfs.c:188-197 | A new mount takes over exactly the paths it serves that no longer mount point serves; every other path keeps its volume |
| Vfs.RoutesByLongestPrefix | micropython-esp32/extmod/vfs.c:49-89 | In every table that mount and umount can make, lookup of an absolute path below / is the longest-prefix match, fails only if nothing serves the path, and mount point and returned path rebuild it |
| Vfs.RelativeFromRoot | micropython-esp32/extmod/vfs.c:50-87 | While the root is current a relative path is the longest match of it after a slash, a root mount gets it as it is, and where nothing serves it it stays with the root |
| Vfs.StaysWithVolume | micropython-esp32/extmod/vfs.c:50-87 | Any other relative path goes to the current volume unchanged; the slash alone, and the empty path in the root, are the root |
| Vfs.AboveMeans | micropython-esp32/extmod/vfs.c:66-76 | A mount point serves the path it equals and those it is followed in by a slash |
| Vfs.ChdirAsks | micropython-esp32/extmod/vfs.c:254-274 | A chdir to the slash asks the newest root mount for its root, an absolute path the longest match for the path in it, a relative path the current volume |
| Vfs.MountTable.LookupPath | micropython-esp32/extmod/vfs.c:49-89 | The pointer walk gives the volume and the path of the lookup function, for absolute and relative paths and every current volume |
| Vfs.MountTable.Mount | micropython-esp32/extmod/vfs.c:137-199 | Raises what the volume raises, refuses by the rule, or links one new node before the first root; the list stays well linked, ordered, and the current volume mounted |
| Vfs.MountTable.Umount | micropython-esp32/extmod/vfs.c:203-232 | Unlinks exactly the first node asked for, by path or by object; the current volume falls back to the root if it was that one; this stands even when the volume's own umount raises |
| Vfs.MountTable.MountThenUmount | micropython-esp32/extmod/vfs.c:137-232 | Unmounting by path what was just mounted restores the table |
| Vfs.MountTable.ChangeDir | micropython-esp32/extmod/vfs.c:254-274 | Sets the current volume and passes the call on, to the first root mount with / for the root, else to the volume found; what the volume raises is raised after the switch |
| Vfs.MountTable.FailedChangeDirLosesVolume | micropython-esp32/extmod/vfs.c:254-274 | A chdir to a path nothing serves raises and leaves no current volume, so relative paths fail afterwards |
| Vfs.MountTable.RefusedChangeDirSwitches | micropython-esp32/extmod/vfs.c:254-274 | A volume that refuses the directory is current all the same, and relative paths go to it |
| Pixels.SetPixelChangesOne | micropython-esp32/extmod/modframebuf.c:63-151 | In all five formats setting a pixel gives it its shade and changes no other pixel, padding included |
| Pixels.PixelsApart | micropython-esp32/extmod/modframebuf.c:63-151 | Two pixels that share a cell have different slots, whatever the stride |
| Pixels.HlsbLayout | micropython-esp32/extmod/modframebuf.c:63-73 | MHLSB: the byte is the sum of eight pixels of a row times powers of two, the rightmost times 1 |
| Pixels.HmsbLayout | micropython-esp32/extmod/modframebuf.c:63-73 | MHMSB: the same with the leftmost times 1 |
| Pixels.VlsbLayout | micropython-esp32/extmod/modframebuf.c:91-99 | MVLSB: the byte is eight pixels of a column, the topmost times 1 |
| Pixels.ColourLayouts | micropython-esp32/extmod/modframebuf.c:115-151 | GS4_HMSB: the byte is 16 times the left pixel plus the right one; RGB565: the cell is the pixel |
| Pixels.SetThenGet | micropython-esp32/extmod/modframebuf.c:63-151 | The pixel set reads as the colour modulo 2^16 or 16, or in one bit as whether it is not 0 |
| Pixels.FirstPixelOfByte | micropython-esp32/extmod/modframebuf.c:63-67 | Pixel (0, 0) is bit 7 of the first byte in MHLSB and bit 0 in MHMSB |
| FrameBuffer.MadeIsWellFormed | micropython-esp32/extmod/modframebuf.c:215-251 | The rounded 16-bit stride is usable exactly when it still covers the width |
| FrameBuffer.MadeFields | micropython-esp32/extmod/modframebuf.c:215-251 | Width and height are taken modulo 2^16, and the stride is the least whole number of cells not below the one given |
| FrameBuffer.Canvas.MonoHorizFillRect | micropython-esp32/extmod/modframebuf.c:75-87 | The column-by-column fill paints exactly the rectangle, both bit orders |
| FrameBuffer.Canvas.MvlsbFillRect | micropython-esp32/extmod/modframebuf.c:101-111 | The vertical-byte fill paints exactly the rectangle |
| FrameBuffer.Canvas.Rgb565FillRect | micropython-esp32/extmod/modframebuf.c:123-131 | The 16-bit fill with its running pointer paints exactly the rectangle |
| FrameBuffer.Canvas.Gs4FillRow | micropython-esp32/extmod/modframebuf.c:153-181 | One 4-bit row, in all four odd and even cases of x and w, paints exactly its pixels and ends on the next row's first cell |
| FrameBuffer.Canvas.Gs4HmsbFillRect | micropython-esp32/extmod/modframebuf.c:153-181 | The 4-bit fill paints exactly the rectangle |
| FrameBuffer.Canvas.FillRect | micropython-esp32/extmod/modframebuf.c:200-213 | Exactly the pixels of the rectangle that lie on the canvas get the colour, for any integers, and no other bit of the buffer changes |
| FrameBuffer.FillIsSetPixels | micropython-esp32/extmod/modframebuf.c:184-213 | A buffer so painted is, to the last bit, the one that calling setpixel on each pixel gives |
| Pixels.PixelsDetermine | micropython-esp32/extmod/modframebuf.c:63-151 | In all five formats a buffer is its pixels, those of the padding included, and the cells past the geometry |
| FrameBuffer.Canvas.Fill | micropython-esp32/extmod/modframebuf.c:262-268 | The whole canvas gets the colour, its padding does not |
| FrameBuffer.Canvas.Scroll | micropython-esp32/extmod/modframebuf.c:461-490 | Whenever its loops end, the call is a simultaneous move: each pixel with a source on the canvas gets its old value, every other pixel stays |
| FrameBuffer.ScrollMoves | micropython-esp32/extmod/modframebuf.c:461-490 | Every pixel whose new place is on the canvas is there, and a pixel without a source keeps its value |
| FrameBuffer.ScrollStep | micropython-esp32/extmod/modframebuf.c:484-487 | In every direction the source of the next pixel has not been overwritten |
| FrameBuffer.ScrollEndsExactly | micropython-esp32/extmod/modframebuf.c:461-490 | The two nested loops come to their end if and only if the vertical step is no longer than the canvas is high and, unless it is exactly that, the horizontal step no longer than it is wide |
| Lines.WalkStep | micropython-esp32/extmod/modframebuf.c:388-403 | Each step moves the minor coordinate at most once and keeps the error term equal to its closed form |
| Lines.OffsetIs | micropython-esp32/extmod/modframebuf.c:386-403 | The bounds on the error say exactly that the minor offset is floor((2*dy*i + dx) / (2*dx)) |
| Lines.LineEnds | micropython-esp32/extmod/modframebuf.c:386-409 | The walk starts and ends at the two end points |
| Lines.LineIsConnected | micropython-esp32/extmod/modframebuf.c:388-403 | Consecutive pixels are distinct neighbours |
| FrameBuffer.Canvas.DrawLine | micropython-esp32/extmod/modframebuf.c:352-415 | Exactly the pixels of the line that lie on the canvas get the colour, and no other bit of the buffer changes |
| WebSocket.ReadKeepsStream | micropython-esp32/extmod/modwebsocket.c:76-216 | One call, whatever the socket delivers and whatever is asked for: what it returns followed by what the rest of the stream decodes to is what the stream decoded to before; nothing is returned but non-empty data up to the size asked for |
| WebSocket.ReadDelivers | micropython-esp32/extmod/modwebsocket.c:76-216 | A socket that delivers what it has makes a call return data whenever the stream holds some |
| WebSocket.HeaderRefused | micropython-esp32/extmod/modwebsocket.c:92-121 | A header fails an assertion if and only if it is not that of a final frame or announces a 64-bit length |
| WebSocket.PayloadChunk | micropython-esp32/extmod/modwebsocket.c:182-196 | A payload chunk of any size is unmasked as its bytes would be one by one, across the wrap of the byte-wide mask position |
| WebSocket.UnmaskTwice | micropython-esp32/extmod/modwebsocket.c:191-194 | Masking is its own inverse |
| WebSocket.UnmaskedBit | micropython-esp32/extmod/modwebsocket.c:177-180 | Bit k of byte i is set if and only if it is in exactly one of the byte received and byte i modulo 4 of the key, as section 5.3 of RFC 6455 has it |
| WebSocket.MaskedTextIsRead | micropython-esp32/extmod/modwebsocket.c:177-180 | The bytes of a text frame with hi masked by 1, 2, 3, 4 decode to hi |
| WebSocket.FrameDecodes | micropython-esp32/extmod/modwebsocket.c:89-180 | A frame with 7- or 16-bit length, masked or not, takes the decoder from one frame boundary to the next and yields its payload, or nothing for a control frame other than close with at most one byte |
| WebSocket.FramesDecode | micropython-esp32/extmod/modwebsocket.c:76-216 | A stream of such frames decodes to their payloads in order and leaves the opcode of the last one that is no continuation |
| WebSocket.WrittenReadsBack | micropython-esp32/extmod/modwebsocket.c:218-231 | Every message below 65536 bytes that was written reads back as the bytes written |
| WebSocket.WrittenIsShortest | micropython-esp32/extmod/modwebsocket.c:218-236 | No final frame with the same payload is shorter than the one written |
| WebSocket.ControlPayloadDependsOnChunks | micropython-esp32/extmod/modwebsocket.c:182-209 | A control payload of two or more bytes is dropped in one chunk, but its first byte is returned as data if it comes alone |
| WebSocket.HeaderKeepsOpcode | micropython-esp32/extmod/modwebsocket.c:103-112 | A header leaves the opcode recorded for the data as it was if and only if it is a continuation or has that opcode; control frames are no exception, contrary to the comment in the code |
| WebSocket.ControlReplacesOpcode | micropython-esp32/extmod/modwebsocket.c:98-112 | After any frames the opcode recorded is that of the last data frame if and only if no control frame follows it |
| WebSocket.PingReplacesDataFlags | micropython-esp32/extmod/modwebsocket.c:98-112 | After a text frame and a ping the opcode recorded is that of the ping |
| WebSocket.CloseReplyIs | micropython-esp32/extmod/modwebsocket.c:199-204 | The reply to a close frame is written with the stream's own opcode: it starts like a control frame if and only if that is a control opcode, and like a close frame if and only if it is CLOSE |
| WebSocketStream.Stream.AnswerClose | micropython-esp32/extmod/modwebsocket.c:199-204 | The same of the object, after any opcode was set to write with |
| WebSocketStream.Stream.ReadStream | micropython-esp32/extmod/modwebsocket.c:76-216 | The loop over the object's fields and buffers computes the decoder function, for every socket schedule |
| WebSocketStream.Stream.UnmaskInPlace | micropython-esp32/extmod/modwebsocket.c:191-194 | The in-place loop unmasks the caller's bytes and advances the mask position |
| WebSocketStream.Stream.Write | micropython-esp32/extmod/modwebsocket.c:218-254 | Writes exactly one header and the data; aborts at 65536 bytes or more |
| WebSocketStream.Stream.ReadMany | micropython-esp32/extmod/modwebsocket.c:76-216 | Any number of reads of any sizes, with any chunks, return the payload in order up to what is still unread |
| WebSocketStream.ReadFrames | micropython-esp32/extmod/modwebsocket.c:76-216 | A new stream over any such frames returns a prefix of the payloads; once the socket is drained, all of them, and then it reports the opcode of the last data frame if and only if no control frame follows it |
| SiftHeap.SiftDown | micropython-esp32/extmod/moduheapq.c:41-54 | Keeps the elements, and restores the heap above a leaf for any subtree root |
| SiftHeap.SiftUp | micropython-esp32/extmod/moduheapq.c:56-71 | Sinking the hole to a leaf and rising again keeps the elements and makes the subtree a heap if its children's subtrees were |
| SiftHeap.Heapify | micropython-esp32/extmod/moduheapq.c:97-103 | Turns any list into a heap of the same elements |
| SiftHeap.Push | micropython-esp32/extmod/moduheapq.c:73-78 | A heap with the element added |
| SiftHeap.Pop | micropython-esp32/extmod/moduheapq.c:81-94 | The top, which is a least element, and a heap of the others |
| SiftHeap.TopIsLeast | micropython-esp32/extmod/moduheapq.c:81-94 | The first element of a heap is least |
| HeapQ.HeapList.HeapPush | micropython-esp32/extmod/moduheapq.c:73-78 | The list object after a push, for any ordering on the elements present |
| HeapQ.HeapList.HeapPop | micropython-esp32/extmod/moduheapq.c:81-94 | The error on an empty heap, else the top removed and the heap kept |
| HeapQ.HeapList.HeapSort | micropython-esp32/extmod/moduheapq.c:81-103 | Heapify and popping until empty give a sorted rearrangement |
| UTimeQ.RingComparison | micropython-esp32/extmod/modutimeq.c:62-75 | On ticks the comparison is: same time and smaller id, or less than half a period ahead |
| UTimeQ.WindowOrders | micropython-esp32/extmod/modutimeq.c:62-75 | On times within half a period the comparison is an ordering the heap can rely on |
| UTimeQ.TotalExactlyInWindow | micropython-esp32/extmod/modutimeq.c:62-75 | For ticks with distinct ids it is a strict total order if and only if some window shorter than half a period holds them all |
| UTimeQ.NotTransitive | micropython-esp32/extmod/modutimeq.c:62-75 | Three times a third of the period apart go round in a circle |
| UTimeQ.PoppedIsEarliest | micropython-esp32/extmod/modutimeq.c:142-164 | In a window the first entry is earlier than every other, in order of pushing on equal times |
| UTimeQ.TimeQueue.HeapPush | micropython-esp32/extmod/modutimeq.c:124-139 | Overflow error, or the entry with the next id added, heap kept and ids distinct until the counter wraps |
| UTimeQ.TimeQueue.HeapPop | micropython-esp32/extmod/modutimeq.c:142-164 | The two errors in their order, or the first entry moved to the caller's list, the rest kept as a heap, and everything left later than it |
| UTimeQ.TimeQueue.PeekTime | micropython-esp32/extmod/modutimeq.c:167-175 | The error on an empty queue, or the time of the first entry, than which none pending is earlier |
| UTimeQRuns.RunOps | micropython-esp32/extmod/modutimeq.c:124-175 | Any sequence of pushes, pops and peeks gives, operation by operation, what a plain list gives from which the earliest entry is taken, the first pushed among those of equal time, as long as after every push the times then pending lie in some window |
| UTimeQRuns.EarliestIsFirst | micropython-esp32/extmod/modutimeq.c:142-164 | The entry that list gives up: none is sooner, and it is sooner than all pushed before it |
| Base64.AsciiIsAlphabet | micropython-esp32/extmod/modubinascii.c:196-214 | The ranges of the second pass are table 1 of RFC 4648 |
| Base64.SextetInvertsAscii | micropython-esp32/extmod/modubinascii.c:108-122 | The decoder's table is the exact inverse of the encoder's |
| Base64.B2aBase64 | micropython-esp32/extmod/modubinascii.c:167-217 | The two in-place passes leave the encoding of section 4 of RFC 4648 and a newline |
| Base64.A2bBase64 | micropython-esp32/extmod/modubinascii.c:124-161 | The bit register, wrapping at 32 bits, computes the digits unpacked in groups of four, stops at complete padding and refuses a broken last group |
| Base64.UnpackStep | micropython-esp32/extmod/modubinascii.c:143-151 | Each further digit completes the byte its group makes |
| Base64.QuadCarries | micropython-esp32/extmod/modubinascii.c:167-214 | The digits of each group, read in base 64, are its bytes read in base 256, with zero bits up to a whole digit and then padding |
| Base64.DecodeUndoesEncode | micropython-esp32/extmod/modubinascii.c:124-217 | Decoding gives the bytes back from any text whose alphabet and = characters are those of the encoding, whatever stands between |
| Base64.DecodeRefuses | micropython-esp32/extmod/modubinascii.c:132-155 | Text is refused if and only if no '=' in it stands after three alphabet characters of a group, or after two and another '=', and the number of its alphabet characters is no multiple of four |
| Base64.DecodedSize | micropython-esp32/extmod/modubinascii.c:132-155 | What is decoded has the whole bytes of six bits for every alphabet character before the first complete padding |
| Base64.ScanIgnoresJunk | micropython-esp32/extmod/modubinascii.c:139-142 | Only alphabet characters and = matter |
| Base64.EncodingIsInjective | micropython-esp32/extmod/modubinascii.c:167-217 | Different bytes have different texts |

## Left out

- KconfigEval.Config.CachesAreRecomputed: an environment symbol of type bool or tristate is assumed to hold n, m or y; with any other text the source's comparisons raise. Cached visibilities of special members of a choice without any other member are not described; no value depends on them.
- KconfigEval.Config.ChoiceCachesAreRecomputed: a choice without members, or with special ones only, is left out: invalidation reaches a choice through a member that is not special. No value depends on its caches.
- KconfigChoice.AtMostOneY: environment symbols in the choice are left out, because their value is fixed; EnvChoiceGoesStale has two members at y.
- KconfigEval.Config.LoadConfig: a .config file is the list of assignments it makes; line matching, warnings and header text are not modelled, and MODULES is a constant because the promotion of m reads it without a dependency edge.
- KconfigParser.ParseFactorRec: on an operand missing after = or != the source builds a tuple with the stray token or with None; the model returns the error StrayOperand.
- KconfigExpr.Eval: symbols are numbers into the configuration, not objects; reading numbers from text and printing them are parameters.
- KconfigEscape.WrittenThenLoaded: strings with newlines are excluded, as the file is read by lines.
- Kconfig file reading, tokenising, menus, help text, environment lookups, the write_to_conf flag and report printing: text plumbing around the evaluator.
- AsmThumb.BranchLands: program offsets below 2^31; condition codes EQ to LE, registers below 15.
- AsmX64.JumpLands: code below 2^31 bytes.
- AsmThumbMov.MovI32OptimisedRuns: condition flags are not modelled.
- Register moves, arithmetic, memory, call, entry and exit emitters, executable memory and cache flushing: fixed byte sequences with no size choice; a program can contain them as plain bytes.
- Json.LoaderAgreesWithGrammar: floats stay text, so rounding is not modelled, and there is no + in an exponent, which the scanner does not accept; each \u escape is its own code point, so surrogate pairs are not combined; characters below the space and NUL are no part of a valid document.
- JsonLoader.Loader.LoadAll: stream read errors are left out; containers are entries of one store, not objects on a heap.
- JsonLanguage.AcceptsExactly: the build is one with floats and integers of any length, and words are those of a 32-bit machine; the number parsers' white space and other bases are left out, as the loader passes neither. Dict keys that are numbers or booleans, which the grammar has not, are told apart by type and text.
- json dumps: not part of this model.
- Vfs.MountTable.Mount: mount points start with / and, like paths, contain no NUL. Without the slash the source compares all but the first character and checks the mount against the current volume, so the table need not stay ordered.
- vfs getcwd, ilistdir, open and the other forwarded calls: they only pass the looked-up path on.
- Pixels.SetPixelChangesOne: a cell is a 32-bit word of which 8 or 16 bits are used (Clean says that the others are 0); integer overflow of x + w is not modelled; the buffer is assumed large enough for the geometry, which the source never checks.
- FrameBuffer.Canvas.Scroll: steps for which the source's loops run out of the buffer.
- hline, vline, rect, blit, text and the method table: compositions of fill_rect and setpixel, or a font table that is not modelled.
- WebSocket.FramesDecode: close frames, control payloads above one byte, fragmented messages and 64-bit lengths are outside its streams; Read itself models what the code does with them.
- WebSocketStream.Stream.Write: a socket that accepts only part of the data or fails, and the switch to blocking mode, are left out.
- UTimeQ.TimeQueue.HeapPop: the heap and order claims need times in one window and distinct ids; the cleared slot behind the end is not modelled. The period is that of a 32-bit machine.
- HeapQ.HeapList.HeapPush: the comparison is a total function; one that raises is left out, as is the check that the argument is a list.
- Base64.B2aBase64: the decoder's output buffer is a growing sequence; its size is not modelled. hexlify, unhexlify and crc32 are left out.
