# Dynamic net filtering matrix

A Dafny model of the rule matrix in uBlock's `src/js/dynamic-net-filtering.js`, with proofs about it.

The rule store is a dictionary from `source + " " + destination` to a packed bitmap. The bitmap has one 2-bit cell per request type:

| type | bit offset |
|---|---|
| `*` | 0 |
| `inline-script` | 2 |
| `1p-script` | 4 |
| `3p-script` | 6 |
| `3p-frame` | 8 |
| `image` | 10 |

A cell holds 0 (unset), 1 (block), 2 (allow) or 3 (noop).

Four registers remember the last evaluation:
- `r`, the verdict;
- `type`;
- `y`, the destination of the last probe;
- `z`, the source of the last probe.

An evaluation resolves `(source, destination, type)` by walking two hostname hierarchies built by `toBroaderHostname`:
- The outer walk goes over destinations. It runs from the destination outwards until broadening yields `*`. The destination `*` comes last.
- The inner walk goes over sources. It runs from the source outwards until broadening yields `""`.
- The first set cell decides.

## How the model is organised

- `StringOps` (string_ops.dfy) implements the JavaScript string primitives the code uses, with their JavaScript edge cases:
  - `indexOf`, which returns -1 when there is no match;
  - `slice`, including negative indices;
  - `trim`;
  - `split(/\s+/)` on a trimmed line;
  - `join`.
- `Hostnames` (hostnames.dfy) holds:
  - `isIPAddress`, with its two regular expressions written as character predicates;
  - `toBroaderHostname`, as `Broaden`;
  - the chains of hostnames that the two evaluation loops visit. `SrcChain` and `DesChain` are proved to be exactly the broadening walks, and their length is bounded by the number of labels (`SrcChainLength`, `DesChainLength`).
- `Bitmaps` (bitmaps.dfy) holds:
  - the request types and their bit offsets (bitmaps are `bv32`, which is what JavaScript's bitwise operators act on);
  - the cell read and write expressions of the code, literally;
  - the state name tables.
- `Rules` (rules.dfy) holds the dictionary and the pure meaning of `setCell` (`SetCellRules`). It also holds the key-splitting helpers.
- `Evaluation` (evaluation.dfy) holds the pure meaning of the two evaluation loops:
  - `ZHit` is the source walk and `ZYHit` the destination walk;
  - `Resolve` and `EvalRegs` give the registers they leave behind.
- `Mutators` (mutators.dfy) holds the pure meaning of `unsetCell` and `setCellZ`, and the guarantees they give.
- `Codec` (codec.dfy) holds the pure meaning of the text form:
  - what `fromString` does to each line, and to the whole text;
  - the lines `toString` writes;
  - the proof that reading them back rebuilds the store.
- `Legacy` (legacy.dfy) holds the translation of the old per-hostname filters.
- `DynamicNetFiltering.Matrix` (matrix.dfy) is the class:
  - its fields are the four registers and `rules`;
  - each JavaScript method that changes the matrix, or that loops, becomes a method with the same branches and loops, proved against the functions above;
  - `evaluateCell`, `mustAbort`, `mustBlockOrAllow`, `toFilterString` and `toSelfie` only read the matrix, so they become functions of the class;
  - `srcHostnameFromRule` and `desHostnameFromRule` read nothing of the matrix, so they are the module functions `Rules.SrcHostnameFromRule` and `Rules.DesHostnameFromRule`.

Where a description of the component and the code disagree, the model follows the code:
- A second `blockCell` (or `allowCell`) on a triple whose verdict is already the action returns false and changes nothing (lines 145-148). It does not remove the exact rule, and it does not toggle back to the earlier state (`SetCellZIdempotent`, `SetCellZChangedIff`).
- `setCellZ` first evaluates with the exact rule in place. It clears the exact rule only when the verdict differs from the action.
- `inherit` appears in the comment at line 373, but `nameToStateMap` does not hold it, so a line that uses it is rejected (`InheritRejected`).
- The comment marker is the two characters `# ` anywhere in the trimmed line (line 352).
- For a type name that is not an own key of `typeBitOffsets`, `setCell`, `evaluateCell` and `evaluateCellZ` read a value that is not a number: `undefined`, or an inherited member such as `toString`. JavaScript then shifts by 0, so these calls act on the `*` cell (`FieldOf`).
  - `setCellZ` with such a type evaluates to 0, so it always writes the action into the `*` cell of the exact key and reports a change (`SetCellZUnknownType`).
- A single-label name ending in a dot that is not an address literal, such as `com.`, broadens straight to `""`. Its source walk therefore never probes the source `*` (`TrailingDotSkipsWildcardSource`). A longer name such as `a.com.` first loses its leading labels, and an address literal such as `[::1].` broadens to `*`.
- If the destination is `*`, the destination loop also probes `""`, because `toBroaderHostname("*")` is `""`: the destinations probed for `*` are `*`, `""`, `*` (`WildcardDestinationOrder`).

## Model

| member | source | states |
|---|---|---|
| StringOps.IndexOf | src/js/dynamic-net-filtering.js:91 | `indexOf` is -1 or a position of the character |
| StringOps.IndexOfSpec | src/js/dynamic-net-filtering.js:91-92 | `indexOf` is -1 exactly when the character is absent; otherwise it is the first occurrence |
| StringOps.IndexOfFromSpec | src/js/dynamic-net-filtering.js:342-344 | `indexOf` from a position is -1 exactly when the character is absent from the rest; otherwise it is the first occurrence there |
| StringOps.IndexOfPairSpec | src/js/dynamic-net-filtering.js:352 | `indexOf('# ')` finds the first place where `#` is followed by a space |
| StringOps.Slice | src/js/dynamic-net-filtering.js:290 | `slice(b, e)` with indices in range is the subsequence `s[b..e]`, and it is never longer than `s` |
| StringOps.Trim | src/js/dynamic-net-filtering.js:349 | `trim` never lengthens a string |
| StringOps.TrimSpec | src/js/dynamic-net-filtering.js:349 | a trimmed string neither starts nor ends with white space, and trimming such a string changes nothing |
| StringOps.Tokens | src/js/dynamic-net-filtering.js:360 | a line that starts with a non-space character has at least one field |
| StringOps.TokensSpec | src/js/dynamic-net-filtering.js:360 | every field of `split(/\s+/)` on a trimmed line is a non-empty run without white space |
| StringOps.Join | src/js/dynamic-net-filtering.js:327 | joining one string gives that string |
| StringOps.TokensOfJoin | src/js/dynamic-net-filtering.js:319-324 | splitting fields joined by single spaces gives the fields back |
| Hostnames.HasNameOnlyCharSpec | src/js/dynamic-net-filtering.js:65 | `/[g-z_-]/` matches exactly when some character is in `g`-`z`, `_` or `-` |
| Hostnames.EndsWithDotDigitsSpec | src/js/dynamic-net-filtering.js:66 | `/\.\d+$/` matches exactly when some dot is followed by one or more digits up to the end |
| Hostnames.IsIPAddressSpec | src/js/dynamic-net-filtering.js:72-80 | an address literal has no character of `[g-z_-]`, and either ends in a dot and digits or starts with `[` (both directions) |
| Hostnames.BroadenSpec | src/js/dynamic-net-filtering.js:84-96 | `*` gives `""`; an address literal or a name without a dot gives `*`; otherwise the result is the text after the first dot |
| Hostnames.AddressLiteralBroadensToWildcard | src/js/dynamic-net-filtering.js:88-90 | an address literal other than `*` broadens to `*` |
| Hostnames.BroadenShortens | src/js/dynamic-net-filtering.js:84-96 | each broadening yields `*` or a strictly shorter string |
| Hostnames.BroadenLowersDots | src/js/dynamic-net-filtering.js:91-95 | when neither the hostname nor its broadening is `*`, broadening drops exactly one dot |
| Hostnames.BroadenLowersRank | src/js/dynamic-net-filtering.js:84-96 | every hostname but `""` broadens to one of lower rank, where `""` ranks lowest and `*` next |
| Hostnames.StepsToEmptySpec | src/js/dynamic-net-filtering.js:84-96 | repeated broadening reaches `""` after exactly `StepsToEmpty(h)` steps, and not before |
| Hostnames.StepsToEmptyBound | src/js/dynamic-net-filtering.js:84-96 | reaching `""` takes at most the number of dots plus two steps |
| Hostnames.StepsToWildcardSpec | src/js/dynamic-net-filtering.js:231-235 | repeated broadening reaches `*` after exactly `StepsToWildcard(h)` steps, and not before |
| Hostnames.SrcChainSpec | src/js/dynamic-net-filtering.js:196-211 | the sources probed start at the source, each is the broadening of the one before, and only the last broadens to `""` |
| Hostnames.SrcChainNext | src/js/dynamic-net-filtering.js:207-210 | after probing `s`, the loop stops if `s` broadens to `""`; otherwise it goes on with the chain of the broader hostname |
| Hostnames.DesChainSpec | src/js/dynamic-net-filtering.js:230-240 | the destinations probed by the loop start at the destination, each is the broadening of the one before, and only the last broadens to `*` |
| Hostnames.DesChainNext | src/js/dynamic-net-filtering.js:231-235 | after probing `d`, the loop stops if `d` broadens to `*`; otherwise it goes on with the chain of the broader hostname |
| Hostnames.SrcChainLength | src/js/dynamic-net-filtering.js:198-211 | the source loop runs at most as many times as the source has labels, plus one |
| Hostnames.StepsToWildcardBound | src/js/dynamic-net-filtering.js:231-235 | broadening reaches `*` in at most one step more than the number of dots |
| Hostnames.DesChainLength | src/js/dynamic-net-filtering.js:226-244 | the destinations probed before the final `*` probe number at most the dots plus two |
| Hostnames.IterAdd | src/js/dynamic-net-filtering.js:207-210 | `i + k` broadenings are `k` broadenings after the first `i` |
| Hostnames.StepsToEmptyAfter | src/js/dynamic-net-filtering.js:207-210 | after `i` steps of the source walk, exactly `i` fewer steps remain before `""` |
| Hostnames.RankAfter | src/js/dynamic-net-filtering.js:84-96 | each of `j` steps towards `""` lowers the rank, so `j` steps lower it by at least `j` |
| Hostnames.BroadenNeverRevisits | src/js/dynamic-net-filtering.js:207-210 | the walk towards `""` never comes back to a hostname it has already visited |
| Hostnames.TrailingDotSkipsWildcardSource | src/js/dynamic-net-filtering.js:84-96 | a single-label name ending in a dot that is not an address literal broadens straight to `""`, so its source walk is just that name and never probes `*` |
| Hostnames.TrailingDotExample | src/js/dynamic-net-filtering.js:207-209 | the source walk of `com.` is `[com.]` |
| Bitmaps.TypeFromName | src/js/dynamic-net-filtering.js:41-48 | a type name is recognised exactly when it is one of the six keys of `typeBitOffsets`, and it names the type found |
| Bitmaps.NameRoundTrip | src/js/dynamic-net-filtering.js:41-48 | every request type's name is recognised as that type |
| Bitmaps.AllTypesComplete | src/js/dynamic-net-filtering.js:311 | the iteration over `typeBitOffsets` visits every request type |
| Bitmaps.FieldOf | src/js/dynamic-net-filtering.js:113 | a recognised name addresses its own cell; any other name addresses the `*` cell, as a shift by a value that is not a number does |
| Bitmaps.Put | src/js/dynamic-net-filtering.js:119 | `bitmap & ~(3 << offset) \| (state << offset)` gives the cell the new state, keeps every other cell, and stays within 12 bits |
| Bitmaps.PutUnchanged | src/js/dynamic-net-filtering.js:119-122 | the bitmap is unchanged exactly when the cell already held the state |
| Bitmaps.CellsDetermineBitmap | src/js/dynamic-net-filtering.js:41-48 | two 12-bit bitmaps with the same six cells are equal |
| Bitmaps.ZeroIffAllUnset | src/js/dynamic-net-filtering.js:123-124 | a 12-bit bitmap is 0 exactly when all its cells are unset |
| Bitmaps.NameToState | src/js/dynamic-net-filtering.js:56-60 | exactly `block`, `allow` and `noop` are state names, and each is the name of the state it gives |
| Bitmaps.StateNameRoundTrip | src/js/dynamic-net-filtering.js:50-60 | `nameToStateMap[stateToNameMap[s]] == s` for every set state |
| Rules.Key | src/js/dynamic-net-filtering.js:114 | a dictionary key always holds a space |
| Rules.SplitKey | src/js/dynamic-net-filtering.js:289-297 | for a source without a space, the key splits back into its source and destination |
| Rules.JoinKey | src/js/dynamic-net-filtering.js:289-297 | any string with a space is the key of its two halves, and the first half has no space |
| Rules.StoreLookup | src/js/dynamic-net-filtering.js:119-127 | after storing a bitmap for a key, the key reads as that bitmap, whether it was kept, deleted as 0 or written, and every other key reads as before |
| Rules.SetCellLookup | src/js/dynamic-net-filtering.js:115-127 | after `setCell`, the key reads as the new bitmap and every other key reads as before |
| Rules.SetCellCells | src/js/dynamic-net-filtering.js:112-129 | after `setCell`, the cell holds the state, and every other cell of every key is unchanged |
| Rules.SetCellWellFormed | src/js/dynamic-net-filtering.js:123-127 | `setCell` keeps every stored bitmap non-zero and within 12 bits |
| Rules.PresentIffNonZero | src/js/dynamic-net-filtering.js:123-126 | in a well-formed store, a key is present exactly when its bitmap is non-zero |
| Rules.SetCellChangedIff | src/js/dynamic-net-filtering.js:120-128 | `setCell` returns true exactly when the dictionary changed, which is exactly when the cell held another state |
| Rules.LookupsDetermineRules | src/js/dynamic-net-filtering.js:115-118 | two well-formed stores that read alike at every key are the same dictionary |
| Rules.CellsDetermineRules | src/js/dynamic-net-filtering.js:174-181 | two well-formed stores that agree on every cell are the same dictionary |
| Evaluation.ZHitSpec | src/js/dynamic-net-filtering.js:194-214 | the source walk gives a set state exactly when some probed source has a set cell; it then names the first such source; otherwise it names the last source probed |
| Evaluation.ZYHitSpec | src/js/dynamic-net-filtering.js:218-246 | an unset verdict means every destination's walk was unset, and the registers name the last destination and source |
| Evaluation.ZYHitIndex | src/js/dynamic-net-filtering.js:226-244 | a set verdict is the walk result of a destination after destinations whose walks were all unset |
| Evaluation.DesOrder | src/js/dynamic-net-filtering.js:226-244 | the destinations probed start with the destination and end with `*` |
| Evaluation.WildcardDestinationOrder | src/js/dynamic-net-filtering.js:230-244 | for the destination `*` the probes are `*`, `""` and `*` again |
| Evaluation.Precedence | src/js/dynamic-net-filtering.js:194-246 | a set verdict comes from the cell at destination index `i` and source index `j`; every earlier-probed cell is unset, whether at an earlier destination or at an earlier source of the same destination |
| Evaluation.ZYHitPrecedence | src/js/dynamic-net-filtering.js:194-246 | the same lexicographic precedence for any source and destination order |
| Evaluation.NoopVerdictNamesNoopRule | src/js/dynamic-net-filtering.js:258-260 | after an evaluation, `r` is noop exactly when the type is recognised and the rule at `(z, y, type)` is a noop rule |
| Evaluation.RegistersNameRule | src/js/dynamic-net-filtering.js:199-204 | when `r` is set, `evaluateCell(z, y, type) == r` |
| Evaluation.ExactRuleWins | src/js/dynamic-net-filtering.js:226-228 | a set exact rule decides, with `y == des` and `z == src` |
| Evaluation.DestinationBeforeSource | src/js/dynamic-net-filtering.js:226-228 | a rule at the requested destination, for any source on the chain, outranks every rule at a broader destination |
| Evaluation.UnsetIffNoCandidate | src/js/dynamic-net-filtering.js:194-246 | the verdict is 0 exactly when every probed cell is unset |
| Evaluation.WildcardFallback | src/js/dynamic-net-filtering.js:242-244 | when no cell before destination `*` is set, the verdict is that of the `*` destination walk |
| Evaluation.ZYHitSkipsUnset | src/js/dynamic-net-filtering.js:230-244 | when the walks of all destinations but the last are unset, the verdict is the walk of the last destination |
| Evaluation.ZHitReadsCandidates | src/js/dynamic-net-filtering.js:198-211 | the source walk reads only the probed cells |
| Evaluation.ZYHitReadsCandidates | src/js/dynamic-net-filtering.js:218-246 | the evaluation reads only the probed cells: stores that agree on them reach the same verdict |
| Evaluation.EvalRegsOverwrite | src/js/dynamic-net-filtering.js:145-150 | a later evaluation of the same triple overrides every register set by an earlier one |
| Mutators.UnsetVerdictMeansUnsetExact | src/js/dynamic-net-filtering.js:134-136 | for a recognised type, an unset verdict implies an unset exact cell |
| Mutators.UnsetCellEffect | src/js/dynamic-net-filtering.js:133-140 | after `unsetCell`, the exact cell is unset and every other cell is unchanged |
| Mutators.UnsetCellOfInheritedVerdict | src/js/dynamic-net-filtering.js:133-140 | an unset verdict changes nothing; the dictionary changes exactly when the exact cell was set |
| Mutators.MutatorsWellFormed | src/js/dynamic-net-filtering.js:133-156 | `unsetCell` and `setCellZ` keep the store well formed |
| Mutators.SetCellZReachesAction | src/js/dynamic-net-filtering.js:144-156 | for a recognised type, the verdict after `setCellZ` is the action |
| Mutators.SetCellZOnlyExactCell | src/js/dynamic-net-filtering.js:144-156 | `setCellZ` changes no cell but the exact one |
| Mutators.SetCellZExactCell | src/js/dynamic-net-filtering.js:149-154 | afterwards the exact cell is unset or the action; it is unset when inheritance already supplies the action |
| Mutators.SetCellZChangedIff | src/js/dynamic-net-filtering.js:144-156 | the store changes exactly when the verdict was not yet the action, which is exactly when it returns true |
| Mutators.SetCellZIdempotent | src/js/dynamic-net-filtering.js:145-148 | a second identical `setCellZ` changes nothing |
| Mutators.SetCellZUnknownType | src/js/dynamic-net-filtering.js:144-156 | with an unrecognised type the verdict stays 0 and the `*` cell of the exact key is set to the action |
| Codec.CleanLine | src/js/dynamic-net-filtering.js:349-355 | cleaning never lengthens the line |
| Codec.CleanLineEnds | src/js/dynamic-net-filtering.js:349-355 | a cleaned line neither starts nor ends with white space |
| Codec.CleanLineKeeps | src/js/dynamic-net-filtering.js:349-355 | a cleaned line holds only characters of the raw line |
| Codec.CommentDropped | src/js/dynamic-net-filtering.js:352-355 | text from the first `# ` on is dropped |
| Codec.ParseFields | src/js/dynamic-net-filtering.js:362-411 | a line is rejected exactly when it has fewer than 2 fields, an unknown type or an unknown state; otherwise the hostnames go through `toASCII`, the type defaults to `*` and the state to allow |
| Codec.ParseFieldsAccepted | src/js/dynamic-net-filtering.js:385-410 | accepted fields give exactly the rule built from them, with the defaults |
| Codec.ExtraFieldsIgnored | src/js/dynamic-net-filtering.js:385-411 | fields after the fourth are ignored |
| Codec.InheritRejected | src/js/dynamic-net-filtering.js:400-406 | a line with the state `inherit` is rejected |
| Codec.LineEndAt | src/js/dynamic-net-filtering.js:342-348 | the end of a line lies between its start and the end of the text |
| Codec.LineEndSpec | src/js/dynamic-net-filtering.js:342-348 | a line ends at the first `\n`, else at the first `\r`, else at the end of the text; the line holds no `\n`, and no `\r` either when no `\n` is left |
| Codec.BreakAtSpec | src/js/dynamic-net-filtering.js:342-345 | the scan for a break character stops at its first occurrence from the start position, or at the end of the text |
| Codec.IndexOfFromBreak | src/js/dynamic-net-filtering.js:342-345 | `indexOf(c, lineBeg)` returns the position the scan stops at, and -1 exactly when the scan runs to the end |
| Codec.LineEndFrom | src/js/dynamic-net-filtering.js:342-348 | the three-way choice between the `\n` search, the `\r` search and `textEnd` lands where the line ends |
| Codec.LinesFromDrop | src/js/dynamic-net-filtering.js:341-350 | the lines read from a position on are the lines of the text that follows it |
| Codec.LineStep | src/js/dynamic-net-filtering.js:341-350 | the unread text starts with the line up to the break, and reading resumes one past the break |
| Codec.ReadLineStep | src/js/dynamic-net-filtering.js:341-414 | applying the first unread line and then the rest equals applying all unread lines |
| Codec.LinesOfPlain | src/js/dynamic-net-filtering.js:341-350 | a non-empty text without line breaks is read as one line |
| Codec.LinesAfterBreak | src/js/dynamic-net-filtering.js:341-350 | a line without `\n` followed by `\n` is read as that line, then reading resumes after the break |
| Codec.LinesOfJoin | src/js/dynamic-net-filtering.js:327 | reading lines joined by `\n` gives them back, for non-empty lines without breaks |
| Codec.RenderLineIsJoin | src/js/dynamic-net-filtering.js:319-324 | a `toString` line is its four fields joined by spaces |
| Codec.CleanJoinedFields | src/js/dynamic-net-filtering.js:349-355 | four fields without white space or `#`, joined by spaces, are left alone by the trim and comment cut |
| Codec.ParseRenderedLine | src/js/dynamic-net-filtering.js:319-324 | a `toString` line parses back into its own rule, given the hostname round trip |
| Codec.KeyLinesStep | src/js/dynamic-net-filtering.js:311-325 | the lines of one key grow by one line per set cell, in the order of `typeBitOffsets` |
| Codec.TypeLinesRebuild | src/js/dynamic-net-filtering.js:315-324 | reading back one type's line restores that cell and leaves the other keys alone |
| Codec.KeyLinesRebuild | src/js/dynamic-net-filtering.js:309-325 | reading back the lines of one key restores its bitmap |
| Codec.RulesLinesRebuild | src/js/dynamic-net-filtering.js:305-326 | reading back the lines of distinct keys into an empty store holds exactly those keys, each as stored |
| Codec.ToStringRoundTrip | src/js/dynamic-net-filtering.js:301-328 | `fromString(toString())` into an empty store gives the same dictionary, for any key order, given `Portable`: the hostname round trip holds, and each displayed hostname is a non-empty token without white space or `#` (`Displayable`) |
| Legacy.LegacyField | src/js/dynamic-net-filtering.js:430-448 | the old fields are read from bits 0, 2, 4 and 8 |
| Legacy.LegacyStepCell | src/js/dynamic-net-filtering.js:430-435 | one old field writes block for 1, noop for 2, and nothing otherwise, into its own cell only |
| Legacy.MigrateHostCells | src/js/dynamic-net-filtering.js:429-453 | one hostname's filters set the four cells of `hostname *` and change nothing else |
| Legacy.MigrateOneMore | src/js/dynamic-net-filtering.js:425-454 | each hostname translated extends the per-cell description of the result, independent of the visiting order |
| DynamicNetFiltering.Matrix.constructor | src/js/dynamic-net-filtering.js:35-37 | a new matrix is empty, with cleared registers |
| DynamicNetFiltering.Matrix.Reset | src/js/dynamic-net-filtering.js:102-108 | empties the dictionary and clears the registers |
| DynamicNetFiltering.Matrix.ClearRegisters | src/js/dynamic-net-filtering.js:185-190 | clears the four registers and nothing else |
| DynamicNetFiltering.Matrix.SetCell | src/js/dynamic-net-filtering.js:112-129 | the new dictionary is `SetCellRules`: the cell reads the state, and other cells are kept; validity is kept; the result says whether anything changed |
| DynamicNetFiltering.Matrix.EvaluateCell | src/js/dynamic-net-filtering.js:174-181 | the exact cell; 0 for a missing key; the `*` cell for an unknown type |
| DynamicNetFiltering.Matrix.EvaluateCellZ | src/js/dynamic-net-filtering.js:194-214 | the loop returns the source walk's state and leaves its source in `z` |
| DynamicNetFiltering.Matrix.EvaluateCellZY | src/js/dynamic-net-filtering.js:218-246 | the registers become `EvalRegs`: the verdict of `Resolve` for a recognised type; otherwise `r = 0` and `type = ''`, with `y` and `z` kept |
| DynamicNetFiltering.Matrix.UnsetCell | src/js/dynamic-net-filtering.js:133-140 | the dictionary becomes `UnsetCellRules`; the result is whether the inherited verdict was set |
| DynamicNetFiltering.Matrix.SetCellZ | src/js/dynamic-net-filtering.js:144-156 | the dictionary becomes `SetCellZRules`; the result is whether the verdict differed from the action; the registers are those of the last evaluation |
| DynamicNetFiltering.Matrix.BlockCell | src/js/dynamic-net-filtering.js:160-162 | `setCellZ` with block: the dictionary becomes `SetCellZRules` with block, the result is whether the verdict differed, and the registers are those of the last evaluation |
| DynamicNetFiltering.Matrix.AllowCell | src/js/dynamic-net-filtering.js:168-170 | `setCellZ` with allow: the dictionary becomes `SetCellZRules` with allow, the result is whether the verdict differed, and the registers are those of the last evaluation |
| DynamicNetFiltering.Matrix.MustBlockOrAllow | src/js/dynamic-net-filtering.js:252-254 | the verdict is set and is not noop |
| DynamicNetFiltering.Matrix.MustBlock | src/js/dynamic-net-filtering.js:282-285 | evaluates, then reports whether the resolved verdict is block |
| DynamicNetFiltering.Matrix.ToFilterString | src/js/dynamic-net-filtering.js:264-278 | empty exactly when no type or no verdict is held; otherwise `d`, the state's initial and `:`, then source, destination, type and state name joined by spaces |
| DynamicNetFiltering.Matrix.KeyText | src/js/dynamic-net-filtering.js:311-325 | the inner loop of `toString` produces the lines of one key |
| DynamicNetFiltering.Matrix.ToString | src/js/dynamic-net-filtering.js:301-328 | the text is the lines of every key, each visited once in some order, joined by `\n` |
| DynamicNetFiltering.Matrix.FromString | src/js/dynamic-net-filtering.js:332-414 | the dictionary becomes the old one with every line of the text applied in order; validity is kept |
| Codec.ApplyLinesWellFormed | src/js/dynamic-net-filtering.js:332-414 | applying lines keeps every stored bitmap non-zero and within 12 bits |
| DynamicNetFiltering.Matrix.ReadLineAt | src/js/dynamic-net-filtering.js:342-350 | one turn of the loop applies the line up to the next break and moves past it |
| DynamicNetFiltering.Matrix.ApplyTrimmedLine | src/js/dynamic-net-filtering.js:352-412 | the body of the loop applies `ApplyLine` to the raw line |
| DynamicNetFiltering.Matrix.MigrateField | src/js/dynamic-net-filtering.js:430-435 | one old field becomes a block or noop rule with destination `*` |
| DynamicNetFiltering.Matrix.FromObsoleteSelfie | src/js/dynamic-net-filtering.js:425-454 | every cell afterwards is `MigratedCell` over all the hostnames, whatever the order; validity is kept |
| DynamicNetFiltering.Matrix.ToSelfie | src/js/dynamic-net-filtering.js:459-464 | the snapshot carries the magic id and the dictionary |
| DynamicNetFiltering.Matrix.FromSelfie | src/js/dynamic-net-filtering.js:468-470 | the dictionary is replaced by the snapshot's |

## Definitions

These functions define what the code computes. Their bodies follow the cited lines. Their meaning is stated by the lemmas named beside them, which are rows of the table above.

- `Hostnames.IsIPAddress` (src/js/dynamic-net-filtering.js:72-80): `IsIPAddressSpec`.
- `Hostnames.Broaden` (src/js/dynamic-net-filtering.js:84-96): `BroadenSpec`, `BroadenShortens`, `BroadenLowersDots`, `BroadenLowersRank`.
- `Rules.SrcHostnameFromRule` and `Rules.DesHostnameFromRule` (src/js/dynamic-net-filtering.js:289-297): `SplitKey`, `JoinKey`.
- `Bitmaps.Replace` (src/js/dynamic-net-filtering.js:119): `Put`.
- `Rules.Store` (src/js/dynamic-net-filtering.js:119-127): `StoreLookup`.
- `Rules.SetCellRules` (src/js/dynamic-net-filtering.js:112-129): `SetCellLookup`, `SetCellCells`, `SetCellWellFormed`, `SetCellChangedIff`.
- `Evaluation.ZHit` (src/js/dynamic-net-filtering.js:194-214): `ZHitSpec`, `ZHitReadsCandidates`.
- `Evaluation.ZYHit`, `Evaluation.Resolve` and `Evaluation.EvalRegs` (src/js/dynamic-net-filtering.js:218-246): `ZYHitSpec`, `ZYHitIndex`, `Precedence`, `UnsetIffNoCandidate`, `EvalRegsOverwrite`.
- `Mutators.UnsetCellRules` (src/js/dynamic-net-filtering.js:133-140): `UnsetCellEffect`, `UnsetCellOfInheritedVerdict`.
- `Mutators.SetCellZRules` (src/js/dynamic-net-filtering.js:144-156): `SetCellZReachesAction`, `SetCellZOnlyExactCell`, `SetCellZExactCell`, `SetCellZChangedIff`, `SetCellZIdempotent`.
- `Codec.ParseLine`, `Codec.Lines`, `Codec.ApplyLine` and `Codec.ApplyLines` (src/js/dynamic-net-filtering.js:332-414): `ParseFields`, `LineEndSpec`, `LinesOfJoin`, `ReadLineStep`, `ApplyLinesWellFormed`.
- `Codec.RenderLine`, `Codec.KeyLines` and `Codec.RulesText` (src/js/dynamic-net-filtering.js:301-328): `RenderLineIsJoin`, `KeyLinesStep`, `KeyLinesRebuild`, `ToStringRoundTrip`.
- `DynamicNetFiltering.Matrix.MustAbort` (src/js/dynamic-net-filtering.js:258-260) reads the register `r` after `evaluateCellZY`. By `EvaluateCellZY`, the registers are `EvalRegs`, so `NoopVerdictNamesNoopRule` says when it holds: the rule that decided is a noop rule. `Precedence` and `RegistersNameRule` say which rule that is.
- `Legacy.LegacyStep`, `Legacy.MigrateHost` and `Legacy.MigratedCell` (src/js/dynamic-net-filtering.js:418-455): `LegacyStepCell`, `MigrateHostCells`, `MigrateOneMore`.

## Left out

- `punycode.toUnicode` and `punycode.toASCII` (lines 320-321, 385-386) belong to a foreign library. They are function parameters. The round trip assumes, for the stored hostnames, `toASCII(toUnicode(h)) == h`, and that each displayed hostname `toUnicode(h)` is a non-empty token without white space or `#` (`Portable`, `Displayable`).
- `JSON.parse` in `fromObsoleteSelfie` (line 422) is a foreign parser, and the early return on an empty selfie string (lines 419-421) is part of that parsing. The method takes the already parsed filters, as 32-bit values.
- For these plain objects, the language fixes the order in which `for ... in` visits keys (lines 305, 425): insertion order, with integer-like keys first. The model does not follow that order. It picks keys in an arbitrary order, and every property is proved for every order, so each also holds for the one JavaScript uses.
- The `hasOwnProperty` tests inside the `for ... in` loops (lines 306, 312, 426) are always true for these plain dictionaries, so they are not modelled.
- Object aliasing in `toSelfie` and `fromSelfie` is not modelled. The snapshot holds the dictionary as a value, and `fromSelfie` replaces the dictionary wholesale. The magic id is not checked, because the code does not check it.
- The module wrapper and singleton (lines 27, 98, 474) are left out.
- `evaluateCellZY` returns `this` for chaining (lines 222, 228, 239, 245). The method returns nothing instead.
- States are the type `State` (0 to 3). A state outside that range, which a caller of `setCell` or `setCellZ` could pass in JavaScript, is not modelled.
- The regular expressions (lines 65-66) are written as character predicates rather than run by a regex engine.
- The `append` parameter of `fromString` is accepted and unused, as in the code.
- `Codec.CommentDropped`: stated only when the rule text is non-empty, does not start with white space and holds no `#`, and the comment is non-empty and does not end with white space. The general comment cut is what `CleanLine` and `ParseLine` compute.
- `DynamicNetFiltering.Matrix.ToString`: the key order it chose is returned as a ghost out-parameter, so that its text can be related to `RulesText`.
