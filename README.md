# WWMI Toggle Maker and Transparency Maker, modelled in Dafny

WWMI mods are described by a `mod.ini` file whose `[TextureOverrideComponentN]`
sections hold `drawindexed = a, b, c` directives, one per mesh part. The
repository holds three small tools that edit such a file:

- **Toggle Maker v1.0** lists the draw directives of every component. For the
  draws the user selects with a variable name and a key, it queues a toggle.
  On apply it wraps each queued draw in an `if $var == 0 … endif` guard, moving
  the comment above it into the guard. It declares `global persist $var = 0`
  in `[Constants]` and writes a `[Key<var>]` cycle section for every variable.
- **Toggle Maker v1.1** does the same, with three changes. It first recognises
  toggle blocks already in the file and marks each draw as existing (`E`,
  a simple guard around exactly one draw) or mixed (`M`). It can unwrap
  existing toggles again. It finds each queued draw by its text, at the
  occurrence nearest its original line, and skips key sections that already
  exist. A final cleanup removes `persist` declarations and key sections whose
  variable no guard uses.
- **Transparency Maker** lists the exact `drawindexed` directives of every
  component. It queues one transparency change per (component, parameters)
  pair. On apply it comments each chosen directive out and puts a
  `run = CustomShaderTransparencyN` line after it. It emits a
  `[CustomShaderTransparencyN]` section with the blend settings when the
  component ends. New shader indices start above every index already in the
  file.

The model reads a file as a `seq<string>` of lines, each keeping its trailing
newline as Python's `readlines` does. The regular expressions the tools use
are written as functions over strings (module `IniPatterns`), and so are
Python's `strip`, `lstrip`, `rstrip` and `lower` (module `PyText`). The tools'
objects appear in Dafny in the same form as in the source:

- each `App` is a Dafny `class` with the same fields;
- the v1.1 `DrawEntry`, whose fields `delete_existing` updates in place, is a
  class;
- the records the tools only build and read are datatypes;
- the loops that walk a file or a queue are `method`s with a `while` loop,
  proved equal to a specification function. A few smaller loops are written
  only as recursive functions: the v1.1 `insert_keys` search for the end of
  the last key section (`Toggle11Keys.LastKeyEnd`), and the loops of
  `insert_constants` and `insert_keys` that collect new variables and build
  their lines (`Declarations.Unseen`, `Declarations.DictOf`,
  `Declarations.KeyLines`).

Properties proved about those functions:

- parsing lists exactly the draw lines of components, in order;
- the key-section and declaration blocks hold one entry per new variable, in
  first-appearance order;
- a wrapped draw re-detects as an existing simple toggle;
- unwrapping a fresh wrap of a draw with no comment above it restores the
  file; when a comment was moved into the guard, it comes back re-indented
  at its old place, directly above the draw line, and the blank lines that
  stood between them now follow the draw line;
- the nearest-match search returns the nearest occurrence, breaking ties
  towards the earlier line;
- the cleanup only deletes lines, leaves no key section of an unused
  variable, keeps the `[Constants]` header with no unused `persist` line
  below it, and keeps whole every section whose cycle variable is used or
  that has none;
- the transparency rewrite equals a line-by-line reference reading;
- the transparency queue keeps its keys unique and its shader names distinct.

Modules: `PyText`, `IniPatterns` and `IniSections` (shared text, regex and
section logic), `Declarations` (`insert_constants` and key sections, shared
by both toggle versions), `StableSort` (Python's stable `sorted(...,
reverse=True)`), `Toggle10` (v1.0), the `Toggle11*` modules (v1.1:
`Entries`, `Blocks`, `Keys`, `Wrap`, `Prune`, `App`), and `TransparencyScan`,
`TransparencyApply` and `TransparencyTool` (the transparency maker).

The three source files are
`WWMI_Toggle_Maker_v.1.0.0/WWMI_Toggle_Maker.py` (v1.0),
`WWMI_Support_Tools_v1.0.0/WWMI_Toggle_Maker_v1.1.0/WWMI_Toggle_Maker.py` (v1.1)
and `WWMI_Support_Tools_v1.1.0/WWMI_Transparency_Maker/WWMI_Transparency_Maker.py`.

## Model

| member | source | states |
|---|---|---|
| PyText.StripIdempotent | WWMI_Toggle_Maker_v.1.0.0/WWMI_Toggle_Maker.py:257-261 | `strip()` applied twice gives what it gives once, so comparing stripped texts is stable |
| PyText.StripPadded | WWMI_Toggle_Maker_v.1.0.0/WWMI_Toggle_Maker.py:95 | `strip()` ignores any whitespace added on either side of a text |
| PyText.DecimalRoundTrip | WWMI_Support_Tools_v1.1.0/WWMI_Transparency_Maker/WWMI_Transparency_Maker.py:237 | the decimal digits written into a generated shader name read back (as `int(...)` does) to the same number |
| PyText.Splice | WWMI_Toggle_Maker_v.1.0.0/WWMI_Toggle_Maker.py:210 | `lines[:at] + block + lines[at:]`: the lines before `at` stay, the block follows, then the old lines from `at`, shifted by the block's length |
| IniSections.NextHeader | WWMI_Toggle_Maker_v.1.0.0/WWMI_Toggle_Maker.py:191-193 | the first `[...]` line at or after `from`, or the end of the file: no header lies in between |
| IniSections.ConstantsFrom | WWMI_Toggle_Maker_v.1.0.0/WWMI_Toggle_Maker.py:184-189 | the first line that strips and lower-cases to `[constants]`, and no earlier one does |
| IniSections.CompAtOpened | WWMI_Toggle_Maker_v.1.0.0/WWMI_Toggle_Maker.py:96-107 | a component is open at a line iff the last header before it is a component header, and that header's number is the open component |
| IniSections.CommentIsLatest | WWMI_Toggle_Maker_v.1.0.0/WWMI_Toggle_Maker.py:109-114 | the remembered comment is the latest comment line since the component header, if any |
| IniSections.NoCompNoComment | WWMI_Toggle_Maker_v.1.0.0/WWMI_Toggle_Maker.py:101-107 | outside a component no comment is remembered |
| IniSections.EntryIndicesExact | WWMI_Toggle_Maker_v.1.0.0/WWMI_Toggle_Maker.py:113-114 | a line index is collected iff the line is a draw line inside a component |
| IniSections.EntryIndicesIncreasing | WWMI_Toggle_Maker_v.1.0.0/WWMI_Toggle_Maker.py:94-114 | the collected indices are strictly increasing |
| IniSections.EntryRead | WWMI_Toggle_Maker_v.1.0.0/WWMI_Toggle_Maker.py:113-114 | an entry line is a draw line of the open component, carrying the remembered comment |
| IniSections.EntryLine | WWMI_Toggle_Maker_v.1.0.0/WWMI_Toggle_Maker.py:94-114 | a collected line is, in the order the loop tests, no component header, no header, no comment, and a `drawindexed` line |
| IniSections.RememberedIsComment | WWMI_Toggle_Maker_v.1.0.0/WWMI_Toggle_Maker.py:109-111 | the remembered comment is a line that strips to a `;` comment |
| GuardBlocks.WrapBlock | WWMI_Toggle_Maker_v.1.0.0/WWMI_Toggle_Maker.py:276-296 | the guard block is three lines, or four with a moved comment |
| GuardBlocks.RewrapShape | WWMI_Toggle_Maker_v.1.0.0/WWMI_Toggle_Maker.py:265-298 | wrapping grows the list by two: the lines above stay, the block replaces the comment and the draw line, and the lines between them and below follow in order |
| GuardBlocks.RewrapLines | WWMI_Toggle_Maker_v.1.0.0/WWMI_Toggle_Maker.py:265-298 | the pops and the splice of `wrap_draw` give exactly the rewrapped list |
| GuardBlocks.NonBlankFromSpec | WWMI_Toggle_Maker_v.1.0.0/WWMI_Toggle_Maker.py:255-262 | the upward search stops at the nearest non-blank line, and only blank lines lie between |
| GuardBlocks.GuardLineMatches | WWMI_Support_Tools_v1.0.0/WWMI_Toggle_Maker_v1.1.0/WWMI_Toggle_Maker.py:141 | the written guard `if $v == 0` matches the detector's guard pattern and captures `v` |
| GuardBlocks.EndifLineMatches | WWMI_Support_Tools_v1.0.0/WWMI_Toggle_Maker_v1.1.0/WWMI_Toggle_Maker.py:151-160 | the written `endif` line is what the detector looks for |
| GuardBlocks.BodyDrawStrip | WWMI_Support_Tools_v1.0.0/WWMI_Toggle_Maker_v1.1.0/WWMI_Toggle_Maker.py:602-616 | the re-indented draw line inside the guard strips to the original directive |
| GuardBlocks.MovedCommentStrip | WWMI_Support_Tools_v1.0.0/WWMI_Toggle_Maker_v1.1.0/WWMI_Toggle_Maker.py:602-616 | the moved comment inside the guard strips to the original comment |
| Declarations.Unseen | WWMI_Toggle_Maker_v.1.0.0/WWMI_Toggle_Maker.py:201-206 | a name is listed iff it occurs and is not already declared, and no name is listed twice |
| Declarations.UnseenOrder | WWMI_Toggle_Maker_v.1.0.0/WWMI_Toggle_Maker.py:201-206 | the new names come in the order of their first occurrence |
| Declarations.DictOfSpec | WWMI_Toggle_Maker_v.1.0.0/WWMI_Toggle_Maker.py:224-226 | the dict `{var: key}` has its keys in first-insertion order, and each maps to the key of the last pair with that variable |
| Declarations.DictEntryLookup | WWMI_Toggle_Maker_v.1.0.0/WWMI_Toggle_Maker.py:224-226 | in a dict with distinct keys, each entry is what its key looks up |
| Declarations.PersistLineVar | WWMI_Toggle_Maker_v.1.0.0/WWMI_Toggle_Maker.py:197-206 | a generated `global persist $v = 0` line is read back by the `persist\s+\$(\w+)` pattern as `v` |
| Declarations.InsertConstantsBody | WWMI_Toggle_Maker_v.1.0.0/WWMI_Toggle_Maker.py:181-212 | `[Constants]` stays the first constants header (created at the top when missing), and its body grows by exactly the new declarations |
| Declarations.InsertConstantsDeclares | WWMI_Toggle_Maker_v.1.0.0/WWMI_Toggle_Maker.py:181-212 | afterwards every requested variable is declared in the `[Constants]` body |
| Declarations.InsertConstantsIdempotent | WWMI_Support_Tools_v1.0.0/WWMI_Toggle_Maker_v1.1.0/WWMI_Toggle_Maker.py:438-476 | inserting the same declarations a second time changes nothing |
| Declarations.KeyHeaderLine | WWMI_Support_Tools_v1.0.0/WWMI_Toggle_Maker_v1.1.0/WWMI_Toggle_Maker.py:486 | a generated `[Key<v>]` header is read back by the key-header pattern as `v` |
| Declarations.KeyLines | WWMI_Toggle_Maker_v.1.0.0/WWMI_Toggle_Maker.py:228-237 | the block is a whole number of six-line sections, and it is empty iff every variable is skipped |
| Declarations.KeyBlock | WWMI_Toggle_Maker_v.1.0.0/WWMI_Toggle_Maker.py:224-237 | the key block holds one six-line `[Key<v>]` cycle section per variable not skipped, in first-appearance order, each with the last key given for `v` |
| Declarations.KeyLinesAllSkipped | WWMI_Support_Tools_v1.0.0/WWMI_Toggle_Maker_v1.1.0/WWMI_Toggle_Maker.py:544-560 | when every variable already has a key section, no lines are written |
| StableSort.SortDescSorted | WWMI_Toggle_Maker_v.1.0.0/WWMI_Toggle_Maker.py:247 | `sorted(specs, key, reverse=True)` is descending in the key and a permutation of the input |
| StableSort.SortDescStable | WWMI_Toggle_Maker_v.1.0.0/WWMI_Toggle_Maker.py:247 | specs with equal keys keep their relative order |
| StableSort.SortDescDistinct | WWMI_Toggle_Maker_v.1.0.0/WWMI_Toggle_Maker.py:247 | with distinct keys the sorted list is strictly descending |
| Toggle10.ParseDraw | WWMI_Toggle_Maker_v.1.0.0/WWMI_Toggle_Maker.py:88-116 | the walk of `parse_draw` returns the entries of the reference reading |
| Toggle10.CollectEntries | WWMI_Toggle_Maker_v.1.0.0/WWMI_Toggle_Maker.py:94-115 | the loop over the classified lines builds those entries |
| Toggle10.ParseOrdered | WWMI_Toggle_Maker_v.1.0.0/WWMI_Toggle_Maker.py:88-116 | the entries are in strictly increasing line order, and a line is listed iff it is a draw line inside a component |
| Toggle10.ParseEntryFields | WWMI_Toggle_Maker_v.1.0.0/WWMI_Toggle_Maker.py:106-114 | each entry holds its line's text, the number of the open component and the remembered comment |
| Toggle10.OtherLines | WWMI_Toggle_Maker_v.1.0.0/WWMI_Toggle_Maker.py:140 | the filter keeps exactly the specs for other lines, in order |
| Toggle10.QueueAllSpec | WWMI_Toggle_Maker_v.1.0.0/WWMI_Toggle_Maker.py:138-141 | after the loop there is at most one spec per line if there was before; each selected line has a spec with the given variable and key; unselected specs survive; every spec is old and unselected or made for a selected entry |
| Toggle10.RequeuePending | WWMI_Toggle_Maker_v.1.0.0/WWMI_Toggle_Maker.py:138-141 | queueing a spec for a draw line keeps the queue one-per-line and aimed at draw lines |
| Toggle10.EntryTarget | WWMI_Toggle_Maker_v.1.0.0/WWMI_Toggle_Maker.py:138-141 | a spec made from a parsed entry points at a draw line, with a comment line if any |
| Toggle10.App.Scan | WWMI_Toggle_Maker_v.1.0.0/WWMI_Toggle_Maker.py:73-85 | a missing file changes nothing; otherwise the lines are stored, parsed into entries, and the queue is cleared |
| Toggle10.App.AddToggle | WWMI_Toggle_Maker_v.1.0.0/WWMI_Toggle_Maker.py:124-144 | the queue becomes the old one with, when a selection and both answers are given, one requeued spec per selected entry |
| Toggle10.App.ClearPending | WWMI_Toggle_Maker_v.1.0.0/WWMI_Toggle_Maker.py:146-149 | the queue becomes empty, and nothing else changes |
| Toggle10.App.Apply | WWMI_Toggle_Maker_v.1.0.0/WWMI_Toggle_Maker.py:154-168 | nothing is written with no specs or an empty path; otherwise the file is wrap, then constants, then keys; the specs hit distinct draw lines bottom-up and the wrap grows the file by two lines per spec |
| Toggle10.App.ApplyAllLines | WWMI_Toggle_Maker_v.1.0.0/WWMI_Toggle_Maker.py:171-178 | `apply_all` is the wrap, then `insert_constants`, then `insert_keys` |
| Toggle10.WrapDraw | WWMI_Toggle_Maker_v.1.0.0/WWMI_Toggle_Maker.py:243-300 | the loop wraps the specs in descending line order (stable), each on the list the earlier ones left |
| Toggle10.WrapSpec | WWMI_Toggle_Maker_v.1.0.0/WWMI_Toggle_Maker.py:249-298 | one step of the loop: a spec past the end is skipped, otherwise its line is wrapped |
| Toggle10.FindMovedComment | WWMI_Toggle_Maker_v.1.0.0/WWMI_Toggle_Maker.py:255-262 | the upward search gives the comment to move |
| Toggle10.MovedForSpec | WWMI_Toggle_Maker_v.1.0.0/WWMI_Toggle_Maker.py:255-262 | a comment is moved only if the spec has one and the nearest non-blank line above strips to the same text, with only blank lines between; otherwise no earlier such line is followed by blanks alone |
| Toggle10.WrapOneShape | WWMI_Toggle_Maker_v.1.0.0/WWMI_Toggle_Maker.py:249-298 | one wrap leaves the list unchanged iff the index is past the end; otherwise it is the guard block in place of the draw (and moved comment), two lines longer |
| Toggle10.WrapDrawOrder | WWMI_Toggle_Maker_v.1.0.0/WWMI_Toggle_Maker.py:247 | the wrap order is descending by line, a permutation of the specs, stable among equal lines |
| Toggle10.WrapUsesOriginal | WWMI_Toggle_Maker_v.1.0.0/WWMI_Toggle_Maker.py:247-298 | going bottom-up over distinct draw lines, the k-th spec still finds its original draw line at its index, and it wraps it with the comment the original file gives |
| Toggle10.WrapDrawTargets | WWMI_Toggle_Maker_v.1.0.0/WWMI_Toggle_Maker.py:243-300 | specs queued one per draw line are wrapped strictly bottom-up, and the file grows by two lines per spec |
| Toggle10.InsertKeysShape | WWMI_Toggle_Maker_v.1.0.0/WWMI_Toggle_Maker.py:215-240 | the block goes after the `[Constants]` body: a blank line, one key section per distinct variable in first-appearance order with its last key, a blank line; nothing else changes |
| Toggle10.InsertKeysNothing | WWMI_Toggle_Maker_v.1.0.0/WWMI_Toggle_Maker.py:228-239 | with no specs the two blank lines are still inserted |
| Toggle10.DeclareAllDeclares | WWMI_Toggle_Maker_v.1.0.0/WWMI_Toggle_Maker.py:171-178 | after constants and keys, every spec's variable is declared in the `[Constants]` body, still the first constants header |
| Toggle11Entries.DrawEntry.constructor | WWMI_Support_Tools_v1.0.0/WWMI_Toggle_Maker_v1.1.0/WWMI_Toggle_Maker.py:8-29 | a new entry holds the given field values |
| Toggle11Entries.ParseDraw | WWMI_Support_Tools_v1.0.0/WWMI_Toggle_Maker_v1.1.0/WWMI_Toggle_Maker.py:202-262 | the entries built are fresh, distinct objects whose fields are the reference reading with the detected toggles |
| Toggle11Entries.CollectEntries | WWMI_Support_Tools_v1.0.0/WWMI_Toggle_Maker_v1.1.0/WWMI_Toggle_Maker.py:211-260 | the loop over the classified lines builds those entries |
| Toggle11Entries.ParseOrdered | WWMI_Support_Tools_v1.0.0/WWMI_Toggle_Maker_v1.1.0/WWMI_Toggle_Maker.py:211-260 | entries are in strictly increasing line order, and a line is listed iff it is a draw line inside a component |
| Toggle11Entries.ParseEntryFields | WWMI_Support_Tools_v1.0.0/WWMI_Toggle_Maker_v1.1.0/WWMI_Toggle_Maker.py:211-260 | each entry's text, component and comment are those of its line |
| Toggle11Entries.ParseEntryToggle | WWMI_Support_Tools_v1.0.0/WWMI_Toggle_Maker_v1.1.0/WWMI_Toggle_Maker.py:209-260 | an entry is existing iff its status is simple; it has no toggle iff the detector found none for its line; otherwise its guard, endif and variable form a sound toggle block around it |
| Toggle11Blocks.CollectKeyVars | WWMI_Support_Tools_v1.0.0/WWMI_Toggle_Maker_v1.1.0/WWMI_Toggle_Maker.py:122-134 | a variable is found iff some line inside a `[Key...]` section declares it with `$v = 0,1` |
| Toggle11Blocks.FindKeyVars | WWMI_Support_Tools_v1.0.0/WWMI_Toggle_Maker_v1.1.0/WWMI_Toggle_Maker.py:122-134 | the same, from the raw lines |
| Toggle11Blocks.EndifFrom | WWMI_Support_Tools_v1.0.0/WWMI_Toggle_Maker_v1.1.0/WWMI_Toggle_Maker.py:151-160 | the matching `endif` is the first one, with no header before it; a header first means there is none |
| Toggle11Blocks.FindEndif | WWMI_Support_Tools_v1.0.0/WWMI_Toggle_Maker_v1.1.0/WWMI_Toggle_Maker.py:151-160 | the search loop finds that `endif` |
| Toggle11Blocks.DrawsInExact | WWMI_Support_Tools_v1.0.0/WWMI_Toggle_Maker_v1.1.0/WWMI_Toggle_Maker.py:167-178 | the body's draw lines are exactly its non-comment lines containing `drawindexed`, in increasing order |
| Toggle11Blocks.InspectBody | WWMI_Support_Tools_v1.0.0/WWMI_Toggle_Maker_v1.1.0/WWMI_Toggle_Maker.py:167-178 | the body loop gives those draws, and `mixed` iff the body holds another non-blank, non-comment line |
| Toggle11Blocks.RecordSpec | WWMI_Support_Tools_v1.0.0/WWMI_Toggle_Maker_v1.1.0/WWMI_Toggle_Maker.py:189-195 | every draw of the block is recorded with the block, and every other index keeps its entry |
| Toggle11Blocks.DetectSkips | WWMI_Support_Tools_v1.0.0/WWMI_Toggle_Maker_v1.1.0/WWMI_Toggle_Maker.py:166-182 | a guard whose span up to its `endif` has no draw line, or whose variable has no key section, yields no toggle: no detected entry has it as its `if` line |
| Toggle11Blocks.DetectSound | WWMI_Support_Tools_v1.0.0/WWMI_Toggle_Maker_v1.1.0/WWMI_Toggle_Maker.py:137-199 | every recorded draw sits strictly inside a guard on a key variable, closed by an endif with no header between; it is simple iff it is the only draw and nothing else is in the body |
| Toggle11Blocks.ScanToggleBlocks | WWMI_Support_Tools_v1.0.0/WWMI_Toggle_Maker_v1.1.0/WWMI_Toggle_Maker.py:143-199 | the while loop computes the detector's map |
| Toggle11Blocks.DetectToggleBlocks | WWMI_Support_Tools_v1.0.0/WWMI_Toggle_Maker_v1.1.0/WWMI_Toggle_Maker.py:137-199 | `detect_toggle_blocks` returns that map, and every entry of it is sound |
| Toggle11Keys.KeyInsertPosSpec | WWMI_Support_Tools_v1.0.0/WWMI_Toggle_Maker_v1.1.0/WWMI_Toggle_Maker.py:497-537 | new key sections go after the `[Constants]` section when no key section follows it, and otherwise at the end of the last key section |
| Toggle11Keys.InsertKeysUnchanged | WWMI_Support_Tools_v1.0.0/WWMI_Toggle_Maker_v1.1.0/WWMI_Toggle_Maker.py:544-560 | when every variable already has a key, the file is returned as it is |
| Toggle11Keys.InsertKeysAdds | WWMI_Support_Tools_v1.0.0/WWMI_Toggle_Maker_v1.1.0/WWMI_Toggle_Maker.py:479-560 | the file grows by one six-line section per new variable, in first-appearance order with its last key, at the insertion point; the rest is unchanged |
| Toggle11Keys.InsertKeysKnown | WWMI_Support_Tools_v1.0.0/WWMI_Toggle_Maker_v1.1.0/WWMI_Toggle_Maker.py:483-494 | afterwards every requested variable is one the next run sees as having a key |
| Toggle11Keys.KnownStaysKnown | WWMI_Support_Tools_v1.0.0/WWMI_Toggle_Maker_v1.1.0/WWMI_Toggle_Maker.py:483-494 | a variable that already had a key still has one |
| Toggle11Keys.InsertKeysIdempotent | WWMI_Support_Tools_v1.0.0/WWMI_Toggle_Maker_v1.1.0/WWMI_Toggle_Maker.py:479-560 | inserting the same keys a second time changes nothing |
| Toggle11Wrap.FindDrawIndexSpec | WWMI_Support_Tools_v1.0.0/WWMI_Toggle_Maker_v1.1.0/WWMI_Toggle_Maker.py:565-572 | no index iff no line strips to the directive; otherwise a matching line nearest the original index, and the earlier one on a tie |
| Toggle11Wrap.FindDrawIndexAtHint | WWMI_Support_Tools_v1.0.0/WWMI_Toggle_Maker_v1.1.0/WWMI_Toggle_Maker.py:565-572 | when the original index still holds the directive, it is the one found |
| Toggle11Wrap.MinDistNearest | WWMI_Support_Tools_v1.0.0/WWMI_Toggle_Maker_v1.1.0/WWMI_Toggle_Maker.py:571-572 | `min` by distance picks a nearest candidate, and no earlier candidate is as near |
| Toggle11Wrap.CandidatesExact | WWMI_Support_Tools_v1.0.0/WWMI_Toggle_Maker_v1.1.0/WWMI_Toggle_Maker.py:567-570 | the candidates are exactly the lines that strip to the directive |
| Toggle11Wrap.CommentAboveSpec | WWMI_Support_Tools_v1.0.0/WWMI_Toggle_Maker_v1.1.0/WWMI_Toggle_Maker.py:585-592 | the moved comment is a comment line with only blank lines below it; if none is moved, every comment above is followed by a non-blank line |
| Toggle11Wrap.FindMovedComment | WWMI_Support_Tools_v1.0.0/WWMI_Toggle_Maker_v1.1.0/WWMI_Toggle_Maker.py:585-592 | the search loop gives that comment |
| Toggle11Wrap.WrapOneSkipped | WWMI_Support_Tools_v1.0.0/WWMI_Toggle_Maker_v1.1.0/WWMI_Toggle_Maker.py:579-581 | a spec leaves the file unchanged iff its directive is nowhere in it; otherwise the file grows by two |
| Toggle11Wrap.WrapOneShape | WWMI_Support_Tools_v1.0.0/WWMI_Toggle_Maker_v1.1.0/WWMI_Toggle_Maker.py:579-618 | the guard block replaces the found draw and the moved comment; everything else keeps its order |
| Toggle11Wrap.WrapOneReadsBack | WWMI_Support_Tools_v1.0.0/WWMI_Toggle_Maker_v1.1.0/WWMI_Toggle_Maker.py:602-616 | the written block is detected as exactly one simple toggle of the spec's variable around its draw line |
| Toggle11Wrap.WrappedIsSimple | WWMI_Support_Tools_v1.0.0/WWMI_Toggle_Maker_v1.1.0/WWMI_Toggle_Maker.py:141-199 | any guard block the tool writes is detected as a simple toggle |
| Toggle11Wrap.WrapAgainFinds | WWMI_Support_Tools_v1.0.0/WWMI_Toggle_Maker_v1.1.0/WWMI_Toggle_Maker.py:565-581 | after a wrap, the same directive can still be found, inside the guard |
| Toggle11Wrap.WrapAllLength | WWMI_Support_Tools_v1.0.0/WWMI_Toggle_Maker_v1.1.0/WWMI_Toggle_Maker.py:575-620 | the file grows by two lines per spec whose directive was found, at most one per spec |
| Toggle11Wrap.WrapDrawOrder | WWMI_Support_Tools_v1.0.0/WWMI_Toggle_Maker_v1.1.0/WWMI_Toggle_Maker.py:578 | the specs go in descending original index, a stable permutation |
| Toggle11Wrap.WrapDraw | WWMI_Support_Tools_v1.0.0/WWMI_Toggle_Maker_v1.1.0/WWMI_Toggle_Maker.py:575-620 | the loop applies the specs in that order, each to the list the earlier ones left |
| Toggle11Wrap.WrapSpec | WWMI_Support_Tools_v1.0.0/WWMI_Toggle_Maker_v1.1.0/WWMI_Toggle_Maker.py:579-618 | one step: find the directive, move its comment, splice in the block |
| Toggle11Prune.CollectUsedVars | WWMI_Support_Tools_v1.0.0/WWMI_Toggle_Maker_v1.1.0/WWMI_Toggle_Maker.py:626-632 | the used variables are those some line's `if $v == 0` names |
| Toggle11Prune.KeepExact | WWMI_Support_Tools_v1.0.0/WWMI_Toggle_Maker_v1.1.0/WWMI_Toggle_Maker.py:649-653 | the kept body holds no unused `persist` declaration, and every other line of the body |
| Toggle11Prune.PruneConstantsSpec | WWMI_Support_Tools_v1.0.0/WWMI_Toggle_Maker_v1.1.0/WWMI_Toggle_Maker.py:636-653 | the constants pass only deletes lines; without `[Constants]` it changes nothing; otherwise the header and everything outside its body stay, and no unused declaration is left in the body |
| Toggle11Prune.PruneConstantsLoop | WWMI_Support_Tools_v1.0.0/WWMI_Toggle_Maker_v1.1.0/WWMI_Toggle_Maker.py:636-653 | the backward pop loop computes that pass |
| Toggle11Prune.PruneKeysLoop | WWMI_Support_Tools_v1.0.0/WWMI_Toggle_Maker_v1.1.0/WWMI_Toggle_Maker.py:655-671 | the key-section loop computes the key pass |
| Toggle11Prune.KeyPassProperties | WWMI_Support_Tools_v1.0.0/WWMI_Toggle_Maker_v1.1.0/WWMI_Toggle_Maker.py:655-671 | the key pass only deletes lines, and leaves no `[key...]` section whose last cycle declaration names an unused variable |
| Toggle11Prune.PruneKeysNoop | WWMI_Support_Tools_v1.0.0/WWMI_Toggle_Maker_v1.1.0/WWMI_Toggle_Maker.py:655-671 | on a file with no such section the key pass changes nothing |
| Toggle11Prune.PruneUnusedToggles | WWMI_Support_Tools_v1.0.0/WWMI_Toggle_Maker_v1.1.0/WWMI_Toggle_Maker.py:625-673 | the used variables are taken once, then the constants pass and the key pass run |
| Toggle11Prune.PruneSpecProperties | WWMI_Support_Tools_v1.0.0/WWMI_Toggle_Maker_v1.1.0/WWMI_Toggle_Maker.py:625-673 | the cleanup only deletes lines and leaves no key section of a variable the input does not use; it keeps the first `[Constants]` header (and adds none), and no `persist` declaration of an unused variable is left between it and the next header |
| Toggle11Prune.PruneSpecConstants | WWMI_Support_Tools_v1.0.0/WWMI_Toggle_Maker_v1.1.0/WWMI_Toggle_Maker.py:636-653 | the first `[Constants]` header of the output is the input's, and its body holds no `persist` declaration of an unused variable |
| Toggle11Prune.PruneSpecNoConstants | WWMI_Support_Tools_v1.0.0/WWMI_Toggle_Maker_v1.1.0/WWMI_Toggle_Maker.py:636-653 | a file without `[Constants]` has none after the cleanup |
| Toggle11Prune.PruneKeepsSection | WWMI_Support_Tools_v1.0.0/WWMI_Toggle_Maker_v1.1.0/WWMI_Toggle_Maker.py:655-671 | a section other than the first `[Constants]` whose last `$v = 0,1` line names a used variable, or that has no such line (a `[key…]` section without one in particular), stands whole and in order in the output |
| Toggle11App.FirstDrawSpec | WWMI_Support_Tools_v1.0.0/WWMI_Toggle_Maker_v1.1.0/WWMI_Toggle_Maker.py:369-374 | the search gives the first draw line of the span, or none |
| Toggle11App.RestoredCommentSpec | WWMI_Support_Tools_v1.0.0/WWMI_Toggle_Maker_v1.1.0/WWMI_Toggle_Maker.py:376-380 | a comment is restored only when it is the line right above the span's first draw line |
| Toggle11App.Insert | WWMI_Support_Tools_v1.0.0/WWMI_Toggle_Maker_v1.1.0/WWMI_Toggle_Maker.py:387-392 | Python's `list.insert`: inside the list it shifts the rest, past the end it appends |
| Toggle11App.DeleteNoop | WWMI_Support_Tools_v1.0.0/WWMI_Toggle_Maker_v1.1.0/WWMI_Toggle_Maker.py:353-354 | an entry that is not existing is left alone |
| Toggle11App.DeleteRaises | WWMI_Support_Tools_v1.0.0/WWMI_Toggle_Maker_v1.1.0/WWMI_Toggle_Maker.py:383-384 | the pops raise `IndexError` iff the span's end lies past the list; then the lines from the guard on are gone and the entry is unchanged |
| Toggle11App.DeleteReplacesSpan | WWMI_Support_Tools_v1.0.0/WWMI_Toggle_Maker_v1.1.0/WWMI_Toggle_Maker.py:352-400 | otherwise the span is replaced by the restored comment (if any) and the draw line, and the entry is marked untoggled at the draw line's new index |
| Toggle11App.DeleteKeepsMarks | WWMI_Support_Tools_v1.0.0/WWMI_Toggle_Maker_v1.1.0/WWMI_Toggle_Maker.py:394-400 | existing iff simple still holds of the entry afterwards |
| Toggle11App.UnwrapRewrapRestores | WWMI_Support_Tools_v1.0.0/WWMI_Toggle_Maker_v1.1.0/WWMI_Toggle_Maker.py:352-400 | unwrapping a guard just written around a draw with no comment gives back the original file |
| Toggle11App.UnwrapRewrapComment | WWMI_Support_Tools_v1.0.0/WWMI_Toggle_Maker_v1.1.0/WWMI_Toggle_Maker.py:352-400 | unwrapping a guard with a moved comment puts the comment, re-indented, back at its old place where the guard now starts, with the draw line right after it; the blank lines that stood between them follow the draw line |
| Toggle11App.RemoveNothing | WWMI_Support_Tools_v1.0.0/WWMI_Toggle_Maker_v1.1.0/WWMI_Toggle_Maker.py:288-305 | with only mixed or non-existing entries selected, nothing changes |
| Toggle11App.RemoveKeepsMixed | WWMI_Support_Tools_v1.0.0/WWMI_Toggle_Maker_v1.1.0/WWMI_Toggle_Maker.py:293-295 | mixed entries are never touched |
| Toggle11App.RemoveFromLength | WWMI_Support_Tools_v1.0.0/WWMI_Toggle_Maker_v1.1.0/WWMI_Toggle_Maker.py:288-305 | unselected entries are never touched |
| Toggle11App.RemoveClears | WWMI_Support_Tools_v1.0.0/WWMI_Toggle_Maker_v1.1.0/WWMI_Toggle_Maker.py:288-305 | when no `IndexError` occurs, no selected entry remains existing |
| Toggle11App.ReplacedSpecFound | WWMI_Support_Tools_v1.0.0/WWMI_Toggle_Maker_v1.1.0/WWMI_Toggle_Maker.py:313-347 | the spec queued for an unwrapped entry finds the restored draw line at its new index |
| Toggle11App.ApplyOutputPruned | WWMI_Support_Tools_v1.0.0/WWMI_Toggle_Maker_v1.1.0/WWMI_Toggle_Maker.py:417-425 | the written file is the prepared one with lines deleted, with no key section of a variable that no guard uses |
| Toggle11App.ApplyWithoutSpecs | WWMI_Support_Tools_v1.0.0/WWMI_Toggle_Maker_v1.1.0/WWMI_Toggle_Maker.py:419-425 | with only unwraps pending, the written file is the working copy with lines deleted |
| Toggle11App.ParseMarks | WWMI_Support_Tools_v1.0.0/WWMI_Toggle_Maker_v1.1.0/WWMI_Toggle_Maker.py:246-260 | a parsed entry is existing iff its status is simple |
| Toggle11App.App.Scan | WWMI_Support_Tools_v1.0.0/WWMI_Toggle_Maker_v1.1.0/WWMI_Toggle_Maker.py:104-119 | a missing file changes nothing; otherwise lines, key variables and fresh entries are those of the file, and specs and `modified` are cleared |
| Toggle11App.App.Load | WWMI_Support_Tools_v1.0.0/WWMI_Toggle_Maker_v1.1.0/WWMI_Toggle_Maker.py:112-113 | key variables and entries of the lines: fresh, distinct entries, existing iff simple |
| Toggle11App.App.PopSpan | WWMI_Support_Tools_v1.0.0/WWMI_Toggle_Maker_v1.1.0/WWMI_Toggle_Maker.py:383-384 | `n` pops at `idx` drop the span, or raise once the list is too short, leaving the lines before `idx` |
| Toggle11App.App.EditSpan | WWMI_Support_Tools_v1.0.0/WWMI_Toggle_Maker_v1.1.0/WWMI_Toggle_Maker.py:369-392 | the pops and inserts give the reference span edit |
| Toggle11App.App.DeleteExisting | WWMI_Support_Tools_v1.0.0/WWMI_Toggle_Maker_v1.1.0/WWMI_Toggle_Maker.py:352-400 | the working copy and the entry's fields become the reference unwrap; nothing else changes |
| Toggle11App.App.RemoveToggle | WWMI_Support_Tools_v1.0.0/WWMI_Toggle_Maker_v1.1.0/WWMI_Toggle_Maker.py:288-305 | the lines and entries become the reference walk over the selection; `modified` is set when some toggle was removed |
| Toggle11App.App.ReplaceSelected | WWMI_Support_Tools_v1.0.0/WWMI_Toggle_Maker_v1.1.0/WWMI_Toggle_Maker.py:313-325 | every selected existing entry is unwrapped, as the reference walk says |
| Toggle11App.App.AddToggle | WWMI_Support_Tools_v1.0.0/WWMI_Toggle_Maker_v1.1.0/WWMI_Toggle_Maker.py:307-350 | the state becomes the reference `add_toggle`: nothing without a selection or when replacing is declined; otherwise the unwraps, then one spec per selected entry when both answers are given |
| Toggle11App.App.QueueSpecs | WWMI_Support_Tools_v1.0.0/WWMI_Toggle_Maker_v1.1.0/WWMI_Toggle_Maker.py:337-347 | one spec per selected entry, in selection order |
| Toggle11App.App.ClearPending | WWMI_Support_Tools_v1.0.0/WWMI_Toggle_Maker_v1.1.0/WWMI_Toggle_Maker.py:281-284 | the queue becomes empty, and nothing else changes |
| Toggle11App.App.RunPipeline | WWMI_Support_Tools_v1.0.0/WWMI_Toggle_Maker_v1.1.0/WWMI_Toggle_Maker.py:417-425 | wrap, constants and keys when specs are queued, then the cleanup |
| Toggle11App.App.Apply | WWMI_Support_Tools_v1.0.0/WWMI_Toggle_Maker_v1.1.0/WWMI_Toggle_Maker.py:406-433 | nothing is written with nothing pending or an empty path (the state then stays); otherwise the pipeline's output is written and the specs and `modified` are cleared; the working copy is kept |
| TransparencyScan.MaxShaderIndexSpec | WWMI_Support_Tools_v1.1.0/WWMI_Transparency_Maker/WWMI_Transparency_Maker.py:132-140 | the running maximum is the largest `[CustomShaderTransparencyN]` index, and one header carries it unless it is 0 |
| TransparencyScan.ScanExistingShaderIndex | WWMI_Support_Tools_v1.1.0/WWMI_Transparency_Maker/WWMI_Transparency_Maker.py:132-140 | the next index is at least 1 and above every index already in the file |
| TransparencyScan.LStripSemicolons | WWMI_Support_Tools_v1.1.0/WWMI_Transparency_Maker/WWMI_Transparency_Maker.py:98 | `lstrip(";")` drops exactly the leading semicolons |
| TransparencyScan.DrawKind | WWMI_Support_Tools_v1.1.0/WWMI_Transparency_Maker/WWMI_Transparency_Maker.py:108-110 | a line is read as a draw with parameters `p` iff, stripped, it is an exact `drawindexed = a, b, c` directive with those numbers |
| TransparencyScan.ScanOwnerSpec | WWMI_Support_Tools_v1.1.0/WWMI_Transparency_Maker/WWMI_Transparency_Maker.py:101-106 | the current component is the last component header seen; other headers do not end it |
| TransparencyScan.ScanMatches | WWMI_Support_Tools_v1.1.0/WWMI_Transparency_Maker/WWMI_Transparency_Maker.py:93-117 | the loop state after `n` lines is the line-by-line reading: component, remembered comment, one list per component seen, each with its recorded draws in order |
| TransparencyScan.ScanDrawsSpec | WWMI_Support_Tools_v1.1.0/WWMI_Transparency_Maker/WWMI_Transparency_Maker.py:93-117 | `component_draws` has one list per component header seen, holding its draws and their comments in line order |
| TransparencyApply.BuildShaderSection | WWMI_Support_Tools_v1.1.0/WWMI_Transparency_Maker/WWMI_Transparency_Maker.py:328-350 | the section built is the reference section |
| TransparencyApply.ShaderSectionShape | WWMI_Support_Tools_v1.1.0/WWMI_Transparency_Maker/WWMI_Transparency_Maker.py:328-350 | four lines in alpha mode, eight in factor mode, plus one for a comment; it opens with a blank line and a header the index scan reads back as its index, and closes with the change's directive |
| TransparencyApply.PendingMapSpec | WWMI_Support_Tools_v1.1.0/WWMI_Transparency_Maker/WWMI_Transparency_Maker.py:276 | the map's keys are exactly the queue's keys, and with unique keys each finds its own change |
| TransparencyApply.FlushInto | WWMI_Support_Tools_v1.1.0/WWMI_Transparency_Maker/WWMI_Transparency_Maker.py:284-286 | the sections are appended in order |
| TransparencyApply.RewriteClassified | WWMI_Support_Tools_v1.1.0/WWMI_Transparency_Maker/WWMI_Transparency_Maker.py:272-320 | the loop and the final flush compute the reference rewrite |
| TransparencyApply.RewriteLines | WWMI_Support_Tools_v1.1.0/WWMI_Transparency_Maker/WWMI_Transparency_Maker.py:269-320 | the same, from the raw lines |
| TransparencyApply.RewriteMatches | WWMI_Support_Tools_v1.1.0/WWMI_Transparency_Maker/WWMI_Transparency_Maker.py:278-316 | the loop state after `n` lines is the line-by-line reading: the open component, the sections of its first uses, the unused keys, and the chunks so far |
| TransparencyApply.RewriteFileSpec | WWMI_Support_Tools_v1.1.0/WWMI_Transparency_Maker/WWMI_Transparency_Maker.py:272-320 | the output is each line's chunk in order, then the sections of a component still open; the first directive with a pending key becomes the commented line and its `run` line; later ones are copied; sections come out before the header that ends their component |
| TransparencyApply.CommentedInert | WWMI_Support_Tools_v1.1.0/WWMI_Transparency_Maker/WWMI_Transparency_Maker.py:301-303 | a commented-out directive is an inert line to a second rewrite |
| TransparencyTool.FindFromSpec | WWMI_Support_Tools_v1.1.0/WWMI_Transparency_Maker/WWMI_Transparency_Maker.py:217-221 | the search gives the first queued change with the key, or none has it |
| TransparencyTool.FindQueued | WWMI_Support_Tools_v1.1.0/WWMI_Transparency_Maker/WWMI_Transparency_Maker.py:217-221 | the loop with `break` finds that first change |
| TransparencyTool.EnqueueValid | WWMI_Support_Tools_v1.1.0/WWMI_Transparency_Maker/WWMI_Transparency_Maker.py:223-246 | the queue keeps unique keys and distinct shader names, each below the next index |
| TransparencyTool.EnqueueEffect | WWMI_Support_Tools_v1.1.0/WWMI_Transparency_Maker/WWMI_Transparency_Maker.py:223-246 | a queued key is left alone unless overwriting, then replaced in place under its old name; a new key is appended under the next index, which moves on by one |
| TransparencyTool.EnqueueLookup | WWMI_Support_Tools_v1.1.0/WWMI_Transparency_Maker/WWMI_Transparency_Maker.py:223-246 | the map `apply_changes` builds then finds the new change under its key and every other key as before |
| TransparencyTool.PendingMapReplace | WWMI_Support_Tools_v1.1.0/WWMI_Transparency_Maker/WWMI_Transparency_Maker.py:229-235 | replacing a change in place updates only its key in the map |
| TransparencyTool.TransparencyTool.constructor | WWMI_Support_Tools_v1.1.0/WWMI_Transparency_Maker/WWMI_Transparency_Maker.py:8-15 | no file, no draws, nothing queued, next index 1 |
| TransparencyTool.TransparencyTool.ScanIni | WWMI_Support_Tools_v1.1.0/WWMI_Transparency_Maker/WWMI_Transparency_Maker.py:69-130 | an empty path or a missing file changes nothing; otherwise the queue is cleared, the next index is one above every index in the file, and the draws are those of the scan |
| TransparencyTool.TransparencyTool.ParseLines | WWMI_Support_Tools_v1.1.0/WWMI_Transparency_Maker/WWMI_Transparency_Maker.py:88-117 | the parse loop fills `component_draws` as the reference scan does |
| TransparencyTool.TransparencyTool.AddTransparency | WWMI_Support_Tools_v1.1.0/WWMI_Transparency_Maker/WWMI_Transparency_Maker.py:202-248 | a cancelled selection or dialog changes nothing; otherwise the queue and next index become the reference enqueue, keeping the queue valid |
| TransparencyTool.TransparencyTool.ApplyChanges | WWMI_Support_Tools_v1.1.0/WWMI_Transparency_Maker/WWMI_Transparency_Maker.py:250-326 | nothing is written iff no file is loaded or nothing is queued; otherwise the rewrite of the file's lines with the queue's map |

## Left out

- The Tkinter windows, list boxes, dialogs and message boxes are not modelled. A user's answer becomes a parameter: the selection
  (`sel`, `selected`), `confirm`, `overwrite`, `varAnswer`, `keyAnswer`, the
  blend mode with its factors (`blend`), and the path typed in (`path`).
  So are `browse`, `browse_ini`, `build_ui`, `_build_ui`, `refresh`,
  `update_status` and `display`.
- `get_selected_draw` is left out: it recovers the component, parameters and comment from the list box's display string with a regular expression. The model receives them as `selected` directly.
- `ask_mode` and `ask_factors` are left out: they are dialogs, and `ask_factors` validates the factors as floating point numbers. The model takes the factors as the text entered.
- File reading and writing are not modelled. This covers the `.bak` backups (`shutil.copy2`, the backup write) and the utf-8 read with its cp949 fallback. A file's content is a parameter (`file`). `os.path.isfile` failing is `file == None`. The methods return the lines they would write (`written`).
- `\w`, `\d`, `IGNORECASE` and `str.lower()` are modelled on ASCII only. `\s` and `str.strip()` use Python's full whitespace set.
- Toggle10.App.Apply: v1.0's `apply` leaves the working copy `self.lines` and the queue as they were, and so does the model. A second apply without a rescan therefore wraps the same lines again.
- TransparencyTool.TransparencyTool.ApplyChanges: `apply_changes` does not clear `pending_changes`, and neither does the model.
- TransparencyApply.ShaderSectionShape: does not prove that the generated `drawindexed` line re-parses as an exact draw directive. It proves only that it is the line written for the change's parameters.
- Toggle10.ParseDraw, Toggle11Entries.ParseDraw, Toggle11Prune.PruneKeysLoop, TransparencyApply.RewriteLines, TransparencyTool.TransparencyTool.ScanIni: the source tests each line with its regular expressions inside the loop. The model classifies all lines first (`Kinds`, `BlockScan`, `PScan`, `Roles`, `ScanKinds`), then runs the loop over that list. The result is the same.
- Toggle11Prune.PruneKeepsSection: says nothing about a section whose header does not start with `[key` and whose last `$v = 0,1` line names an unused variable. The key pass keeps such a header, but it tests `startswith("[key")` on every line, so a line inside the section that starts with `[key` without being a header begins a cut that runs to the next header.
- Toggle11App.App.DeleteExisting: when the pops run past the end of the list, Python raises `IndexError` with the lines from the guard on already popped. The exception leaves `remove_toggle` or `add_toggle` before `modified` is set. The model returns this as `raised` and keeps the lines the pops left, and the walks of `RemoveFrom` and `ReplaceFrom` stop there. The exception itself, as Tkinter reports it, is not modelled.

## Behaviour of the code worth knowing

The model follows the code in each of these places:

- `prune_unused_toggles` is not idempotent. It collects the used variables once, before any deletion. A deleted key section may hold the only guard on some variable, and a second run then removes that variable's declaration too. The model proves that the cleanup only deletes lines, that it leaves no key section of an unused variable, and that it keeps the `[Constants]` header and, whole, every other section whose last `$v = 0,1` line names a used variable or that has no such line. It claims no idempotence.
- Both toggle makers' `parse_draw` and the transparency rewrite close the current component at any other header. `scan_ini` of the transparency maker does not: it keeps the component across non-component headers, so a directive in a later non-component section is listed under the last component. `TransparencyScan.ScanOwnerSpec` states this.
- v1.1 `add_toggle` does not drop an older spec for the same draw, unlike v1.0. Queuing the same draw twice then wraps it twice.
- `remove_toggle` with several existing entries selected unwraps each one at the indices recorded by the scan. An earlier unwrap shifts the lines below it up by the guard's length less the one or two lines put back (by two for a guard the tool wrote, by more for a simple guard whose body also holds blank or `;` lines), and the model keeps these stale indices as the code does.
- v1.0 `insert_keys` always inserts its block, even with no specs (two blank lines; `Toggle10.InsertKeysNothing`). v1.1 returns the file unchanged when there is nothing to add.
