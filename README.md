# Ex command-line parser of NeoVintageous, in Dafny

This project models the parser that turns one ex command line into a command token. The
line is typed after `:` in the NeoVintageous Vim emulation, and any range has already been
taken off it. The parser lives in `nv/ex_routes.py`. It has two parts:

- **The route table** (`ex_routes`). It is an ordered list of name patterns. The first pattern
  that matches the start of the line wins, not the longest. The route's grammar function then
  reads the rest of the line.
- **The grammar functions** (`_ex_route_*`). Each one drives a shared character scanner with
  `consume`, `backup`, `skip`, `ignore`, `emit`, `match`, `expect` and `expect_eof`. Each
  returns a `TokenCommand` or raises.

The modules:

- `ExScanner` (scanner.dfy): the scanner, as a class whose cursor fields change in place.
- `ExTokens` (tokens.dfy): the command token, its parameters, and the ways a grammar fails.
- `ExText` (text.dfy): characters, runs, and Python's `strip`.
- `ExPatterns` (patterns.dfy): hand-written matchers for the regular expressions the grammar
  functions use. Each follows Python's backtracking order (lazy or greedy). Lemmas tie each
  matcher to a plain description of what it captures.
- Grammar modules, one per group of grammar functions:
  - `ExSimpleRoutes`: the grammar functions without a loop.
  - `ExEdit`, `ExGlobal`, `ExPrint`, `ExSubstitute` and `ExWrite`: the grammar functions
    with a loop.

  Each grammar is a method over the scanner. It is proved to return what a pure
  specification function of the line and the cursor says.
- `ExRoutes` (routes.dfy): the 63 routes in order, first-match selection, and lemmas about
  which route wins for the names that overlap.
- `ExInterpreter` (interpreter.dfy): the entry point, `Parse`. It selects a route, drops the
  name from the scanner's pending slice, and runs the grammar. It also holds lemmas about
  whole command lines.
- `ExFindings` (findings.dfy): three grammar functions as written, each beside an input
  where the code does something its authors evidently did not mean.

Three behaviours of the code are worth knowing before reading the table:

- **Abbreviations.** Each optional group of a name pattern is all or nothing, so `su/a/b/`
  matches no route (`ExRoutes.SubstitutePartialName`). Only `s` and `substitute` route to
  substitute.
- **`&` and `&&`.** The pattern `&&?` also sends a single `&` to the double-ampersand grammar
  (`ExRoutes.AmpersandRoute`).
- **`++enc=utf8`.** This fails with "E474: Invalid argument", because a `++` name must be
  followed by whitespace or the end of the line (`ExWrite.WriteEncodingValueRefused`).

## Model

| member | source | states |
|---|---|---|
| ExScanner.Scanner.Consume | nv/ex_routes.py:465-471 | consume yields the character under the cursor and advances, or yields EOF and stays put at the end of the line |
| ExScanner.Scanner.Backup | nv/ex_routes.py:174-176 | backup moves the cursor one character back and keeps the pending slice's start |
| ExScanner.Scanner.Ignore | nv/ex_routes.py:119-120 | ignore drops the pending slice: its start moves to the cursor |
| ExScanner.Scanner.Emit | nv/ex_routes.py:229 | emit returns exactly the pending slice of the line and then drops it |
| ExScanner.Scanner.Skip | nv/ex_routes.py:119 | skip moves the cursor to the end of the run of the given character |
| ExScanner.Scanner.Peek | nv/ex_routes.py:514 | peek is true exactly when the given character is under the cursor, and moves nothing |
| ExScanner.Scanner.Expect | nv/ex_routes.py:626 | expect succeeds exactly when the next symbol is the given character, and consumes one symbol either way |
| ExScanner.Scanner.ExpectEof | nv/ex_routes.py:522 | expect_eof succeeds exactly when the cursor is at the end of the line |
| ExScanner.Scanner.ShiftStart | nv/ex_routes.py:483 | `state.start += 1` moves the pending slice's start one character on and leaves the cursor |
| ExScanner.Scanner.Retreat | nv/ex_routes.py:334 | backing up in print moves the cursor back one and leaves nothing pending |
| ExScanner.Scanner.Jump | nv/ex_routes.py:26 | a successful `match` moves the cursor to the end of what it matched |
| ExScanner.SkipSpaces | nv/ex_routes.py:119 | skipping spaces stops within the line, at or after where it started |
| ExText.RunEnd | nv/ex_routes.py:119 | the end of a run is the first position at or after the start that holds a character outside the set |
| ExText.Until | nv/ex_routes.py:220-233 | the first occurrence of the character at or after the start, or the end of the line |
| ExText.WordEnd | nv/ex_routes.py:631 | the end of a word is the first whitespace at or after the start, or the end of the line |
| ExText.Strip | nv/ex_routes.py:281 | Python's `strip`: the result neither starts nor ends with whitespace |
| ExText.StripDropsLeading | nv/ex_routes.py:276-281 | stripping after dropping any prefix of leading spaces gives the same text as stripping the whole |
| ExPatterns.LazyTrimmed | nv/ex_routes.py:44 | `\s*(?P<lhs>.+?)\s*$` matches exactly the non-empty texts |
| ExPatterns.LazyTrimmedIsStrip | nv/ex_routes.py:44 | the lazy capture is the stripped text when that is not empty, and the last whitespace character when the text is only whitespace |
| ExPatterns.LazyTrimmedEnd | nv/ex_routes.py:90 | `(?P<path>.+?)\s*$` matches exactly the non-empty texts |
| ExPatterns.LazyTrimmedEndIsStrip | nv/ex_routes.py:90 | for a text that starts with a non-space, the path is the stripped text |
| ExPatterns.RhsStart | nv/ex_routes.py:35 | the right-hand side can start after a whitespace run exactly when a whitespace character at e is followed by more text |
| ExPatterns.FirstLhsEnd | nv/ex_routes.py:35 | the lazy left-hand side ends at the first position from which a right-hand side can start |
| ExPatterns.MapFrom | nv/ex_routes.py:35 | a left-hand side found from any start ends before its right-hand side, which starts after whitespace |
| ExPatterns.MapBounds | nv/ex_routes.py:35 | the map pattern's four bounds are ordered, with only whitespace before, between and after the two sides |
| ExPatterns.MapSplitExists | nv/ex_routes.py:35 | a map line splits exactly when a whitespace character after the first position is followed by more text |
| ExPatterns.MapSplitWords | nv/ex_routes.py:32-39 | two whitespace-separated words with only spaces around them split into exactly those words |
| ExPatterns.ValueStart | nv/ex_routes.py:262 | a let value starts after `=` and spaces exactly when text follows the `=` |
| ExPatterns.LetFrom | nv/ex_routes.py:262 | a let split found from e has the name before `=`, whitespace around the `=`, and the value after it |
| ExPatterns.LetBounds | nv/ex_routes.py:262 | the let pattern's bounds are ordered around `=`, with only whitespace between the parts and at the end |
| ExPatterns.LetSplitCommon | nv/ex_routes.py:257-269 | `name = value` with a name free of `=` and the value trimmed splits into exactly that name and value |
| ExPatterns.OptionEnd | nv/ex_routes.py:397 | the option ends at the first `:` or `=` that has a value after it |
| ExPatterns.SetSplit | nv/ex_routes.py:397 | the set pattern matches exactly the non-empty texts |
| ExPatterns.SetSplitValue | nv/ex_routes.py:390-402 | `option:value` or `option=value` splits at the first separator after the first character |
| ExPatterns.SetSplitNoValue | nv/ex_routes.py:390-402 | without a separator that has text after it, the whole text is the option and there is no value |
| ExPatterns.HelpMatch | nv/ex_routes.py:247 | help is forced exactly when the text starts with `!`, and a subject never starts with whitespace |
| ExPatterns.SplitFileMatch | nv/ex_routes.py:456 | a split file name is never empty |
| ExPatterns.SplitFileMatchOf | nv/ex_routes.py:456 | after a whitespace run that ends before a non-space, the file name is the whole rest of the text |
| ExPatterns.SortMatch | nv/ex_routes.py:448 | the sort options are a non-empty run of `i` and `u` |
| ExPatterns.SortMatchOf | nv/ex_routes.py:448 | after a whitespace run, the options are the longest run of `i` and `u`, and the match ends where it ends |
| ExPatterns.RegisterAlone | nv/ex_routes.py:132 | a register name followed only by whitespace is the register, with no count |
| ExPatterns.RegisterWithCount | nv/ex_routes.py:132 | a register, whitespace, and a digit run followed by whitespace give that register and that count |
| ExPatterns.RepeatBounds | nv/ex_routes.py:149 | the `&&` arguments are flags from `cgr` followed by digits, with only whitespace around them |
| ExSimpleRoutes.LiteralRoute | nv/ex_routes.py:23-29 | a literal command is forced exactly when it is forcable and `!` follows the name, and the cursor passes that bang only |
| ExSimpleRoutes.Literal | nv/ex_routes.py:23-29 | the scanner version of `_literal_route` gives the same token and cursor as LiteralRoute |
| ExSimpleRoutes.MapRoute | nv/ex_routes.py:32-39 | a map command has lhs and rhs when the rest of the line splits, no parameters otherwise, and never fails |
| ExSimpleRoutes.UnmapRoute | nv/ex_routes.py:42-46 | the scanner version of an unmap command returns what UnmapLhs characterises |
| ExSimpleRoutes.UnmapLhs | nv/ex_routes.py:42-46 | unmap fails exactly when nothing follows the name; otherwise lhs is the rest of the line stripped |
| ExSimpleRoutes.Cd | nv/ex_routes.py:81-94 | cd takes an optional bang and spaces, refuses `-`, and returns the path without trailing whitespace |
| ExSimpleRoutes.CdDashNotImplemented | nv/ex_routes.py:87-88 | `cd -` and `cd! -`, after any spaces, fail as not implemented |
| ExSimpleRoutes.CdPath | nv/ex_routes.py:82-92 | after an optional bang and spaces, a path not starting with `-` is the rest of the line stripped, and cd is forced exactly when the bang is there |
| ExSimpleRoutes.CdBare | nv/ex_routes.py:82-94 | with only an optional bang and spaces after the name, cd has no path and is forced exactly when the bang is there |
| ExSimpleRoutes.Copy | nv/ex_routes.py:101-106 | the scanner version of copy returns what CopyAddress characterises |
| ExSimpleRoutes.CopyAddress | nv/ex_routes.py:101-106 | copy fails exactly when nothing follows the name; otherwise the address is the rest of the line stripped |
| ExSimpleRoutes.Move | nv/ex_routes.py:272-283 | the scanner version of move returns what MoveAddress characterises |
| ExSimpleRoutes.MoveAddress | nv/ex_routes.py:276-281 | move always has a non-empty address, and it is `.` exactly when the stripped rest is empty or is `.` |
| ExSimpleRoutes.MoveSkipsSpaces | nv/ex_routes.py:276-279 | skipping the spaces after the name does not change the stripped address |
| ExSimpleRoutes.RegisterRoute | nv/ex_routes.py:113-140 | the scanner versions of delete and yank return what the register lemmas characterise |
| ExSimpleRoutes.RegisterDefault | nv/ex_routes.py:117-126 | with only spaces after the name, the register is `"` and there is no count |
| ExSimpleRoutes.RegisterCountNotImplemented | nv/ex_routes.py:117-136 | after any spaces, a register followed by whitespace, a count and only whitespace fails as not implemented |
| ExSimpleRoutes.RegisterGiven | nv/ex_routes.py:128-138 | a register name after spaces, with only whitespace after it, becomes the register |
| ExSimpleRoutes.DoubleAmpersand | nv/ex_routes.py:143-158 | the scanner version of `&&` returns what DoubleAmpersandRoundTrip characterises |
| ExSimpleRoutes.DoubleAmpersandRoundTrip | nv/ex_routes.py:149-152 | flags from `cgr` followed by a digit run come back as exactly those flags and that count (the corrected reading; see Findings) |
| ExSimpleRoutes.RepeatBoundsOf | nv/ex_routes.py:149 | for flags followed by digits, the `&&` pattern's bounds cut exactly at the flags-count boundary |
| ExSimpleRoutes.Help | nv/ex_routes.py:245-254 | help never fails, and returns what HelpSubject characterises |
| ExSimpleRoutes.HelpSubject | nv/ex_routes.py:247-249 | help is forced exactly when `!` follows the name, and the subject is the rest after the bang and whitespace, or none |
| ExSimpleRoutes.Let | nv/ex_routes.py:257-269 | the scanner version of let returns what LetSplitCommon and LetNeedsEquals characterise |
| ExSimpleRoutes.LetNeedsEquals | nv/ex_routes.py:261-263 | without `=`, let fails with "E121: Undefined variable" |
| ExSimpleRoutes.Set | nv/ex_routes.py:390-417 | set and setlocal skip spaces, then split an option and an optional value as SetSplit does |
| ExSimpleRoutes.ShellOut | nv/ex_routes.py:424-434 | the scanner version of `!` returns what ShellOutWhole characterises |
| ExSimpleRoutes.ShellOutWhole | nv/ex_routes.py:429-430 | `!cmd` is accepted exactly when something follows the `!`, and the command put back after the name gives the whole line |
| ExSimpleRoutes.Sort | nv/ex_routes.py:445-450 | sort is addressable and keeps the `i`/`u` options when they follow |
| ExSimpleRoutes.SortOptionsGiven | nv/ex_routes.py:445-450 | after whitespace, a non-empty run of `i` and `u` becomes exactly the options of an addressable sort |
| ExSimpleRoutes.SortWithoutOptions | nv/ex_routes.py:445-450 | when neither `i` nor `u` follows the whitespace after the name, sort is addressable and has no options |
| ExSimpleRoutes.Split | nv/ex_routes.py:453-458 | split and vsplit keep a file name that follows whitespace |
| ExSimpleRoutes.SplitFileGiven | nv/ex_routes.py:453-458 | whitespace followed by text gives exactly that text, to the end of the line, as the file name |
| ExSimpleRoutes.SplitWithoutSpace | nv/ex_routes.py:453-458 | when no whitespace follows the name, split has no file name |
| ExSimpleRoutes.Read | nv/ex_routes.py:357-383 | the scanner version of read returns ReadSpec, the corrected reading (see Findings) |
| ExSimpleRoutes.ReadNamed | nv/ex_routes.py:357-383 | every token that read produces is named `read` |
| ExSimpleRoutes.ReadNothing | nv/ex_routes.py:362-383 | with only spaces after the name, read has no file name and no command (the corrected reading; see Findings) |
| ExSimpleRoutes.ReadGiven | nv/ex_routes.py:362-383 | after the spaces, `!` takes the rest as a shell command and fails when it is empty; any other text is the file name, kept to the end of the line |
| ExSimpleRoutes.ReadPlusNotImplemented | nv/ex_routes.py:365-368 | `+` after any spaces fails as not implemented |
| ExSimpleRoutes.SkippedSpaces | nv/ex_routes.py:276-277 | the skipped part of the rest is all whitespace, and what follows it is unchanged |
| ExEdit.Edit | nv/ex_routes.py:161-194 | the scanner version of edit returns EditSpec, the corrected reading (see Findings) |
| ExEdit.EditBody | nv/ex_routes.py:178-194 | the loop after the optional bang returns EditBodySpec: not implemented at `+` or `#`, else the stripped file name |
| ExEdit.EditNotImplemented | nv/ex_routes.py:186-187 | `+` or `#` after an optional bang and spaces fails as not implemented |
| ExEdit.EditForcedFile | nv/ex_routes.py:174-191 | `e! file` is forced, and its file name is the stripped text after the bang |
| ExGlobal.Global | nv/ex_routes.py:205-242 | the scanner version of global returns what the global lemmas characterise |
| ExGlobal.GlobalBody | nv/ex_routes.py:218-242 | the loop after the separator returns GlobalBodySpec: an unclosed pattern fails, a closed one gives pattern and command |
| ExGlobal.FindSeparator | nv/ex_routes.py:220-233 | the loop finds the separator exactly when it occurs after the cursor, and stops just past its first occurrence |
| ExGlobal.SplitAtSeparator | nv/ex_routes.py:226-237 | the pattern is the pending text before the separator, and the command is the stripped rest, absent when empty |
| ExGlobal.GlobalRefused | nv/ex_routes.py:210-216 | at the end of the line, or at a character outside `!:?/\&$`, global fails with "bad separator" |
| ExGlobal.GlobalBangAtEnd | nv/ex_routes.py:210-224 | `g!` at the end of the line fails with "unexpected EOF in" |
| ExGlobal.GlobalBadSeparator | nv/ex_routes.py:215-216 | a bad separator character is named in the message |
| ExGlobal.GlobalUnclosed | nv/ex_routes.py:220-224 | a separator that does not occur again fails with "unexpected EOF in" and the whole line |
| ExGlobal.GlobalBodyUnclosed | nv/ex_routes.py:220-224 | a pattern whose separator does not occur again fails with "unexpected EOF in" and the whole line |
| ExGlobal.GlobalBodyClosed | nv/ex_routes.py:226-240 | a closed pattern gives the text up to the separator and the stripped command after it |
| ExGlobal.GlobalRoundTrip | nv/ex_routes.py:205-242 | for any bang, separator, pattern free of it, and command, global returns exactly that pattern and the stripped command |
| ExPrint.Print | nv/ex_routes.py:314-342 | the scanner version of print returns PrintSpec, whose properties the print lemmas state |
| ExPrint.PrintArguments | nv/ex_routes.py:319-340 | the print loop returns what PrintLoop says for the line from the cursor |
| ExPrint.PrintFlagList | nv/ex_routes.py:334-340 | the flag tail returns what PrintFlagsSpec says |
| ExPrint.PrintLoopCount | nv/ex_routes.py:328-332 | a digit after the spaces is read as a count up to the end of the digit run, and the loop goes on from there |
| ExPrint.PrintLoopFlags | nv/ex_routes.py:334-340 | a non-digit after the spaces starts the flag list |
| ExPrint.PrintLoopWellFormed | nv/ex_routes.py:319-340 | whatever print accepts has a non-empty digit count and a non-empty list of `l#p` flags when present |
| ExPrint.PrintFlagsWellFormed | nv/ex_routes.py:336-337 | accepted flags are a non-empty list of `l#p` |
| ExPrint.PrintCapabilities | nv/ex_routes.py:314-317 | every print token is addressable, cooperates with global, and has well-formed arguments |
| ExPrint.PrintCount | nv/ex_routes.py:328-331 | `print N` gives count N and no flags |
| ExPrint.PrintFlagsOnly | nv/ex_routes.py:334-339 | `print flags` gives those flags and no count |
| ExPrint.PrintCountAndFlags | nv/ex_routes.py:319-340 | `print N flags` gives both |
| ExPrint.PrintTrailing | nv/ex_routes.py:336-339 | a character after the flags that is not a flag fails the end-of-input expectation |
| ExSubstitute.FlagsAt | nv/ex_routes.py:509-510 | the flags end within the line |
| ExSubstitute.CountAt | nv/ex_routes.py:514-518 | a count is a non-empty run of digits |
| ExSubstitute.SubstituteParts | nv/ex_routes.py:479-507 | the position after pattern and replacement lies within the line |
| ExSubstitute.Substitute | nv/ex_routes.py:461-526 | the scanner version of substitute returns what the substitute lemmas characterise |
| ExSubstitute.ScanPattern | nv/ex_routes.py:479-490 | the pattern is found exactly when the delimiter occurs again, and is the text between the two delimiters |
| ExSubstitute.ScanReplacement | nv/ex_routes.py:492-507 | the replacement runs to the next delimiter or the end of the line, and the cursor passes that delimiter |
| ExSubstitute.ScanFlags | nv/ex_routes.py:509-512 | the flags and the cursor after them are those FlagsAt gives |
| ExSubstitute.ScanCount | nv/ex_routes.py:514-518 | the count is the value of the digits after a space, 1 when there are none |
| ExSubstitute.SubstituteTail | nv/ex_routes.py:509-522 | flags, count and the end of the line are read as SubstituteFlagsSpec says |
| ExSubstitute.SubstitutePartsAt | nv/ex_routes.py:479-507 | a delimiter, pattern, delimiter, replacement and optional delimiter are cut at exactly those delimiters |
| ExSubstitute.SubstituteRoundTrip | nv/ex_routes.py:461-526 | `s/pat/rep/flags count` gives back exactly pattern, replacement, flags and count; `&` anywhere but first is a bad command |
| ExSubstitute.SubstituteAt | nv/ex_routes.py:461-526 | the same round trip, stated by positions in the line |
| ExSubstitute.SubstituteUnclosed | nv/ex_routes.py:502-507 | a replacement without a closing delimiter runs to the end of the line, with count 1 and no flags |
| ExSubstitute.SubstituteTrailing | nv/ex_routes.py:509-522 | text after the flags and count that is not whitespace fails: as a bad command when `&` is a flag but not the first, otherwise because the end of the line was expected |
| ExSubstitute.TrailingAt | nv/ex_routes.py:509-522 | the same refusal, stated for a line whose parts end at a given position |
| ExSubstitute.SubstituteTailTrailing | nv/ex_routes.py:509-522 | the same refusal, stated for the tail from the cursor after the replacement |
| ExSubstitute.CountAtSpaced | nv/ex_routes.py:514-518 | after any run of spaces a digit run is the count, and spaces with no digits give none; the cursor ends after what was read |
| ExSubstitute.SubstituteTailSpaced | nv/ex_routes.py:509-522 | flags, any spaces, a count and trailing spaces are read back as written; `&` anywhere but first is a bad command |
| ExSubstitute.SpacedAt | nv/ex_routes.py:461-526 | the same, stated for a line whose parts end at a given position |
| ExSubstitute.SubstituteSpaced | nv/ex_routes.py:461-526 | a whole command such as `s/a/b/g   3  ` gives back its pattern, replacement, flags and count 3, and spaces alone after the flags leave the count at 1 |
| ExSubstitute.SubstituteMissingDelimiter | nv/ex_routes.py:489-490 | a delimiter that does not occur again fails with "bad command:" and the whole line |
| ExWrite.Write | nv/ex_routes.py:589-662 | the scanner version of write returns what the write lemmas characterise |
| ExWrite.WriteLoop | nv/ex_routes.py:620-658 | the clause loop returns what WriteClauses says for the line from the cursor |
| ExWrite.PlusPlusClause | nv/ex_routes.py:625-637 | a `++name` clause either fails as the clause loop fails, or records the translated option and moves past it |
| ExWrite.LastClause | nv/ex_routes.py:639-651 | a `>>` or `!` clause takes the rest of the line |
| ExWrite.WriteClauses | nv/ex_routes.py:620-658 | accepted write arguments are always write arguments |
| ExWrite.LastClauseSpec | nv/ex_routes.py:639-651 | accepted write arguments are always write arguments |
| ExWrite.PlusPlusNamesFromPattern | nv/ex_routes.py:630-632 | a `++` name is accepted exactly when it is one of the strings the option pattern's alternation matches |
| ExWrite.FileFormatNames | nv/ex_routes.py:631 | `f(?:ile)?f(?:ormat)?` matches `ff`, `fformat`, `filef` and `fileformat` |
| ExWrite.EncodingNames | nv/ex_routes.py:631 | `(?:file)?enc(?:oding)?` matches `enc`, `encoding`, `fileenc` and `fileencoding` |
| ExWrite.BinaryNames | nv/ex_routes.py:631 | `(?:no)?bin(?:ary)?` matches `bin`, `binary`, `nobin` and `nobinary` |
| ExWrite.TranslateKept | nv/ex_routes.py:613-635 | a known `++` name maps to a known option; only `ff`, `bin`, `enc` and `nobin` change |
| ExWrite.WriteClausesKeepOption | nv/ex_routes.py:625-637 | the `++` option write records is always empty or a full option name |
| ExWrite.WritePlusPlusThen | nv/ex_routes.py:625-637 | a known `++name` followed by whitespace or the end is recorded translated, and parsing goes on after it |
| ExWrite.WritePlusPlusRefused | nv/ex_routes.py:630-632 | any other `++word` fails with "E474: Invalid argument" |
| ExWrite.WriteEncodingValueRefused | nv/ex_routes.py:630-632 | `write ++enc=utf8` fails with "E474: Invalid argument" |
| ExWrite.WriteForced | nv/ex_routes.py:600-608 | every write token is addressable and is forced exactly when `!` follows the name |
| ExWrite.SkipToClause | nv/ex_routes.py:606-611 | after the optional bang and the spaces, parsing resumes exactly at the clause |
| ExWrite.WriteAppend | nv/ex_routes.py:639-645 | `>> file` sets append, and the file name is the stripped rest |
| ExWrite.WriteAppendUnspaced | nv/ex_routes.py:639-645 | `>>file` right after the name or bang does the same |
| ExWrite.WriteShellCommand | nv/ex_routes.py:647-651 | `!cmd` after the bang or spaces keeps the rest of the line as the command, unstripped |
| ExWrite.WriteFileName | nv/ex_routes.py:653-657 | any other text is the file name, stripped |
| ExRoutes.AlternativeMatch | nv/ex_routes.py:699 | the `files`, `ls`, `buffers` alternatives match exactly when one of the words starts the line |
| ExRoutes.NameMatch | nv/ex_routes.py:697-759 | a matched name ends within the line |
| ExRoutes.Table | nv/ex_routes.py:696-759 | the table holds the 63 routes in the order they are registered |
| ExRoutes.FirstMatch | nv/ex_routes.py:696-759 | the route chosen matches the line, and no earlier route does; when none is chosen, none matches |
| ExRoutes.Select | nv/ex_routes.py:696-759 | the selected name ends within the line |
| ExRoutes.NoLeadNoMatch | nv/ex_routes.py:696-759 | a name pattern cannot match a line whose first character none of its names starts with |
| ExRoutes.EntryInitial | nv/ex_routes.py:697-759 | the first characters each route's names can start with |
| ExRoutes.SkipRoutes | nv/ex_routes.py:696-759 | routes whose names cannot start with the line's first character do not change the first match |
| ExRoutes.WordAllOrNothing | nv/ex_routes.py:700-759 | a name pattern with an optional group matches the short form or the full name, never a partial abbreviation |
| ExRoutes.WordFullName | nv/ex_routes.py:700-759 | when the full name is present and its lookahead holds, the full name is matched |
| ExRoutes.WordNames | nv/ex_routes.py:700-759 | a plain name pattern matches the full name when present, else the short form |
| ExRoutes.Selects | nv/ex_routes.py:696-759 | a route that is the first to match selects its grammar |
| ExRoutes.QallBeforeQuit | nv/ex_routes.py:728-729 | a line starting `qa` selects qall, never quit |
| ExRoutes.QuitRefusesQa | nv/ex_routes.py:729 | quit's pattern never matches a line starting `qa` |
| ExRoutes.QuitRoute | nv/ex_routes.py:729 | any other line starting `q` selects quit, with `quit` or `q` as the name |
| ExRoutes.RegistersBeforeRead | nv/ex_routes.py:730-731 | a line starting `reg` selects registers, never read |
| ExRoutes.ReadRefusesReg | nv/ex_routes.py:731 | read's pattern never matches a line starting `reg` |
| ExRoutes.ReadRoute | nv/ex_routes.py:731 | any other line starting `r` selects read |
| ExRoutes.SetlocalBeforeSet | nv/ex_routes.py:732-733 | a line starting `setl` selects setlocal, never set |
| ExRoutes.SubstituteShortName | nv/ex_routes.py:734 | `s` followed by one of `%&:/=` or the end selects substitute |
| ExRoutes.SubstituteFullName | nv/ex_routes.py:734 | `substitute` followed by one of `%&:/=` or the end selects substitute with the full name |
| ExRoutes.SubstitutePartialName | nv/ex_routes.py:734 | `su/a/b/` selects no route |
| ExRoutes.AmpersandRoute | nv/ex_routes.py:698 | both `&` and `&&` select the double-ampersand grammar |
| ExRoutes.MoveLookahead | nv/ex_routes.py:718 | `movea` matches move's short form only, and `ma` does not match move |
| ExRoutes.DeleteRoute | nv/ex_routes.py:711 | a line starting `d` selects delete |
| ExRoutes.YankRoute | nv/ex_routes.py:759 | a line starting `y` selects yank |
| ExRoutes.GlobalRoute | nv/ex_routes.py:715 | a line starting `g` selects global |
| ExRoutes.CdRoute | nv/ex_routes.py:707 | a line starting `cd` selects cd |
| ExRoutes.EditRoute | nv/ex_routes.py:713 | a line starting `e` but not `exi` selects edit |
| ExRoutes.WriteShortRoute | nv/ex_routes.py:753 | `w` followed by an optional bang and `++`, `>>`, a space or the end selects write |
| ExInterpreter.RunGrammar | nv/ex_routes.py:697-759 | running a route's grammar gives what that grammar's specification says |
| ExInterpreter.Parse | nv/ex_routes.py:696-759 | parsing a line fails as an unknown command when no route matches, and otherwise runs the first matching route's grammar after the name |
| ExInterpreter.Routed | nv/ex_routes.py:696-759 | a line that selects a grammar is parsed by that grammar from the end of the name |
| ExInterpreter.ParseQall | nv/ex_routes.py:728 | every line starting `qa` parses to qall |
| ExInterpreter.ParseQuit | nv/ex_routes.py:729 | every other line starting `q` parses to quit, forced exactly when `!` follows the name |
| ExInterpreter.ParseRegisters | nv/ex_routes.py:730 | every line starting `reg` parses to registers |
| ExInterpreter.ParseRead | nv/ex_routes.py:731 | whatever a line starting `r` but not `reg` parses to is named read |
| ExInterpreter.ParseDeleteDefault | nv/ex_routes.py:113-126 | `d` or `delete` with only spaces after it deletes into register `"` |
| ExInterpreter.ParseDeleteCount | nv/ex_routes.py:132-136 | `d x N`, with any whitespace after the count, fails as not implemented |
| ExInterpreter.ParseYankDefault | nv/ex_routes.py:665-678 | `y` yanks into register `"` |
| ExInterpreter.ParseYankCount | nv/ex_routes.py:684-688 | `y x N`, with any whitespace after the count, fails as not implemented |
| ExInterpreter.ParseSubstituteBare | nv/ex_routes.py:465-468 | `s` alone is a substitute with no parameters |
| ExInterpreter.ParseSubstituteUnclosed | nv/ex_routes.py:502-507 | `s/pat/rep` gives that pattern and replacement, count 1 and no flags |
| ExInterpreter.ParseSubstitute | nv/ex_routes.py:461-526 | `s/pat/rep/flags count` gives back pattern, replacement, flags and count, or a bad command when `&` is not first |
| ExInterpreter.ParseGlobal | nv/ex_routes.py:205-242 | `g/pat/cmd` gives back the pattern and the stripped command, forced by `!` |
| ExInterpreter.ParseGlobalBadSeparator | nv/ex_routes.py:215-216 | `g` followed by a non-separator fails with "bad separator" |
| ExInterpreter.ParseWriteAppend | nv/ex_routes.py:639-645 | `w>>file` and `w!>>file` append to the stripped file name |
| ExInterpreter.ParseCdDash | nv/ex_routes.py:87-88 | `cd -` fails as not implemented |
| ExInterpreter.ParseEditNotImplemented | nv/ex_routes.py:186-187 | `e +cmd` and `e #` fail as not implemented |
| ExInterpreter.ParseReadPlus | nv/ex_routes.py:367-368 | `r +opt` fails as not implemented |
| ExInterpreter.ReadPlusAt | nv/ex_routes.py:367-368 | any line `r`, spaces, `+` fails as not implemented |
| ExFindings.EditAsWritten | nv/ex_routes.py:174-191 | as written, a forced edit's file name starts with `!` |
| ExFindings.EditBangInFileName | nv/ex_routes.py:174-191 | `e! foo` gives file name `! foo` as written and `foo` in the corrected reading |
| ExFindings.EditAgreesWithoutBang | nv/ex_routes.py:174-191 | without a bang, the code as written and the corrected reading agree |
| ExFindings.ReadAsWritten | nv/ex_routes.py:362-377 | as written, read with nothing after the name takes the line's last character as the file name |
| ExFindings.ReadEmptyTail | nv/ex_routes.py:362-377 | `read` gives file name `d` as written and no parameters in the corrected reading |
| ExFindings.ReadAgreesWithTail | nv/ex_routes.py:362-377 | with text after the name, the code as written and the corrected reading agree |
| ExFindings.DoubleAmpersandAsWritten | nv/ex_routes.py:149-151 | as written, `&&` keeps at most one flag |
| ExFindings.DoubleAmpersandLastFlag | nv/ex_routes.py:149-151 | `&&cg` gives flags `g` as written and `c`, `g` in the corrected reading |

## Left out

- Executing the command tokens. The model stops at the token; running the command, the
  editor state and the views are outside the parser.
- The scanner class and `TokenCommand` are not part of this model's sources. `ExScanner.Scanner`
  models only the scanner operations `nv/ex_routes.py` calls, as those calls use them.
  `ExTokens.TokenCommand` models the fields the grammar functions set.
- Python's regular-expression engine. Each pattern is a hand-written matcher in
  `ExPatterns`, `ExRoutes` or a grammar module. Each follows the pattern's backtracking
  order, and lemmas characterise what it captures.
- `\s` and `\d` are taken as ASCII: whitespace is space, tab, newline, carriage return,
  vertical tab and form feed, and digits are `0`-`9`. Python also counts the ASCII
  separators U+001C to U+001F as whitespace, and these are left out along with Unicode
  whitespace and digits beyond ASCII.
- The text of the scanner's EOF sentinel is not known. It appears in "bad separator:"
  messages as the constant `ExGlobal.EofText`. In print, the sentinel is taken not to be a
  digit. In global, the check `c not in '!:?/\\&$'` is a substring test, and the sentinel is
  taken to fail it. So `g` at the end of the line fails with "bad separator", as
  `ExGlobal.GlobalRefused` states. A sentinel whose text is a substring of those seven
  characters, the empty string for one, would pass that check instead.
- Exception classes and the scanner's own error messages. A failure is one datatype,
  `ExTokens.Failure`. It keeps each kind and each message the grammar functions build
  themselves.
- The router outside this file is assumed to match the name and `ignore` it before calling
  the grammar, so each grammar method requires an empty pending slice.
- `int(...)` on the substitute count is modelled by `ExSubstitute.CountValue` over ASCII
  digits.
- The test files.
- Line breaks inside the command line. The matchers take the line to be one line without
  `\n`: in Python's `re`, `.` does not match a newline and `$` also matches just before a
  final newline, and neither difference is modelled.
- ExRoutes.NameMatch: its own contract states only that the name ends within the line.
  Which names it accepts is stated by WordAllOrNothing, WordFullName, WordNames,
  NoLeadNoMatch and the route lemmas.
- ExRoutes.Select: its own contract states only that the name ends within the line. Which
  route wins is stated by FirstMatch and the route lemmas.
- ExWrite.LastClauseSpec: its own contract states only the shape of the result. The
  clauses it reads are stated by WriteAppend, WriteAppendUnspaced, WriteShellCommand and
  WriteFileName.
- ExSubstitute.CountAt: its own contract states only that a count is a non-empty digit run.
  What it reads after any run of spaces is stated by CountAtSpaced, and by CountAtOf and
  CountBeforeTrailing for the single space that written-out commands use.
- ExWrite.WriteClauses: its own contract states only the shape of the result. The clauses
  are stated by the write lemmas.
- ExSubstitute.FlagsAt: its own contract bounds the cursor only. The flags are stated by
  SubstituteRoundTrip and SubstituteAt.
- ExSimpleRoutes.Set: it is stated by its specification function and by the SetSplit lemmas
  in ExPatterns.

## Findings

| source | as written | input that shows it | evidently intended | confidence | as-written member | corrected member |
|---|---|---|---|---|---|---|
| nv/ex_routes.py:174-191 | after a bang the pending slice is not dropped, so `emit` starts at the `!` and `strip` keeps it | `e! foo` gives file name `! foo` | file name `foo`, forced | not executed | ExFindings.EditBangInFileName | ExEdit.EditForcedFile |
| nv/ex_routes.py:362-377 | at the end of the line `consume` returns EOF without moving, and `backup` then steps back over the name's last letter | `read` gives file name `d` | no file name | not executed | ExFindings.ReadEmptyTail | ExSimpleRoutes.ReadNothing |
| nv/ex_routes.py:149-151 | `([cgr])*` is a repeated group, so `group(1)` holds only its last repetition | `&&cg` gives flags `g` | flags `c`, `g` | not executed | ExFindings.DoubleAmpersandLastFlag | ExSimpleRoutes.DoubleAmpersandRoundTrip |
