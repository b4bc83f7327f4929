# akbs build-script interpreter, modelled in Dafny

akbs is a build system for C, C++ and assembly. It reads a script of
directives line by line and works through it:

- `%define NAME VALUE`, `set(K, V)`;
- `if(COND) ... endif`;
- `check_for(LANG, ...)`, `compile(KIND, FILES)`;
- `print ...`, `exit [N]`.

Before a line is dispatched it is rewritten in place. Define names are
replaced by their values, then `$NAME` variables, then builtin calls
`name$(args)`, and the result is stripped. `check_for` probes candidate
programs and records the first that qualifies in `<LANG>_COMPILER`.
`compile` compiles every stale source and then links or archives the
objects. A modification-time cache (`.hashes`) lets unchanged sources be
skipped. A compiler cache (`.comp_caches`) carries chosen programs over to
the next run.

The model follows akbs/__main__.py:

- `Outcomes` (outcomes.dfy): the result type. It has four outcomes:
  - `Ok`;
  - `Fatal`, the interpreter's own `error()` (exit status 1, modification times saved);
  - `Crash`, an uncaught Python exception such as `KeyError` or `IndexError`;
  - `Unmodelled`, a builtin left out below.
- `Text` (text.dfy): the Python string operations the interpreter relies on:
  - `strip`, `split`, `split(sep, 2)`, `replace` and `join`;
  - ASCII `lower`/`upper`;
  - `int()` on a decimal word.
- `Tables` (tables.dfy): a Python `dict` as an insertion-ordered list of
  entries. Assigning to an existing key keeps its position. The order matters
  because the substitution loops pop their work list from the end.
- `Builtins` (builtins.dfy): the `commands` table.
- `Rewriter` (rewriter.dfy): `clrdefines`, `clrvars` and `clrfuncs`:
  - each `re.sub` pass of `clrfuncs` is a left-to-right scan;
  - the outer loop runs until a pass changes nothing, and its termination is
    proved by counting `(`.
- `Directives` (directives.dfy): how a rewritten line is classified, and the
  argument text each directive's regular expression or `split` extracts.
- `Toolchain` (toolchain.dfy): the candidate programs, the probe order of
  `look_for`, and the compiler-cache filter applied when the run ends.
- `Build` (build.dfy): object paths, the compile and link command lines, and
  the up-to-date test.
- `Interp` (interpreter.dfy): a class `Interpreter` holding the script lines,
  the program counter, the define, variable and modification-time tables, and
  a record of what the run did outside:
  - the command lines run, the files removed and the objects made;
  - its methods are the main loop and each directive;
  - running a shell command is an oracle `shell` from the command line to its
    wait status;
  - the file system is a snapshot of modification times and present files,
    plus what the run removes or compiles.

## Behaviour that follows the code rather than the documented design

- The documented design says define and variable substitution rescan until
  no name remains. The code makes a single pass over a work list built once,
  popping from the end. A define's value is therefore not rescanned for a
  define processed earlier (`Rewriter.DefineIsNotRescanned`). Which of two
  overlapping variables wins depends on table order
  (`Rewriter.LongerVariableFirstWhenSetLater`,
  `Rewriter.ShorterVariableFirstWhenSetLater`).
- The design calls rewriting idempotent. It is not: with defines `A -> B`
  and `B -> x`, rewriting `A` gives `B` and rewriting that gives `x`
  (`Rewriter.RewriteNotIdempotent`).
- The design says `exit` writes the caches like a normal end. The code calls
  `sys.exit` straight away, so neither cache is written
  (`Interp.SavedHashes`, `Interp.SavedCompilers`).
- An unknown or false `if` condition is not an error: any condition other
  than `true`/`on` (in any case) skips the block.
- In the compile command, the language flags follow the source path without
  a space, and a configured standard replaces the flags
  (`Build.FlagsFollowWithoutSpace`, `Build.StandardReplacesFlags`). This is
  the operator precedence of the conditional expression in the code.
- A source without a dot is listed under one object name but compiled and
  tested under another (`Build.ObjectNamesDisagreeWithoutDot`).
- In clean mode, a script without `OUTPUT` crashes with Python's `TypeError`
  when the output path is built.

## Model

| member | source | states |
|---|---|---|
| `Text.StripLeft` | akbs/__main__.py:213 | the result is a suffix of the input that does not start with whitespace, and everything dropped was whitespace |
| `Text.StripRight` | akbs/__main__.py:213 | the result is a prefix of the input that does not end with whitespace, and everything dropped was whitespace |
| `Text.StripIdempotent` | akbs/__main__.py:213 | a stripped line neither starts nor ends with whitespace, and stripping it again changes nothing |
| `Text.StripTrimmed` | akbs/__main__.py:189 | a string without surrounding whitespace is its own strip |
| `Text.LowerIgnoresCase` | akbs/__main__.py:26-28 | `lower()` forgets case: lowering an upper-cased string, or lowering twice, is lowering once |
| `Text.UpperIgnoresCase` | akbs/__main__.py:334 | `upper()` forgets case: upper-casing a lowered string, or upper-casing twice, is upper-casing once |
| `Text.Split` | akbs/__main__.py:125 | `str.split(sep)` never returns an empty list |
| `Text.SplitMax` | akbs/__main__.py:218 | `split(" ", 2)` returns between one and three pieces |
| `Text.JoinSplitMax` | akbs/__main__.py:218 | joining the pieces of `split(sep, n)` with `sep` gives back the string |
| `Text.JoinSplit` | akbs/__main__.py:16 | `sep.join(s.split(sep)) == s` |
| `Text.SplitJoin` | akbs/__main__.py:16 | splitting a join of pieces free of the separator gives back the pieces |
| `Text.SplitAfterPiece` | akbs/__main__.py:218 | a piece without the separator, followed by the separator, is the first item of the split |
| `Text.ReplaceViaSplit` | akbs/__main__.py:17 | `s.replace(p, r)` equals joining `s.split(p)` with `r` |
| `Text.ReplaceSelf` | akbs/__main__.py:178 | replacing a pattern by itself changes nothing |
| `Text.ReplaceAbsent` | akbs/__main__.py:178 | replacing a pattern that does not occur changes nothing |
| `Text.ReplaceKeepsOut` | akbs/__main__.py:17 | a character in neither the string nor the replacement is not in the result |
| `Text.ReplaceCharConcat` | akbs/__main__.py:233 | replacing a one-character pattern in a concatenation replaces it in each part |
| `Text.StripSpaceHead` | akbs/__main__.py:224 | a leading space makes no difference to `strip()` |
| `Text.ParseDecimal` | akbs/__main__.py:345 | `int()` reads back the decimal text of any number, with or without a minus sign |
| `Text.DecimalValue` | akbs/__main__.py:345 | the digits of `Decimal(n)` have the value `n` |
| `Tables.IndexOf` | akbs/__main__.py:132 | the position of the first entry with the key, or -1 exactly when no entry has it |
| `Tables.Get` | akbs/__main__.py:358 | a value is found exactly when the key is present, and it is the value of an entry with that key |
| `Tables.GetOr` | akbs/__main__.py:274 | `dict.get(k, default)`: the stored value when the key is present, the default otherwise |
| `Tables.Put` | akbs/__main__.py:228 | `d[k] = v`: the key now maps to `v`, every other key keeps its value, an existing key keeps its position and a new key is appended |
| `Tables.PutDistinct` | akbs/__main__.py:219 | assignment keeps keys unique |
| `Tables.PutPut` | akbs/__main__.py:146 | a second assignment to the same key overrides the first one and leaves nothing else behind |
| `Tables.Update` | akbs/__main__.py:105 | `dict.update(other)`: every key of `other` is present afterwards, and keys not in `other` keep their value |
| `Tables.UpdateGet` | akbs/__main__.py:111 | after `update(other)` a key of `other` has `other`'s value |
| `Tables.UpdateDistinct` | akbs/__main__.py:105 | `update` keeps keys unique |
| `Builtins.Lookup` | akbs/__main__.py:14-29 | only names ending in `$` are in the `commands` table |
| `Builtins.Without` | akbs/__main__.py:16 | the kept items are exactly the items not named by the later arguments, and none is added |
| `Builtins.WithoutConcat` | akbs/__main__.py:16 | filtering a concatenation filters each part in turn, so kept items keep their order and their repetitions |
| `Builtins.WithoutSingle` | akbs/__main__.py:16 | one item is kept exactly when no later argument names it |
| `Builtins.Apply` | akbs/__main__.py:16-28 | a builtin crashes exactly when `replace$` has fewer than three arguments or `eq$`/`neq$` fewer than two; it introduces no `(` its arguments lacked |
| `Builtins.RemoveKeepsOthers` | akbs/__main__.py:16 | splitting the result of `remove$` on spaces gives the first argument's items minus those the later arguments name, in order |
| `Builtins.RemoveAbsent` | akbs/__main__.py:16 | `remove$` of names that are not present returns its first argument unchanged |
| `Builtins.WithoutNothing` | akbs/__main__.py:16 | dropping names that do not occur keeps the list as it is |
| `Builtins.ReplaceSplitsAndJoins` | akbs/__main__.py:17 | `replace$(s, p, r)` splits `s` at `p` and rejoins with `r` |
| `Builtins.TruthyIgnoresCase` | akbs/__main__.py:26-28 | the `true`/`on` test ignores case: upper- or lower-casing a value does not change its truth |
| `Builtins.ShowTruthy` | akbs/__main__.py:26-28 | `str()` of a boolean reads back as the same truth value in `and$`/`or$`/`not$` |
| `Builtins.Connectives` | akbs/__main__.py:26-28 | on boolean results, `and$`, `or$` and `not$` compute conjunction, disjunction and negation |
| `Builtins.Complements` | akbs/__main__.py:18-25 | `notset$` is `not$` of `set$`, and `neq$` is `not$` of `eq$` |
| `Rewriter.Present` | akbs/__main__.py:174 | the work list is never longer than the table; its contents are stated by the three lemmas below |
| `Rewriter.PresentMembers` | akbs/__main__.py:174 | an entry is on the work list exactly when it is in the table and its pattern occurs in the line; with no pattern occurring the list is empty |
| `Rewriter.PresentConcat` | akbs/__main__.py:174 | the work list of a concatenated table is the two parts' work lists in turn: table order and repetitions are kept |
| `Rewriter.PresentSingle` | akbs/__main__.py:174 | one entry is on the work list exactly when its pattern occurs |
| `Rewriter.ExpandsOneVariable` | akbs/__main__.py:202-209 | with one variable, `clrvars` replaces every `$NAME` by its value |
| `Rewriter.SubstitutePresent` | akbs/__main__.py:172-179 | the loop that pops and replaces computes the single-pass substitution |
| `Rewriter.ClearDefines` | akbs/__main__.py:172-179 | `clrdefines` is the single-pass define substitution |
| `Rewriter.ClearVars` | akbs/__main__.py:202-209 | `clrvars` is the single-pass `$NAME` substitution |
| `Rewriter.SubstituteReverseOrder` | akbs/__main__.py:176-178 | with two patterns present, the later one in the table is replaced first |
| `Rewriter.AbsentNameIsIgnored` | akbs/__main__.py:172-179 | a name that does not occur in the line on entry is never replaced, wherever it stands in the table |
| `Rewriter.OnePresentNameReplacedOnce` | akbs/__main__.py:172-179 | with one name present on entry, the result is that single replacement: what its value introduces is not expanded again |
| `Rewriter.DefineIsNotRescanned` | akbs/__main__.py:172-179 | with defines `A -> B` then `B -> x`, `A` becomes `B`, not `x` |
| `Rewriter.LongerVariableFirstWhenSetLater` | akbs/__main__.py:202-209 | `$AB` becomes the value of `AB` when `AB` comes after `A` in the table |
| `Rewriter.ShorterVariableFirstWhenSetLater` | akbs/__main__.py:202-209 | `$AB` becomes `A`'s value followed by `B` when `A` comes after `AB` |
| `Rewriter.NameRun` | akbs/__main__.py:198 | the longest prefix of letters and `$` |
| `Rewriter.ArgsRun` | akbs/__main__.py:198 | the longest prefix without a parenthesis |
| `Rewriter.MatchCall` | akbs/__main__.py:198 | a returned call is a match of the call pattern at the start of the text |
| `Rewriter.MatchCallFindsEveryMatch` | akbs/__main__.py:198 | every match of the call pattern at the start of the text is the one found |
| `Rewriter.MatchedText` | akbs/__main__.py:198 | a match is an innermost call: one `(` and arguments without parentheses |
| `Rewriter.ArgList` | akbs/__main__.py:189 | the argument list is never empty |
| `Rewriter.Invoke` | akbs/__main__.py:182-191 | a name without `$` gives back the matched text; an unknown `$` name is the fatal "Command not found" |
| `Rewriter.UnknownCommandIsFatal` | akbs/__main__.py:191 | a pass that meets an unknown `$` name fails with "Command not found" |
| `Rewriter.PassShrinks` | akbs/__main__.py:193-198 | a pass never adds a `(`, and a pass that keeps their number changes nothing |
| `Rewriter.PassWithoutDollar` | akbs/__main__.py:186-187 | a text without `$` passes through unchanged |
| `Rewriter.EvalCallsIsFixpoint` | akbs/__main__.py:193-200 | what `clrfuncs` returns is unchanged by one more pass |
| `Rewriter.ClearFuncs` | akbs/__main__.py:181-200 | the loop computes `EvalCalls`, and its result is a fixed point of a pass |
| `Rewriter.RewriteLine` | akbs/__main__.py:213 | the line is rewritten as defines, then variables, then calls, then strip |
| `Rewriter.RewriteDefinesOnly` | akbs/__main__.py:213 | without variables or `$`, rewriting is define substitution and strip |
| `Rewriter.RewriteNotIdempotent` | akbs/__main__.py:213 | rewriting `A` gives `B`, and rewriting `B` gives `x`, under defines `A -> B`, `B -> x` |
| `Directives.Classify` | akbs/__main__.py:215-340 | a directive is chosen only if its prefix starts the line, and no earlier directive's prefix does |
| `Directives.PrefixesAreLiteral` | akbs/__main__.py:221-230 | `setup` is a `set` line and `ifdef X` an `if` line |
| `Directives.SpaceRun` | akbs/__main__.py:223 | the longest prefix of spaces (`[ ]*`) |
| `Directives.LineRun` | akbs/__main__.py:232 | the longest prefix without a newline, which is how far `.` reaches |
| `Directives.FirstClose` | akbs/__main__.py:223 | the first `)` in the range, as the lazy group ends |
| `Directives.LastClose` | akbs/__main__.py:232 | the last `)` in the range, as the greedy group ends |
| `Directives.GroupAt` | akbs/__main__.py:223-224 | a group is non-empty and has no newline; a lazy group has no `)` after its first character; the text is the keyword, spaces, `(`, the group and `)`, and a greedy group is followed by no other `)` on its line |
| `Directives.GroupLayout` | akbs/__main__.py:223-232 | the group ends at a `)` on the line: the first one after its first character when lazy, the last one when greedy |
| `Directives.Search` | akbs/__main__.py:232 | `re.search`: a found group is non-empty and has no newline, and a lazy one has no `)` after its first character |
| `Directives.SearchFromSkips` | akbs/__main__.py:232 | positions where the pattern does not match are passed over |
| `Directives.SearchFindsLeftmost` | akbs/__main__.py:232 | the search gives the group of the leftmost position where the pattern matches |
| `Directives.SearchFails` | akbs/__main__.py:232 | the search fails exactly when the pattern matches at no position |
| `Directives.CloseOfCall` | akbs/__main__.py:223-232 | in `g)`, the `)` that closes the group is the one after `g` |
| `Directives.CallLayout` | akbs/__main__.py:223 | `kw(g)` is the keyword, no spaces, `(` and `g)` |
| `Directives.GroupOfCall` | akbs/__main__.py:223-232 | a line that is exactly `kw(g)` yields `g`, lazily or greedily, when `g` is one line and, read lazily, has no `)` after its first character |
| `Directives.NonEmpty` | akbs/__main__.py:224 | the kept pieces are exactly the non-empty pieces of the input |
| `Directives.NonEmptyConcat` | akbs/__main__.py:224 | filtering a concatenation filters each part in turn, so order and repetitions are kept |
| `Directives.NonEmptySingle` | akbs/__main__.py:224 | one piece is kept exactly when it is non-empty |
| `Directives.DefineParts` | akbs/__main__.py:218 | `%define` either unpacks or crashes |
| `Directives.DefineTakesRestOfLine` | akbs/__main__.py:218-219 | `%define NAME VALUE` binds `NAME` to the whole rest of the line, spaces included |
| `Directives.DefineWithoutValueCrashes` | akbs/__main__.py:218 | `%define NAME` with no value is the unpacking `ValueError` |
| `Directives.SetParts` | akbs/__main__.py:223-224 | `set` yields a pair or crashes |
| `Directives.PairPieces` | akbs/__main__.py:224 | `K, V` split on its comma gives `K` and ` V` |
| `Directives.SetBindsStrippedPair` | akbs/__main__.py:223-228 | `set(K, V)` binds the stripped `K` to the stripped `V` when both are one line without `,` or `)` and `K` is not empty |
| `Directives.IfCondition` | akbs/__main__.py:232-233 | the condition holds no space |
| `Directives.IfTakesWholeCondition` | akbs/__main__.py:232-233 | `if(COND)` reads everything up to the line's last `)`, spaces removed |
| `Directives.RemoveAllOfChar` | akbs/__main__.py:233 | `replace(" ", "")` leaves no space |
| `Directives.CheckForLanguages` | akbs/__main__.py:254-255 | `check_for` yields at least one language name or crashes |
| `Directives.NameChars` | akbs/__main__.py:254-255 | a language name has no space, newline, `,` or `)`, and is its own strip |
| `Directives.DropSpaces` | akbs/__main__.py:255 | removing the spaces of `L1, L2, ...` leaves `L1,L2,...` |
| `Directives.NamesGroup` | akbs/__main__.py:254-255 | the group of `check_for(L1, L2, ...)` is `L1, L2, ...` |
| `Directives.CheckForGroup` | akbs/__main__.py:254-255 | the group of `check_for(g)` is `g` when `g` is one line without `)` |
| `Directives.NamesPieces` | akbs/__main__.py:255 | `L1, L2, ...` without spaces, split on `,` and stripped, is the list of names |
| `Directives.CheckForListsLanguages` | akbs/__main__.py:254-260 | `check_for(L1, L2, ...)` lists the languages `L1`, `L2`, ... in the order written |
| `Directives.CompileParts` | akbs/__main__.py:270-271 | `compile` yields a pair or crashes |
| `Directives.CompileNamesKindAndFiles` | akbs/__main__.py:270-271 | `compile(KIND, FILES)` yields the stripped kind and the stripped file list when both are one line without `,` or `)` |
| `Directives.ExitCode` | akbs/__main__.py:343-345 | `exit` with no second word exits 0 |
| `Directives.ExitCodeOfNumber` | akbs/__main__.py:343-345 | `exit N` exits with `N` |
| `Toolchain.Candidates` | akbs/__main__.py:30-37 | exactly the six known languages have a non-empty candidate list |
| `Toolchain.TestCode` | akbs/__main__.py:117-122 | exactly the four source languages have a test program |
| `Toolchain.KeysDiffer` | akbs/__main__.py:146-149 | the compiler variable and the standard variable of a language differ |
| `Toolchain.StdCommand` | akbs/__main__.py:158-159 | the standard probe runs the candidate with `-std=` |
| `Toolchain.StdCommandOfCxx` | akbs/__main__.py:158-159 | for C++ the flag reads `-std=c++N` on `.tmp.cxx` |
| `Toolchain.Probe` | akbs/__main__.py:138-170 | the search yields a listed candidate, or fails fatally with "Could not find any of" and the list |
| `Toolchain.ProbeSkips` | akbs/__main__.py:141-168 | a candidate that does not launch, or fails the standard check, passes the search on to the next |
| `Toolchain.ProbeStep` | akbs/__main__.py:138-166 | the search takes the current candidate if it qualifies and otherwise goes on |
| `Toolchain.ProbeFindsAny` | akbs/__main__.py:138-170 | the search succeeds exactly when some candidate qualifies |
| `Toolchain.ProbeChoosesFirst` | akbs/__main__.py:138-166 | the search succeeds exactly when some candidate qualifies, and it then returns the first such candidate |
| `Toolchain.ProbeLinkerWithStd` | akbs/__main__.py:149-156 | with a standard set for a language without a test program, the search never succeeds; it crashes exactly when a candidate launches |
| `Toolchain.PersistedExactly` | akbs/__main__.py:357-359 | an entry is saved exactly when it is a known language's compiler variable with its current non-empty value |
| `Toolchain.PersistedDistinct` | akbs/__main__.py:357-359 | the saved compiler cache has unique keys |
| `Toolchain.PersistedOrder` | akbs/__main__.py:357-359 | saved entries follow the language order |
| `Build.Objects` | akbs/__main__.py:274-275 | the object list names exactly the object of each listed source with a known extension |
| `Build.ObjectsConcat` | akbs/__main__.py:274-275 | the object list of a concatenation is the two parts' object lists in turn |
| `Build.ObjectsSingle` | akbs/__main__.py:274-275 | one source contributes its object exactly when its extension is known |
| `Build.ObjectNamesAgree` | akbs/__main__.py:274-294 | for a name with a dot, the listed object and the compiled object are the same path |
| `Build.ObjectNamesDisagreeWithoutDot` | akbs/__main__.py:274-294 | for the source `c`, the listed object is `./o` and the compiled one is `./.o` |
| `Build.Language` | akbs/__main__.py:304-305 | exactly `c`, `cpp`, `asm` and `S` have a language, and each has candidates and a test program |
| `Build.CompileCommand` | akbs/__main__.py:310-311 | the command exists exactly when the compiler variable is set and (for assembly) no standard variable is looked up; it starts with compiler, output and source |
| `Build.CommandShape` | akbs/__main__.py:310-311 | without a standard, the flags are appended to the head; with a C standard, ` -std=cN` is appended instead |
| `Build.FlagsFollowWithoutSpace` | akbs/__main__.py:311 | `main.c` with flags `-O2` compiles as `gcc -o ./main.o -c main.c-O2` |
| `Build.StandardReplacesFlags` | akbs/__main__.py:311 | with `C_STD` set, the flags are dropped and ` -std=c99` follows |
| `Build.LinkCommand` | akbs/__main__.py:334-337 | linking needs `OUTPUT` and the kind's compiler variable, and then starts with that program |
| `Build.LinkShape` | akbs/__main__.py:334-337 | the exact shared-library and archive command lines |
| `Build.LinkWords` | akbs/__main__.py:334-337 | the link command's words joined by single spaces: `-shared -o` for a shared library, `rcs` and an empty word otherwise |
| `Build.LinkIgnoresKindCase` | akbs/__main__.py:334-337 | the link command does not depend on the case of the kind: `shared` and `SHARED` link alike |
| `Build.UpToDate` | akbs/__main__.py:291-295 | a source is skipped exactly when caching is on, its recorded time equals its current one and its object exists; a recorded source with no time is a crash |
| `Interp.Stopped` | akbs/__main__.py:74-82 | `error()` becomes a failed ending with its message, and an exception a crash; neither is a normal end |
| `Interp.StoppedPropagates` | akbs/__main__.py:74-82 | a failure carried through another computation ends the run the same way |
| `Interp.MatchingEndif` | akbs/__main__.py:237-246 | a found line rewrites to exactly `endif` |
| `Interp.MatchingEndifIsFirstClosing` | akbs/__main__.py:237-246 | the skip stops at the first `endif` at depth zero, and finds none exactly when no line closes the block |
| `Interp.NestedBlockIsSkipped` | akbs/__main__.py:237-246 | a nested `if`...`endif` inside a false block is skipped whole |
| `Interp.NoDefines` | akbs/__main__.py:239 | without defines, the skip loop sees the raw lines |
| `Interp.CheckAll` | akbs/__main__.py:258-260 | after `check_for`, every listed language has a compiler, and only compiler variables of listed languages change |
| `Interp.CheckOne` | akbs/__main__.py:260 | an unknown language is a `KeyError` crash; a known one keeps a cached compiler, and otherwise gets the probe's choice as its compiler variable, or the probe's failure |
| `Interp.Choose` | akbs/__main__.py:132-170 | a cached compiler is kept as it is; otherwise the outcome is the probe's: on success the compiler variable is set to the chosen candidate and nothing else changes, and a failed probe is the failure |
| `Interp.InitialVariables` | akbs/__main__.py:97-111 | the start variables always hold `PLATFORM` |
| `Interp.SavedCompilerIsReloaded` | akbs/__main__.py:102-105 | a compiler saved by one run is the value the next run starts with, unless the environment overrides it |
| `Interp.SavedHashes` | akbs/__main__.py:348-355 | modification times are saved exactly on `error()` or on a normal end outside clean mode, with caching on |
| `Interp.SavedCompilers` | akbs/__main__.py:348-359 | the compiler cache is saved exactly on a normal end outside clean mode with caching on, and it is the filtered variable table |
| `Interp.StdKeyIsNotCompilerKey` | akbs/__main__.py:311 | the standard variable a compile reads is never a compiler variable |
| `Interp.CompilerKeyIsCompilerKey` | akbs/__main__.py:310 | every `<LANG>_COMPILER` name is a compiler variable |
| `Interp.CompilersOnlyStep` | akbs/__main__.py:316-319 | setting one compiler again after changes to compilers only is still a change to compilers only |
| `Interp.CompilersOnlyKeepsLayout` | akbs/__main__.py:288-337 | a compile that changes compiler variables only keeps `BUILD_DIR`, `OUTPUT` and `OUTPUT_DIR`, and so the name of every object |
| `Interp.BuiltOneMore` | akbs/__main__.py:288-295 | one more source whose object exists extends the sources whose objects exist, as long as no file went away |
| `Interp.RecordOneMore` | akbs/__main__.py:323-326 | recording one more source, or finding its time already recorded, extends the recorded sources by it |
| `Interp.Interpreter.constructor` | akbs/__main__.py:124-126 | the run starts at line 0 of the script split on newlines, with no defines and nothing done |
| `Interp.Interpreter.LookFor` | akbs/__main__.py:129-170 | a cached compiler is returned untouched; otherwise the result is the probe search, the compiler variable is set to it, and no other variable changes |
| `Interp.Interpreter.Search` | akbs/__main__.py:138-170 | the candidate loop yields the probe search, and on success the variable holds the chosen candidate |
| `Interp.Interpreter.TryCandidate` | akbs/__main__.py:140-168 | one candidate: the variable is set as soon as it launches, and the result settles the search or defers it to the next candidate |
| `Interp.Interpreter.SkipBlock` | akbs/__main__.py:235-246 | the counter lands on the matching `endif`, or runs off the end exactly when there is none |
| `Interp.Interpreter.DoDefine` | akbs/__main__.py:215-219 | `%define` binds the name to the rest of the line, or crashes with the defines unchanged |
| `Interp.Interpreter.DoSet` | akbs/__main__.py:221-228 | `set` binds the variable, or crashes with the variables unchanged |
| `Interp.Interpreter.DoIf` | akbs/__main__.py:230-246 | a true condition continues at the next line; a false one continues at the matching `endif`, or crashes with `IndexError` when there is none |
| `Interp.Interpreter.DoCheckFor` | akbs/__main__.py:248-260 | clean mode changes nothing; otherwise the variables become those of checking every listed language, or the run stops |
| `Interp.Interpreter.CheckLanguage` | akbs/__main__.py:258-260 | the loop body looks for one language, with the same outcome as `CheckOne` |
| `Interp.Interpreter.RemoveExisting` | akbs/__main__.py:279-281 | exactly the listed files that exist are removed |
| `Interp.Interpreter.Exec` | akbs/__main__.py:307-313 | the compile command is run and its status returned, or a missing variable crashes before anything is run |
| `Interp.Interpreter.Attempt` | akbs/__main__.py:307-323 | the first command is the one the old variables give; a second runs only after status `0x7F00` for a cached compiler and a fresh probe that succeeded, whose choice is then the compiler; a failed fresh probe is the outcome; success exactly when the final status is 0, and "Compilation failed" otherwise; no variable but that compiler changes |
| `Interp.Interpreter.RunCompile` | akbs/__main__.py:307-321 | the commands run are the first one the old variables give and, only after status `0x7F00` for a cached compiler, the fresh probe's; the result is the final status exactly when there is one, and otherwise the crash or the probe's failure; only that language's compiler variable may change, and after a second command it holds the probe's choice |
| `Interp.Interpreter.Retry` | akbs/__main__.py:314-320 | the second try is the fresh probe's outcome: on failure nothing more runs; on success the compiler variable holds its choice and the compile command runs once more |
| `Interp.Interpreter.CompileSource` | akbs/__main__.py:289-326 | an up-to-date source is skipped with nothing changed; a recorded source with no time is a crash; a stale one is compiled as `Attempt` states, with a `KeyError` for an unknown extension, and a success records its object and its modification time; only compiler variables may change, and for a stale source only its language's, which after a retry holds the fresh probe's choice |
| `Interp.Interpreter.CompileStale` | akbs/__main__.py:298-326 | an unknown extension is a `KeyError` before anything runs; otherwise the compile goes as `Attempt` states and, after a final status of 0, succeeds exactly when the time can be recorded; a success records its object and, with caching on, its modification time; only the language's compiler variable may change, and after a retry it holds the fresh probe's choice |
| `Interp.Interpreter.Record` | akbs/__main__.py:323-326 | the modification time is stored with caching on, and a missing time is a crash |
| `Interp.Interpreter.CompileAll` | akbs/__main__.py:288-327 | only compiler variables change; when the loop completes, every listed source was compiled or found up to date, so its object exists, and with caching on each one's recorded time is its current modification time |
| `Interp.Interpreter.Clean` | akbs/__main__.py:277-286 | clean mode removes the existing objects and the output, and crashes when `OUTPUT` is unset |
| `Interp.Interpreter.DoCompileLine` | akbs/__main__.py:268-337 | a malformed `compile` line stops the run with nothing changed; a well-formed one has exactly `DoCompile`'s outcome for its parsed arguments |
| `Interp.Interpreter.DoCompile` | akbs/__main__.py:268-337 | clean mode only removes files; otherwise only compiler variables change and, when the run goes on, every listed source's object exists, the last command run is the link command, and every source's time is recorded |
| `Interp.Interpreter.Build` | akbs/__main__.py:288-337 | only compiler variables change; when the run goes on, every listed source's object exists and the link command is run last |
| `Interp.Interpreter.Dispatch` | akbs/__main__.py:215-345 | `print` and unknown lines change nothing, and `exit` stops with its code |
| `Interp.Interpreter.Step` | akbs/__main__.py:211-213 | the current line is replaced by its rewriting before dispatch, and a failed rewrite stops the run with the line untouched |
| `Interp.Interpreter.Run` | akbs/__main__.py:211-346 | a normal end is reached only past the last line; defines and variables are never removed, and commands are only appended |

## Left out

- Command-line parsing, the Windows refusal and `--version` (akbs/__main__.py:40-65) are not modelled. The flags `clean` and `no-cache` become constructor parameters.
- Reading the script file or standard input is not modelled. The constructor takes the script text.
- JSON reading and writing of `.hashes` and `.comp_caches` is not modelled. What would be written is returned by `Interp.SavedHashes` and `Interp.SavedCompilers`, and the loaded tables are parameters.
- Deleting the cache files at the end of clean mode is not modelled. That includes the `FileNotFoundError` when one is absent.
- All printed output is not modelled: progress messages, `print` lines, and the line number and text that `error()` writes.
- `wildcard$` depends on the file system (glob), so it is not modelled. A call to it ends the run as `Unmodelled`.
- `gt$`, `lt$`, `gte$` and `lte$` depend on floating point, so they are not modelled. A call to one ends the run as `Unmodelled`.
- The test program is not written to `.tmp.<lang>`. Only whether one exists for the language is modelled, because its absence is a `KeyError`.
- `os.makedirs` for the build and output directories is not modelled.
- The file system is a snapshot taken at the start: modification times and present files, plus the files the run removes and the objects it makes. Files that change while the run is going are not modelled.
- The linker's exit status is not modelled because the code ignores it. The model records the command only.
- `Text.Lower` and `Text.Upper` handle ASCII letters only, so non-ASCII case mapping is not modelled. For the `true`/`on` tests this gives the same answers.
- `Text.ParseInt` accepts ASCII digits only. The non-ASCII digits that Python's `int()` also accepts are not modelled.
- `Interp.Interpreter.Run`: states only what every run keeps. It gives no closed-form function of the whole script's outcome.
- `Interp.Interpreter.Dispatch`: states the `print`, unknown and `exit` cases directly. The other directives' effects are stated by the methods it calls: `DoDefine`, `DoSet`, `DoIf`, and through `DoToolchain`, `DoCheckFor` and `DoCompileLine`.
- `Interp.Interpreter.CompileAll`: states which objects exist and which times are recorded, with the per-source commands stated by `CompileSource`. It does not list the exact sequence of commands run for the whole list.
- `Interp.Interpreter.DoCompile`: outside clean mode it states the link command and recorded times only when the line completes. A failure's ending is stated through `Attempt` and `Record`.
- Modification times are integers; Python's `os.path.getmtime` returns floats. The code only compares them for equality and stores them, so nothing else depends on the difference.
- `Interp.Interpreter.Build`: states the objects, the link command and recorded times on success only.
