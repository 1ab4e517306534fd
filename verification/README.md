# clang-object-layout-dumper, modelled in Dafny

The layout dumper is a clang plugin (`layout_dump`). Clang reports each tag
definition it parses. For every record (struct, class or union) that passes the
filter and whose bases all resolve, the plugin writes a separator line
`------ Record Decl: <qualified name>` to the diagnostic stream, followed by
clang's record-layout dump. The user can narrow the output with
`--filter=<substring>`.

This project models the plugin's own logic in four modules:

- `Wrappers`: `Option` (for `npos`) and `Result` (for a thrown `out_of_range`).
- `StringUtil`: the plugin's `std::starts_with` and `std::ends_with` helpers. It
  also models the two `std::basic_string` members they use: `compare(pos, len, str)`
  and `find`. The model takes `size_type` to be 64 bits wide, as on LP64
  platforms; the source does not fix the width. Its wrap-around is written out,
  and the `ends_with` finding below holds for any width.
- `Options`: `LayoutDumpAction::ParseArgs`. This is a left fold over the argument
  list in two passes. It produces the `verbose`/`filter` map and the accepted/help
  verdict.
- `Consumer`: `LayoutDumpConsumer::HandleTagDeclDefinition`. It decides whether
  a record passes the filter and whether every base resolves. When both hold, it
  appends one block (separator line plus layout text) to a log that stands for
  the diagnostic stream.

Clang's AST is reduced to what the handler reads:
- whether the tag is a record;
- its qualified name;
- whether it is a C++ record, and for each base whether it resolves to a class
  declaration;
- the text `DumpRecordLayout` prints, taken as an opaque input.

The separator line is written with a trailing newline, `"\n"`. The plugin
keeps no table and does no deduplication: every eligible callback emits its
own block.

## Model

| member | source | states |
|---|---|---|
| StringUtil.SizeSub | LayoutDumper.cpp:27-31 | `big_size - small_size` in `size_type`: the true difference when it is non-negative, otherwise 2^64 minus the shortfall, which lies past the end of `big` |
| StringUtil.CompareEqual | LayoutDumper.cpp:18 | `compare(pos, len, small) == 0` throws exactly when `pos` is past the end; otherwise it is true exactly when the piece of at most `len` characters starting at `pos` equals `small` |
| StringUtil.StartsWith | LayoutDumper.cpp:10-20 | `starts_with(big, small)` is true exactly when `small` is no longer than `big` and `big` begins with `small`, with or without the identity shortcut |
| StringUtil.StartsWithIffConcat | LayoutDumper.cpp:10-20 | `starts_with(big, small)` holds exactly when `big == small + rest` for some `rest` |
| StringUtil.StartsWithEmptyAndSelf | LayoutDumper.cpp:13-19 | the empty string is a prefix of every string, and a string is a prefix of itself |
| StringUtil.StartsWithAliasConsistent | LayoutDumper.cpp:13-14 | the `&big == &small` shortcut returns the same answer as the comparison would |
| StringUtil.EndsWithAsWritten | LayoutDumper.cpp:22-33 | `ends_with` as written throws `out_of_range` exactly when `small` is longer than `big`; otherwise it is true exactly when `big` ends with `small` |
| StringUtil.EndsWithAsWrittenThrows | LayoutDumper.cpp:29-31 | `ends_with("a", "ab")` throws rather than returning false |
| StringUtil.EndsWith | LayoutDumper.cpp:22-33 | corrected `ends_with`: true exactly when `small` is no longer than `big` and is its tail; a longer `small` gives false |
| StringUtil.EndsWithAgreesWhereDefined | LayoutDumper.cpp:27-32 | the as-written helper returns normally exactly when `|small| <= |big|`, and then agrees with the corrected one |
| StringUtil.EndsWithIffConcat | LayoutDumper.cpp:22-33 | corrected `ends_with(big, small)` holds exactly when `big == rest + small` for some `rest` |
| StringUtil.FindFrom | LayoutDumper.cpp:52 | `find` returns the first index at or after `start` where the needle occurs, or `npos` when it occurs nowhere from `start` on |
| StringUtil.ContainsIffInfix | LayoutDumper.cpp:52 | `find(filter) != npos` exactly when the name is `pre + filter + post` for some `pre`, `post` |
| StringUtil.ContainsEmpty | LayoutDumper.cpp:52 | the empty needle is found in every string |
| Options.FilterValue | LayoutDumper.cpp:93-94 | `arg.substr(9)` of a `--filter=` argument is the text after the prefix: `arg == "--filter=" + value` |
| Options.BareFilterIsEmpty | LayoutDumper.cpp:93-94 | the bare argument `--filter=` is a filter argument with value `""` |
| Options.ScanFlags | LayoutDumper.cpp:81-88 | the first pass stops exactly when `--help` occurs. With no `--help`, verbose is "true" iff `--verbose` occurs. With `--help`, verbose is "true" iff `--verbose` occurs before the first `--help` |
| Options.ScanFilters | LayoutDumper.cpp:89-100 | the second pass yields the value of the last `--filter=` argument, or its starting value when there is none |
| Options.ParseArgs | LayoutDumper.cpp:77-102 | returns false exactly when some argument is `--help`, and then the filter stays `""`. Only `verbose` and `filter` are set, and other keys are untouched. On success verbose is "true" iff `--verbose` occurs, and the filter is the last `--filter=` value or `""` |
| Options.ParsedFilterIsLastFilterValue | LayoutDumper.cpp:89-95 | on success the filter is the value of some last `--filter=` argument, or `""` when no such argument exists |
| Options.ScanFlagsIgnores | LayoutDumper.cpp:81-88 | inserting an unrecognised argument anywhere does not change the first pass |
| Options.ScanFiltersIgnores | LayoutDumper.cpp:89-100 | inserting an unrecognised argument anywhere does not change the second pass |
| Options.UnrecognisedArgumentIgnored | LayoutDumper.cpp:79-101 | inserting an unrecognised argument anywhere changes neither the verdict nor the map |
| Consumer.Separator | LayoutDumper.cpp:62 | the separator line starts with `------ Record Decl: `, ends with a newline, and holds exactly the record's qualified name between the two |
| Consumer.FilterTestIsInfix | LayoutDumper.cpp:50-53 | the test "filter empty, or found in the name" is plain infix containment, so an empty filter admits every name |
| Consumer.HandleTagDeclDefinition | LayoutDumper.cpp:47-65 | a record that passes the filter and whose bases all resolve appends exactly one block, separator then layout. A non-record, a filtered-out name or an unresolved base leaves the log unchanged |
| Consumer.HandleAll | LayoutDumper.cpp:47-65 | a sequence of callbacks appends, in order, one block per eligible declaration and nothing else |
| Consumer.EmittedBlocksCount | LayoutDumper.cpp:47-65 | the number of blocks appended equals the number of eligible callbacks, with no deduplication |
| Consumer.RepeatedRecordRepeatsBlock | LayoutDumper.cpp:62-63 | the same eligible record reported twice produces two identical blocks |
| Consumer.BlockDeterminesRecord | LayoutDumper.cpp:62-63 | for names without a newline, two equal blocks have the same qualified name and the same layout text, so a block can be read back into its record |
| Consumer.UnfilteredSessionDumpsResolvedRecords | LayoutDumper.cpp:50-61 | after a successful parse with no `--filter=` argument, a record is dumped exactly when its bases resolve |

## Findings

| source | as written | input that shows it | evidently intended | confidence | as-written member | corrected member |
|---|---|---|---|---|---|---|
| LayoutDumper.cpp:29-32 | the offset `big_size - small_size` is computed unconditionally in unsigned `size_type`, and `compare` is called with it even when `valid_` is false | `ends_with("a", "ab")`: the offset wraps to 2^64 - 1 and `compare` throws `out_of_range` | return false when `small` is longer than `big`, as the `valid_` test suggests | not executed | StringUtil.EndsWithAsWritten (exhibited by StringUtil.EndsWithAsWrittenThrows) | StringUtil.EndsWith (proved by StringUtil.EndsWithAgreesWhereDefined and StringUtil.EndsWithIffConcat) |

`ends_with` is never called in this file, so the corrected helper has no callers
in the model. `starts_with` calls `compare` with position 0 (line 18), so it
cannot throw.

## Left out

- Clang's AST, `dyn_cast`, `getQualifiedNameAsString`, `getAsCXXRecordDecl` and `DumpRecordLayout`: these are calls into clang. The model takes their results as fields of `Consumer.TagDecl`.
- The text of `PrintHelp` and its write to `llvm::errs()`: this is diagnostic output. `--help` shows up only as the false verdict.
- The verbose echo lines (`Arg: ...` and `ParseArgs: Qualified name filter is ...`): these are diagnostic output and do not affect the map or the verdict.
- Plugin registration (`FrontendPluginRegistry::Add`) and `CreateASTConsumer`: this is framework glue. It is also why no model says what clang does after `ParseArgs` returns false.
- `ParsedArgs["filter"]` inserting an empty entry when the key is missing: `Consumer.FilterOf` reads the value `""` but does not model the insertion. The key is always present after `ParseArgs`.
- The lexicographic sign that `compare` returns: the source only tests it against 0.
- The byte encoding of strings: characters are Dafny `char`s.
