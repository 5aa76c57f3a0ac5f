# A verified model of the launcher's argument classifier and manifest resolver

The launcher is a small Rust command-line tool that builds a Cargo project
and runs the binary it produces. This project models two self-contained
parts of it in Dafny and proves what they promise:

- **The command-line classifier** (`parse_args_from`, `src/cli.rs`). It makes
  one pass over the argument tokens and does the following:
  - recognises `--test`, `--build` and `--release`;
  - recognises the three forms of `--release-bin` and the two forms of
    `--project`;
  - stops option parsing at `--`;
  - forwards every other token to the project;
  - after the pass, promotes the first forwarded token to the positional
    project name.

  Help and version end the parse with an exit of status 0. The only error is
  a missing project name.
- **The manifest resolver** (`src/helpers.rs`). It scans `Cargo.toml` line by
  line and finds two things:
  - the package name (`get_package_name`);
  - the binary that `cargo build` will produce (`get_binary_name`). This
    scan follows the `[package]` and `[[bin]]` tables, then picks the
    artifact through a priority chain (`get_explicit_main_bin_name`,
    `is_main_source_path`).

  It also models the one-line readers `parse_toml_string_value` and
  `parse_toml_bool_value`.

The files:

- `wrappers.dfy`: `Option` and `Result`.
- `text.dfy`: the Rust `str` operations the code relies on (`trim`,
  `trim_start`, `starts_with`, `find`), with Rust's Unicode whitespace set.
- `cli.dfy`: the classifier, specified in three layers:
  - `Lex` cuts the tokens into items;
  - `Run` folds the items into a `CliArgs`;
  - `Promote` applies the positional rule.

  The method `ParseArgsFrom` follows the Rust loop, with its index, mode
  flag and forwarding buffer, and is proved to compute `Promote ∘ Run ∘ Lex`.
  Lemmas state token conservation, order preservation, last-write-wins, the
  per-option forms and the failure cases.

  The per-option lemmas speak about a token placed after any prefix that is
  still reading options: none of its tokens is read as the `--` separator
  (a `--` taken as the value of `--project` does not count), and it does not
  end in a bare `--project`, which would take the next token as its value
  (`Open`).
- `toml_values.dfy`: the string reader, as a specification function plus a
  method with the Rust character loop, and its escape round trip. Also the
  boolean reader and the main-source path test.
- `manifest.dfy`: the resolver stated declaratively:
  - each line is read into a `Line` (a header or an entry);
  - a line belongs to the table of the last header above it;
  - a table's field is the first line of that table that sets it, or, for
    `autobins`, the last.

  The two Rust loops are written as folds (`PackageUpTo`, `ScanUpTo`) and
  proved to agree with the declarative reading. The priority chain is a
  function with its rules proved.
- `resolver.dfy`: `get_package_name` and `get_binary_name` as the Rust code
  runs them: loops over the lines, with the early return, section flags and
  accumulated bin records. Each is proved to compute the corresponding
  `Manifest` function.

## Model

| member | source | states |
|---|---|---|
| Cli.ParseArgsFrom | src/cli.rs:17-98 | The token loop (mode flag, one-token lookahead, buffer, post-scan promotion) returns exactly `ParseArgs(tokens)`, the classifier's specification, for every token list. |
| Cli.Head | src/cli.rs:39-84 | The item the front tokens form with option parsing on, and how many tokens it takes. That is one or two, and never more than there are tokens. The item is never the separator item. |
| Cli.Lex | src/cli.rs:28-85 | The whole stream cut into items: a `--` turns every later token into a forwarded item, and before it each item is read by `Head` (no contract of its own). `Cli.LexConserves`, `Cli.LexAppend` and `Cli.ProjectBareIsLast` state its meaning. |
| Cli.Step | src/cli.rs:29-84 | What one item does to the arguments: set a flag or option, forward a token, end with an exit or the missing-name error. It never touches the positional name. |
| Cli.Run | src/cli.rs:28-85 | The items folded into the arguments left to right, stopping at the first item that ends the parse. The positional name is left untouched. `Cli.RunSettles` states the outcome in closed form. |
| Cli.ClassifyOption | src/cli.rs:39-84 | One token read with option parsing on yields the step of the item it starts, and the index after the tokens that item took (one, or two when a value is consumed). |
| Cli.Promote | src/cli.rs:87-95 | `project_name` is set iff no `--project` was given and the buffer's first token does not start with `--`. Name and remaining arguments together are the buffer, and nothing else changes. |
| Cli.ParseArgs | src/cli.rs:17-98 | The classifier's specification, `Promote ∘ Run ∘ Lex` (no contract of its own). `Cli.ParseArgsSettles` and `Cli.ParseArgsEnds` give its meaning, and `Cli.ParseArgsFrom` is proved to compute it. |
| Cli.LexConserves | src/cli.rs:28-85 | Every input token lies in exactly one item, in order: the items' tokens concatenate back to the input. |
| Cli.HeadTokens | src/cli.rs:39-84 | The item read at the front is made of exactly the tokens it consumed. |
| Cli.RunSettles | src/cli.rs:28-85 | The left-to-right fold succeeds iff no item ends the parse. It then leaves each flag on iff it occurs, each valued option at its last value, and the forwarded tokens appended in order. Otherwise it yields what the first ending item produces. |
| Cli.ForwardedIsSubsequence | src/cli.rs:83 | The forwarded tokens are drawn from the input's tokens, verbatim and in their relative order. `Cli.ForwardForm` gives the converse: every unrecognised token is kept. |
| Cli.ParseArgsSettles | src/cli.rs:17-98 | For any input, the parse succeeds iff no ending item occurs. Then: flags equal "occurs"; `project` and `release_bin` are last-write-wins; project name plus arguments equal the forwarded tokens, a subsequence of the input; promotion happens iff no `--project` was given and the first forwarded token lacks `--`. |
| Cli.ParseArgsEnds | src/cli.rs:39-81 | The parse fails with "Missing project name" iff the first ending item is `--project=` with an empty value or a bare trailing `--project`. It exits, with status 0, iff that item is `-h`/`--help`/`-V`/`--version`. |
| Cli.ProjectBareIsLast | src/cli.rs:76-80 | A bare `--project` item arises only from the very last token. |
| Cli.LexAppend | src/cli.rs:28-85 | After a prefix that is still reading options (no `--` read as the separator, not ending in a bare `--project`), the rest of the stream is cut into items independently of the prefix. A prefix ending in a bare `--release-bin` qualifies when the rest is empty or starts with a `--` token, since that option then consumes nothing. |
| Cli.SeparatorForwardsRest | src/cli.rs:29-36 | After a prefix that is still reading options, a `--` token: the separator is dropped and every later token (`--build` and `-h` included) is appended verbatim and in order to the forwarded arguments. Nothing else changes. |
| Cli.PrefixEnded | src/cli.rs:39-81 | After a prefix that is still reading options and has already ended the parse (help, version, or `--project=` with an empty value), later tokens do not matter. If the prefix ends in a bare `--release-bin`, the later tokens must be empty or start with a `--` token. A trailing bare `--project` is excluded, because it would take the next token as its value. |
| Cli.ProjectNextForm | src/cli.rs:76-77 | After a prefix that is still reading options, `--project V` sets `project` to V and consumes it, whatever V looks like (even `--…`). |
| Cli.ProjectBareForm | src/cli.rs:78-80 | After a prefix that is still reading options, `--project` as the last token fails with "Missing project name". |
| Cli.ProjectEqForm | src/cli.rs:71-75 | After a prefix that is still reading options, `--project=V` sets V and consumes nothing more; an empty V fails with "Missing project name". |
| Cli.ReleaseBinEqForm | src/cli.rs:53-58 | After a prefix that is still reading options, `--release-bin=` gives the default destination (`Some(None)`); `--release-bin=V` with non-empty V gives `Some(Some(V))`. |
| Cli.ReleaseBinNextForm | src/cli.rs:59-64 | After a prefix that is still reading options, `--release-bin V` consumes V as the destination when V does not start with `--`. Otherwise it sets the default destination, consumes nothing, and V is read as an option of its own. |
| Cli.ReleaseBinBareForm | src/cli.rs:65-67 | After a prefix that is still reading options, `--release-bin` as the last token sets the default destination. |
| Cli.FlagSetsOnly | src/cli.rs:48-50 | After a prefix that is still reading options, `--test`, `--build` and `--release` consume nothing and set only their own flag. |
| Cli.FlagPair | src/cli.rs:48-50 | Two such flags in a row set both flags and consume nothing else. |
| Cli.ForwardIffUnrecognised | src/cli.rs:39-84 | With option parsing on, the front token becomes a forwarded item iff it is not `--`, `-h`, `--help`, `-V`, `--version`, one of the three flags, or a form of `--release-bin` or `--project`. A forwarded item is that very token and takes nothing else. |
| Cli.ForwardForm | src/cli.rs:83 | After a prefix that leaves it unconsumed, an unrecognised token is appended verbatim to the forwarded arguments, and nothing else changes. |
| Cli.UnknownTokensForwarded | src/cli.rs:83 | `--unknown-flag`, `-vv`, `-x`, `---weird-flag` and the empty token are all unrecognised, and so are forwarded. |
| Cli.FlagsCommute | src/cli.rs:48-50 | After a prefix that is still reading options (no `--` read as the separator, not ending in a bare `--project`), swapping two adjacent such flags leaves the parse unchanged. |
| TomlValues.SplitOnce | src/helpers.rs:267 | `split_once('=')`: nothing iff there is no `=`; otherwise the text before the first `=` (containing none) and the text after it, which joined around `=` give the line back. |
| TomlValues.SplitOnceJoin | src/helpers.rs:267 | Splitting a line built around its first `=` gives the two parts back. |
| TomlValues.StringValue | src/helpers.rs:266-295 | `parse_toml_string_value` as a function (no contract of its own). Its meaning is given by `TomlValues.StringValueShape` and `TomlValues.StringValueRoundTrip`. |
| TomlValues.ParseTomlStringValue | src/helpers.rs:266-295 | The reader (split at `=`, key match, opening quote, character loop) returns exactly `StringValue(line, key)`. |
| TomlValues.ReadQuotedChars | src/helpers.rs:277-294 | The character loop with its `escaped` flag returns exactly what the text after the opening quote reads as (`Unquote`). |
| TomlValues.StringValueShape | src/helpers.rs:266-275 | A value is read only from a line with an `=` whose left side, trimmed, equals the key and whose right side, left-trimmed, opens with `"`. The value is what the text after the quote reads as. |
| TomlValues.ReadQuoted | src/helpers.rs:277-294 | A value is produced only if the text holds a quote. The result extends what was already parsed and is shorter than the text read. |
| TomlValues.EscapeKeepsNext | src/helpers.rs:281-288 | A backslash is dropped and the next character, quote or backslash included, is kept literally (so `\n` reads as `n`). |
| TomlValues.PlainKept | src/helpers.rs:287-291 | Any character other than a backslash or a quote is kept. |
| TomlValues.TrailingBackslash | src/helpers.rs:280-294 | A trailing backslash leaves the value unclosed: no value. |
| TomlValues.NoQuoteNoValue | src/helpers.rs:280-294 | Without a quote character there is no closing quote: no value. |
| TomlValues.UnclosedNone | src/helpers.rs:277-294 | An escaped value with nothing after it never closes, because every quote in it is escaped: no value. |
| TomlValues.StringValueUnclosed | src/helpers.rs:266-295 | `key = "V` with the closing quote missing reads as no value. This holds with any whitespace around the `=`, and even when V ends in an escaped quote, as in `"abc\"`. |
| TomlValues.ReadEscaped | src/helpers.rs:277-294 | Reading an escaped value followed by a quote gives exactly that value, whatever follows the closing quote. The first unescaped quote ends the value. |
| TomlValues.StringValueRoundTrip | src/helpers.rs:266-295 | `key = "V"` reads back as V. This holds with any whitespace before and after the `=`, with V escaped, and with any text after the closing quote. |
| TomlValues.BeforeHash | src/helpers.rs:303 | `split('#').next()`: the longest prefix without `#`, ending at the first `#` or at the end. |
| TomlValues.BoolValue | src/helpers.rs:297-308 | `parse_toml_bool_value` (no contract of its own). Its meaning is given by `TomlValues.BoolValueShape` and `TomlValues.BoolValueRoundTrip`. |
| TomlValues.BoolValueShape | src/helpers.rs:297-308 | A boolean is read iff the key matches and the value text before the first `#`, trimmed, is exactly `true` or `false`, and it is the boolean that text spells. |
| TomlValues.BoolValueRoundTrip | src/helpers.rs:297-308 | `key = true` and `key = false` read back as the boolean written. This holds with any whitespace around the `=` and the word, alone or followed by a `#` comment. |
| TomlValues.Normalize | src/helpers.rs:261 | Every backslash becomes `/`, every other character is kept, and the length is unchanged. |
| TomlValues.StripDotSlash | src/helpers.rs:262 | `trim_start_matches("./")`: the input is some number of `./` followed by the result, and the result no longer starts with `./`. |
| TomlValues.StripDotSlashes | src/helpers.rs:262 | Stripping removes every leading `./` in front of text that does not start with one, and counts them. |
| TomlValues.IsMainSourcePath | src/helpers.rs:260-264 | `is_main_source_path` (no contract of its own). `TomlValues.MainSourcePathIff` states which paths it accepts. |
| TomlValues.MainSourcePathIff | src/helpers.rs:260-264 | A path names the main source iff, with backslashes read as slashes, it is `src/main.rs` after some number of `./`. |
| Manifest.ReadTrimmed | src/helpers.rs:163-179 | A trimmed line is an entry iff it does not start with `[`. It is the `[package]` or `[[bin]]` header iff it is exactly that text. |
| Manifest.ReadLines | src/helpers.rs:129-130 | Every line of the manifest, trimmed and read, one `Line` per input line. `Manifest.ReadLineAt` states what each one is. |
| Manifest.ReadLineAt | src/helpers.rs:129-130 | Line `i` of the manifest is read from the `i`-th line, trimmed. |
| Manifest.LastHeaderIsLast | src/helpers.rs:129-138 | The header a line belongs under is a header with no other header between it and the line. |
| Manifest.FirstFieldIsFirst | src/helpers.rs:182-197 | A table's field is found iff some line of that table sets it, and it is the value of the first such line. |
| Manifest.LastAutobinsDefault | src/helpers.rs:159 | With no `autobins` inside `[package]`, the default `true` stands. |
| Manifest.LastAutobinsIsLast | src/helpers.rs:185-187 | Otherwise the last line inside `[package]` that sets `autobins` gives its value. |
| Manifest.PackageName | src/helpers.rs:124-149 | The package name is found iff `[package]` sets `name`. Otherwise the error is "Could not find project name". |
| Manifest.PackageNameIsFirstName | src/helpers.rs:129-148 | The package name exists iff some line inside `[package]` sets `name`, and it is the value of the first such line. |
| Manifest.PackageLineStep | src/helpers.rs:130-144 | One line of the `get_package_name` loop on the fold's state (no contract of its own). `Manifest.PackageUpToSections` and `Manifest.PackageFoundStays` state what repeated steps hold. |
| Manifest.PackageUpTo | src/helpers.rs:127-145 | The `get_package_name` loop as a fold of `PackageLineStep` over the first `n` lines (no contract of its own). `Manifest.PackageUpToSections`, `Manifest.PackageFoundStays` and `Manifest.PackageLoopEnd` state its meaning. |
| Manifest.PackageUpToSections | src/helpers.rs:127-145 | The name the `get_package_name` loop holds is the first `name` inside `[package]` so far. Until it holds one, its flag says whether the next line is inside `[package]`; any other `[` line leaves the section. |
| Manifest.PackageFoundStays | src/helpers.rs:141-143 | Once a name is found, later lines change nothing, so the early return loses nothing. |
| Manifest.PackageLoopEnd | src/helpers.rs:129-145 | Wherever the loop stops, early or at the end, it holds the state of the whole pass. |
| Manifest.ScanLine | src/helpers.rs:163-199 | One line of the `get_binary_name` scan: headers set the section flags, and `[[bin]]` adds an empty record (no contract of its own). `Manifest.ScanSections`, `Manifest.ScanPackage` and `Manifest.ScanBins` state what the scan holds. |
| Manifest.SetPackageFields | src/helpers.rs:181-188 | An entry inside `[package]` keeps a set `default-run` and lets a readable `autobins` replace the current value (no contract of its own). `Manifest.ScanPackage` states the result. |
| Manifest.SetBinFields | src/helpers.rs:190-199 | An entry inside a `[[bin]]` table fills in the latest record's missing `name` and `path` (no contract of its own). `Manifest.ScanBins` states the result. |
| Manifest.ScanUpTo | src/helpers.rs:156-200 | The `get_binary_name` loop as a fold of `ScanLine` over the first `n` lines (no contract of its own). `Manifest.ScanSections`, `Manifest.ScanPackage`, `Manifest.ScanBins` and `Manifest.ScanMatchesSections` state its meaning. |
| Manifest.ScanSections | src/helpers.rs:164-179 | The scan's flags say whether the next line is in `[package]` or a `[[bin]]` table. It holds exactly one record per `[[bin]]` line so far. |
| Manifest.ScanPackage | src/helpers.rs:181-188 | The scan holds the first `default-run` of `[package]`, and the last `autobins`, `true` when none is given. |
| Manifest.FreshBinEmpty | src/helpers.rs:169-173 | A `[[bin]]` line opens a table that no earlier line sets fields in, so it starts a fresh, empty record. |
| Manifest.ScanBins | src/helpers.rs:190-199 | The record for the `j`-th `[[bin]]` holds the first `name` and the first `path` set inside that table. |
| Manifest.ScanBinAt | src/helpers.rs:162-199 | One more line keeps every bin record equal to its table's first `name` and `path`. |
| Manifest.OtherTableKeeps | src/helpers.rs:175-199 | An entry in any table other than `[package]` and `[[bin]]` leaves the scan state unchanged. |
| Manifest.ScanMatchesSections | src/helpers.rs:156-200 | The whole scan gives the following: `default-run` = the first in `[package]`; `autobins` = the last in `[package]` or `true`; one record per `[[bin]]`, each with its table's first `name` and `path`. |
| Manifest.BinNames | src/helpers.rs:222-225 | The named bins' names: a string is among them iff some bin has that name. |
| Manifest.MainBinNames | src/helpers.rs:243-252 | The names of the named bins whose path is the main source, in order. Never more than there are bins. `Manifest.MainBinNamesCount` states when it is empty or a singleton. |
| Manifest.MainBinNamesCount | src/helpers.rs:243-252 | The main-source names are empty iff no named bin has a main-source path. There is one iff exactly one bin does, and it is that bin's name. |
| Manifest.ExplicitMainBinName | src/helpers.rs:242-258 | A name is returned iff exactly one named bin has a main-source path, and it is that bin's name. |
| Manifest.ResolveArtifact | src/helpers.rs:202-239 | `default-run` wins when set. Any result is `default-run`, the package name or a declared bin name. The error "Multiple binary targets" arises iff no earlier rung applies and several bins are named. |
| Manifest.ResolvePriority | src/helpers.rs:206-239 | Without `default-run`, the rungs in order: the unique main-source bin; when there is none or several, the package name if a bin is named after it or if `autobins` is on and `src/main.rs` exists; else the single named bin; the package name whenever no bin is named. |
| Manifest.BinNamesOne | src/helpers.rs:222-229 | With exactly one named bin, its name is the only one collected. |
| Manifest.ResolveSeveralNamed | src/helpers.rs:231-236 | The error rung. With no `default-run`, not exactly one main-source bin, no bin named after the package and not both `autobins` and `src/main.rs`, two named bins give "Multiple binary targets", even when they share a name. |
| Manifest.TwoNamed | src/helpers.rs:222-225 | Two named bins, even with the same name, collect two names. |
| Manifest.BinNamesNone | src/helpers.rs:222-225 | Bins without names contribute no names. |
| Manifest.ScanNext | src/helpers.rs:162-163 | The scan over one more line of the manifest is one step of the loop body on that line, trimmed. |
| Manifest.BinaryName | src/helpers.rs:151-240 | `get_binary_name` on the manifest's lines: the package-name error, else the priority chain over the scan (no contract of its own). `Manifest.BinaryNameSources` states its outcomes. |
| Manifest.BinaryNameSources | src/helpers.rs:151-240 | `get_binary_name` fails with "no package name" iff `get_package_name` does. A success is the first `default-run` of `[package]`, the package name, or the first `name` of some `[[bin]]` table. |
| Resolver.PackageLine | src/helpers.rs:130-144 | One line of the `get_package_name` loop: `[package]` sets the flag, other `[` lines clear it, and an entry inside `[package]` yields its `name`. |
| Resolver.FindPackageName | src/helpers.rs:127-145 | The loop with its early return holds the name of the whole fold over the manifest. |
| Resolver.GetPackageName | src/helpers.rs:124-149 | Returns exactly `PackageName` of the manifest's lines: the first `name` in `[package]` or the error. |
| Resolver.ScanPackageEntry | src/helpers.rs:181-188 | Inside `[package]`, `default-run` is read only while unset, and a readable `autobins` replaces the current value. |
| Resolver.ScanBinEntry | src/helpers.rs:190-199 | Inside a `[[bin]]` table, the latest record's missing `name` and `path` are filled in and set ones are kept. |
| Resolver.ScanStep | src/helpers.rs:163-199 | One iteration of the `get_binary_name` loop body is one step of the scan fold. |
| Resolver.ScanManifest | src/helpers.rs:156-200 | The loop leaves exactly the fold over all lines, whose meaning `Manifest.ScanMatchesSections` gives. |
| Resolver.GetBinaryName | src/helpers.rs:151-240 | Returns exactly `BinaryName` of the manifest's lines: the package-name error passed through, else the priority chain over the scan. |

## Left out

- `parse_args` (src/cli.rs:100-102) reads the process arguments. Only `parse_args_from` on a given token list is modelled.
- Help and version printing and `std::process::exit` (src/cli.rs:40-47): they are the outcome `Exit(0, Help)` / `Exit(0, Version)`. The banner and help text are not modelled.
- The Rust code exits the process at help or version. The model returns that outcome instead; the lexer reads past it harmlessly, because the fold stops there.
- Reading `Cargo.toml` (src/helpers.rs:125-126 and 153-154) is replaced by the file's lines, as `contents.lines()` yields them. Splitting the file into lines is not modelled.
- `get_binary_name` reads the file twice, once inside `get_package_name` and once for its own scan. The model gives both the same lines, so a file changing between the two reads is not modelled.
- In the resolver methods, lines are trimmed and classified one at a time, as in Rust. The specification reads every line up front, which gives the same result because the readers are pure.
- The early `return Ok(name)` of `get_package_name` is modelled as a `name.None?` half of the loop guard.
- The existence test of `src/main.rs` (src/helpers.rs:218) is the boolean parameter `mainExists`.
- The error messages are the constructors `MissingProjectName`, `NoPackageName` and `MultipleBinaryTargets(packageName)`; their text is not modelled.
- `run_cargo_command`, `copy_bin`, `find_project_dir`, `is_self_project` and `check_self_run` in src/helpers.rs: subprocesses, the file system and compile-time environment values. src/main.rs, build.rs and src/constants.rs are not part of this model; the main source path is the constant `MainSource`.
- Strings are sequences of Unicode scalar values. Rust's byte-offset slicing (`value[1..]` after a one-byte `"`) is the same as dropping one character there.
