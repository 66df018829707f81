# error_message_format: a Dafny model

The modelled repository is a PHP extension written in Rust. It adds one INI
setting, `error_message_format`, and uses it to rewrite every PHP error
message. A template such as `{message} with an append` has the placeholders
`{type}`, `{file}`, `{line}` and `{message}` replaced by the error's fields.
The rewritten message is then passed to the engine's original error handler.

The project models two pieces of that code.

- **The build script** (`build.rs`). It finds the `PHP API => <number>` line
  in the output of `php -i`, which is given here as text. It reads the number
  as a `u32` and maps it onto one of five API generations (`Php80` to
  `Php84`). It then emits the cargo directives for that build: the check-cfg
  declaration, the PHP 8.0 end-of-life warning, and one `rustc-cfg` per
  supported generation.
- **The extension** (`src/lib.rs`):
  - the formatter, which makes four global replacement passes in a fixed
    order;
  - the decisions `error_callback` takes for each error: pass the call
    through, decode the fields, format the message, forward the call or
    drop it;
  - the `startup` transition, which registers the INI entry and swaps the
    engine's handler slot for the extension's callback, saving the previous
    handler. The slot and the saved handler are fields of the class
    `ErrorHook.Runtime`.

Modules:

- `Wrappers`: `Option`, `Result` and `Outcome`.
- `Text`: the Rust `str` operations the code relies on. These are leftmost
  `find`, `split`, `replace` and `lines`, with proofs of how they relate
  (`replace` is split-then-join, join undoes split).
- `Numbers`: `u32` and C `int` ranges, decimal `to_string`, and `u32::from_str`.
- `BuildScript`: the build script.
- `ErrorHook`: the extension.

`get_key`, `zend_version`, `check_php_version`, `startup` and `error_callback`
are methods. `get_key`, `zend_version`, `check_php_version` and
`error_callback` are proved against specification functions whose properties
are proved as lemmas. The contract of `startup` gives the new state of
`Runtime` directly.

## Model

| member | source | states |
|---|---|---|
| `Text.IndexOf` | build.rs:76 | a reported index is an occurrence of the pattern |
| `Text.IndexOfLeftmost` | build.rs:76 | the reported occurrence is the leftmost; `None` means the pattern occurs nowhere |
| `Text.IndexOfFirst` | build.rs:76 | an occurrence with none before it is exactly the one reported |
| `Text.ContainsIndexOf` | build.rs:76-77 | the pattern occurs iff the search finds it |
| `Text.Split` | build.rs:76 | `split` always yields at least one piece |
| `Text.SplitPieces` | build.rs:76-77 | more than one piece iff the separator occurs; no piece contains the separator |
| `Text.JoinSplit` | build.rs:76 | joining the pieces with the separator gives back the line |
| `Text.FirstPiece` | build.rs:76 | the first piece is a prefix that ends at the first separator or at the end |
| `Text.SplitLeading` | build.rs:76-77 | a text that starts with the separator, which does not occur again, splits into `""` and the rest |
| `Text.SecondPiece` | build.rs:77-78 | `components[1]` is the first piece of the text after the first separator and holds no separator |
| `Text.AbsentWhenHeadAbsent` | build.rs:76 | a pattern whose first character is absent from a text does not occur in it |
| `Text.Replace` | src/lib.rs:71-75 | `str::replace`: every leftmost non-overlapping occurrence, scanning left to right, replaced; the text after a match is searched again, the replacement is not |
| `Text.ReplaceWithoutMatch` | src/lib.rs:71-75 | `replace` leaves a text without the pattern unchanged |
| `Text.ReplaceIsSplitJoin` | src/lib.rs:71-75 | `replace(from, to)` equals splitting at `from` and joining with `to` |
| `Text.ReplaceStep` | src/lib.rs:71-75 | at the first occurrence `replace` substitutes and continues after the match |
| `Text.Lines` | build.rs:75 | no line yielded by `lines()` holds a `\n` |
| `Text.LinesCons` | build.rs:75 | a line then `\n` then more text yields that line (one trailing `\r` dropped), then the rest's lines |
| `Text.LinesLast` | build.rs:75 | a final line without newline is yielded as it is |
| `Text.LinesFirst` | build.rs:75 | a text starting with a line not ending in `\r`, then `\n`, has that line first |
| `Numbers.Dec` | src/lib.rs:74 | `to_string` of an unsigned value is non-empty decimal digits denoting it, without leading zero |
| `Numbers.IntToString` | src/lib.rs:72 | `to_string` of a signed value starts with `-` iff it is negative, digits of its magnitude otherwise |
| `Numbers.Accumulate` | build.rs:70 | the digit loop of `u32::from_str`: each character must be a decimal digit, the value is multiplied by 10 and the digit added, and exceeding `u32::MAX` at any step is an overflow |
| `Numbers.AccumulateValue` | build.rs:70 | the digit loop succeeds iff all characters are digits and the value fits in `u32`, and then yields that value |
| `Numbers.AccumulateDigits` | build.rs:70 | on all-digit text the digit loop either succeeds or reports an overflow, never an invalid digit |
| `Numbers.AccumulateInvalid` | build.rs:70 | a non-digit reached before any overflow is reported as an invalid digit |
| `Numbers.ParseU32` | build.rs:70 | `u32::from_str` succeeds iff the text is an optional `+` then digits whose value fits in `u32`; the result is that value; empty text is `Empty`, a lone sign is `InvalidDigit`, all-digit text above `u32::MAX` is `PosOverflow` |
| `Numbers.ParseInvalidDigit` | build.rs:70 | a non-digit after a digit prefix that still fits in `u32` is refused as `InvalidDigit` |
| `Numbers.ParseDec` | build.rs:70 | decimal text of a `u32`, with or without `+`, reads back as the value |
| `Numbers.ParseDecOverflow` | build.rs:70 | decimal text of a value above `u32::MAX` is refused |
| `Numbers.ParseRejectsNonDigit` | build.rs:70 | any non-digit after the optional `+` is refused |
| `BuildScript.Id` | build.rs:85-92 | the discriminant of each generation: 20200930, 20210902, 20220829, 20230831, 20240924 |
| `BuildScript.AtMost` | build.rs:85-92 | the derived `PartialOrd`: `a <= b` iff the discriminant of `a` is at most that of `b` |
| `BuildScript.Min` | build.rs:96-98 | `min()` is `Php80` |
| `BuildScript.Max` | build.rs:101-103 | `max()` is `Php84` |
| `BuildScript.Versions` | build.rs:105-113 | `versions()` lists the five generations in declaration order |
| `BuildScript.VersionsOrdered` | build.rs:85-113 | `versions()` lists each generation at its index, in increasing discriminant order; `<=` agrees with declaration order; `min` and `max` bound every generation |
| `BuildScript.VersionAt` | build.rs:105-113 | each generation sits in `versions()` at its index |
| `BuildScript.IndexAt` | build.rs:105-113 | the generation at position `i` of `versions()` has index `i` |
| `BuildScript.AtMostIndex` | build.rs:85-113 | `a <= b` iff the index of `a` in `versions()` is at most that of `b` |
| `BuildScript.SupportedApis` | build.rs:116-121 | `supported_apis(g)`: the generations of `versions()` that are `<= g`, in order |
| `BuildScript.FilterAtMostPrefix` | build.rs:116-121 | filtering an ordered list by `<= g` keeps exactly its prefix of elements `<= g` |
| `BuildScript.SupportedApisIsPrefix` | build.rs:116-121 | `supported_apis(g)` is `versions()` up to and including `g` |
| `BuildScript.SupportedApisPrefix` | build.rs:105-121 | `supported_apis(g)` has length index+1, starts with `Php80`, ends with `g`, holds exactly the generations `<= g`, strictly ascending |
| `BuildScript.SupportedApisMembers` | build.rs:116-121 | a generation is in `supported_apis(g)` iff it is `<= g` |
| `BuildScript.SupportedApisAscending` | build.rs:116-121 | `supported_apis(g)` is strictly ascending |
| `BuildScript.CfgName` | build.rs:123-131 | `cfg_name`: `php80` to `php84`, one per generation |
| `BuildScript.CfgNameInjective` | build.rs:123-131 | different generations have different cfg names |
| `BuildScript.FromApiNumber` | build.rs:137-151 | `try_from` succeeds iff the number is in [20200930, 20240924], the chosen generation's range holds it, otherwise the error names the number and both bounds |
| `BuildScript.FromApiNumberExact` | build.rs:139-143 | the number resolves to `g` iff it lies in `g`'s half-open range (equality for `Php84`) |
| `BuildScript.FromApiNumberMonotone` | build.rs:139-143 | a larger number never resolves to an older generation; the generation's discriminant never exceeds the number |
| `BuildScript.Message` | build.rs:67-149 | the top-level error texts: `Failed to get Zend version` (line 69), `Failed to convert Zend version to integer` (line 70), and the unsupported-version text naming the number, the minimum and the maximum (lines 144-149) |
| `BuildScript.UnsupportedMessageNamesFields` | build.rs:144-149 | the unsupported-version message contains the number, the minimum and the maximum in decimal |
| `BuildScript.UnsupportedMessageNamesBounds` | build.rs:144-149 | a refused number's message contains it and the bounds `lo` = 20200930 and `hi` = 20240924 |
| `BuildScript.KeySeparator` | build.rs:74 | the searched separator is the key followed by `" => "` |
| `BuildScript.FirstValue` | build.rs:75-81 | the loop over lines: the second piece of the first line that splits into two or more pieces, `None` after the last line |
| `BuildScript.FirstValueSpec` | build.rs:75-81 | `None` iff no line holds the separator; otherwise the second piece of the first line holding it, which holds no separator |
| `BuildScript.FirstValueHead` | build.rs:75-79 | a first line that splits into two or more pieces gives its second piece |
| `BuildScript.GetKey` | build.rs:73-82 | the line loop returns what the first line holding `"{key} => "` yields |
| `BuildScript.KeyValueFirstLine` | build.rs:73-82 | a first line `"{key} => {value}"` yields `value` whatever follows |
| `BuildScript.KeyValueHead` | build.rs:73-79 | a first line splitting as `""` and `value` around the key's separator yields `value` |
| `BuildScript.KeyValueDecLine` | build.rs:73-82 | a first line `"{key} => {n}"` yields the decimal text of `n` |
| `BuildScript.ZendVersionOf` | build.rs:67-71 | missing `PHP API` key is an error; otherwise success iff the value is valid `u32` text, yielding its value, and a parse error otherwise |
| `BuildScript.ZendVersion` | build.rs:67-71 | the method returns `ZendVersionOf` of the `php -i` text |
| `BuildScript.ZendVersionFromLine` | build.rs:156-158 | a `PHP API => {n}` first line reads back as `n` and selects the generation `try_from(n)` gives |
| `BuildScript.Render` | build.rs:161-169 | the printed line of each directive: `cargo::rustc-check-cfg=cfg(php80, php81, php82, php83, php84)`, `cargo:warning=` and the end-of-life text, `cargo:rustc-cfg=` and the name |
| `BuildScript.RenderTag` | build.rs:161-169 | the seventh character of a printed line tells the three kinds of directive apart |
| `BuildScript.RenderCfgName` | build.rs:169 | a printed cfg line is `cargo:rustc-cfg=` followed by the name |
| `BuildScript.RenderInjective` | build.rs:161-169 | different directives print different lines |
| `BuildScript.CheckPhpVersion` | build.rs:156-173 | a lookup or resolution failure is returned with nothing printed; success prints exactly the selected generation's directives |
| `BuildScript.PrintCfg` | build.rs:160-170 | the printing loop emits check-cfg, the warning for `Php80`, then one cfg per supported generation |
| `BuildScript.PrintEach` | build.rs:168-170 | the cfg loop appends one `rustc-cfg` per generation, in order |
| `BuildScript.CfgDirectivesHas` | build.rs:168-170 | the cfg of `v` is among those printed for a list iff `v` is in the list |
| `BuildScript.CfgDirectivesNoWarning` | build.rs:168-170 | the cfg loop never prints the end-of-life warning |
| `BuildScript.BuildDirectivesShape` | build.rs:161-170 | the output has 1 + warning + index+1 lines, check-cfg first, the warning iff `Php80`, the selected generation's cfg last |
| `BuildScript.BuildDirectivesOrder` | build.rs:168-170 | after check-cfg and the optional warning, the i-th line is the cfg of the i-th generation |
| `BuildScript.BuildDirectivesCfg` | build.rs:163-170 | the cfg of `v` is printed iff `v <= g` |
| `ErrorHook.DecodeFile` | src/lib.rs:52-62 | the file name as text: a null C string is `""`, a C string its characters, a `zend_string` decoded as below |
| `ErrorHook.DecodeZend` | src/lib.rs:64-68 | a `zend_string` as text: valid UTF-8 gives its text; a null pointer or invalid UTF-8 gives `""` |
| `ErrorHook.FormatMessage` | src/lib.rs:71-75 | `{type}`, `{file}`, `{line}`, `{message}` replaced in that order, one global pass each, each pass over the previous one's output |
| `ErrorHook.Intercept` | src/lib.rs:15-85 | a call is forwarded iff an original handler was saved; it goes to that handler with the same type, file and line; the message is untouched without a template, otherwise the formatted decoded fields |
| `ErrorHook.Runtime.constructor` | src/lib.rs:12 | the slot holds the engine's handler, nothing is saved, nothing is registered |
| `ErrorHook.Runtime.Startup` | src/lib.rs:88-113 | registers `error_message_format` (default `""`, permission all); on lock success saves the slot, installs the callback and returns 0; on failure returns 1 with slot and saved handler unchanged |
| `ErrorHook.Runtime.ErrorCallback` | src/lib.rs:15-85 | the callback forwards exactly what `Intercept` says, a failed lock reading as no saved handler |
| `ErrorHook.FourPlaceholders` | src/lib.rs:71-75 | the four placeholders are distinct brace-delimited names |
| `ErrorHook.NumbersBraceFree` | src/lib.rs:72-74 | the decimal type and line texts hold no `{` |
| `ErrorHook.BraceFreeHasNone` | src/lib.rs:71-75 | text without `{` contains no placeholder |
| `ErrorHook.OtherAbsent` | src/lib.rs:71-75 | a placeholder other than `q` does not occur in `x + q + y` when `x` is brace-free and `y` lacks it |
| `ErrorHook.ReplaceHole` | src/lib.rs:71-75 | one pass over `pre + p + post`, `p` only there, yields `pre + v + post` |
| `ErrorHook.PassAbsent` | src/lib.rs:71-75 | a pass for an absent placeholder changes nothing |
| `ErrorHook.PassBraceFree` | src/lib.rs:71-75 | a pass over brace-free text changes nothing |
| `ErrorHook.PassLeading` | src/lib.rs:71-75 | a pass over a text starting with its only placeholder puts the value in front |
| `ErrorHook.OtherFree` | src/lib.rs:71-75 | around `q` in brace-free text no other placeholder occurs |
| `ErrorHook.FormatWithoutPlaceholders` | src/lib.rs:71-75 | a template with none of the four placeholders comes back unchanged |
| `ErrorHook.FormatBraceFree` | src/lib.rs:71-75 | a brace-free template comes back unchanged |
| `ErrorHook.FormatMessageOnly` | src/lib.rs:71-75 | a `{message}` template yields the message verbatim, even when it holds placeholders, since that pass is last |
| `ErrorHook.FormatTypeOnly` | src/lib.rs:71-72 | a `{type}` template shows the type in decimal, with `-` in front when negative |
| `ErrorHook.FormatAllFields` | src/lib.rs:71-75 | each placeholder once, in pass order, between brace-free text, is replaced by its field |
| `ErrorHook.FormatFileRewritten` | src/lib.rs:71-75 | the file name is itself rewritten by the `{line}` and `{message}` passes |
| `ErrorHook.FormatTestExample` | tests/test.rs:33-40 | `{message} with an append` with `This is a test error` gives `This is a test error with an append` |
| `ErrorHook.FormatMessageLeading` | src/lib.rs:71-75 | a template `{message}` followed by brace-free text yields the message followed by that text |
| `ErrorHook.FormatFileWithLine` | src/lib.rs:73-74 | a file name starting with `{line}` shows the line number there |
| `ErrorHook.InterceptPassesThrough` | src/lib.rs:35-49 | with the INI value absent, null or empty, the original is called with all four arguments unchanged |
| `ErrorHook.InterceptFormats` | src/lib.rs:34-49 | with a non-empty INI value, the original is called with the same type, file and line and the formatted decoded fields as message |
| `ErrorHook.InterceptWithoutOriginal` | src/lib.rs:37-84 | without a saved original nothing is forwarded, on every path |
| `ErrorHook.InterceptDecodesEmpty` | src/lib.rs:52-68 | null and undecodable file names and messages are formatted as `""` |
| `ErrorHook.FileParameterLayout` | src/lib.rs:17-18 | the `php81` cfg, which selects the `zend_string` file-name parameter, is set iff the build is not for PHP 8.0 |

## Left out

- `find_executable`, `path_from_env`, `find_php`, `PHPInfo::get` and `main` in `build.rs` are left out. They spawn processes and read the environment and file system, so the output of `php -i` is a parameter instead. The `rerun-if` directives printed by `main` are left out with them.
- Printing is modelled as a sequence of `Directive` values. `Render` gives the exact text of each line, and `RenderInjective` shows the text determines the directive.
- Error values from `anyhow` are modelled by `BuildError`. `Message` gives the top-level text. Nested error causes are not modelled.
- `src/ffi.rs` is not part of this model: it only declares the handler type and the engine's handler slot. The slot is the `errorCb` field of `Runtime`.
- The `Mutex`/`OnceLock` cell holding the saved handler is the `originalCb` field. Whether the lock succeeds is an input (`lockOk`). Concurrency and lock poisoning themselves are not modelled.
- The INI table (`ExecutorGlobals::get().ini_values()`) is a parameter of type `map<string, Option<string>>`, where `None` is a null value.
- Pointers are modelled by what they point to. `ZendStr::new` and the allocation of the new message are not modelled; the forwarded call carries the formatted text.
- Lossy UTF-8 decoding of the pre-8.1 C-string file name is not modelled. The decoded text is part of the input (`CChars`).
- `dbg!`, `eprintln!`, `php_module_info` and `get_module` are left out. They write diagnostics or register the module with the engine.
- The compile-time choice of file-name parameter (`#[cfg(php81)]`) is one `FileName` datatype with both forms. `FileParameterLayout` ties it to the cfg the build script sets.
- Text is handled as Unicode characters, while Rust's `str` search works on UTF-8 bytes. Every pattern the code searches for is ASCII, so the two find the same matches.
- The handler the callback forwards to might itself be the extension's callback, for example after a second `startup`. The model records the forwarded call but does not run the handler it targets.
