# zap.sh `trash` test contracts — a Dafny model

`trash` deletes files by moving them to a recoverable trash location, with a
strategy chosen by the `TRASH_STRATEGY` environment variable. Its Ruby test
suite (`test.rb`) holds the precise parts of the behaviour:

- `percent_encode`, the path encoding written into a `.trashinfo` record;
- the XDG base-directory rule (`xdg_data_home`, `xdg_cache_home`);
- the exact three-line `.trashinfo` record of the FreeDesktop.org Trash
  specification;
- what each strategy, and an unknown strategy name, must do to the file
  system.

This project models these parts and proves their properties.

Modules, leaf first:

| file | module | what it holds |
|---|---|---|
| `wrappers.dfy` | `Wrappers` | `Option`, `Result` |
| `bytes.dfy` | `Bytes` | octets, ASCII classes, hexadecimal digits, the byte-wise map |
| `segments.dfy` | `Segments` | Ruby's `split("/")` and `join("/")` |
| `gsub.dfy` | `Gsub` | Ruby's `gsub` with a literal pattern |
| `percent_encoding.dfy` | `PercentEncoding` | the RFC 3986 reference encoding; percent-decoding; the canonical form; `percent_encode` step by step, and its equivalence with the reference |
| `percent_encoding_properties.dfy` | `PercentEncodingProperties` | alphabet, round trip, bijection, the test's characters |
| `xdg.dfy` | `Xdg` | `xdg_data_home`, `xdg_cache_home` |
| `trash_info.dfy` | `TrashInfo` | date format, Ruby's `lines`, the record's writer, reader and test checks |
| `strategies.dfy` | `Strategies` | the six strategy names and their resolution |
| `trash_store.dfy` | `TrashStore` | the trash operation over a map from path to bytes |

A byte is written as the `char` with the same code (below 256), so ASCII
literals can be used as byte strings. Paths are byte strings because the
encoder works on UTF-8 bytes.

The main result is the contract of `PercentEncode`, proved by
`SplitEncodeJoinIsRfc3986`. It shows that the Ruby expression on test.rb
line 29 is the percent-encoding of section 2.1 of
RFC 3986 applied to the path with its trailing slashes removed. It covers
split, `URI.encode_uri_component` per segment, join, `gsub('*', '%2A')` and
`gsub('%7E', '~')`. Under that encoding, the unreserved bytes of section 2.3
(`ALPHA DIGIT - . _ ~`) and `/` stay literal, and every other byte becomes
`%XX` with upper-case digits. The `%7E` rewrite can only hit escapes made
for `~`, because an input `%` has already become `%25`.

`&` is not kept literal: `URI.encode_uri_component` escapes it to `%26`,
and `TestCharacterEncodings` proves it.

## Model

| member | source | states |
|---|---|---|
| Segments.RubySplit | test.rb:29 | `path.split("/")`: no field contains `/`, and the last field, if any, is non-empty (trailing empty fields are dropped) |
| Segments.JoinRubySplit | test.rb:29 | splitting on `/` and joining with `/` gives back the path without its trailing slashes |
| Segments.JoinRubySplitIdentity | test.rb:29 | a path that does not end in `/` survives split-then-join unchanged |
| Segments.JoinSplitAll | test.rb:29 | joining every field between separators, empty ones included, rebuilds the string |
| Segments.SplitAllAppend | test.rb:29 | a separator splits the fields of the text before it from the fields of the text after it |
| Segments.SplitAllJoin | test.rb:29 | `join`, the other direction: splitting a join at every separator gives back its fields when none holds the separator |
| Segments.RubySplitJoin | test.rb:29 | Ruby's `split` undoes `join` on separator-free fields whose last field is not empty |
| Gsub.ReplaceAll | test.rb:29 | `gsub` with a literal pattern: text that does not hold the pattern's first byte comes back unchanged |
| Gsub.ReplaceAllNoOccurrence | test.rb:29 | text in which the pattern occurs nowhere comes back unchanged |
| Gsub.ReplaceAllAtPattern | test.rb:29 | an occurrence at the start is replaced by the replacement, and scanning resumes right after it |
| Gsub.ReplaceAllLeftmost | test.rb:29 | the leftmost occurrence is replaced and scanning resumes after it: text before it is copied, and the rest is rewritten independently, so occurrences never overlap and replaced text is never rescanned |
| Gsub.ReplaceByteIsFlatMap | test.rb:29 | with a one-byte pattern, every occurrence of that byte, and nothing else, is replaced |
| Gsub.ReplaceAllKeepsFree | test.rb:29 | `gsub` never brings in a byte that neither the text nor the replacement holds |
| PercentEncoding.Escape | test.rb:29 | `%XX` is three bytes, `%` and two upper-case hex digits, and those digits spell the escaped byte |
| PercentEncoding.EncodeUriComponent | test.rb:29 | `URI.encode_uri_component` of a segment: exactly `*-.0-9A-Z_a-z` stay literal, every other byte becomes its upper-case `%XX` escape, and percent-decoding gives the segment back |
| PercentEncodingProperties.EncodeUriComponentDecode | test.rb:29 | every string in that canonical form is the `encode_uri_component` of its own decoding |
| PercentEncodingProperties.EncodeUriComponentUnique | test.rb:29 | `encode_uri_component` is the only canonical encoding that decodes back to the segment |
| PercentEncoding.EncodeSegments | test.rb:29 | `map { URI::encode_uri_component(_1) }`: one encoded segment per segment, in order |
| PercentEncoding.JoinEncodeSegments | test.rb:29 | encoding slash-free segments and joining them equals a byte-wise map of the joined path in which `/` stays literal |
| PercentEncoding.StarFix | test.rb:29 | after `gsub('*', '%2A')` every `*` is written `%2A` and every other byte is written as before |
| PercentEncoding.TildeFix | test.rb:29 | after `gsub('%7E', '~')` the result is exactly the RFC 3986 encoding, with `~` literal |
| PercentEncoding.TildeFixSkipsEscape | test.rb:29 | the `%7E` rewrite leaves the escape of any byte other than `~` intact |
| PercentEncoding.SplitEncodeJoinIsRfc3986 | test.rb:29 | the split / `encode_uri_component` / join / `gsub` / `gsub` chain equals the RFC 3986 encoding of the path with its trailing slashes removed |
| PercentEncoding.PercentEncode | test.rb:28-30 | `percent_encode(p)` equals the RFC 3986 encoding of `p` with its trailing slashes removed: unreserved bytes and `/` literal, all others `%XX` |
| PercentEncodingProperties.PercentEncodeRoundTrip | test.rb:29 | percent-decoding `percent_encode(p)` gives `p` less its trailing slashes, and exactly `p` when `p` does not end in `/` |
| PercentEncodingProperties.PercentEncodeInjective | test.rb:29 | two paths without a trailing `/` that encode alike are equal |
| PercentEncodingProperties.PercentEncodeOnto | test.rb:29 | every canonical encoding not ending in `/` is `percent_encode` of the path it decodes to, and that path does not end in `/` |
| PercentEncodingProperties.PercentEncodeAlphabet | test.rb:29 | output bytes are unreserved, `/` or `%`; each `%` opens two upper-case hex digits; no literal `*`; never the sequence `%7E` |
| PercentEncodingProperties.PercentEncodeLiteralPath | test.rb:29 | a path of unreserved bytes and `/`, not ending in `/`, is returned unchanged |
| PercentEncodingProperties.PercentEncodeAtSlash | test.rb:29 | `/` is never encoded: the part before a `/` and the part after it are encoded independently |
| PercentEncodingProperties.Rfc3986EncodeCanonical | test.rb:29 | every reference encoding has the canonical form |
| PercentEncodingProperties.DecodeRfc3986Encode | test.rb:29 | percent-decoding inverts the reference encoding on every byte string |
| PercentEncodingProperties.Rfc3986EncodeDecode | test.rb:29 | a canonical string is the reference encoding of its own decoding |
| PercentEncodingProperties.CanonicalIffEscapedForm | test.rb:29 | the recursive canonical form and its index-wise reading (alphabet plus escape shape) agree, in both directions |
| PercentEncodingProperties.DecodeLastByte | test.rb:29 | the decoding of a non-empty canonical string ends in `/` exactly when the string does |
| PercentEncodingProperties.TestCharacterEncodings | test.rb:32-40 | of every ASCII character `test_chars` uses (punctuation, space, `\n \r \t`, bytes 1-31, DEL) exactly `_ - . ~` are written as themselves and all others as `%XX`; every byte of a multi-byte UTF-8 character is written as `%XX` |
| PercentEncodingProperties.TestCharacterExamples | test.rb:33-38 | space, `&`, `*`, tab, `%` and DEL are written `%20 %26 %2A %09 %25 %7F` |
| PercentEncodingProperties.TestByteLiteral | test.rb:33-38 | among ASCII punctuation and control bytes only `_ - . ~` are unreserved |
| Xdg.BaseDirectory | test.rb:10-26 | the variable's value when set and non-empty, otherwise `home + suffix`; never empty |
| Xdg.DataHome | test.rb:10-17 | `XDG_DATA_HOME` when set and non-empty, otherwise `HOME + "/.local/share"` |
| Xdg.CacheHome | test.rb:19-26 | `XDG_CACHE_HOME` when set and non-empty, otherwise `HOME + "/.cache"` |
| Xdg.BaseDirectoryStable | test.rb:10-26 | exporting the resolved directory changes nothing, and an empty variable acts as an unset one |
| Strategies.Resolve | test.rb:80-91 | a name resolves exactly when it is some strategy's name, to that strategy; any other name is `UnknownStrategy(name)` |
| Strategies.ResolveName | test.rb:88-172 | each strategy is selected by its own name and by no other |
| Strategies.NonexistentStrategyIsUnknown | test.rb:81 | `nonexistent_strategy` does not resolve |
| TrashInfo.Digits | test.rb:100 | a fixed-width decimal field has exactly the width and only digits |
| TrashInfo.DigitsValueOfDigits | test.rb:100 | reading a fixed-width decimal field gives its number back |
| TrashInfo.DigitsOfDigitsValue | test.rb:100 | every digit string is the fixed-width rendering of its value |
| TrashInfo.FormatDate | test.rb:100 | a deletion date is written in the shape `\d{4}-\d{2}-\d{2}T\d{2}:\d{2}:\d{2}` |
| TrashInfo.ParseDate | test.rb:100 | a date is read exactly when it has that shape, and what is read fits the widths |
| TrashInfo.ParseFormatDate | test.rb:100 | reading a written date gives the timestamp back |
| TrashInfo.FormatParseDate | test.rb:100 | every string of the date shape is the writing of what it reads as |
| TrashInfo.FirstLineLength | test.rb:97-98 | Ruby's `lines` cuts just after the first newline, or at the end |
| TrashInfo.LinesOfLine | test.rb:97-101 | a newline-terminated line followed by more text is the first element of `lines` |
| TrashInfo.ConcatLines | test.rb:97-101 | Ruby's `lines` loses nothing: its pieces put back together are the text |
| TrashInfo.LinesShape | test.rb:97-101 | every piece of `lines` is non-empty and holds a newline only as its last byte, and every piece but the last is a whole newline-terminated line |
| TrashInfo.PercentEncodeNoNewline | test.rb:99 | an encoded path never contains a newline, so it cannot split the `Path=` line |
| TrashInfo.FormatTrashInfo | test.rb:97-101 | the written record is exactly three lines: `[Trash Info]\n`, `Path=` + encoded path + `\n`, `DeletionDate=` + date + `\n` |
| TrashInfo.RecordLines | test.rb:97-101 | header, `Path=` line and `DeletionDate=` line put together are cut by `lines` into exactly those three |
| TrashInfo.DateLineIsLine | test.rb:100 | the written `DeletionDate=` line matches the test's pattern |
| TrashInfo.FormatPassesTestChecks | test.rb:97-101 | the record written for `pwd + "/" + name` passes all four of `test_freedesktop`'s checks |
| TrashInfo.PassesTestChecksIff | test.rb:97-101 | `test_freedesktop`'s record checks hold of a text exactly when it is the record written for that file at some deletion date |
| TrashInfo.TestChecksDetermineRecord | test.rb:97-101 | a text that passes those checks is the record written for that file at the date in its third line |
| TrashInfo.ParseTrashInfo | test.rb:97-101 | a record that is read has a date that fits the widths and a path with no trailing `/` |
| TrashInfo.EncodedPathValueOfPercentEncode | test.rb:99 | every value `percent_encode` writes after `Path=` is one the reader accepts |
| TrashInfo.ParseFormatTrashInfo | test.rb:97-101 | reading a written record gives the path (less trailing slashes) and the date back |
| TrashInfo.FormatParseTrashInfo | test.rb:97-101 | every text the reader accepts is exactly the record written for what it read |
| TrashStore.FilesPathIsNotInfoPath | test.rb:93-96 | the trashed file and its record are at different paths |
| TrashStore.Move | test.rb:92-94 | a move takes the bytes from the old path to the new, free one, and leaves every other path as it was |
| TrashStore.FreedesktopTrash | test.rb:87-101 | succeeds iff the source exists and neither destination nor record exists; on success the source is gone, `Trash/files/<name>` holds the source's bytes exactly, `Trash/info/<name>.trashinfo` passes the test's checks, and no other path changes; on failure nothing changes |
| TrashStore.MacosTrash | test.rb:139-172 | succeeds iff the source exists and `~/.Trash/<name>` does not; on success the source is gone, `~/.Trash/<name>` holds its bytes exactly, and no other path changes; on failure nothing changes |
| TrashStore.Trash | test.rb:80-172 | an unknown strategy fails and leaves the file system (so the source file) unchanged; `freedesktop`, `trash_cli` and `gio` do exactly what `FreedesktopTrash` does, the macOS strategies exactly what `MacosTrash` does; any success leaves the source gone and its bytes at the destination, any failure leaves the file system as it was |
| TrashStore.SecondTrashKeepsFirst | test.rb:93-96 | trashing a second file of the same name fails and leaves the first entry's bytes and record intact |

## Left out

- Running the `trash` executable through backticks and reading `$?` (test.rb:82, 90 and later lines) is process I/O. The model keeps only its outcome, the `Result` of `TrashStore.Trash`.
- `strategy` sets `ENV['TRASH_STRATEGY']` and `test_trash_cli` edits `PATH`. Both are process-global state, so the strategy name and the XDG and home values are explicit parameters.
- `mktmpdir_home`, `setup` and `teardown` are left out. They use random temporary directories, `FileUtils`, `cd`, `Time.now` and `Random.bytes`. The working directory is the `pwd` parameter, and the file's bytes are whatever the map holds.
- The outside tools behind `trash_cli`, `gio` and the macOS strategies (trash-cli, `gio trash`, the `trash` command, AppleScript with Finder, `mv`) are not modelled. Each strategy is given the effect its test observes: the first two fill the freedesktop.org trash exactly as `freedesktop` does, and the macOS three move the file into `~/.Trash`. The macOS tests run only on Darwin, and `test_macos_applescript` does not compare the bytes; the model still keeps them.
- Ruby's Unicode strings are left out: paths are byte strings. `TestCharacterEncodings` covers every ASCII character of `test_chars` one by one; the multi-byte characters are covered through their bytes, all of which are 128 or above and so escaped.
- The deletion clock is left out. The time is the `now` parameter, and the only requirement is that each field fits its digit width. Calendar validity is not modelled, because the test's pattern does not check it.
- Creating `Trash/files` and `Trash/info` with mode 0700 is left out. The file system holds regular files only, and directories exist implicitly.
- Moves are atomic in the model. The cross-filesystem copy-then-delete fallback and the partial failure between moving a file and writing its record are not modelled.
- The test never trashes two files under the same name, so the tools' renaming schemes for a collision are unknown. `TrashStore.FreedesktopTrash` and `TrashStore.MacosTrash` fail with `NameTaken` instead, which keeps the no-overwrite guarantee.
- TrashStore.Trash: the argument is a bare file name in the working directory, as the tests pass it. Arguments with directory parts are not modelled.
- TrashInfo.PassesTestChecks: line 3 is checked as exactly `DeletionDate=<date>\n`. The test's `assert_match` is unanchored, so this check is stricter than the test.
- TrashInfo.ParseTrashInfo: only the form the encoder writes is accepted (upper-case escapes, no trailing `/`). Other spellings that a lenient reader might take are rejected.
- Processing several arguments, `-v` and `--` belong to the command-line front end, which test.rb does not show.
