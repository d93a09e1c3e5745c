# miniraw: a Dafny model of the capture core

miniraw is a small Windows program with one window, whose edit control shows the log. It listens on TCP port 9100 for raw print jobs and saves each connection into a `<timestamp>.spl` file next to the executable. It keeps one "discard" flag in the registry, and appends each log line to the text of that edit control. This project models the parts of that program that make decisions, and proves what they promise:

- `listener.dfy` models `src/listener.rs`:
  - the `loop` that picks the first free `<timestamp>.spl`;
  - `FileStream`, which chunks reads through a 32 KiB buffer;
  - the `fold` that copies the stream into the file;
  - the log lines and the error handling of `start_raw_listener`.

  The file system is a `Disk` object whose `files` map is updated in place. A connection is the finite sequence of results its reads return. Imperative methods (`ChooseFilename`, `FileStream.Poll`, `CopyInto`, `HandleConnection`, `StartRawListener`) are proved against value-level specifications (`FirstFree`, `NextItem`, `CopySpec`, `CaptureOutcome`, `ListenerOutcome`). The lemmas are stated about those specifications.
- `settings.dfy` models `src/settings.rs`:
  - the DWORD encoding of the flag (`u32::to_ne_bytes`/`from_ne_bytes`);
  - what `load` reads back from the registry key, and what `store` writes to it;
  - the in-memory getter and setter.
- `build.rs` is modelled in `build.dfy`:
  - the mapping from the Cargo version to the four-field Windows version;
  - the `str::replace` chain that fills the resource-script template;
  - the rewriting of backslashes in `CARGO_MANIFEST_DIR`;
  - the order in which `compile_resources` fails.
- `utf16.dfy` models the `utf16z!` macro of `src/util.rs`: UTF-16 encoding followed by a 0 terminator, with a decoder (section 2.2 of RFC 2781) to state the round trip.
- `logger.dfy` models `src/ui/win32/logger.rs`:
  - the level filter and the module-path filter;
  - the `[LEVEL] yyyy-mm-dd hh:mm:ss.mmm message\r\n` line;
  - the control text it appends that line to.
- `decimal.dfy` models Rust's `{}` and `{:0N}` formatting of integers. Both file names and log lines use it.
- `common.dfy` holds `Option`, the `u8`/`u16` types, and the `StartsWith` predicate.

Some things this revision of `src/listener.rs` does, which the model follows:
- A name already in use is not retried with a `-1`, `-2`, … suffix. Instead the timestamp itself is increased by one second until `<timestamp>.spl` is free (`src/listener.rs:58-69`).
- The name is chosen by checking `exists()` and only then calling `File::create`, which truncates. It is not an exclusive create.
- There is no discard branch: the registry flag is loaded and stored, but the listener never reads it.
- An empty capture is not deleted. It stays on disk and is logged as "Saved 0 bytes".
- Connections are handled one after another inside `for_each`, not concurrently. The first accept, create, read or write error ends the whole stream of connections. A create, read or write error is logged by the inner `map_err` and a second time by the outer one. An accept error never reaches the inner `map_err`, so it is logged once, by the outer one.

## Model

| member | source | states |
|---|---|---|
| Decimal.Show | src/listener.rs:63 | `{}` of a u64 is a non-empty string of digits with no leading zero unless the number is 0 |
| Decimal.ValueOfShow | src/listener.rs:63 | reading the decimal numeral back gives the number |
| Decimal.ShowInjective | src/listener.rs:63 | two timestamps have the same numeral exactly when they are equal |
| Decimal.ShowInt | src/ui/win32/logger.rs:57 | `{}` of a signed year is its digits without leading zero (only 0 itself starts with '0'), preceded by '-' exactly when it is negative, and reads back as the year |
| Decimal.Padded | src/ui/win32/logger.rs:54 | `{:0N}` gives at least N digits (more if the number needs them), reads back as the number, and ends with the unpadded numeral |
| Decimal.PaddedWidth | src/ui/win32/logger.rs:54 | a number below 10^N padded to N digits has exactly N digits |
| Listener.SplPath | src/listener.rs:59-63 | the candidate file is the executable's directory joined with `<timestamp>.spl` |
| Listener.SplPathInjective | src/listener.rs:59-63 | distinct timestamps give distinct files, and equal ones the same file |
| Listener.FirstFree | src/listener.rs:58-69 | the timestamp the loop settles on is at least the clock reading, its file does not exist, every earlier candidate exists, and it is the clock reading itself when that file is free |
| Listener.FirstFreeGrows | src/listener.rs:58-69 | once the chosen file exists (and no file disappeared), the next search from the same second ends strictly later |
| Listener.ChooseFilename | src/listener.rs:53-69 | the loop (clock reading, then `+= 1` while the file exists) ends, and returns `FirstFree` and its file |
| Listener.NextItem | src/listener.rs:32-39 | a read of n > 0 bytes yields a chunk of those n bytes (at most `CHUNK_SIZE`); a read of 0 bytes, or a closed connection, ends the stream; a read error is passed on |
| Listener.FileStream.constructor | src/listener.rs:20-25 | the buffer holds `CHUNK_SIZE` (32768) bytes |
| Listener.FileStream.Poll | src/listener.rs:32-39 | `poll` consumes one read, yields `NextItem` of it, and a chunk is the front of the buffer |
| Listener.Drain | src/listener.rs:28-39 | the stream never yields an empty chunk |
| Listener.Written | src/listener.rs:74 | a `write_all` that fails has put a strict prefix of a non-empty chunk in the file (as many bytes as the fault says, when fewer than the chunk); one that succeeds has put the whole chunk |
| Listener.Disk.Create | src/listener.rs:71 | `File::create` makes the file empty, truncating it if present, unless it fails |
| Listener.Disk.WriteAll | src/listener.rs:74 | `write_all` appends the written bytes to that file only |
| Listener.CopyCompleteIsConcat | src/listener.rs:72-76 | a `fold` that ends without error wrote every chunk, in order, and the stream ended at a 0-byte read |
| Listener.CopyIsPrefix | src/listener.rs:72-76 | whatever goes wrong, the file holds a prefix of the bytes the stream yields |
| Listener.CopyWithoutFault | src/listener.rs:72-76 | without a write failure, the `fold` writes exactly the stream's chunks and ends with the stream's own error, if any |
| Listener.CopyInto | src/listener.rs:72-76 | the imperative poll-and-write loop appends `CopySpec`'s bytes to the file, changes no other file, and returns `CopySpec`'s error |
| Listener.CapturePath | src/listener.rs:58-69 | the file chosen for a connection did not exist before it |
| Listener.CaptureOutcome | src/listener.rs:49-92 | handling one connection never changes or removes an existing file and adds at most the chosen one; it logs "Incoming connection" and then one line, a warning exactly when it fails, carrying the error's text |
| Listener.SavedConnection | src/listener.rs:77-88 | after a successful capture the new file holds the whole stream, and the log gives its size and the base name `<timestamp>.spl` |
| Listener.EmptyConnectionKeepsFile | src/listener.rs:71-88 | a connection that sends nothing leaves an empty file and logs "Saved 0 bytes into" its name |
| Listener.FailedCopyKeepsPartialFile | src/listener.rs:71-92 | a failed read or write is returned, and the partly written file stays, holding a prefix of the stream |
| Listener.SameSecondGetsLaterTimestamp | src/listener.rs:53-69 | a second connection in the same second as a saved one gets a strictly later timestamp, so its file differs from the first |
| Listener.ServeStopsAtError | src/listener.rs:48-93 | once a connection fails, the connections after it are never handled |
| Listener.ServeKeepsExistingFiles | src/listener.rs:48-93 | serving any number of connections never changes or removes a file that existed before |
| Listener.ListenerOutcome | src/listener.rs:42-98 | a bind error is logged once and nothing else happens; otherwise "Started listener on port 9100" comes first, and an error that ends the stream is logged last by the outer `map_err` |
| Listener.HandleConnection | src/listener.rs:48-93 | the `for_each` closure changes the files, logs and returns exactly as `CaptureOutcome` says |
| Listener.StartRawListener | src/listener.rs:42-98 | the listener over a sequence of accept results leaves the files, the log and the error `ListenerOutcome` gives |
| Settings.ToNeBytes | src/settings.rs:56 | `u32::to_ne_bytes` gives 4 bytes |
| Settings.FromNeBytes | src/settings.rs:38 | `u32::from_ne_bytes` gives a value below 2^32 |
| Settings.NeBytesRoundTrip | src/settings.rs:38-56 | decoding the bytes of a u32 gives the value back, in either byte order |
| Settings.EncodeFlag | src/settings.rs:56 | the stored DWORD is 4 bytes that read as 1 for true and 0 for false |
| Settings.DecodeFlag | src/settings.rs:38 | the loaded flag is true exactly when some byte of the DWORD is non-zero, whatever the byte order |
| Settings.FlagRoundTrip | src/settings.rs:38-56 | decoding what `store` encodes gives the flag back |
| Settings.QueryDword | src/settings.rs:26-37 | the query fails for a missing value or one longer than 4 bytes; otherwise it leaves the value's bytes at the front of the zeroed 4-byte buffer |
| Settings.LoadedFlag | src/settings.rs:18-47 | a missing key or a failed query gives `false`; otherwise the decoded DWORD |
| Settings.StoreThenLoad | src/settings.rs:18-64 | a flag that `store` wrote is what the next `load` reads |
| Settings.AppSettings.Load | src/settings.rs:18-47 | `load` builds fresh settings whose flag is `LoadedFlag` of the registry key |
| Settings.AppSettings.Store | src/settings.rs:49-68 | `store` creates or opens the key, writes the 4-byte flag when the write succeeds, and otherwise leaves the value as it was; after a successful store, `load` gives back the flag |
| Settings.AppSettings.SetDiscardFlag | src/settings.rs:70-72 | the setter replaces the flag |
| Settings.AppSettings.DiscardFlag | src/settings.rs:74-76 | the getter returns the flag and changes nothing |
| Build.Split | build.rs:9 | `split('.')` gives one more part than there are dots, and no part contains a dot |
| Build.JoinSplit | build.rs:9 | joining the parts with the separator gives back the version string |
| Build.SplitJoin | build.rs:9 | splitting parts joined by a separator they do not contain gives back the parts |
| Build.PartsOfSplit | build.rs:9 | a character absent from the version is absent from every part |
| Build.WindowsVersion | build.rs:10-14 | a version with fewer than two dots becomes "0,0,0,0" |
| Build.WindowsVersionOfParts | build.rs:10-14 | a version of three or more parts becomes its first three parts and a final 0, separated by commas; later parts are ignored |
| Build.WindowsVersionFields | build.rs:10-14 | for a version without commas, the Windows version has exactly four comma-separated fields, the last "0" |
| Build.ReplaceAbsent | build.rs:15-21 | a pattern that does not occur leaves the text unchanged |
| Build.ReplaceLeftmost | build.rs:15-21 | the leftmost occurrence is replaced and the scan resumes after it |
| Build.ReplaceWhole | build.rs:15-21 | a text that is exactly the pattern becomes the replacement |
| Build.ReplaceChar | build.rs:20 | replacing one character by another keeps the length and maps each character on its own |
| Build.RootPath | build.rs:20 | the manifest directory keeps its length, and every backslash becomes '/' with nothing else changed |
| Build.RenderPlain | build.rs:15-21 | a template without '@' is written unchanged |
| Build.RenderPlaceholders | build.rs:15-21 | each placeholder alone becomes its own value: the Windows version, the version, and the slash-rewritten manifest directory, whatever characters that directory holds |
| Build.CompileResources | build.rs:5-24 | an unreadable template, then a missing `CARGO_MANIFEST_DIR`, then a missing `OUT_DIR` each stop the build in that order; otherwise `miniraw.rc` in `OUT_DIR` holds the filled template |
| Utf16.EncodeScalar | src/util.rs:4 | a scalar value below U+10000 is one unit outside the surrogate range; above, a high and a low surrogate that recombine to the value |
| Utf16.Encode | src/util.rs:4 | `encode_utf16` takes one unit per BMP character and two per supplementary character |
| Utf16.Utf16z | src/util.rs:1-6 | the macro gives the encoding and one 0 unit at the end, and the encoding decodes back to the string |
| Utf16.DecodeEncode | src/util.rs:4 | decoding inverts encoding for every string |
| Utf16.EncodeAppend | src/util.rs:4 | encoding distributes over concatenation |
| Utf16.EncodeHasNoLoneSurrogate | src/util.rs:4 | every high surrogate is followed by a low one, and every low surrogate is preceded by a high one |
| Utf16.EmbeddedNul | src/util.rs:4 | a NUL inside the string becomes a 0 unit before the terminator, so Win32 sees the string cut there |
| Logger.Enabled | src/ui/win32/logger.rs:25-27 | a record passes exactly when its level is at most the maximum level (Error < Warn < Info < Debug < Trace); `Off` passes nothing |
| Logger.EnabledIsThreshold | src/ui/win32/logger.rs:25-27 | a level that passes makes every more severe level pass |
| Logger.IsOurPath | src/ui/win32/logger.rs:19-21 | only records whose module path is present and starts with "miniraw" are ours |
| Logger.StampLayout | src/ui/win32/logger.rs:53-65 | after the year come `-MM-DD hh:mm:ss.mmm` at fixed offsets, each field zero-padded and reading back as its value |
| Logger.FormatLine | src/ui/win32/logger.rs:53-65 | every formatted log line ends in "\r\n" |
| Logger.Logged | src/ui/win32/logger.rs:29-77 | the new text starts with the old text; it changes exactly when the record passes both filters and `WM_GETTEXT` does not return a negative value; and what it appends is the formatted line ending in "\r\n" |
| Logger.WindowLogger.Init | src/ui/win32/logger.rs:14-17 | `init` attaches the logger to the control and sets the maximum level |
| Logger.WindowLogger.Log | src/ui/win32/logger.rs:29-77 | `log` copies the text through a buffer of length + 2 units and sets it to `Logged` of the old text |

## Left out

- Windows UI: the window with its class icon, edit control and system-menu item, the message loop (`src/ui`, `src/main.rs`), and the actual `SendMessageW` calls. The control's text is a field, and the result of `WM_GETTEXT` is a parameter.
- tokio and futures plumbing: `NotReady` polling, `split()`, and spawning. Each read returns its result at once. The incoming stream is finite; the real one is endless.
- Panics on `unwrap()`: the address parse, `peer_addr()`, `SystemTime::duration_since`, `std::fs::metadata` and `components().last()`. The model assumes they succeed. The saved size is read from the model's file directly.
- The race between `exists()` and `File::create`: the model is sequential, so no other process changes the directory between the two.
- ChooseFilename: the timestamp is a `nat`, so the u64 `+= 1` overflow (after 2^64 − 1) is not modelled.
- The `current_exe()` lookup is a parameter: its parent directory, or `None` for the empty path. The loop's repeated calls are assumed to agree.
- The registry API is modelled by its effect on one key: whether `RegCreateKeyW` succeeds, and whether `RegSetKeyValueW` succeeds. `RegCloseKey`, other value types, and other processes editing the key are not modelled.
- AppSettings: the `AtomicBool` and its `SeqCst` ordering are a plain field, because the model has no threads.
- Logger.WindowLogger.Log: `U16CStr::from_slice_unchecked(..).to_string_lossy()` and `U16CString::from_str_unchecked` are modelled as exact copies of the text. Lossy replacement of unpaired surrogates, and the effect of a NUL inside a message, are not modelled.
- Logger.WindowLogger.Log: the buffer of text length + 2 units is local to the method, so its size is in the code but not in the contract.
- Logger.StampLayout: states the fixed layout only for fields in their usual ranges and a nanosecond count below 10^9. `Padded` covers every value, including chrono's leap-second nanoseconds (1000 or more milliseconds, printed as four digits).
- `chrono::Local::now()` is a parameter: the local clock fields. Time zones are not modelled.
- build.rs: reading the template file, `env!`/`env::var`, `fs::write`, and `embed_resource::compile` are I/O. Their results are parameters, and a failing `fs::write` is not modelled.
- Build.Replace: modelled on Unicode scalar values (`char`), not on UTF-8 bytes. Matches are the same for valid strings.
- `main.rs`, `ui.rs` and the rest of the application are not part of this model. `src/main.rs` calls `start_raw_listener(settings)` and a logger `init` whose signatures differ from `src/listener.rs:42` and `src/ui/win32/logger.rs:14`. The model follows those two files as written.
