# Telegram file saver bot: file-name sanitizer and message intake

A Dafny model of the two pieces of decision logic in the bot that saves files sent to it over
Telegram:

- `FileUtility.sanitizeFileName` (`src/utility/FileUtility.ts`), which turns an arbitrary name
  into one made of `[A-Za-z0-9.-]`: every other character becomes `-`, runs of `-` collapse
  to one, and leading and trailing `-` are removed.
- The guard chain of `TelegramMessageController.message`
  (`src/controller/TelegramMessageController.ts`). Given the environment
  (`ALLOWED_EXTENSIONS`, `YOUR_USERNAME`, `SAVE_PATH`), an incoming message and one reading of
  the clock, it decides one of the following: the sender is not authorized; there is no file;
  the file is too big; the extension is not allowed; or the file is accepted. An accepted file
  comes with its id, its name, its extension and the path it will be written to
  (`SAVE_PATH/<timestamp>_<name>`). The timestamp is `getTimeStamp`'s
  `year-month-day-hours-minutes-seconds`, without padding.

Modules:

- `Defaults`: `Option` and `GetOr`, the lodash `get(obj, path, default)` lookup. The default
  replaces only an undefined value.
- `Strings`: how template literals print numbers (`Decimal`) and how to read them back,
  `split`/`join`, the text after the last separator, and ASCII `toLowerCase`.
- `FileUtility`: the sanitizer as three recursive stage functions, their properties, and an
  independent description of the result: the words of the name joined by single dashes.
- `TelegramMessageController`: the configuration, message and clock values, the
  `HandleMessage` decision function, and lemmas about the guard order, the ceiling, the
  extension, the timestamp and the path.

Facts about the code that a reader might not expect:

- The allow-list comparison is case-sensitive. The extension is lower-cased, but the
  configured list is compared as written (`UpperCaseEntryNeverMatches`).
- The size ceiling is 52428800 bytes (50 · 1024 · 1024).
- The controller does not call `sanitizeFileName`. The destination path uses the file name
  exactly as Telegram reports it, and has no folder component between `SAVE_PATH` and the
  timestamp.
- These two files hold no download queue, busy flag, folder switching or URL submission, so
  the model has none either.

## Model

| member | source | states |
|---|---|---|
| `FileUtility.ReplaceDisallowedSpec` | src/utility/FileUtility.ts:35 | The first replacement keeps the length. Each character of `[A-Za-z0-9.]` stays in place and every other position becomes `-`. Deleting the dashes leaves exactly the kept characters of the input. |
| `FileUtility.CollapseDashesSpec` | src/utility/FileUtility.ts:37 | After the second replacement no two dashes are adjacent and the result is no longer than the input. The dash-free content is unchanged, the first and last characters are unchanged, and no character outside `[A-Za-z0-9.-]` appears. |
| `FileUtility.CollapseDropsDoubled` | src/utility/FileUtility.ts:37 | Wherever `--` stands in a name, the second replacement gives the same result as with one dash fewer there. With `CollapseDashesFixpoint`, every run of dashes keeps exactly one dash and nothing else changes. |
| `FileUtility.CollapseDashesFixpoint` | src/utility/FileUtility.ts:37 | A name with no `--` is left unchanged by the second replacement. |
| `FileUtility.TrimLeadingSpec` | src/utility/FileUtility.ts:39 | The `^-+` alternative leaves a suffix that does not start with `-`. Everything removed was a dash. |
| `FileUtility.TrimTrailingSpec` | src/utility/FileUtility.ts:39 | The `-+$` alternative leaves a prefix that does not end with `-`. Everything removed was a dash. |
| `FileUtility.SanitizeFileName` | src/utility/FileUtility.ts:34-42 | The result uses only `[A-Za-z0-9.-]`, has no `--`, and is empty or neither starts nor ends with `-`. It is never longer than the input. Deleting its dashes gives exactly the input filtered to `[A-Za-z0-9.]`, in the original order. |
| `FileUtility.SanitizeFixedPoints` | src/utility/FileUtility.ts:34-42 | A name is left unchanged if and only if it already has the three output properties: alphabet, no `--`, no edge dash. |
| `FileUtility.SanitizeIdempotent` | src/utility/FileUtility.ts:34-42 | Sanitizing twice gives the same result as sanitizing once. |
| `FileUtility.SanitizeKeepsCleanName` | src/utility/FileUtility.ts:35-41 | A name made only of `[A-Za-z0-9.]` is returned unchanged. |
| `FileUtility.SanitizeNothingKept` | src/utility/FileUtility.ts:35-41 | A name with no character of `[A-Za-z0-9.]`, the empty name included, gives `""`. |
| `FileUtility.SanitizeCons` | src/utility/FileUtility.ts:34-42 | Adding a disallowed character in front of a name changes nothing. A kept character in front is prepended. It is followed by one `-` exactly when the rest begins with a disallowed character and still sanitizes to something non-empty. |
| `FileUtility.SanitizeIsJoinedWords` | src/utility/FileUtility.ts:34-42 | The result equals the maximal runs of `[A-Za-z0-9.]` in the name, joined by single dashes. |
| `Strings.Decimal` | src/controller/TelegramMessageController.ts:98 | A number prints as a non-empty string of digits with no leading zero. It is `"0"` exactly for 0. |
| `Strings.ParseDecimalOfDecimal` | src/controller/TelegramMessageController.ts:98 | Reading a printed number back gives the number. |
| `Strings.DecimalOfParseDecimal` | src/controller/TelegramMessageController.ts:98 | Printing the value of a canonical numeral gives the same numeral back. |
| `Strings.Split` | src/controller/TelegramMessageController.ts:16 | `split` on a one-character separator gives at least one piece, and no piece contains the separator. |
| `Strings.JoinWithSplit` | src/controller/TelegramMessageController.ts:16 | Joining the pieces of a split with the same separator gives back the original string. |
| `Strings.SplitJoinWith` | src/controller/TelegramMessageController.ts:98 | Splitting a join of separator-free pieces gives back the pieces. |
| `Strings.TextAfterLast` | src/controller/TelegramMessageController.ts:46 | The result is a suffix without the separator. When the string contains the separator, the character just before that suffix is a separator. |
| `Strings.LastPieceOfSplit` | src/controller/TelegramMessageController.ts:46 | `split(sep).pop()` is the text after the last separator. |
| `TelegramMessageController.AllowedExtensions` | src/controller/TelegramMessageController.ts:16 | The list has at least one entry, and no entry contains a comma. Joined with commas, the entries give back the configured text (`""` when unset). |
| `TelegramMessageController.SelectFile` | src/controller/TelegramMessageController.ts:27-28 | The chosen attachment is the first present candidate in the order document, audio, video, voice, last photo size. |
| `TelegramMessageController.SelectFilePriority` | src/controller/TelegramMessageController.ts:27-33 | Document wins over audio, audio over video, video over voice, and voice over the photo. The photo contributes its last size. An absent or empty photo array gives no file. |
| `TelegramMessageController.FileExtension` | src/controller/TelegramMessageController.ts:46 | A name without `.` gives `""`. Otherwise the extension is the lower-cased text after the last `.`, which is `""` when the name ends in `.`. It never contains a `.` or an upper-case ASCII letter. |
| `TelegramMessageController.UpperCaseEntryNeverMatches` | src/controller/TelegramMessageController.ts:46-49 | An allow-list entry with an upper-case ASCII letter never equals an extension, because the list itself is not lower-cased. |
| `TelegramMessageController.EmptyAllowListAcceptsOnlyExtensionless` | src/controller/TelegramMessageController.ts:16 | With `ALLOWED_EXTENSIONS` unset or empty, the list is `[""]`. An extension is then allowed if and only if it is empty. |
| `TelegramMessageController.HandleMessage` | src/controller/TelegramMessageController.ts:15-52 | The result is Unauthorized iff the sender's name differs from the configured one. It is no-file iff the sender is authorized and no attachment is present, and too-big iff an attachment's size (0 when missing) exceeds 52428800. It is extension-not-allowed iff the extension is not an exact entry of the list, reporting that extension and the list. Otherwise the file is accepted, with its id, name, extension and target path. |
| `TelegramMessageController.HandleMessageFollowsGuardOrder` | src/controller/TelegramMessageController.ts:20-52 | The outcome is decided by the first guard that fails, in the order authorization, file presence, size, extension. A message that passes all four is accepted. |
| `TelegramMessageController.UnauthorizedIgnoresContent` | src/controller/TelegramMessageController.ts:21-24 | An unauthorized sender gets Unauthorized whatever the message carries. |
| `TelegramMessageController.SizeCeilingBoundary` | src/controller/TelegramMessageController.ts:35-41 | A missing size passes, and exactly 50 MB passes. One byte more is too big. |
| `TelegramMessageController.UnnamedAttachment` | src/controller/TelegramMessageController.ts:44-52 | An attachment without a name is called `file_<id>`. When the id has no `.`, the extension is `""`. Such an attachment is accepted iff the list has an empty entry. |
| `TelegramMessageController.TimeStamp` | src/controller/TelegramMessageController.ts:89-98 | The timestamp consists of digits and `-` only. Cut at its dashes, it gives the six unpadded decimal fields year, month index + 1, day, hours, minutes, seconds. |
| `TelegramMessageController.TimeStampUnpadded` | src/controller/TelegramMessageController.ts:91-98 | 5 January 2024, 07:03:09 gives the fields `2024`, `1`, `5`, `7`, `3`, `9`. |
| `TelegramMessageController.TimeStampRoundTrip` | src/controller/TelegramMessageController.ts:89-98 | Parsing the timestamp of a clock reading gives back that reading. |
| `TelegramMessageController.TimeStampOfParse` | src/controller/TelegramMessageController.ts:89-98 | A text that parses as a timestamp is exactly the timestamp of the reading it parses to. |
| `TelegramMessageController.TimeStampInjective` | src/controller/TelegramMessageController.ts:89-98 | Two clock readings with the same timestamp are equal, even though no field is padded. |
| `TelegramMessageController.TargetPathDecodes` | src/controller/TelegramMessageController.ts:59 | The path starts with `SAVE_PATH` (default `./files`) and `/`. After that, the text up to the first `_` parses back to the clock reading, and the rest is the file name, unchanged. |
| `TelegramMessageController.ReplyText` | src/controller/TelegramMessageController.ts:21-51 | Each of the four refusals gets a reply, and an accepted file gets none at this point. |

## Left out

- ReplyText: states only which outcomes are answered. The wording of each reply is in its body and is not stated as a property.
- Telegram transport: constructing and polling the bot, `sendMessage`, `getFileLink`, and the "retrieving the file link" error reply. These are network calls. The model stops where the link is requested, so `Accepted` means "about to request the link".
- The download itself: the axios stream, `pipe`, the writer's `finish` and `error` events, `fs.createWriteStream`, `fs.unlinkSync`, and the start, success and failure replies. Also `FileUtility.download`, `mkdir` and `getFileMimeType`. These are asynchronous I/O whose event order is not visible here.
- `new Date()` and `process.env`: the clock reading and the three environment variables are parameters. The start-of-download reply reads the clock a second time, and that second reading is not modelled.
- `toLowerCase` is modelled for ASCII only. Non-ASCII upper-case letters in an extension would be lower-cased by JavaScript and are kept unchanged here.
- Characters are whole code points. JavaScript regular expressions without the `u` flag see a non-BMP character as two UTF-16 units, so step 1 turns it into two dashes. Step 2 collapses those into one, so the sanitized result is the same.
- lodash `get` returns a stored `null` unchanged (only `undefined` is defaulted). Such `null` fields, and non-numeric `file_size` values, are not modelled.
- Clock fields are natural numbers, so years before year 0 are not modelled.
