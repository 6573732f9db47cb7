# Birthday and colour-role commands of a Discord bot, in Dafny

This project models the two command groups of a small serenity-based Discord
bot that hold real logic. It proves what they do.

- **`birthday`** (`src/commands/birthday.rs`)
  - `parse_date` turns a `dd.mm` token into a date. It appends
    `.1970 00:00:00 +0300` and hands the text to chrono's
    `DateTime::parse_from_str` with the format `%d.%m.%Y %H:%M:%S %z`.
  - The `add` sub-command stores the caller's day and month in a `birthdays`
    table keyed by user id, then replies.
  - The sub-commands `edit`, `remove`, `mod_menu` and the parent `birthday`
    are stubs that never touch the table: `edit`, `mod_menu` and `birthday`
    reply with fixed text, and `remove` sends nothing.
- **`general`** (`src/commands/general.rs`)
  - `PATTERNS` and `find_patterns`.
  - The part of `set_role` that reads a colour code and branches on it:
    - a code with no prefix is refused;
    - an invalid hex code gets the format hint;
    - a valid code passes its colour on to `modify_role`.
  - The text that `commands` builds from the command-usage counter.

Modules:

- `Wrappers`: `Option` and `Result`.
- `Text`: decimal digits. `NatToString` renders numbers the way `format!("{}")` does.
- `Chrono`: `parse_from_str`, restricted to the format items the bot uses. A
  format is a list of items: numeric fields of a maximum width, literals,
  whitespace and `%z`. Scanning them fills a `Parsed` record, and `Resolve`
  range-checks it against the proleptic Gregorian calendar.
- `Birthday`: `ParseDate`, the `BirthdayTable` class and the handlers.
  - `AddOutcome` is the specification of `add`.
  - The method `Add` changes the table. Its postcondition equates its effect
    with `AddOutcome`.
- `General`:
  - `FindPatterns`, `TrimStartMatches` (`str::trim_start_matches`), and
    `FromStrRadix16` (`i32::from_str_radix(_, 16)`, including its error kinds).
  - `ColourFromI32` (`Color::from(i32)`, a two's-complement reinterpretation),
    `SetRole`, and the method `CommandsText`, which holds the `commands` loop.

Inputs that come from outside the code are parameters:

- whether the SQLite connection opened (`connected`);
- whether the insert met a fault other than a duplicate key (`storageFault`);
- whether `modify_role` succeeded (`roleAssigned`).

## Model

| member | source | states |
|---|---|---|
| Birthday.ParseDate | src/commands/birthday.rs:26-30 | `parse_date`: a result is a day of the calendar; which tokens succeed and what they give is `ParseDateExactly` |
| Birthday.ParseDateExactly | src/commands/birthday.rs:26-30 | `parse_date` succeeds exactly when the token is one or two digits, a dot, one or two digits, naming a day that exists in 1970; on success `day()` and `month()` are the token's two numbers |
| Birthday.ParseDateOfFields | src/commands/birthday.rs:26-30 | for a `dd.mm`-shaped token the result is exactly 1970-month-day 00:00:00 at UTC+03:00 when that day exists, and a parse error otherwise |
| Birthday.ParseDateShape | src/commands/birthday.rs:27-29 | any token that parses is of the `dd.mm` shape: the appended suffix must meet the format right after the month |
| Birthday.LeapDayRejected | src/commands/birthday.rs:28-29 | `29.02` is refused because 1970 is not a leap year, although 29 February exists in a leap year such as 1972 |
| Birthday.ImpossibleDatesRejected | src/commands/birthday.rs:28-29 | `31.04`, `00.05` and `01.13` are refused |
| Birthday.ExtraFieldsRejected | src/commands/birthday.rs:27-29 | a token with a further field, `05.07.2000`, is refused |
| Birthday.ParseDateFifthOfJuly | src/commands/birthday.rs:26-30 | `05.07` parses to 5 July 1970, midnight, offset +10800 seconds |
| Birthday.Current | src/commands/birthday.rs:34 | `args.current()`: the first argument, and nothing exactly when there are no arguments |
| Birthday.AddedText | src/commands/birthday.rs:60-61 | the confirmation `Added {name}'s birthday {day}.{month}` with unpadded numbers; its date part parses back, per `AddedDateReparses`, and `AddedTextFifthOfJuly` spells out one instance |
| Birthday.AddedTextFifthOfJuly | src/commands/birthday.rs:60-61 | the confirmation for Ann on 5 July reads `Added Ann's birthday 5.7` |
| Birthday.UserKey | src/commands/birthday.rs:41 | the table key is the decimal rendering of the author's id, and reads back as that id |
| Birthday.UserKeyInjective | src/commands/birthday.rs:41 | distinct user ids give distinct table keys (through `Text.NatToStringInjective`) |
| Text.NatToStringInjective | src/commands/birthday.rs:41 | distinct numbers render to distinct decimal texts |
| Text.NatToString | src/commands/birthday.rs:61 | the unpadded decimal rendering: digits only, no leading zero, reads back as the number, one character below 10 |
| Birthday.BirthdayTable.Insert | src/commands/birthday.rs:43-57 | the insert succeeds exactly when there is no storage fault and the user has no row; then the table gains that one row, otherwise the table is unchanged |
| Birthday.AddOutcome | src/commands/birthday.rs:33-82 | `add` returns `Ok(())` or the connection error; the table is either unchanged or gains exactly the caller's key, which it did not hold before |
| Birthday.Add | src/commands/birthday.rs:33-82 | the method's new table, message and result are those `AddOutcome` gives for the old table |
| Birthday.AddRefusals | src/commands/birthday.rs:34-78 | no argument: the `dd.mm.!!!` hint; a token that does not parse: the `dd.mm.` hint; a database that cannot be opened: an error and no message; the table is unchanged in all three |
| Birthday.AddStoresToken | src/commands/birthday.rs:39-63 | a valid token from a user without a row stores exactly the row (day, month, name) under their id, grows the table by one, says `Added {name}'s birthday {day}.{month}` and returns `Ok(())` |
| Birthday.AddChangesTableOnlyOnSuccess | src/commands/birthday.rs:53-78 | the table changes exactly when the message is not one of the refusals (hints, "already exists", nothing sent); the handler errs exactly when it sends nothing |
| Birthday.AddConflictReply | src/commands/birthday.rs:43-57 | a valid date from a user who already has a row, or one whose insert meets any other storage fault, gets the "already exists" reply, returns `Ok(())` and leaves the table as it was |
| Birthday.AddTwiceConflicts | src/commands/birthday.rs:43-57 | after a successful `add`, any other valid `add` by the same user replies "already exists" and leaves the table as it was: one row per user |
| Birthday.AddKeepsRowsDates | src/commands/birthday.rs:39-50 | `add` preserves the invariant that every stored (day, month) is a date of 1970 |
| Birthday.AddedDateReparses | src/commands/birthday.rs:60-61 | the `{day}.{month}` the confirmation shows parses back to the same day and month |
| Birthday.AddLeapDayScenario | src/commands/birthday.rs:67-71 | `add 29.02` gets the format hint and stores nothing |
| Birthday.AddFifthOfJulyScenario | src/commands/birthday.rs:59-63 | `add 05.07` from a new user stores (5, 7, name) and says `Added Ann's birthday 5.7` |
| Birthday.BirthdayCommand | src/commands/birthday.rs:14-16 | the parent command replies "what???" and returns `Ok(())` |
| Birthday.ModMenuCommand | src/commands/birthday.rs:21-23 | `mod_menu` replies "mod_menu" and returns `Ok(())` |
| Birthday.EditCommand | src/commands/birthday.rs:85-87 | `edit` replies "edited" and returns `Ok(())` |
| Birthday.RemoveCommand | src/commands/birthday.rs:91-92 | `remove` sends nothing and returns `Ok(())` |
| Birthday.Handle | src/commands/birthday.rs:8-13 | routing a sub-command: `add` behaves as `AddOutcome`; every other sub-command leaves the table unchanged, succeeds, and sends its own fixed reply ("what???", "edited", nothing, "mod_menu"); any change adds only the caller's new key |
| General.FilterPrefixes | src/commands/general.rs:138-143 | the filter keeps exactly the listed patterns that are prefixes of the code, and no more of them than there are |
| General.FilterPrefixesAppend | src/commands/general.rs:139-142 | filtering keeps the patterns' order: filtering a concatenation is concatenating the filtered parts |
| General.FindPatterns | src/commands/general.rs:138-143 | a pattern is found exactly when it is in `PATTERNS` and starts the code |
| General.FindPatternsAtMostOne | src/commands/general.rs:10 | `find_patterns` gives `0x` if the code starts with it, then `#` if the code starts with that, and hence never more than one pattern |
| General.TrimStartMatches | src/commands/general.rs:113 | the result is a suffix of the code and does not start with the (non-empty) pattern |
| General.TrimStartMatchesRemovesRepeats | src/commands/general.rs:113 | the code is exactly the run of leading repeats of the pattern followed by the trimmed text |
| General.TrimStartMatchesIdempotent | src/commands/general.rs:113 | trimming an already trimmed code changes nothing |
| General.TrimStartMatchesAbsorbs | src/commands/general.rs:113 | one more leading repeat of the pattern trims to the same text |
| General.FromStrRadix16 | src/commands/general.rs:113 | a parsed value lies in the `i32` range |
| General.FromStrRadix16Exactly | src/commands/general.rs:113 | `i32::from_str_radix(_, 16)` succeeds exactly on an optional sign followed by at least one hex digit whose signed value fits an `i32`, gives that value, and fails with `Empty` on empty input |
| General.AccumulatePositiveValue | src/commands/general.rs:113 | the digit loop after no sign or `+` gives the digits' value, or `PosOverflow` once it passes `i32::MAX` |
| General.AccumulateNegativeValue | src/commands/general.rs:113 | the digit loop after `-` gives minus the digits' value, or `NegOverflow` once it passes `i32::MIN` |
| General.AccumulateRejectsNonDigit | src/commands/general.rs:113 | a non-hex character anywhere makes the digit loop fail |
| General.AccumulatePositiveAppend | src/commands/general.rs:113 | the loop over a concatenation is the loop over the first part continued over the second, unless it already failed |
| General.AccumulateNegativeAppend | src/commands/general.rs:113 | the same for the loop after `-` |
| General.AccumulatePositiveStops | src/commands/general.rs:113 | when the first non-hex character is at index k, the loop fails with `PosOverflow` if the digits before it already exceed `i32::MAX`, and with `InvalidDigit` otherwise |
| General.AccumulateNegativeStops | src/commands/general.rs:113 | the same after `-`, with `NegOverflow` below `i32::MIN` |
| General.FromStrRadix16ErrorKind | src/commands/general.rs:113-121 | for a code whose first non-hex character after the sign is at index k, the parse error is `InvalidDigit` when the digits before it fit, and the sign's overflow error when they do not |
| General.ColourFromI32 | src/commands/general.rs:124 | the colour is the value's 32-bit two's-complement pattern: below 2^32, congruent to the value, equal to it exactly for non-negative values |
| General.SetRole | src/commands/general.rs:107-136 | a colour handed on is below 2^32; success means a colour was handed on and `set_role` sent no reply of its own |
| General.ColourOutcome | src/commands/general.rs:113-131 | the branch on the parse: same two guarantees as `SetRole` |
| General.SetRoleWithoutPrefix | src/commands/general.rs:108-135 | without `0x` or `#` in front, including a missing argument read as "", the result is "No arguments parsed" with no reply and no colour |
| General.SetRoleParsesRemainder | src/commands/general.rs:112-131 | for a code starting with a pattern, a remainder that parses gives `Color::from` of its value, success exactly when the role was assigned, and the "Couldn't assign role" reply otherwise; a remainder that does not parse gives the hex-format hint and its parse error |
| General.SetRoleRepeatedPrefix | src/commands/general.rs:113 | a doubled prefix changes nothing: `##34EB61` does what `#34EB61` does |
| General.SetRoleHexColour | src/commands/general.rs:112-124 | `#` or `0x` followed by hex digits whose value fits an `i32` gives exactly that colour |
| General.SetRoleUsageExample | src/commands/general.rs:104-105 | the documented example `#34EB61` is the colour 0x34EB61 |
| General.SetRoleDoubledHashExample | src/commands/general.rs:113 | `##34EB61` gives the same outcome as `#34EB61` |
| General.CommandsText | src/commands/general.rs:21-31 | the text is `Commands used:\n` followed by one `- {name}: {amount}` line per counter entry, in an order that lists every name exactly once |
| General.CounterLine | src/commands/general.rs:30 | the line `- {name}: {amount}` with a newline; what the lines add up to is `CounterLinesAreLines` and `CommandsText` |
| General.CounterLinesSnoc | src/commands/general.rs:29-31 | each loop step appends the next entry's line at the end |
| General.CounterLinesAreLines | src/commands/general.rs:29-31 | when no command name holds a line break, the listing has exactly one line per entry |

## Left out

- `src/main.rs`: building the client, reading `DISCORD_TOKEN` and gateway intents. This is I/O set-up.
- The crate root's `CommandCounter` and `ShardManagerContainer` type-map keys, which `src/commands/general.rs` imports, are not part of this model. The counter is taken as a `map<string, nat>` parameter, so the panic of `.expect("Expected CommandCounter in TypeMap.")` when no counter is registered (src/commands/general.rs:25-27) is not modelled.
- Opening `database.sqlite` and running the `INSERT`. The table is a `map` field of `BirthdayTable`. The `user_id` uniqueness that lets a second insert fail is a schema rule that is not part of this model. It is stated as the map's insert-fails-if-present rule, and any other insert failure is the `storageFault` parameter.
- Every `msg.reply` and `channel_id.say`, and the `?` that would end a handler when a send fails. A handler returns what it would send instead. `println!` logging is dropped, and so are `async`/`await` and the framework's buckets.
- `required_permissions("MANAGE_ROLES")` on `mod_menu` and `max_args(1)` on `set_role`. The framework enforces them before the handler runs.
- `modify_role`: guild, member and role lookups, role creation and edits, and its success message. These are Discord API calls, represented only by the `roleAssigned` flag and the colour handed to it.
- `say` (`content_safe` and argument quoting) and `latency` (shard-manager locks). These are library behaviour and concurrency.
- Birthday.ParseDate: chrono's parser is cut down to the items `%d.%m.%Y %H:%M:%S %z` uses. Left out are its distinct error kinds (any failure is `None`), leap seconds, and whitespace beyond ASCII.
- Birthday.ParseDateExactly: chrono skips whitespace before each numeric field (how much depends on the chrono version), and the model does not. A token such as `05.` tab `07`, which chrono reads as 5 July, is refused by the model, so the "exactly" holds only for tokens without whitespace.
- Birthday.ParseDateShape: for the same reason, the shape it proves leaves out the whitespace chrono would allow before the day and before the month.
- Birthday.UserKey: the author id is an unbounded natural rather than a `u64`; only its decimal rendering matters.
- Birthday.AddOutcome: a connection failure is the `connected` flag, and a storage fault other than a duplicate key is the `storageFault` flag. Both are inputs rather than behaviour of the database.
- General.CommandsText: Rust's `HashMap` iteration order is unspecified, so the loop takes the remaining names in an arbitrary order. The method returns the order it used, and the contract holds for every order.
- `edit`, `remove` and `get`: the code has no update, delete or lookup of rows. The model shows the stubs as they are and does not invent those operations.
