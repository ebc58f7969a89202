# frutta: a verified model of the countdown timer's core

`frutta` is a command-line countdown timer. It takes one duration argument: a
whole number with an optional unit letter, where `h` means hours, `s` means
seconds, and `m` or no letter means minutes. It then draws a progress bar that
advances once per elapsed second until the duration is over.

This project models the four pieces of logic in the timer, and proves what
they promise:

- **Command-line classifier** (`parseCommandLine`, module `Parser`). It turns
  argv into help, version, start-timer or an error message. A duration has to
  match `^\d+[hms]?$`.
- **Duration converter** (`fruttaCmd`, module `Command`). It reads the leading
  integer the way `parseInt` does, scales it to milliseconds by the unit
  letter, and refuses any result that is not positive.
- **Drift-corrected update loop** (`startCliTimer` / `startTerminalTimer`,
  module `ProgressTimer`).
  - A `TimerSession` class holds the fields the callback mutates: the last
    updated second, the stopped flag and the pending wake.
  - Its ghost fields log the calls made to the progress bar.
  - `Wake(elapsed)` is one run of the self-rescheduling callback. It returns
    the delay it would pass to `setTimeout`, or `Never` once the bar has
    stopped.
  - `RunTimer` drives a whole session as a loop over wakes.
- **Label arithmetic** of `formatProgressString`: whole seconds passed and
  remaining.

Module `Cli` composes the classifier and the converter, as the entry point of
`frutta-cli.ts` does. Module `Decimal` holds the digit-string helpers.

The same code appears in several copies:

- The update loop is in `frutta-cli.ts:104-150`, `src/frutta-cli.ts:8-54` and
  `frutta-cli.js:8-56`.
- The labels are in `frutta-cli.ts:156-168`, `src/frutta-cli.ts:60-69` and
  `frutta-cli.js:64-73`.
- The classifier is in `frutta-cli.ts:31-57` and `src/parser.ts:15-41`.
- The converter is in `frutta-cli.ts:82-98` and `src/frutta-cmd.ts:3-24`.

In the parts modelled here, the copies behave identically, with one exception:
`src/frutta-cmd.ts` adds an argument-count check. The other differences do not
change behaviour:

- The update loop is named `startTerminalTimer` in `frutta-cli.ts` and
  `startCliTimer` in the `src/` and `.js` copies.
- The TypeScript copies carry type annotations, and the JavaScript copy declares
  `timeoutId` on its own line.
- `fruttaCmd` takes the duration string as its parameter `durationStr` in
  `frutta-cli.ts`, and as `args[0]` in `src/frutta-cmd.ts`.
- Each `fruttaCmd` calls its own copy's update loop.
- The refusal message differs.

One shared model covers all the copies. The table cites each copy somewhere.

Modelling choices:

- Dafny's `/` by the positive constant 1000 is the floor, which is
  `Math.floor(x / 1000)` for the integer milliseconds the code handles.
- A JavaScript number is `Int(v)` or `NaN`. `NaN` survives multiplication and
  is never `> 0`.
- Integers are unbounded.
- In `RunTimer`, the i-th wake happens `lateness[i] >= 0` milliseconds after the
  delay that was asked for.

## Model

| member | source | states |
|---|---|---|
| `Parser.ParseCommandLine` | src/parser.ts:15-41 | Two arguments (no user argument) give help. One user argument gives help for `-h`/`--help`, version for `-v`/`--version`, start-timer with the argument unchanged exactly when it matches `^\d+[hms]?$`, and otherwise `Invalid duration: <arg>`. Any other count gives `Expected 1 argument, got <n>`. The same code is in frutta-cli.ts:31-57. |
| `Parser.FlagsAreNotDurations` | frutta-cli.ts:36-52 | No help or version flag matches the duration pattern, so a flag is never classified as a timer request. |
| `Parser.ArgumentCountError` | frutta-cli.ts:56 | Any argv length other than 2 or 3 is an error. Its message ends with the decimal rendering of length minus 2, with a leading `-` when that is negative. |
| `Parser.RenderedDurationsAccepted` | src/parser.ts:31-35 | Every decimal number, bare or followed by `h`, `m` or `s`, is accepted as a duration unchanged, and its digits are the number's rendering. |
| `Decimal.NatToStringRoundTrip` | src/parser.ts:40 | Reading back the decimal rendering of `n` gives `n`. |
| `Decimal.IntToString` | frutta-cli.ts:56 | The rendering of a non-negative integer is its shortest decimal rendering, with no leading zero, and reads back as the integer. The rendering of a negative integer is `-` followed by the shortest rendering of its magnitude. |
| `Decimal.DigitsValueZero` | src/frutta-cmd.ts:19-22 | A digit string denotes 0 exactly when every digit is `0`. |
| `Command.LeadingDigits` | src/frutta-cmd.ts:10 | The digit run `parseInt` reads is a prefix of the string, all digits, and as long as possible. |
| `Command.LeadingDigitsExact` | frutta-cli.ts:83 | The digit run is exactly the digits before the first non-digit. |
| `Command.ParseInt` | src/frutta-cmd.ts:10 | `parseInt(s, 10)` first skips leading white space. It then gives an integer exactly when a digit comes first, or comes after one `+` or `-`. That integer is the leading digit run: unchanged after `+`, negated after `-`. Otherwise it gives `NaN`. |
| `Command.TrimStartSkipsWhiteSpace` | src/frutta-cmd.ts:10 | What `parseInt` skips is the longest prefix made only of JavaScript white space (tab, vertical tab, form feed, byte-order mark, the Unicode space separators and the line terminators). What remains is a suffix of the string. |
| `Command.ReadFromStart` | frutta-cli.ts:83 | A string that starts with a digit is read from its first character: its value is its leading digit run. |
| `Command.LeadingWhiteSpaceIgnored` | src/frutta-cmd.ts:10-17 | White space in front of a string changes neither the integer read nor the duration, so `" 5m"` is 5 minutes. |
| `Command.PlusSign` | src/frutta-cmd.ts:10-17 | A `+` followed by a digit reads the same integer and duration as the string without it. A `+` followed by anything else, or by nothing, gives `NaN`. |
| `Command.MinusSign` | frutta-cli.ts:83 | A `-` followed by a digit reads the negated integer. |
| `Command.NegativeRefused` | src/frutta-cmd.ts:10-22 | A `-` before a number negates the duration, and the timer never starts. |
| `Command.ReadRendered` | frutta-cli.ts:83 | The decimal rendering of `n`, followed by nothing or by a non-digit, reads back as `n`. |
| `Command.RenderedDuration` | src/frutta-cmd.ts:10-17 | The rendering of `n` followed by a unit letter is `n` hours for `h`, `n` seconds for `s`, and `n` minutes for `m`, any other letter or none. |
| `Command.Times` | src/frutta-cmd.ts:12-16 | Scaling keeps `NaN` as `NaN` and multiplies an integer. |
| `Command.UnitOf` | src/frutta-cmd.ts:11-17 | A trailing `h` means hours and a trailing `s` means seconds. Anything else, `m` or an unknown letter, means minutes. |
| `Command.ConvertDuration` | frutta-cli.ts:82-97 | The timer starts exactly when the scaled value is a positive number, with that value, which is a multiple of 1000. Otherwise the exit status is 1. |
| `Command.FruttaCmd` | src/frutta-cmd.ts:3-24 | An argument count other than one gives exit status 1 and no timer. With one argument, the timer starts exactly when the scaled duration is positive, and only with that duration. |
| `Command.DurationScaling` | src/frutta-cmd.ts:10-22 | When an integer is read, the duration is that integer times 3600000, 1000 or 60000 by unit. It is accepted exactly when the integer is positive. |
| `Command.NoDigitsRejected` | src/frutta-cmd.ts:19-22 | A string with no integer to read, such as `abc`, gives `NaN` and is refused. |
| `Command.UnitEquivalences` | src/frutta-cmd.ts:10-17 | For every `n`, `10n` minutes and `600n` seconds are both `600000n` ms, `n` hours and `60n` minutes are both `3600000n` ms, and a bare number or an unknown letter means the same as `m`. |
| `Cli.AcceptedDurationValue` | frutta-cli.ts:46-90 | A string the classifier accepts is read as its digits times its unit. A bare number is minutes. It starts the timer exactly when those digits denote a positive number. |
| `Cli.ZeroDurationsRejected` | frutta-cli.ts:92-95 | An accepted duration is refused exactly when all its digits are zeros. |
| `Cli.ExitStatus` | frutta-cli.ts:5-15 | The exit status of an outcome is 1 exactly for a classifier error or a refused duration. Otherwise it is 0. |
| `Cli.Frutta` | frutta-cli.ts:5-15 | Help, version and error follow the classifier exactly, with the error message passed through. The timer runs exactly for an accepted duration with a positive digit value, and for that value times its unit, a positive multiple of 1000. An accepted all-zero duration is refused. The run ends with exit status 1 exactly when the classifier reports an error or the accepted duration's digits denote 0 (frutta-cli.ts:6-8, 92-95). |
| `ProgressTimer.UpdateCheckDelayMs` | src/frutta-cli.ts:36-38 | The delay is never negative. It ends exactly at the start of the second after the last updated one, or is 0 if that moment has passed. The same code is in frutta-cli.ts:132-134. |
| `ProgressTimer.TimerSession.constructor` | src/frutta-cli.ts:8-26 | The bar starts at 0 out of the duration, no second has been updated, and the first check is scheduled 500 ms later. |
| `ProgressTimer.TimerSession.Wake` | src/frutta-cli.ts:26-53 | A wake in no new second changes no state and reschedules by the delay formula. A wake in a new second records the second, updates the bar with the elapsed time, and then stops with nothing scheduled when the duration is reached, or reschedules. The session invariant is kept. For a whole-second duration, any wake at or after it updates and stops. |
| `ProgressTimer.RenderStep` | frutta-cli.ts:141-148 | An update in a new second keeps the update seconds strictly increasing. It makes the last updated second the floor of the elapsed time, and appends exactly `update(elapsed)`, then `stop` if due, to the bar log. |
| `ProgressTimer.DeadlineIsNewSecond` | frutta-cli.ts:129-145 | With a whole-second duration, a running session has not updated in the duration's final second. So a wake at or past the duration is in a new second. |
| `ProgressTimer.NoNewSecondRealigns` | frutta-cli.js:38-45 | A wake that finds no new second, and is not before the last updated second, asks for 1 to 1000 ms. That wake lands exactly on the next second boundary. |
| `ProgressTimer.UpdateRealigns` | frutta-cli.js:47-53 | After an update, the delay is `1000 - elapsed mod 1000`, which lies in [1, 1000] and ends on a second boundary. |
| `ProgressTimer.UpdatesAt` | src/frutta-cli.ts:46 | The update calls in the log are the rendered elapsed times, one each, in order. |
| `ProgressTimer.StopOnceAtEnd` | src/frutta-cli.ts:48-52 | The bar log starts with `start(total, 0)`. It contains `stop` once if the session stopped and never otherwise, only as its last call, and right after an update that reached the duration. |
| `ProgressTimer.RunTimer` | frutta-cli.ts:104-150 | In any run, the update seconds strictly increase and are at least 1, and only the last update may reach the duration. The bar stopped exactly when it did. For an N-second duration with every wake less than a second late and enough wakes, the bar stops after exactly N updates, the k-th in second k. |
| `ProgressTimer.PromptWake` | frutta-cli.js:28-55 | A wake less than a second late either finds no new second and realigns to second 1, which is only possible on the first check, or updates in exactly the next second and realigns to the boundary after it. |
| `ProgressTimer.SecondsFromOne` | frutta-cli.js:42-48 | The k-th update (from 0) is in second k + 1 or later. |
| `ProgressTimer.SecondsUpToLast` | frutta-cli.js:42-48 | Counting back from the last update, each earlier update is at least one second earlier. |
| `ProgressTimer.RenderCount` | frutta-cli.js:50-54 | A stopped run of a whole-second duration whose updates are in seconds 1, 2, … made as many updates as the duration has seconds. |
| `ProgressTimer.ProgressLabels` | frutta-cli.js:64-66 | The seconds-passed label is the floor of the value in seconds. Passed plus remaining equals the whole seconds of the total. Both labels are non-negative while the value is within the total, and remaining is at most 0 once a whole-second total is reached. The same code is in frutta-cli.ts:160-161. |
| `ProgressTimer.CountdownLabels` | src/frutta-cli.ts:60-62 | In a prompt run of an N-second timer, the labels count down. The start shows 0 passed and N remaining, the k-th update shows k passed and N - k remaining, and the last shows 0 remaining. |

## Left out

- The `cli-progress` library is not part of this model, because it is foreign code. This covers the bar and time-string formatting (`Format.BarFormat`, `Format.TimeFormat` and the precision argument that differs between the `.ts` and `.js` copies), the clamped progress fraction, `hideCursor`, and the terminal drawing. `start`, `update` and `stop` appear only as entries of the ghost bar log.
- `Date.now`, `setTimeout` and `clearTimeout` are not modelled. A wake receives the elapsed milliseconds, and the scheduled wake is a field. `RunTimer` assumes that a timer never fires before its delay. Scheduler jitter is an input, not a verified bound.
- `ProgressTimer.RunTimer`: the guarantee of exactly one update per second is stated only for runs where every wake is less than a second late. A later wake skips seconds. No wall-clock drift bound such as "within the 500 ms probe" is stated, because the code does not control how late a wake is.
- A cancellation hook, which would stop a running session without a final update, is not modelled. The code has none.
- `process.exit`, `console.log`, `console.error` and `process.argv` are replaced by returned outcomes and exit statuses. The texts `fruttaCmd` prints on refusal are not modelled. They differ between the two copies.
- The help, usage and version texts (`showHelp`, `src/help.ts`, `showUsage`, the `package.json` version) are static output and are not modelled.
- `src/user-app-dirs.ts` is not part of this model. It resolves per-user directories from the environment, and the timer does not use it.
- `Command.ParseInt`: does not model the floating-point loss or `Infinity` that `parseInt` gives for very long digit strings, because integers here are unbounded.
- `ProgressTimer.TimerSession.constructor`: requires a positive duration. Both callers check this before starting the timer (`frutta-cli.ts:92-97`, `src/frutta-cmd.ts:19-24`).
