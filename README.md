# PiggyBank page: countdown, view selection and transaction history

A Dafny model of the display logic of the PiggyBank page of a scaffold-eth
front end for a time-locked savings contract. The page reads the caller's
vault with `getPiggyBank` and `getTimeLeft`. It shows a once-a-second
countdown, and it picks the create form or the manage panels, and the
withdraw or emergency-withdraw button. Under the page, a history component
renders the contract's Deposit, Withdrawal and PiggyBankSmashed logs as one
list.

Modules:

- `Options`: the `Option` type for a read or a field that has not arrived.
- `Decimal`: `toString()` of a non-negative integer (`NatToString`), with the
  inverse reading `Value` and a round-trip lemma.
- `Countdown`: the display datatype `Blank | NoLock | Unlocked | Remaining(d, h, m, s)`.
  It also holds one tick as a function of the read and the clock, the text it
  renders to, and the class `CountdownState`. That class holds the
  `timeRemaining` state, which the `timeLeft` effect and the interval update.
- `VaultPage`: the lock-duration selector and the destructuring default. It
  also holds the panel layout and the contract write that each button issues.
- `PiggyBankEvents`: the three logs, the per-kind entry fields, the
  placeholders, the React keys and the empty-history message.

Behaviour kept as the code has it:

- A tick computes `getTimeLeft`'s result minus the wall clock in seconds. The
  read is treated as an unlock timestamp. If the contract returns a duration,
  every positive read no larger than the current Unix time in seconds shows
  "Unlocked!" (`ReadTakenAsTimestamp`).
- The history is not sorted by block or recency. It is all deposits, then all
  withdrawals, then all emergency withdrawals, each log in fetch order.
- The received amount `(amount * 9n) / 10n` is on unsigned amounts, where
  truncating and Dafny's Euclidean division agree. `Math.floor(Date.now() / 1000)`
  is Dafny's `/ 1000`, which floors for every sign of the clock.
- A missing block timestamp and a zero timestamp both show "Unknown time".
  Only a missing block number shows "Unknown"; block 0 shows "0".

## Model

| member | source | states |
|---|---|---|
| `Decimal.NatToString` | packages/nextjs/app/piggybank/_components/PiggyBankEvents.tsx:77 | `toString()` of a number is a non-empty string of digits with no leading zero; one digit exactly below 10 |
| `Decimal.ValueOfNatToString` | packages/nextjs/app/piggybank/_components/PiggyBankEvents.tsx:77 | reading the digits back gives the number (round trip) |
| `Decimal.NatToStringInjective` | packages/nextjs/app/piggybank/_components/PiggyBankEvents.tsx:61 | two numbers render equal iff they are equal, which the index keys rely on |
| `Countdown.Decompose` | packages/nextjs/app/piggybank/page.tsx:60-63 | for remaining > 0, days*86400 + hours*3600 + minutes*60 + seconds == remaining, with hours < 24, minutes < 60, seconds < 60 |
| `Countdown.DecomposeUnique` | packages/nextjs/app/piggybank/page.tsx:60-63 | any in-range breakdown is the one the page computes for its total |
| `Countdown.TickDisplay` | packages/nextjs/app/piggybank/page.tsx:58-70 | a tick shows "Unlocked!" iff read minus clock is <= 0, else the exact breakdown of the positive remainder; never a negative duration |
| `Countdown.WholeSeconds` | packages/nextjs/app/piggybank/page.tsx:58 | the clock in seconds is the floor of milliseconds / 1000 |
| `Countdown.Shown` | packages/nextjs/app/piggybank/page.tsx:56-76 | "No lock period" iff the read is absent or <= 0; otherwise what a tick shows; never the blank initial text |
| `Countdown.NoLockWhateverTheClock` | packages/nextjs/app/piggybank/page.tsx:74-75 | without a positive read the field is "No lock period" at every clock value |
| `Countdown.UnlockedStaysUnlocked` | packages/nextjs/app/piggybank/page.tsx:58-69 | once a tick shows "Unlocked!", every later tick for that read does too |
| `Countdown.CountsDown` | packages/nextjs/app/piggybank/page.tsx:58-66 | a later tick never shows more time left than an earlier one |
| `Countdown.ReadTakenAsTimestamp` | packages/nextjs/app/piggybank/page.tsx:58 | a positive read no later than the clock shows "Unlocked!", since the read is compared with the clock |
| `Countdown.Render` | packages/nextjs/app/piggybank/page.tsx:65-75 | the field's text is "No lock period" for no lock and "Unlocked!" when unlocked; it is empty only in the initial state; a breakdown starts with a digit and ends in "s", so it never equals either message |
| `Countdown.RenderInjective` | packages/nextjs/app/piggybank/page.tsx:65-66 | two breakdowns whose `Nd Nh Nm Ns` texts are equal are the same breakdown, and conversely |
| `Countdown.SuccessStyleIffUnlocked` | packages/nextjs/app/piggybank/page.tsx:191 | the field is styled as success iff its text is "Unlocked!", i.e. iff the display is `Unlocked` |
| `Countdown.RenderExample` | packages/nextjs/app/piggybank/page.tsx:65-67 | 90061 seconds is (1,1,1,1) and reads "1d 1h 1m 1s" |
| `Countdown.CountdownState.Mount` | packages/nextjs/app/piggybank/page.tsx:52-77 | starts with blank text, then the effect starts the interval iff the read is positive, else shows "No lock period" |
| `Countdown.CountdownState.TimeLeftChanged` | packages/nextjs/app/piggybank/page.tsx:55-77 | a new read replaces the interval; a positive read keeps the text until the first tick, any other read shows "No lock period" |
| `Countdown.CountdownState.Tick` | packages/nextjs/app/piggybank/page.tsx:57-71 | a firing sets the text to what `TickDisplay` gives for the captured read and the clock |
| `VaultPage.LockDurationInSeconds` | packages/nextjs/app/piggybank/page.tsx:138-147 | the duration is positive, at most 31536000, one of the five values, and 86400 for any string other than the five options |
| `VaultPage.LockDurationTable` | packages/nextjs/app/piggybank/page.tsx:138-147 | "1hour", "1day", "1week", "1month", "1year" map to 3600, 86400, 604800, 2592000, 31536000, in increasing order |
| `VaultPage.Destructure` | packages/nextjs/app/piggybank/page.tsx:39 | without data the record is (0, 0, false, false), otherwise it is the read tuple |
| `VaultPage.PageLayout` | packages/nextjs/app/piggybank/page.tsx:171-274 | status and add-funds panels iff the vault exists, create form iff not, never both; unlock line iff exists and unlockTime > 0; withdraw iff unlocked, emergency otherwise, exactly one inside the status panel |
| `VaultPage.NoDataShowsCreateForm` | packages/nextjs/app/piggybank/page.tsx:39 | with no contract data only the create form is rendered |
| `VaultPage.CreateClicked` | packages/nextjs/app/piggybank/page.tsx:79-95 | a create write is issued iff the amount check passes and the wei conversion succeeds; it carries that wei and `LockDurationInSeconds` of the selected option |
| `VaultPage.AddFundsClicked` | packages/nextjs/app/piggybank/page.tsx:97-112 | an add-funds write with the converted wei is issued iff the amount check passes and the conversion succeeds |
| `VaultPage.EmergencyClicked` | packages/nextjs/app/piggybank/page.tsx:124-136 | the emergency write is issued iff the confirmation returns true |
| `VaultPage.WithdrawalButtonClicked` | packages/nextjs/app/piggybank/page.tsx:203-219 | the offered button issues a withdraw iff unlocked, an emergency withdraw iff locked and confirmed, nothing otherwise |
| `PiggyBankEvents.Received` | packages/nextjs/app/piggybank/_components/PiggyBankEvents.tsx:116 | received <= amount, received*10 <= amount*9 < received*10 + 10, and the penalty kept is at least a tenth |
| `PiggyBankEvents.ReceivedExamples` | packages/nextjs/app/piggybank/_components/PiggyBankEvents.tsx:116 | 100 gives 90, 101 gives 90, 0 gives 0 |
| `PiggyBankEvents.TimeOf` | packages/nextjs/app/piggybank/_components/PiggyBankEvents.tsx:74 | a timestamp is shown iff block data and timestamp are present and non-zero, else "Unknown time" |
| `PiggyBankEvents.BlockOf` | packages/nextjs/app/piggybank/_components/PiggyBankEvents.tsx:77 | the block text is never empty; it is "Unknown" iff the block number is missing, and otherwise all digits |
| `PiggyBankEvents.BlockPlaceholder` | packages/nextjs/app/piggybank/_components/PiggyBankEvents.tsx:77 | "Unknown" iff the block number is missing; block 0 reads "0"; otherwise the number's digits |
| `PiggyBankEvents.DepositEntry` | packages/nextjs/app/piggybank/_components/PiggyBankEvents.tsx:61-79 | key `deposit-` followed by the index; shows the event's amount and unlock time; "Unknown time" iff the timestamp is missing or 0; "Unknown" block iff the number is missing; the time and block shown are `TimeOf` and `BlockOf` of the event's own block data |
| `PiggyBankEvents.WithdrawalEntry` | packages/nextjs/app/piggybank/_components/PiggyBankEvents.tsx:86-101 | key `withdrawal-` followed by the index; shows only the amount; the same placeholder rules; the time and block shown are `TimeOf` and `BlockOf` of the event's own block data |
| `PiggyBankEvents.EmergencyEntry` | packages/nextjs/app/piggybank/_components/PiggyBankEvents.tsx:108-126 | key `emergency-` followed by the index; shows the gross amount and a received figure within the bounds of `(amount*9)/10`; the same placeholder rules; the time and block shown are `TimeOf` and `BlockOf` of the event's own block data |
| `PiggyBankEvents.DepositEntries` | packages/nextjs/app/piggybank/_components/PiggyBankEvents.tsx:60-82 | one entry per deposit in order, the i-th built from the i-th event with index i; an absent log gives none |
| `PiggyBankEvents.WithdrawalEntries` | packages/nextjs/app/piggybank/_components/PiggyBankEvents.tsx:85-104 | one entry per withdrawal in order, index i for the i-th |
| `PiggyBankEvents.EmergencyEntries` | packages/nextjs/app/piggybank/_components/PiggyBankEvents.tsx:107-129 | one entry per emergency withdrawal in order, index i for the i-th |
| `PiggyBankEvents.Render` | packages/nextjs/app/piggybank/_components/PiggyBankEvents.tsx:45-130 | the empty-history message iff all three logs are absent or empty, otherwise deposits ++ withdrawals ++ emergencies |
| `PiggyBankEvents.RenderedOrder` | packages/nextjs/app/piggybank/_components/PiggyBankEvents.tsx:58-130 | for any logs, absent ones counting as empty, that are not all blank, the list has as many entries as the three logs together; deposit i comes at position i, withdrawal i right after all deposits, emergency i after all withdrawals; nothing dropped or reordered |
| `PiggyBankEvents.EntryFields` | packages/nextjs/app/piggybank/_components/PiggyBankEvents.tsx:64-117 | deposits carry amount and unlock time, withdrawals only amount, emergencies amount and the received figure within its bounds |
| `PiggyBankEvents.KeyAtPositionInjective` | packages/nextjs/app/piggybank/_components/PiggyBankEvents.tsx:61-108 | the keys `deposit-i`, `withdrawal-i`, `emergency-i` of two distinct list positions differ |
| `PiggyBankEvents.KeysDistinct` | packages/nextjs/app/piggybank/_components/PiggyBankEvents.tsx:61-108 | no two entries of the rendered list share a key |
| `PiggyBankEvents.EmptyMessageIffNoEntries` | packages/nextjs/app/piggybank/_components/PiggyBankEvents.tsx:45-52 | the empty-history message is shown iff the concatenated list would be empty |

## Left out

- The wallet, contract read, contract write and event-history hooks are network I/O. Their results (`Option` reads, event logs) are inputs, and a write is returned as a `Write` value. Awaiting it, the try/catch logging and clearing the input after success are not modelled.
- The `setInterval` scheduling is not modelled. Each firing is a call of `CountdownState.Tick` with the clock as a parameter. Clearing the interval on unmount is not modelled either; clearing on a new read is `TimeLeftChanged`.
- `Number(timeLeft)` loses precision above 2^53. The model uses exact integers.
- Amount validation with `parseFloat` and conversion with `parseEther`/`formatEther` use floating point and decimal strings. The check's outcome and the converted wei are inputs of `CreateClicked` and `AddFundsClicked`. A conversion that throws is an absent wei value, and then no write is issued. The disabled state of the two buttons is the same check.
- Date formatting with `toLocaleString` is locale-dependent. The time line carries the raw timestamp, and a deposit's unlock time is kept as a number.
- `alert` and `confirm` are dialogs. Confirmation is a boolean input.
- The connected-address and balance header, the icons, the CSS classes and the "How it works" text are layout only.
- The lock-extension rule (a deposit only extends the lock) and the contract's penalty and lock enforcement happen in the contract. The contract is not part of this model, and the page never computes the extension.
