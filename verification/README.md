# Contact manager — a Dafny model

This project models the core of a small command-line contact manager
(`main.py`). The manager keeps an address book of contacts. Each contact has
a name, a list of ten-digit phone numbers and an optional birthday. A REPL
dispatches commands (`add`, `change`, `phone`, `add-birthday`,
`show-birthday`, `birthdays`) to handler functions. Those handlers are wrapped
in the `input_error` decorator, which turns some exceptions into
messages. The `birthdays` command lists the contacts whose birthday falls
in the next seven days, with a weekend birthday moved to the following Monday.

The model is written as pure functions over immutable datatypes:

- `results.dfy`: `Option` and `Result`, used for every Python exception path.
- `text.dfy`, `sequences.dfy`: digit helpers and a subsequence relation.
- `calendar.dfy`: the proleptic Gregorian calendar of Python's `datetime`.
  It covers years 1..9999, the day ordinal (1 January of year 1 is day 1) and
  weekdays (Monday is 0). It also has `date + timedelta` (OverflowError outside
  the calendar) and `date.replace(year=...)` (ValueError for a missing day or
  an out-of-range year).
- `date_text.dfy`: `strptime(value, "%d.%m.%Y")` and `strftime("%d.%m.%Y")`.
- `fields.dfy`: the `Phone` and `Birthday` fields with their validation.
- `records.dfy`: `Record` and its phone and birthday methods, plus `__str__`.
- `address_book.dfy`: `AddressBook` as a map plus the key insertion order,
  which Python's dict keeps and the birthday report follows.
- `scheduler.dfy`: `find_next_weekday`, `adjust_for_weekend` and
  `get_upcoming_birthdays`. The report has a recursive definition and a loop
  method proved equal to it.
- `handlers.dfy`: `input_error` and the five wrapped handlers. A handler maps
  the arguments and the book to an `Outcome`: the book afterwards, and the
  reply or the exception that escaped.

Modelling decisions:

- A Python method that mutates a record or the book becomes a function from
  the old value to the new one. A handler that raises after mutating the book
  returns the mutated book with the exception, as Python leaves it.
- `CheckPhoneNumber` derives from `Exception`, not `ValueError`, so
  `input_error` does not catch it. In the model, an invalid phone given to
  `add` or `change` escapes the handler as `Failure(CheckPhoneNumber(...))`.
  The handler contracts state that the contact has already been created, or
  its phones already cleared, at that point.
- `Record.find_phone` turns the `StopIteration` of an exhausted generator into
  `str(StopIteration())`, which is the empty string. So "not found" is
  `NotFound("")`.
- The clock (`datetime.today()`) is a parameter `now`: a date plus
  microseconds since midnight. A stored birthday is a `datetime` at midnight.
  `(birthday_this_year - today).days` is the floor of the difference in days,
  so for a birthday not yet passed it is the ordinal difference, minus one
  when `now` is past midnight (lemma `Scheduler.WholeDaysToMidnight`).
- `get_upcoming_birthdays` raises ValueError for a contact born on 29
  February when this year's date does not exist. It also raises when that
  date has passed and next year has no 29 February. The first such contact
  aborts the whole report, and `birthdays` is not wrapped by `input_error`.
  The model returns the error (`Scheduler.UpcomingFailsIff`).
- A birthday whose next occurrence is a weekend day is announced for the
  following Monday (main.py:104-106, 121). For example, 15.06.2024 is a
  Saturday, so it is announced as 17.06.2024
  (`Scheduler.SaturdayBirthdayMovesToMonday`).
- `edit_phone` validates the new number with `Phone`, but it only catches
  `ValueError` (main.py:67). `CheckPhoneNumber` derives from `Exception`
  (main.py:17), so an invalid new number raises it out of `edit_phone`
  (`Records.EditPhone` fails with it).

## Model

| member | source | states |
|---|---|---|
| Fields.NewPhone | main.py:30-36 | A phone is accepted exactly when it is ten ASCII digits, and it is stored unchanged. The digit check runs first, so any non-digit, and the empty string, gives the "is not digit" error. An all-digit value of the wrong length gives the "> 10 digits" error. |
| Fields.PhoneExamples | main.py:30-36 | "1234567890" is accepted; "123" fails on length; "12345abcde" fails on the digit check. |
| Fields.NewBirthday | main.py:38-43 | `Birthday(value)` succeeds exactly when the text parses as `%d.%m.%Y`, holds that date, and the date is valid; otherwise it fails with the "Invalid date format" ValueError. |
| Fields.BirthdayRoundTrip | main.py:38-43 | Every birthday built from text is a valid calendar date. Every valid date written as DD.MM.YYYY parses back to itself. |
| DateText.ParseDate | main.py:41 | The result of `%d.%m.%Y` parsing, when there is one, is always a representable calendar date. A text without the two literal dots is refused. |
| DateText.ParseFields | main.py:41 | A text made of three fields separated by dots, the first two without dots, parses exactly as its day field (`%d`: one or two digits, or a space and a digit), month field (`%m`) and four-digit year field assemble into a valid date. |
| DateText.FormatDate | main.py:122 | The rendering is ten characters: two zero-padded digits for the day, a dot, two for the month, a dot, and four for the year, each reading back as that field's value. |
| DateText.FormatParseRoundTrip | main.py:41 | Parsing the DD.MM.YYYY rendering of any valid date gives back that date. |
| DateText.LeapDayExample | main.py:41 | "29.02.2024" parses to 29 February 2024. |
| DateText.CommonYearLeapDayExample | main.py:41-43 | "29.02.2023" is refused, because 2023 has no 29 February. |
| DateText.NonexistentDayExample | main.py:41-43 | "31.04.2023" is refused. |
| DateText.ShortFieldsExample | main.py:41 | "1.6.2024" is accepted as 1 June 2024 (strptime takes single-digit day and month). |
| DateText.ShortYearExample | main.py:41-43 | "15.06.24" is refused: `%Y` needs four digits here. |
| Records.NewRecord | main.py:46-49 | A new record carries the given name, no phones and no birthday, and satisfies the record invariant. |
| Records.AddPhone | main.py:54-55 | Appends exactly the given phone when `Phone` accepts it and fails with `Phone`'s error otherwise. It keeps every stored phone valid. |
| Records.Without | main.py:59 | Drops every phone with that value and keeps the others in their order. |
| Records.WithoutKeepsCounts | main.py:59 | Every phone with another value occurs as often after the removal as before. |
| Records.RemovePhone | main.py:57-59 | No phone with the value remains; the others keep their order and multiplicity; name and birthday are unchanged; an absent value leaves the record as it was. |
| Records.RemoveAllPhones | main.py:61-62 | The phone list becomes empty; name and birthday are kept, and so is the record invariant. |
| Records.ClearThenAddLeavesOnePhone | main.py:61-62 | Clearing all phones and then adding a valid one leaves exactly that phone. |
| Records.Replace | main.py:70-72 | Every phone equal to the old value becomes the new value; the others stay where they were. |
| Records.EditPhone | main.py:64-72 | Fails exactly when `Phone(new)` fails, with that error. Otherwise each phone equal to the old value is replaced, and length, name and birthday are kept. |
| Records.FirstMatch | main.py:76 | The index of the first phone with the value, or none exactly when no phone has it. |
| Records.FindPhone | main.py:74-79 | Returns the first stored phone with the value; "not found" (with empty text) exactly when no phone has it. |
| Records.SetBirthday | main.py:81-82 | Sets the parsed birthday exactly when the text parses; name and phones are kept. |
| Records.SplitJoin | main.py:52 | The "; "-joined phone list can be split back into the same valid phones. |
| Records.ShowDeterminesPhones | main.py:51-52 | A record's string form starts with its name, and the rest splits back to its phone list. |
| AddressBooks.EmptyBookValid | main.py:85 | The empty book satisfies the book invariant. |
| AddressBooks.Find | main.py:90-91 | `dict.get`: the stored record, and None exactly when the name is absent, rather than a KeyError. |
| AddressBooks.AddRecord | main.py:87-88 | The record is found under its name and nothing else changes. A new name is appended to the iteration order and an existing one keeps its place. The book invariant is kept. |
| AddressBooks.Store | main.py:88 | Writing back a changed record keeps every other entry and the order. |
| AddressBooks.RemoveKey | main.py:93-96 | Removes exactly that key, keeps the others in order and distinct, and leaves a sequence without the key unchanged. |
| AddressBooks.Delete | main.py:93-96 | The name is no longer found and every other entry is unchanged. The order is a subsequence of the old one, and the invariant holds. An absent name leaves the book as it was. |
| Calendar.AddDays | main.py:102 | `date + timedelta(days=k)` succeeds exactly when the target ordinal is in the calendar, and lands on that ordinal. |
| Calendar.ReplaceYear | main.py:116-118 | `replace(year=y)` succeeds exactly when the year is in 1..9999 and the date is not 29 February of a common year. |
| Calendar.OrdinalMonotone | main.py:117 | Comparing two dates agrees with comparing their ordinals. |
| Calendar.OrdinalInjective | main.py:117 | Distinct dates have distinct ordinals. |
| Calendar.ClosedFormAgrees | main.py:99 | The day count before a year matches the closed form `365(y-1) + (y-1)/4 - (y-1)/100 + (y-1)/400`. |
| Scheduler.FindNextWeekday | main.py:98-102 | Returns the nearest date 1 to 7 days later that falls on the weekday. It always succeeds when a week's room is left, and otherwise fails only with OverflowError. |
| Scheduler.StepToWeekday | main.py:99-101 | The `days_ahead` step lies in 1..7, reaches the weekday, and skips no earlier match. |
| Scheduler.LastDateIsFriday | main.py:104-106 | 31 December 9999 is a Friday, so a weekend day always has a following Monday. |
| Scheduler.AdjustForWeekend | main.py:104-107 | Always succeeds on a weekday. A weekday date is kept; a Saturday or Sunday becomes the Monday one or two days later. |
| Scheduler.NextOccurrence | main.py:116-118 | The birthday's day and month, in this year or the next, not before now, and the earliest such date. It fails exactly when this year's date is missing, or has passed and next year's is missing. |
| Scheduler.WholeDaysToMidnight | main.py:120 | `(date - now).days` is the ordinal difference minus one when now is past midnight. |
| Scheduler.OccurrenceNotPast | main.py:117-120 | The day count to the next occurrence is never negative. |
| Scheduler.ReminderFor | main.py:113-122 | One contact: the report raises exactly when its birthday cannot be placed. Otherwise the contact is listed exactly when it is due within the window, under its own name and the adjusted date: the occurrence itself on a weekday, the following Monday on a weekend. |
| Scheduler.UpcomingFailsIff | main.py:109-123 | The report fails exactly when some contact's birthday cannot be placed. |
| Scheduler.UpcomingListsExactlyDue | main.py:109-123 | A successful report lists a contact exactly when it is due. Names appear in the book's iteration order, and each listed date is the adjusted occurrence. |
| Scheduler.UpcomingSkipsMissingBirthdays | main.py:113-114 | A contact without a birthday is never listed. |
| Scheduler.Birthdays | main.py:203-204 | The `birthdays` command fails exactly when some birthday cannot be placed; otherwise it lists, in key order, exactly the contacts due within the default seven days, each with its announced date: the occurrence itself on a weekday, the following Monday on a weekend. |
| Scheduler.AnnouncedDateUnique | main.py:104-122 | The announced date is determined: two reminders that both announce a record's birthday carry the same date. |
| Scheduler.SundayBirthdayMovesToMonday | main.py:104-122 | With now on 10.06.2024, a 16.06 birthday (a Sunday) can only be announced for Monday 17.06.2024. |
| Scheduler.SaturdayBirthdayMovesToMonday | main.py:104-122 | With now at 10:00 on 10.06.2024, a 15.06 birthday is announced for Monday 17.06.2024. |
| Scheduler.LeapDayBirthdayInCommonYear | main.py:116 | A 29 February birthday makes the report raise in 2023. |
| Scheduler.LeapDayBirthdayAfterItPassed | main.py:117-118 | A 29 February birthday makes the report raise on 1 March 2024, because 2025 has no such day. |
| Scheduler.VisitRecord | main.py:113-122 | One pass of the loop body either stops with the ValueError the rest of the report would end with, or leaves the report still to come unchanged once its own reminder is appended. |
| Scheduler.GetUpcomingBirthdays | main.py:109-123 | The loop over the book's keys computes the report (`Upcoming`), so the properties above hold for it. |
| Handlers.CaughtMessage | main.py:129-134 | Of the four exceptions the handlers can raise, only `CheckPhoneNumber` is not caught. |
| Handlers.InputError | main.py:125-136 | ValueError becomes "Incorrect value."; KeyError and IndexError become the missing-argument message. `CheckPhoneNumber` escapes, and a normal return passes through. The book keeps what the handler did. |
| Handlers.FindOrCreate | main.py:146-151 | The record under the name; a fresh one is created and added to the book when there is none. |
| Handlers.AddContact | main.py:143-154 | Fewer than two arguments gives "Incorrect value.". "Contact added." means the name was new and the phone accepted; "Contact updated." means it existed and the phone was accepted. An invalid phone escapes as `CheckPhoneNumber` with the contact already created. Phones become the old ones plus the accepted one. The birthday and other contacts are unchanged, and the invariant is kept. A new name is appended to the iteration order; an existing one keeps its place. |
| Handlers.ChangeContact | main.py:156-166 | An unknown name gives "Contact not found." and no change. A known name ends with exactly the new phone, or with no phones and an escaping `CheckPhoneNumber`. The invariant is kept. |
| Handlers.GetPhone | main.py:168-175 | The reply is the record's string form, or "Contact not found!". The book is unchanged. |
| Handlers.AddBirthday | main.py:177-188 | The reply is always a message. A non-empty date that does not parse gives "Incorrect value.", and the contact is still created with its birthday unchanged. An empty date is skipped: the birthday is unchanged and the reply is the usual message. A good date is stored, with the message depending on whether the contact existed. The phones and other contacts are unchanged. A new name is appended to the iteration order; an existing one keeps its place. |
| Handlers.ShowBirthday | main.py:190-200 | The reply is the stored birthday as DD.MM.YYYY and parses back to it. A contact without a birthday gives None, and an unknown one "Contact not found!". |
| Handlers.AddThenShowBirthday | main.py:177-200 | Adding a birthday given as DD.MM.YYYY and then showing it returns the same text. |

## Left out

- `save_data`/`load_data` (pickle files), `main` (the REPL loop, `print`), and the `hello`, `all`, `close`/`exit` and unknown-command branches: these are I/O only.
- `parse_input`: whitespace splitting and lower-casing are left out, so handlers take the argument list directly. Because of this, an empty phone or date argument can reach the model, although `str.split` never produces one.
- DateText.ParseDate: a simplified model of `strptime(value, "%d.%m.%Y")`. It keeps the field patterns of the three directives, the literal dots, the rule that nothing may follow the year, and the calendar check. It leaves out locale handling and the exact error messages, which the program replaces with its own.
- `str.isdigit` accepts every Unicode character with a digit property, superscripts such as '²' included. strptime's `\d` accepts every Unicode decimal digit. The model accepts ASCII `0`-`9` only, so a phone such as "²²²²²²²²²²", which Python accepts, is refused here.
- Each entry of the report is a `Scheduler.Reminder` holding the contact's name and the announced date. Python emits `{"Contact": name, "upcoming birthday": text}`, where the text is `DateText.FormatDate` of that date. The dictionary form is left out.
- `strftime("%Y")` for years below 1000 is platform-dependent; the model always writes four zero-padded digits.
- `datetime.today()` is a parameter (`now`), not a clock reading.
- Records.EditPhone: its `except ValueError` branch can never fire, because `Phone` raises `CheckPhoneNumber`. It is not modelled.
- `Field`, `Name` and `Field.__str__` are left out: a name is a plain string and a phone is `Phone(value)`.
- Scheduler.FindNextWeekday: the contract covers weekdays 0..6 only. Success is guaranteed only when seven days of calendar remain, which is sufficient but not necessary.
- Handlers.ShowBirthday: requires the book invariant `Valid(book)` so that every stored birthday is a real date. Every handler preserves the invariant and the empty book satisfies it.
