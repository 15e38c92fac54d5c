# Employee record manager: a Dafny model

This project models the logic core of a single-user console employee manager. The manager keeps fixed-schema
employee records in a file. Each record holds an id, a name, a salary, a bonus, an in-time and an out-time.
Each of its operations loads the whole record set, works on it, and writes the whole set back when it changed
something. The model covers two parts:

- **Shift-time arithmetic** (`shift_time.dfy`, module `ShiftTime`). It covers the `HH:MM` 24-hour pattern
  `^([01]\d|2[0-3]):([0-5]\d)$` that every stored time matches. It covers `minutesBetween`, which subtracts
  minutes of the day and adds 1440 when the result is negative, so a shift crosses midnight at most once.
  It also covers `formatMinutesToHHMM`, which writes unpadded hours, a colon and two zero-padded minute
  digits. `ParseDuration` is the inverse of that rendering, and the two are proved to round-trip. The
  pattern is shown to accept exactly the 1440 zero-padded spellings `ClockString(m)` of the minutes of a day.
- **The record operations** (`employee_records.dfy`, module `EmployeeRecords`). Class `EmployeeStore` has
  two fields. `records` is the sequence the backing file holds. `writes` counts how often an operation has
  rewritten the file. `AddEmployee`, `SearchEmployee`, `UpdateEmployee` and `DeleteEmployee` scan a loaded
  copy with a loop that stops at the first match, as the source's `for` loops with `found`/`break` do. Each
  method is proved against a specification function: `Added`, `Lookup`, `Updated` or `Removed`. `Added`
  is built on `HasId`, whether any record carries an id. The other three are built on `IndexOf`, the first
  position carrying an id. Lemmas then prove what these operations promise. A search
  after an add finds the new record. A duplicate add changes nothing and saves nothing. An update edits only
  the first match and never its id, and an all-blank update changes nothing. A delete removes exactly the
  first match and keeps the order of the rest. All three changing operations keep ids unique and every
  record valid.

Replacement input during an update is modelled per field. A name or time line is a string, and the empty
string means blank. A salary or bonus line is `AmountInput`: `Blank`, `Unparseable` (the parse threw) or
`Parsed(v)`.

An update saves whenever the id is found, even when every line was blank or rejected
(employee.cpp:216).

## Model

| member | source | states |
|---|---|---|
| `ShiftTime.IsValidTime` | employee.cpp:318-322 | a time accepted by the pattern is five characters, two digits, a colon and two digits |
| `ShiftTime.MinutesOfDay` | employee.cpp:332-344 | the minute of the day of a valid time is below 1440, and its quotient and remainder by 60 are the time's hour and minute |
| `ShiftTime.ClockStringRoundTrip` | employee.cpp:318-322 | every minute of the day has a zero-padded spelling that the time pattern accepts and that reads back as that minute |
| `ShiftTime.ValidTimeIsClockString` | employee.cpp:318-322 | every string the time pattern accepts is the zero-padded spelling of its own minute of the day, so the pattern accepts exactly those 1440 strings |
| `ShiftTime.MinutesBetween` | employee.cpp:331-350 | the worked minutes lie in [0, 1439], and the in-time plus the worked minutes gives the out-time modulo one day |
| `ShiftTime.MinutesBetweenUnique` | employee.cpp:343-349 | any shift length in [0, 1439] that carries the in-time to the out-time modulo a day equals MinutesBetween, so the shift wraps midnight at most once |
| `ShiftTime.MinutesBetweenSameDay` | employee.cpp:346-349 | when the out-time is not earlier than the in-time, the result is the plain difference, and equal times give 0 |
| `ShiftTime.MinutesBetweenOvernight` | employee.cpp:346-347 | when the out-time is earlier than the in-time, the result is the difference plus 1440 and is positive |
| `ShiftTime.DecimalString` | employee.cpp:357 | the hour count is written as one or more decimal digits with no leading zero, and a single digit exactly when it is below 10 |
| `ShiftTime.FormatMinutes` | employee.cpp:352-359 | the rendering is digits, a colon, then exactly two digits, and at most five characters for a duration under a day |
| `ShiftTime.DecimalStringValue` | employee.cpp:357 | the digits written for a number denote that number |
| `ShiftTime.CanonicalDigitsRoundTrip` | employee.cpp:357 | a digit string without a leading zero is exactly what is written for its own value |
| `ShiftTime.FormatMinutesRoundTrip` | employee.cpp:352-358 | parsing the `H:MM` rendering of any number of minutes gives that number back |
| `ShiftTime.ParseDurationRoundTrip` | employee.cpp:352-358 | a parsable duration whose hours have no leading zero is exactly the rendering of its value |
| `ShiftTime.ShiftExamples` | employee.cpp:331-358 | 09:00 to 17:30 is 510 minutes, rendered "8:30"; 22:00 to 06:00 is 480 minutes |
| `EmployeeRecords.Employee.TotalSalary` | employee.cpp:19-21 | the total salary is never below the salary or the bonus when both are non-negative |
| `EmployeeRecords.Employee.Valid` | employee.cpp:76-92 | a record passing the input checks has two pattern-valid times, so its worked minutes are defined and below a day, and its total salary is non-negative |
| `EmployeeRecords.IndexOf` | employee.cpp:142-143 | the position found carries the id and no earlier record does; there is none exactly when no record has the id |
| `EmployeeRecords.Lookup` | employee.cpp:140-160 | the search reports not-found exactly when no record has the id, and otherwise a record of the set with that id |
| `EmployeeRecords.SearchFirstMatch` | employee.cpp:142-157 | the search reports the first record whose id matches |
| `EmployeeRecords.Added` | employee.cpp:79-95 | an add grows the set by one exactly when the id is new, keeps every earlier record in place, and leaves the id present |
| `EmployeeRecords.AddThenSearch` | employee.cpp:79-95 | after an add of a new id, a search for that id finds exactly the record added |
| `EmployeeRecords.AddShape` | employee.cpp:79-95 | an add with a taken id leaves the set unchanged; otherwise the set grows by one, the new record is last and earlier records are unchanged |
| `EmployeeRecords.AddKeepsInvariant` | employee.cpp:79-84 | add keeps ids unique, and keeps every record valid when the new one is |
| `EmployeeRecords.NewAmount` | employee.cpp:180-198 | a blank or unparseable salary or bonus line keeps the old value, a negative one keeps the old value, and a non-negative one is stored |
| `EmployeeRecords.NewTime` | employee.cpp:200-214 | a blank time line or one failing the pattern keeps the old time, a matching one is stored, and a valid time stays valid |
| `EmployeeRecords.ApplyEdits` | employee.cpp:169-214 | an update never changes the id; a blank name keeps the name and a non-blank one replaces it; salary, bonus and both times follow NewAmount and NewTime; a valid record stays valid; all-blank input leaves the record identical |
| `EmployeeRecords.Updated` | employee.cpp:169-220 | an update keeps the length of the set and the id at every position |
| `EmployeeRecords.UpdateAbsent` | employee.cpp:169-222 | an update of an absent id leaves the set unchanged |
| `EmployeeRecords.UpdateShape` | employee.cpp:169-220 | update keeps the length and every id, edits only the first record with the id, and leaves every other record as it was |
| `EmployeeRecords.UpdateAllBlank` | employee.cpp:174-214 | an update whose every line is blank leaves the whole set identical |
| `EmployeeRecords.UpdateKeepsInvariant` | employee.cpp:169-214 | update keeps ids unique and every record valid |
| `EmployeeRecords.UpdateThenSearch` | employee.cpp:166-220 | after an update of a present id, a search finds the edited version of the record that was found before |
| `EmployeeRecords.Removed` | employee.cpp:231-233 | a delete shortens the set by one exactly when the id is present, and every remaining record was in the set before |
| `EmployeeRecords.DeleteShape` | employee.cpp:231-233 | delete of a present id erases its first record: the set is one shorter, the records before and after keep their order, and the multiset loses exactly that record |
| `EmployeeRecords.EraseKeepsOthers` | employee.cpp:233 | erasing one position removes exactly the record at that position from the multiset |
| `EmployeeRecords.DeleteAbsent` | employee.cpp:231-240 | delete of an absent id leaves the set unchanged |
| `EmployeeRecords.DeleteKeepsInvariant` | employee.cpp:231-233 | delete keeps ids unique and every record valid |
| `EmployeeRecords.DeleteThenSearch` | employee.cpp:228-240 | with unique ids, a search after a delete reports not-found |
| `EmployeeRecords.EmployeeStore.constructor` | employee.cpp:246-248 | the store starts from the file's record sequence, with no writes made yet |
| `EmployeeRecords.EmployeeStore.Load` | employee.cpp:245-256 | loading yields the whole record sequence in file order |
| `EmployeeRecords.EmployeeStore.Save` | employee.cpp:258-264 | saving overwrites the whole file with the given sequence and counts one write |
| `EmployeeRecords.EmployeeStore.AddEmployee` | employee.cpp:72-98 | reports DuplicateId exactly when the id is taken, leaving the file unwritten; otherwise it appends, saves once, keeps the store valid, and a search then finds the added record |
| `EmployeeRecords.EmployeeStore.SearchEmployee` | employee.cpp:137-161 | the scan reports the first record with the id, or none exactly when no record has it |
| `EmployeeRecords.EmployeeStore.UpdateEmployee` | employee.cpp:163-223 | reports NotFound without writing when the id is absent; otherwise it edits the first match field by field, saves once, keeps the store valid, and a search then finds the edited record |
| `EmployeeRecords.EmployeeStore.DeleteEmployee` | employee.cpp:225-241 | reports NotFound without writing when the id is absent; otherwise it erases the first match, saves once and keeps the store valid; on a valid store a search afterwards reports not-found |

## Left out

- Binary persistence (`loadEmployees`/`saveEmployees`, employee.cpp:245-264). The source dumps the in-memory
  layout of a structure that holds `std::string`, which is not a defined encoding. The file is modelled as the
  abstract record sequence `EmployeeStore.records`. A failed open for writing, and the truncation it can
  leave behind, is not modelled.
- The console input helpers `getValidatedInt`, `getValidatedDouble`, `getValidatedString` and the prompting loop
  of `getValidatedTime` are left out, as is the `main` menu loop (employee.cpp:45-68, 268-325). These are console
  retry loops. Their guarantees become the `Employee.Valid` predicate, which the invariant lemmas take as given
  for a newly added record.
- The id is read before the duplicate check, and the other fields are read after it (employee.cpp:76-92).
  `AddEmployee` takes the whole record at once, because reading input is not modelled.
- The prompts and result messages of every operation, including the "invalid input" diagnostics of an update,
  are console output and are left out.
- `std::stod` parsing details (employee.cpp:184, 194). The result of parsing a salary or bonus line is
  abstracted as `AmountInput`.
- `ShiftTime.MinutesBetween`: it is modelled only for times that match the pattern. The `istringstream`
  reading of other strings (employee.cpp:332-338) is not modelled. Every stored time matches the pattern.
- `ShiftTime.FormatMinutes`: it is modelled for non-negative minutes only. C++ truncating division on a
  negative count is not modelled, because the only argument ever passed is a `minutesBetween` result.
- `EmployeeRecords.Employee.TotalSalary`: amounts are Dafny `real`s. Double-precision rounding of the sum is
  not modelled, and the contract states only that the total bounds each non-negative part.
- `displayAll` and `minutesToDecimalHours` (employee.cpp:100-135, 361-363), and the `setw`/`setprecision`
  formatting in `searchEmployee` are left out. They are presentation and floating point only.
- Integer widths: ids are unbounded integers. The model never does arithmetic on an id, and minute arithmetic
  stays below 2880, so 32-bit `int` cannot overflow anywhere in the modelled code.
