# bolibana_reporting core, modelled in Dafny

This project models the reporting core of `bolibana_reporting`. The core has four parts:

- **Periods.** The day, month and year kinds of reporting period. For each kind, the model gives its boundary rule and the registry operations. Those operations look a period up or create it (`find_create_with`, `find_create_by_date`, `find_create_from`). They also give a period's middle, move to the next period (`next`) and test containment (`includes`).
- **The indicator table engine.** A table's options are merged in three layers and read through the attribute-access dictionary `Options`. Each line of the table gets a value per period, a rate against its reference line and an optional total. The table's data is keyed by the line's index slug and sorted by that key.
- **The error manager.** Error messages are grouped by named section. `ExcelErrorManager` in the spreadsheet module is the same code without `fusion`, and the same members model it.
- **Spreadsheet forms.** This covers the cell converters, the form fields and cell-coordinate parsing, and how a form maps a cell to a variable. It also covers `get`, `set`, `value_error` and `is_valid`.

Host-language exceptions are values of `Result` (`Ok` or `Raised(exception)`), not preconditions. Every error path of the source is a case of the model, except the `period.pid` read of the indicator engine (see "## Left out"). Python 2 details are written out where they matter:

- `list.append` returns `None`;
- `True == 1`;
- `name in ('update')` is a substring test;
- a negative list index counts from the end;
- `int()` strips whitespace, and accepts whitespace between the sign and the digits;
- `timedelta(days=1e-11)` rounds to one microsecond;
- dividing a `timedelta` by 2 floors to whole microseconds.

Instants are microsecond counts on the proleptic Gregorian calendar (`Calendar`).

Modules, one per file:

| file | module | models |
|---|---|---|
| values.dfy | Values | host values, exceptions, `Result` |
| text.dfy | Text | `strip`, `lower`, decimal text of integers, `int()` of text, substring search, text order |
| calendar.dfy | Calendar | dates and times, and the microsecond count of an instant |
| dicts.dfy | Dicts | dictionaries with insertion-ordered keys |
| periods.dfy | Periods | `models/Period.py` |
| options.dfy | Options | `models/Options.py` and the option layers of `IndicatorTable.setup` |
| errors.dfy | Errors | `errors.py` and `ExcelErrorManager` |
| indicators.dfy | Indicators | `indicators.py` |
| excel.dfy | Excel | `excel.py` |

Where the source has a bug, the model has two versions:

- a member ending in `AsWritten`, which models the code as written;
- a corrected member, which the rest of the model uses.

A lemma relates the two (see "## Findings").

`add` returns the `None` of `list.append` when it stores a message, and `False` when the section already holds it (`Errors.AddReturn`).

## Model

| member | source | states |
|---|---|---|
| Periods.DayBoundaries | models/Period.py:234-239 | The day of an instant runs from its midnight to 23:59:59.999999, one microsecond before the next day's midnight, and holds the instant. |
| Periods.MonthBoundaries | models/Period.py:261-269 | The month runs from midnight on the 1st to one microsecond before the 1st of the next month, December rolling over to January, and holds the instant. |
| Periods.YearBoundaries | models/Period.py:290-295 | The year runs from midnight on 1 January to one microsecond before the next 1 January, and holds the instant. |
| Periods.CanonicalStable | models/Period.py:234-295 | Every instant of an aligned period has that same aligned period: the boundary rules partition time. |
| Periods.FindCreateWithAsWritten | models/Period.py:200-212 | As written, a successful call returns the triple asked for, with the class's type when none is given. |
| Periods.FindCreateWith | models/Period.py:200-212 | Returns the period with the requested triple; the registry is unchanged if it held it, and otherwise gains exactly that period at the end. |
| Periods.FindCreateWithAgrees | models/Period.py:200-212 | Without an explicit type, or with the class's own type, the code as written and the corrected lookup give the same result. |
| Periods.FindCreateWithAsWrittenNotIdempotent | models/Period.py:205-211 | As written, asking a day class twice for a month-typed triple creates it once, then fails with the unique-constraint error. |
| Periods.FindCreateWithIdempotent | models/Period.py:200-212 | A second identical call returns the same period and stores nothing. |
| Periods.FindCreateWithKeepsUnique | models/Period.py:200-212 | The registry never holds the same (start, end, type) triple twice. |
| Periods.FindCreateByDate | models/Period.py:188-198 | The result is of the class's type and contains the instant, ends included. For every position holding the first stored period that covers the instant, that period is returned and the registry is unchanged. When no stored period covers it, the aligned period is appended. |
| Periods.FindCreateByDateFinds | models/Period.py:191-194 | When a stored period covers the instant, the first such period is returned and the registry is unchanged. |
| Periods.FindCreateByDateKeepsUnique | models/Period.py:188-198 | Lookup by date keeps the registry free of duplicate triples. |
| Periods.FindCreateByDateAligned | models/Period.py:188-198 | On an aligned registry the result is exactly the aligned period of the instant, and the registry stays aligned. |
| Periods.FindCreateByDateAsWrittenAgrees | models/Period.py:188-198 | As written, a day or year class only finds stored periods. When none covers the instant, the day rule raises NameError and the year rule raises ValueError, and nothing is created. The month class behaves as corrected. |
| Periods.Middle | models/Period.py:113-115 | The middle of a period lies between its start and its end. |
| Periods.NextLands | models/Period.py:127-130 | When the middle plus the class's nominal length falls inside an aligned period, `next` on an aligned registry returns that period. |
| Periods.NextDay | models/Period.py:127-130 | `next` of an aligned day is the aligned period of the following calendar day. |
| Periods.NextMonthPeriod | models/Period.py:127-130 | `next` of an aligned month (nominal length 28 days) is the following calendar month, for every month length and across December. |
| Periods.NextYear | models/Period.py:127-130 | `next` of an aligned year (nominal length 365 days) is the following calendar year, leap years included. |
| Periods.Includes | models/Period.py:139-152 | A datetime is included exactly when it lies strictly between start and end. A date is included exactly when noon of that day lies strictly between them. A year number never is. |
| Periods.IncludesExcludesEnds | models/Period.py:148-149 | Neither end is included: `includes` is `find_create_by_date`'s inclusive test minus the two end points. |
| Periods.IncludesOwnDay | models/Period.py:146-149 | A day period includes its own date (taken at noon), while the code as written raises TypeError. |
| Periods.FindCreateFromYear | models/Period.py:160-169 | A year below 1 raises. Otherwise the result is of the class's type and encloses the whole year. A stored result leaves the registry unchanged; a new one runs from 1 January to 31 December 23:59:59.999999 and is appended. |
| Periods.FindCreateFromYearFinds | models/Period.py:160-168 | The first stored period of the class's type enclosing the whole year is returned and nothing is created. Only when none encloses it is the year's own period, 1 January to 31 December 23:59:59.999999, appended and returned. |
| Periods.FindCreateFromYearAsWrittenRaises | models/Period.py:162-163 | As written the year-only branch raises NameError for every valid year; the corrected branch returns a period. |
| Periods.FindCreateFrom | models/Period.py:156-186 | Year alone goes to the year branch. A week number gives the week resolver's range with the class's type; the registry is unchanged when it holds that period and otherwise gains it at the end. Otherwise the missing fields default to 1, 1, 0, 0, 0 and the instant goes to `find_create_by_date`, with ValueError for an invalid date. |
| Periods.FindCreateFromMonth | models/Period.py:176-184 | `find_create_from(y, m)` resolves midnight of the first of that month by date. |
| Options.GetAttrAsWritten | models/Options.py:18-25 | As written, a name goes to object lookup exactly when it starts with `_` or is a substring of "update". |
| Options.GetAttr | models/Options.py:18-25 | Internal names and `update` go to object lookup; any other name reads its item, or `None` when the key is missing. |
| Options.GetAttrAgrees | models/Options.py:20-21 | The intended bypass set lies inside the as-written one, and outside it both reads agree. |
| Options.DateKeyBypasses | models/Options.py:20-23 | A stored key "date" is unreadable as an attribute under the code as written, and reads its item under the intended test. |
| Options.EngineOptionsAreItems | models/Options.py:20-25 | The four option names the engine reads never bypass, under either test. |
| Options.UpdateAsWritten | models/Options.py:27-30 | As written, `update` stores object attributes and leaves the items unchanged. |
| Options.Update | models/Options.py:27-30 | The intended `update` stores every pair as an item and keeps every other item. |
| Options.UpdateVisible | models/Options.py:27-30 | After the intended update a name reads the new value. After the update as written it still reads the old one. |
| Options.SetupAsWritten | indicators.py:74-85 | The merged options follow the layer priority, and the same dictionary becomes the new engine-wide defaults. |
| Options.Setup | indicators.py:74-85 | Keyword arguments win over table defaults, which win over engine-wide defaults; nothing else is touched. |
| Options.SetupPriority | indicators.py:77-85 | Option reads after `setup` follow the layer priority; the as-written and intended option objects are equal. |
| Options.SetupLeaks | indicators.py:82-84 | A keyword argument given to one table shows up in the next table's options as written, and not under the intended merge. |
| Errors.Reset | errors.py:63-65 | After a reset the manager has exactly one section, "default": a name has a section exactly when it is "default", and no section holds a message. |
| Errors.AddSection | errors.py:37-40 | An existing section is left alone; a missing one is created empty, at the end. |
| Errors.AddSectionSpec | errors.py:37-40 | Adding a section keeps the manager valid and leaves that section present. No section's messages change, and a second call changes nothing. |
| Errors.AddSpec | errors.py:22-35 | The target section (default "default") exists afterwards. `False` is returned exactly when it held the message already, and then nothing changes. Otherwise the message is appended. Other sections are untouched and the manager stays duplicate-free. |
| Errors.AddIdempotent | errors.py:32-35 | Adding the same message a second time returns `False` and changes nothing. |
| Errors.Count | errors.py:42-47 | The count is the number of messages over all sections. |
| Errors.CountAfterAdd | errors.py:22-47 | The count grows by one exactly when `add` stores a message. |
| Errors.All | errors.py:58-61 | The flat listing is the sections' messages concatenated section after section. It has one entry per message and lists exactly the messages some section holds. |
| Errors.FlattenBlock | errors.py:58-61 | Each section's messages appear in the flat listing as one contiguous block, in their own order, after the blocks of the sections before it. |
| Errors.AllBySection | errors.py:51-56 | The per-section listing holds exactly the non-empty sections. |
| Errors.FusionSpec | errors.py:67-71 | After `fusion` every message of the other manager is in the section of the same name. The manager's own messages keep their places, and no message appears from anywhere else. |
| Excel.AddSpecFor | excel.py:92-102 | `ExcelErrorManager.add` without a section appends a new message to "default" and keeps the manager duplicate-free. |
| Indicators.Lines | indicators.py:111-114 | The lines are exactly the members tagged as indicators. |
| Indicators.Label | indicators.py:154-160 | A line's label is its `@label` text, or else its name. |
| Indicators.LineIndexSlug | indicators.py:104-109 | A tagged indicator's slug is its index in decimal, an underscore and its name. |
| Indicators.SlugInjective | indicators.py:104-109 | Distinct (index, name) pairs have distinct slugs. |
| Indicators.IndicatorData | indicators.py:172-184 | A name that is not an indicator method raises IndexError. `NoSourceData` gives `None`, and otherwise the method's value is returned. |
| Indicators.FirstReference | indicators.py:218-222 | The implicit reference is the first member tagged `@reference`, and there is none exactly when no member is tagged. |
| Indicators.ImplicitReferenceIsLeast | indicators.py:218-222 | With members listed in name order, the implicit reference is the reference line whose name sorts first. |
| Indicators.RefName | indicators.py:216-223 | A line's own non-empty reference name wins; otherwise the first reference line is used. IndexError when there is none, and AttributeError for a name that is not an indicator. |
| Indicators.ReferenceValue | indicators.py:209-214 | The reference value is the indicator value of the line's reference, and fails as the reference name does. |
| Indicators.RateSpec | indicators.py:186-207 | Against a different reference: no value gives `None`, a missing reference value gives TypeError, a zero reference gives 0, and otherwise the rate times the reference value equals the value. |
| Indicators.RateOfReference | indicators.py:189-191 | A line that is its own reference has rate 1. |
| Indicators.RateNeedsReference | indicators.py:193-197 | The reference value is fetched first, so a reference name that is not an indicator raises even when the line has no value. |
| Indicators.CellFor | indicators.py:126-143 | An invalid period gives an empty value and an empty percentage. A valid one gives the indicator's value, plus its rate exactly when `with_percentage` is set. It succeeds whenever the value (and, with `with_percentage`, the rate) can be computed, and any error it raises is the value's or the rate's. |
| Indicators.LineValuesSpec | indicators.py:126-143 | The cells hold one entry per listed period, each that period's cell. A failure is the failure of some listed period. |
| Indicators.CleanList | indicators.py:162-170 | Removing every `None` leaves the present values, in order. |
| Indicators.LineDataSpec | indicators.py:120-152 | A line has its label and one correct cell per listed period. It has a total exactly when `with_total` is set, and the total sums the present values with percentage 1. A failing period fails the line. |
| Indicators.TotalSkipsMissing | indicators.py:146-150 | For any values around it, inserting a missing value leaves the total unchanged, and inserting a present value adds exactly that value. |
| Indicators.CollectSpec | indicators.py:89-94 | The collected data is keyed by the slugs of the included lines, each holding that line's data. Collecting succeeds when every included line's data does, and a failure is the failure of some included line. |
| Indicators.DataUnsortedSpec | indicators.py:87-94 | Every included line's data is stored under its slug; a reference line is absent when `with_reference` is off. |
| Indicators.SortByKeySorted | indicators.py:96-98 | Sorting the entries puts their keys in text order. |
| Indicators.DataSpec | indicators.py:87-98 | The data is the unsorted data's entries rearranged into key order, and fails exactly when the unsorted data fails. It succeeds when every included line's data does, and a failure is the failure of some included line. |
| Excel.Clean | excel.py:21-23 | The cleaned text is no longer than the value's text and neither starts nor ends with whitespace. |
| Excel.CleanSpec | excel.py:21-23 | The cleaned text is a slice of the value's text with only whitespace before and after it, and it neither starts nor ends with whitespace. |
| Excel.CleanStr | excel.py:25-27 | The cleaned text lower-cased, character by character. |
| Excel.CleanIdempotent | excel.py:21-23 | Cleaning cleaned text changes nothing. |
| Excel.CleanStrIdempotent | excel.py:25-27 | Cleaning and lower-casing already cleaned, lower-cased text changes nothing. |
| Excel.CleanStrBlank | excel.py:199-200 | A value cleans to empty text exactly when its text is all whitespace. |
| Excel.ChoiceList | excel.py:29-34 | Returns the value exactly when the list holds it (booleans equal to 0 and 1); otherwise ValueError. |
| Excel.LowerChoiceList | excel.py:36-42 | Returns the cleaned, lower-cased text exactly when the list holds it; otherwise ValueError. |
| Excel.NormalizedChoiceList | excel.py:44-50 | Returns the map's value for the cleaned, lower-cased text exactly when that is a key; otherwise ValueError. |
| Excel.IntOf | excel.py:54-55 | `int()`: an integer is itself and a boolean is 0 or 1. `None` gives TypeError. Text gives the integer it reads as, or ValueError when it does not read as one. |
| Excel.IntOfRoundTrip | excel.py:54-55 | The text of an integer reads back as that integer. |
| Excel.IntOfSpaceAfterSign | excel.py:54-55 | A sign, then any whitespace, then digits reads as the signed number: "- 5" is -5. |
| Excel.NormalizedIntChoiceList | excel.py:52-58 | Returns the value's integer exactly when the value reads as an integer the list holds. Otherwise it raises `int()`'s error, or ValueError. |
| Excel.ChoiceListStable | excel.py:29-34 | An accepted result is accepted again unchanged. |
| Excel.LowerChoiceListStable | excel.py:36-42 | An accepted result is accepted again unchanged. |
| Excel.NormalizedIntChoiceListStable | excel.py:52-58 | An accepted result is accepted again unchanged. |
| Excel.NormalizedMatchesLower | excel.py:36-50 | When the list holds exactly the map's keys, the normalising converter accepts exactly what the lower-casing one accepts. |
| Excel.DisplayName | excel.py:73-76 | A non-empty name, or else the coordinate. |
| Excel.ConvertData | excel.py:78-84 | Without a type the value passes through. Each type applies its own converter: the cleaners, `int()`, and each choice converter given a non-empty list or map. A converter fails only with ValueError or TypeError. TypeError comes only from `int()` of `None` or from a choice converter called without its (empty) list. |
| Excel.CleaningConvertersTotal | excel.py:78-84 | The cleaning converters never fail, and their output is a fixed point of them. |
| Excel.MatchCoord | excel.py:175 | A match is a non-empty run of letters followed by digits, and together they form a prefix of the coordinate. |
| Excel.MatchCoordSplit | excel.py:175 | Letters followed by digits match as exactly those two groups. |
| Excel.ParseCoordAsWritten | excel.py:173-177 | As written: no match gives AttributeError, and the row is the number minus one. The column is where the upper-cased letters first occur as a substring of A..Z. A matching coordinate parses exactly when the letters occur; otherwise it gives ValueError. |
| Excel.ParseCoord | excel.py:173-177 | Intended: no match gives AttributeError and row 0 gives IndexError; otherwise the row is the number minus one. |
| Excel.ColumnRoundTrip | excel.py:174-177 | Column letters (A, ..., Z, AA, ...) and zero-based column positions are inverse one way. |
| Excel.ColumnLettersOf | excel.py:174-177 | Every upper-case column name is the letters of its own column position. |
| Excel.ParseCoordRoundTrip | excel.py:173-177 | Every row and column prints to a coordinate that parses back to it. |
| Excel.ParseCoordCanonical | excel.py:175-177 | A coordinate that parses has the printed letters of the column it parses to. |
| Excel.SingleLetterColumn | excel.py:177 | A single letter is found at its place in A..Z. |
| Excel.SingleLetterAgrees | excel.py:174-177 | A single letter always parses as written, to its alphabet index and the row number minus one (row 0 gives -1). With a row of at least 1, both readings agree. |
| Excel.TwoLetterColumnAsWritten | excel.py:177 | "AB12" is column 27 but reads as column 0 as written. |
| Excel.ReversedColumnAsWritten | excel.py:177 | "BA1" is column 52 but raises ValueError as written. |
| Excel.PyIndex | excel.py:178 | List indexing: a negative index counts from the end, and an index outside gives IndexError. |
| Excel.DataForCoordReads | excel.py:173-178 | Reading a printed coordinate gives the cell at that row and column, or IndexError outside the sheet. |
| Excel.RowZeroReadsLastRow | excel.py:176-178 | "A0" reads the last row as written, and is an IndexError as intended. |
| Excel.NewFormAsWritten | excel.py:135-139 | As written a new form has a fresh error manager holding no message, but the shared variables. |
| Excel.NewForm | excel.py:135-139 | A new form has no variables and no errors. |
| Excel.Get | excel.py:183-189 | A set variable's value; a missing one is `None` when silent and MissingData otherwise. |
| Excel.GetAfterSet | excel.py:183-192 | A variable reads what was last set, and setting one leaves the others. |
| Excel.ValueErrorRecord | excel.py:205-207 | Recording a value error leaves the variables alone. The message naming the data and the field's display name is appended to "default" unless that section already holds it, and every other section is unchanged. |
| Excel.MapFieldSpec | excel.py:194-203 | A read error propagates. A converted value is set into the form, and nothing else changes. On ValueError a blank cell sets `None` in the same way. A non-blank cell adds its message once to "default" and leaves the variables. Other errors propagate. |
| Excel.IsValid | excel.py:209-218 | A form is valid exactly when no section holds an error (`is_complete` is always false, so validation never runs). |
| Excel.RejectedCellInvalidates | excel.py:194-215 | A non-blank cell the converter rejects leaves the form invalid. |
| Excel.StaleValueSurvives | excel.py:135-192 | With the shared dictionary, a variable whose cell is rejected keeps an earlier form's value. A form with its own variables reports it missing. |

## Left out

- Persistence is not modelled. The period table is a sequence in storage order, and the unique constraint on (start, end, type) is the `IntegrityError` case. Concurrent creation is not modelled.
- Period kinds other than day, month and year exist only as period types. The base `Period.boundaries` (it names an undefined `self`) and its `delta` are left out, as are week, quarter, semester and custom rules: the source defines none of them.
- `week_from_weeknum` and `next_month` come from a utilities module that is not part of this model. The week range is a function parameter of `FindCreateFrom`; `next_month` is `Calendar.NextMonth`, written from how the month rule uses it.
- Years above 9999, where `datetime` raises, are not modelled; instants have years from 1 up.
- `name`, `__unicode__` and every `strftime` rendering are left out: they are formatting only.
- Periods.Includes: compares a datetime as it is. With only the argument order repaired, Python would first turn a datetime (a subclass of `date`) into noon of its day. The docstring's separate datetime case shows that is not meant.
- Dictionary order is modelled as insertion order; Python 2 dictionaries have an arbitrary order. Listing orders (`Errors.All`, the cells of a line) are therefore the model's choice.
- Clean: the function's own contract states the length bound and the non-whitespace ends. The slice relation to the value's text is stated by the lemma `Excel.CleanSpec`.
- Errors.All: the order of sections in the listing is the model's choice (insertion order), because the source's order is the dictionary's arbitrary one. Within a section the order is the source's.
- Periods.FindCreateWithAsWritten: its contract states only the shape of a successful result; the lemmas `FindCreateWithAgrees` and `FindCreateWithAsWrittenNotIdempotent` state the rest.
- Rates are real numbers rather than floating point, and the values of indicator methods are integers or `None`. An indicator method either returns or raises `NoSourceData`; no other exception is modelled.
- A line's cells are keyed by the period itself rather than by `period.pid` (indicators.py:132-142). The model assumes each period carries a `pid` distinct across the table's periods. The `Period` class of models/Period.py declares no `pid` (only `start_on`, `end_on` and `period_type`), so with those periods the source would raise AttributeError at the first period; that path is not modelled.
- Member inspection (`getmembers`) is modelled as a list of members in name order, each with the tags that `@indicator`, `@reference` and `@label` put on it. The decorator wrappers themselves are left out.
- `Options` attribute reads that go to ordinary object lookup end at `ObjectMember(name)`; what Python finds there is not followed.
- `ExcelForm.__init__`, `read` and `mapping` are left out because they open a workbook with `xlrd` (file I/O). The worksheet is a parameter (rows of cells), and `map_field` is modelled on one field. `mapping()` names an undefined `version` when a version is set; that path is not modelled. `field_name` and `to_dict` are left out as trivial accessors.
- Spreadsheet cells are `None`, booleans, integers or text. `xlrd` returns numbers as floats, whose text ends in ".0"; floats are not modelled.
- `clean`, `clean_str` and `int` declared with cast arguments (`int` with a base) are not modelled: `FieldType` gives those three converters no arguments.
- Lower-casing covers the ASCII letters and the Latin-1 capitals U+00C0 to U+00DE except U+00D7. Python also lower-cases capitals of other scripts; the model leaves those unchanged. Upper-casing of coordinate letters needs ASCII only, since the coordinate pattern matches only ASCII letters. `int()` reads ASCII digits only. Whitespace for `strip()` and `int()` is Python 2.7's unicode whitespace set (Unicode 5.2, U+180E included; `Text.IsSpace`).
- `is_complete` always returns false, so `validate` never runs, and subclasses' versions of either are left out.

## Findings

| source | as written | input that shows it | evidently intended | confidence | as-written member | corrected member |
|---|---|---|---|---|---|---|
| models/Period.py:238 | `DayPeriod.boundaries` subtracts `timedelta(ONE_MICROSECOND)`, a bare name that is only a class attribute, so it raises NameError. | `DayPeriod.find_create_by_date(datetime(2011, 3, 5, 10, 0))` on an empty table | `cls.ONE_MICROSECOND`, as the month rule writes it at line 268 | high; not executed | Periods.DayBoundariesAsWritten, Periods.FindCreateByDateAsWrittenAgrees | Periods.DayBoundaries |
| models/Period.py:292-294 | `YearPeriod.boundaries` calls `replace(month=0, day=0)`, which `datetime` rejects with ValueError. The end would also be start + 365 days, which drops 31 December in a leap year. | `YearPeriod.find_create_by_date(datetime(2011, 3, 5))` on an empty table | 1 January 00:00 to 31 December 23:59:59.999999 of the instant's year | high; not executed | Periods.YearBoundariesAsWritten, Periods.FindCreateByDateAsWrittenAgrees | Periods.YearBoundaries |
| models/Period.py:146-150 | `isinstance` receives its arguments swapped (class first), so every call raises TypeError. Line 147 also reads the fields of the class `date`, not of the argument. | `includes(date(2011, 3, 5))` on the day period of 5 March 2011 | a date stands for noon of that day; a datetime is compared strictly; a year is never included | high; not executed | Periods.IncludesAsWritten, Periods.IncludesOwnDay | Periods.Includes |
| models/Period.py:205-211 | The lookup goes through the class's manager, which only sees the class's own type, while the creation stores the requested type. A second identical call misses the stored row, and the unique constraint raises IntegrityError. | `DayPeriod.find_create_with(s, e, 'month')` twice | look the requested triple up among all stored periods | medium; not executed | Periods.FindCreateWithAsWritten, Periods.FindCreateWithAsWrittenNotIdempotent | Periods.FindCreateWith |
| models/Period.py:163 | The year-only branch of `find_create_from` uses the bare name `ONE_MICROSECOND` and raises NameError. | `MonthPeriod.find_create_from(2011)` | `cls.ONE_MICROSECOND` | high; not executed | Periods.FindCreateFromYearAsWritten, Periods.FindCreateFromYearAsWrittenRaises | Periods.FindCreateFromYear |
| models/Options.py:20 | `name in ('update')` is a substring test against the string "update", so "date", "up", "at" and "" bypass the items. | `Options(date=1).date` | `name == 'update'`, a one-element tuple test | high; not executed | Options.GetAttrAsWritten, Options.DateKeyBypasses | Options.GetAttr |
| models/Options.py:27-30 | `update` stores object attributes with `setattr`, which item reads never see. | `o.update({'with_total': True}); o.with_total` gives the old item | store the pairs as items, as `dict.update` does | high; not executed | Options.UpdateAsWritten, Options.UpdateVisible | Options.Update |
| indicators.py:82-84 | `setup` updates the class-level `main_default_options` in place, so one table's keyword arguments become later tables' defaults. | a table built with `with_percentage=True`, then another built without arguments | merge into a fresh dictionary | high; not executed | Options.SetupAsWritten, Options.SetupLeaks | Options.Setup |
| excel.py:177 | The column is `XLS_LETTERS.index(letters)`, a substring search. "AB" finds column 0, and "BA" raises ValueError. | `data_for_coord("AB12")`, `data_for_coord("BA1")` | column letters in bijective base 26 (AA is column 26, zero-based) | medium; not executed | Excel.ParseCoordAsWritten, Excel.TwoLetterColumnAsWritten, Excel.ReversedColumnAsWritten | Excel.ParseCoord |
| excel.py:176-178 | Row "0" becomes index -1, which reads the last row of the sheet. | `data_for_coord("A0")` | an IndexError: row 0 names no row | medium; not executed | Excel.DataForCoordAsWritten, Excel.RowZeroReadsLastRow | Excel.DataForCoord |
| excel.py:135 | `data` is a class attribute shared by every form. A variable that a form fails to read keeps the value an earlier form set. | two forms of one class whose second has an invalid cell for a variable the first set | a dictionary per form | medium; not executed | Excel.NewFormAsWritten, Excel.StaleValueSurvives | Excel.NewForm |
