# Expense tracker: a verified model of its core

The expense tracker is a small desktop program. It keeps a list of
expenses. Each expense has a UUID, a date, a category, a description and a
price. The list lives in the file `expenses.csv`, and every change rewrites
the whole file. An add/edit dialog checks what the user typed. A
statistics view sums the prices per day, per week and per month.

This project models four parts of that program in Dafny:

- the `Expense` record, a class with one fixed id and four setters;
- the `ExpenseManager` store. Its list of expenses is a field. The file is
  a second field holding the text of `expenses.csv`. Save is a loop that
  prints one line per expense, each followed by the platform's line
  separator. Load splits the text into lines as `readLine` does, then loops
  over them;
- the three statistics tables, as pure functions: group, sum, sort by key,
  then format;
- the dialog's OK and Cancel logic. Edit mode changes the edited expense in
  place. Add mode creates a new one.

The Java library calls the program relies on are written out in full where
they decide behaviour:

- `String.trim`, `split(",", 5)`, `replace` and `compareTo`;
- `println` and `BufferedReader.readLine`, with their line separators;
- the two date parsers;
- `UUID.toString` and `UUID.fromString`;
- `%.2f` and `Double.parseDouble`;
- `WeekFields` week numbering.

Amounts are exact `real` numbers, and `%.2f` rounds half up to cents.

Modules, one per file:

- `Wrappers`, `Text`, `Calendar`, `Weeks`, `Money` and `Ids`: the library
  behaviour listed above;
- `Expenses`: the record;
- `Codec`: the file format;
- `Store`: the store;
- `Statistics`: the three tables;
- `Dialog`: the dialog.

Where each expression of the source is modelled:

- `e.getDate().getYear() + "-W" + String.format("%02d", ...)`, the weekly
  key: `Weeks.WeekKey`;
- the week number `get(weekFields.weekOfWeekBasedYear())`:
  `Weeks.WeekOfWeekBasedYear`;
- the line `printf` writes per expense: `Codec.EncodeLine`, built from its
  five fields `Codec.Fields`;
- the month label `format(ofPattern("yyyy-MM"))`: `Calendar.MonthLabel`;
- the dialog's `LocalDate.parse(..., ofPattern("yyyy-MM-dd"))`:
  `Calendar.ParseDialogDate`. The store's `ISO_LOCAL_DATE` parse is
  `Calendar.ParseIsoDate`;
- `removeIf(e -> e.getId().equals(id))`: `Store.RemoveId`;
- `findFirst` on the id: `Store.FirstWithId`;
- `UUID.toString`/`fromString`: `Ids.FormatUuid`/`Ids.ParseUuid`;
- `%.2f`/`Double.parseDouble`: `Money.FormatAmount`/`Money.ParseAmount`.

Some behaviours of the code that the model keeps:

- **Loading a bad line stops the load; it does not skip the line.** A bad
  id or amount throws `IllegalArgumentException`, which is caught outside
  the loop. Loading stops at that line and keeps the records read before
  it. A bad date throws `DateTimeParseException`, which is not caught. It
  escapes the store's constructor, so there is no store at all. Only a line
  with the wrong number of fields is skipped.
- **The weekly key uses the calendar year.** It is the calendar year, then
  the week of the week-based year, numbered as the default locale numbers
  weeks. So the last days of December can share the bucket of the first
  week of January of the same year.
- **Amounts come back rounded.** The file holds `%.2f`, so after a save
  and a load every amount is rounded to cents.
- **Some records do not survive a save.** A category that holds a comma
  shifts the fields, and that line stops the load. A category or
  description that holds a line break ('\n' or '\r') is printed over
  several lines. Reading those lines never gives the record back
  (`Codec.LineBreakLost`). A text field keeps a pasted '\r'.

## Model

| member | source | states |
|---|---|---|
| Expenses.Expense.constructor | src/main/java/com/example/expensetracker/Expense.java:21-27 | The new expense holds exactly the id, date, category, description and amount it was given. |
| Expenses.Expense.Fresh | src/main/java/com/example/expensetracker/Expense.java:13-19 | The new expense holds the four given fields and the random id, which the caller draws. |
| Expenses.Expense.Value | src/main/java/com/example/expensetracker/Expense.java:29-33 | The five getters: each field of the value is the object's current field, and the price is `amount`. |
| Expenses.Expense.SetDate | src/main/java/com/example/expensetracker/Expense.java:34 | Only the date changes. The id and the other fields stay. |
| Expenses.Expense.SetCategory | src/main/java/com/example/expensetracker/Expense.java:35 | Only the category changes. |
| Expenses.Expense.SetDescription | src/main/java/com/example/expensetracker/Expense.java:36 | Only the description changes. |
| Expenses.Expense.SetPrice | src/main/java/com/example/expensetracker/Expense.java:37 | Only the amount changes. |
| Store.ExpenseManager.Open | src/main/java/com/example/expensetracker/ExpenseManager.java:16-19 | There is no store (null) exactly when loading hit a bad date. Otherwise the store's records are those the file decodes to, and it holds only new objects. |
| Store.ExpenseManager.LoadExpenses | src/main/java/com/example/expensetracker/ExpenseManager.java:66-87 | With no file, nothing is read. Otherwise the records and the way the load ended are those of `DecodeFile`, and the file is untouched. |
| Store.ExpenseManager.ReadLines | src/main/java/com/example/expensetracker/ExpenseManager.java:70-86 | The loop from the second line on, stopping at the first line that throws, ends with the records and status of `Fold` over the line outcomes. |
| Store.ExpenseManager.ReadLine | src/main/java/com/example/expensetracker/ExpenseManager.java:74-82 | A line that decodes appends one new expense holding the decoded record. Any other line leaves the list as it was. |
| Store.ExpenseManager.SaveExpenses | src/main/java/com/example/expensetracker/ExpenseManager.java:49-64 | The list is unchanged, and the file's text becomes the header and the encoded records, each followed by the store's line separator. |
| Store.ExpenseManager.WriteLines | src/main/java/com/example/expensetracker/ExpenseManager.java:50-60 | The text written is the header, then one encoded line per expense in list order, each line followed by the line separator. |
| Store.ExpenseManager.AddExpense | src/main/java/com/example/expensetracker/ExpenseManager.java:21-24 | The expense is appended, with no duplicate check, and the file is rewritten from the new list. |
| Store.ExpenseManager.GetAllExpenses | src/main/java/com/example/expensetracker/ExpenseManager.java:26-28 | The result is a copy of the list. Its values are the store's records, because the objects are shared. |
| Store.ExpenseManager.GetExpenseById | src/main/java/com/example/expensetracker/ExpenseManager.java:30-32 | Returns the first listed expense with the id. It is empty exactly when no listed expense has that id. |
| Store.FirstWithId | src/main/java/com/example/expensetracker/ExpenseManager.java:31 | `findFirst`: the position of the first expense with the id, with none before it. It is empty exactly when no expense has the id. |
| Store.ExpenseManager.UpdateExpense | src/main/java/com/example/expensetracker/ExpenseManager.java:34-42 | If no expense has the id, nothing changes, the file included. Otherwise the first such object takes the other four fields at every position where it is listed, every other record stays, and the file is rewritten. |
| Store.ExpenseManager.DeleteExpense | src/main/java/com/example/expensetracker/ExpenseManager.java:44-47 | Exactly the expenses with the id are removed, in the order `RemoveId` gives. Afterwards no expense has the id, and the file is rewritten. |
| Store.RemoveId | src/main/java/com/example/expensetracker/ExpenseManager.java:45 | `removeIf` never lengthens the list; `RemoveIdMembers` says which expenses stay. |
| Store.RemoveIdMembers | src/main/java/com/example/expensetracker/ExpenseManager.java:45 | An expense survives `removeIf` exactly when it was listed and has another id. |
| Store.RemoveIdAppend | src/main/java/com/example/expensetracker/ExpenseManager.java:45 | Removal works piece by piece, so the survivors keep their order. |
| Store.RemoveIdIdempotent | src/main/java/com/example/expensetracker/ExpenseManager.java:44-47 | Deleting the same id twice leaves the same list as deleting it once. |
| Codec.Fields | src/main/java/com/example/expensetracker/ExpenseManager.java:53-59 | A line has five fields: id, ISO date, category, the description with ',' written as ';', and the amount. |
| Codec.EncodeFile | src/main/java/com/example/expensetracker/ExpenseManager.java:51-60 | The file is the header, then one line per record. |
| Codec.FileText | src/main/java/com/example/expensetracker/ExpenseManager.java:50-60 | With no records, the file is the header and a line separator. |
| Text.LinesOfPrinted | src/main/java/com/example/expensetracker/ExpenseManager.java:51-54 | Reading printed text line by line with `readLine` gives back every printed line, for a "\n" or "\r\n" separator, when no line holds a line break. |
| Text.FirstLine | src/main/java/com/example/expensetracker/ExpenseManager.java:72-73 | `readLine` returns a line without breaks when a separator follows it, and reading continues right after the separator. |
| Text.PrintedSnoc | src/main/java/com/example/expensetracker/ExpenseManager.java:52-60 | Printing one more line appends that line and one separator to the text. |
| Text.LineEnd | src/main/java/com/example/expensetracker/ExpenseManager.java:73 | A line read by `readLine` ends at the first '\n' or '\r', or at the end of the text, and holds no line break. |
| Codec.DecodeLines | src/main/java/com/example/expensetracker/ExpenseManager.java:72-86 | A file of at most one line (the header) loads no records and completes. |
| Codec.LineBreakLost | src/main/java/com/example/expensetracker/ExpenseManager.java:54-73 | A saved record whose category or description holds a line break is not among the records loaded back from the file, not even with its amount rounded. |
| Codec.LoadedSingleLine | src/main/java/com/example/expensetracker/ExpenseManager.java:72-81 | Whatever the text of the file, no loaded record has a line break in its category or description. |
| Codec.DecodeLine | src/main/java/com/example/expensetracker/ExpenseManager.java:74-81 | A line is skipped exactly when it has fewer than four commas. Otherwise the id, the date and the amount are parsed, in that order. |
| Codec.Fold | src/main/java/com/example/expensetracker/ExpenseManager.java:73-86 | Records only accumulate. An abort is reported at a line that exists. |
| Codec.DecodeFile | src/main/java/com/example/expensetracker/ExpenseManager.java:66-73 | A missing file loads as no records, completed. An existing file is read line by line, as `readLine` splits it. |
| Codec.LineRoundTrip | src/main/java/com/example/expensetracker/ExpenseManager.java:53-59 | A record with no comma in its category, no ';' in its description and no line break in either decodes from its own line. The amount comes back rounded to cents and every other field as it was. |
| Codec.FileRoundTrip | src/main/java/com/example/expensetracker/ExpenseManager.java:49-87 | Saving such records under either platform line separator, then loading them back, gives every record in order. Amounts come back rounded to cents, and the load completes. |
| Codec.CategoryCommaRejected | src/main/java/com/example/expensetracker/ExpenseManager.java:54-57 | A comma in the category shifts the fields, and the line fails with a field error, which stops the load. |
| Codec.ExtraCommaRejected | src/main/java/com/example/expensetracker/ExpenseManager.java:74-80 | Any line written with five or more commas fails with a field error. |
| Codec.LocaleCommaRejected | src/main/java/com/example/expensetracker/ExpenseManager.java:54 | A line written with ',' as the decimal separator never decodes. |
| Codec.StopsAtFirstBadLine | src/main/java/com/example/expensetracker/ExpenseManager.java:73-86 | The first line with a bad id or amount aborts the load, and one with a bad date crashes it. Either way the records read before it are kept and nothing after it is read. |
| Codec.HeaderSkipped | src/main/java/com/example/expensetracker/ExpenseManager.java:72 | The first line is never looked at: any first line gives the same load. |
| Ids.UuidRoundTrip | src/main/java/com/example/expensetracker/ExpenseManager.java:76 | `UUID.fromString` reads back the id that `toString` wrote. |
| Ids.FormatUuidInjective | src/main/java/com/example/expensetracker/ExpenseManager.java:55 | Different ids are written differently. |
| Calendar.IsoDateRoundTrip | src/main/java/com/example/expensetracker/ExpenseManager.java:56 | The store's strict ISO parser reads back every date it writes. |
| Calendar.IsoDateCanonical | src/main/java/com/example/expensetracker/ExpenseManager.java:77 | The store accepts a date text only in the form it writes itself. |
| Calendar.StoreAcceptsYearZero | src/main/java/com/example/expensetracker/ExpenseManager.java:77 | The store reads year 0000. The dialog's year-of-era pattern rejects it. |
| Money.AmountRoundTrip | src/main/java/com/example/expensetracker/ExpenseManager.java:54 | `Double.parseDouble` of `%.2f` text gives the amount rounded half up to cents. |
| Money.Round2Error | src/main/java/com/example/expensetracker/ExpenseManager.java:54 | Rounding to cents moves an amount by at most half a cent. |
| Money.Round2Idempotent | src/main/java/com/example/expensetracker/ExpenseManager.java:54 | An amount that was already rounded stays the same. |
| Money.ParseAmountRejectsComma | src/main/java/com/example/expensetracker/ExpenseManager.java:80 | `Double.parseDouble` rejects any text that holds a comma. |
| Money.CommaAmountRejected | src/main/java/com/example/expensetracker/ExpenseManager.java:54 | `%.2f` written with a decimal comma is never a number that `Double.parseDouble` accepts. |
| Text.SplitJoin | src/main/java/com/example/expensetracker/ExpenseManager.java:74 | Splitting joined fields gives the fields back, provided no field but the last holds the separator. |
| Text.ReplaceBack | src/main/java/com/example/expensetracker/ExpenseManager.java:53 | Writing ',' as ';' and reading it back restores a description exactly when it held no ';'. |
| Statistics.GroupTotalsKeys | src/main/java/com/example/expensetracker/StatisticsDialog.java:57-61 | `groupingBy` makes a bucket for the key of every record, and only for such keys. |
| Statistics.GroupTotalsSums | src/main/java/com/example/expensetracker/StatisticsDialog.java:57-61 | Each bucket holds the sum of the amounts of the records with its key. |
| Statistics.SortByKeySorted | src/main/java/com/example/expensetracker/StatisticsDialog.java:64-65 | The sorted entries strictly ascend in key order. |
| Statistics.SortByKeyEntries | src/main/java/com/example/expensetracker/StatisticsDialog.java:64-65 | Every sorted entry is a bucket of the map, with that bucket's total. |
| Statistics.SortByKeyCovers | src/main/java/com/example/expensetracker/StatisticsDialog.java:64-65 | Every bucket of the map has a sorted entry. |
| Statistics.SortedTableUnique | src/main/java/com/example/expensetracker/StatisticsDialog.java:64-65 | Any strictly ascending list of exactly the map's buckets is the sorted table. |
| Statistics.TotalsConserved | src/main/java/com/example/expensetracker/StatisticsDialog.java:57-61 | The group totals add up to the sum of all amounts. |
| Statistics.TotalsGroup | src/main/java/com/example/expensetracker/StatisticsDialog.java:57-65 | Group-then-sort yields a row for every record's key and only for such keys. Each row holds its key's sum, and the rows add up to all amounts. |
| Statistics.DailyTotals | src/main/java/com/example/expensetracker/StatisticsDialog.java:56-65 | The daily groups strictly ascend by date. An empty list gives no groups. |
| Statistics.DailyTotalsMeaning | src/main/java/com/example/expensetracker/StatisticsDialog.java:57-61 | There is one daily group per date that occurs, holding that day's sum. The groups add up to all amounts. |
| Statistics.DailyRows | src/main/java/com/example/expensetracker/StatisticsDialog.java:64-69 | There is one row per daily group. |
| Statistics.DailyRowsReadBack | src/main/java/com/example/expensetracker/StatisticsDialog.java:64-68 | Each row's period parses back to its group's date, and the periods ascend as text. Each printed total parses to the group's unrounded sum, rounded to cents. |
| Statistics.WeeklyTotals | src/main/java/com/example/expensetracker/StatisticsDialog.java:73-83 | The weekly groups strictly ascend in string order of their keys. An empty list gives no groups. |
| Statistics.WeeklyTotalsMeaning | src/main/java/com/example/expensetracker/StatisticsDialog.java:75-79 | There is one weekly group per week key that occurs, holding that week's sum. The groups add up to all amounts. |
| Statistics.WeeklyRows | src/main/java/com/example/expensetracker/StatisticsDialog.java:82-87 | There is one row per weekly group. |
| Statistics.WeeklyRowsReadBack | src/main/java/com/example/expensetracker/StatisticsDialog.java:84-86 | Each row's period is its key, and each printed total parses to the group's sum rounded to cents. |
| Statistics.MonthlyTotals | src/main/java/com/example/expensetracker/StatisticsDialog.java:91-100 | The monthly groups strictly ascend by (year, month), and each is a real month of years 0000-9999. An empty list gives no groups. |
| Statistics.MonthsInRange | src/main/java/com/example/expensetracker/StatisticsDialog.java:94 | Every monthly group is the month of some record, so its month is 1-12 and its year is 0000-9999. |
| Statistics.MonthlyTotalsMeaning | src/main/java/com/example/expensetracker/StatisticsDialog.java:92-96 | There is one monthly group per month that occurs, holding that month's sum. The groups add up to all amounts. |
| Statistics.MonthlyRows | src/main/java/com/example/expensetracker/StatisticsDialog.java:99-104 | There is one row per monthly group. |
| Statistics.MonthlyRowsReadBack | src/main/java/com/example/expensetracker/StatisticsDialog.java:101-103 | From year 0001 on, a period is the `yyyy-MM` prefix of any of its days' ISO text, and distinct months get distinct periods. Printed totals parse to the sums rounded to cents. |
| Calendar.IsoDateTextOrder | src/main/java/com/example/expensetracker/StatisticsDialog.java:64-67 | The ISO text of two dates compares as text exactly as the dates compare. |
| Calendar.MonthLabel | src/main/java/com/example/expensetracker/StatisticsDialog.java:102 | A month's `yyyy-MM` label is seven characters with a dash at position 4. |
| Calendar.MonthLabelIsDatePrefix | src/main/java/com/example/expensetracker/StatisticsDialog.java:102 | From year 0001 on, a month's `yyyy-MM` label is the first seven characters of any of its days' ISO text. |
| Calendar.MonthLabelInjective | src/main/java/com/example/expensetracker/StatisticsDialog.java:102 | From year 0001 on, two months share a label only if they are the same month. |
| Calendar.MonthLabelYearZero | src/main/java/com/example/expensetracker/StatisticsDialog.java:102 | `yyyy` prints the year of era, so a month of year 0000 gets the label of the same month of year 0001. |
| Weeks.WeekOfWeekBasedYear | src/main/java/com/example/expensetracker/StatisticsDialog.java:74-77 | For any valid week definition, the week number is between 1 and 53. |
| Weeks.WeekKeyOrder | src/main/java/com/example/expensetracker/StatisticsDialog.java:77-83 | For four-digit years, the string order of two week keys is the order of (calendar year, week). |
| Weeks.WeekKeyShortYearSortsLate | src/main/java/com/example/expensetracker/StatisticsDialog.java:77-83 | Below year 1000 that breaks: a key of year 1000 sorts before one of year 999. |
| Weeks.WeekKeyUsesCalendarYear | src/main/java/com/example/expensetracker/StatisticsDialog.java:77 | Under ISO weeks, 2024-12-30 is in week 1, and its key is "2024-W01": the calendar year, not the week-based year 2025. |
| Weeks.NewYearMondayInWeekOne | src/main/java/com/example/expensetracker/StatisticsDialog.java:74-77 | Under ISO weeks, a date that is both January 1 and a Monday is in week 1. |
| Weeks.WeekOneSharesBucket | src/main/java/com/example/expensetracker/StatisticsDialog.java:77 | Two dates of one calendar year that are both in week 1 share a bucket, even when one of them is in late December. |
| Dialog.ReadForm | src/main/java/com/example/expensetracker/ExpenseDialog.java:104-112 | Every field is trimmed. An unparsable date is reported first, then an unparsable amount, then an empty category or description or a non-positive amount. The form is accepted exactly when none of these holds, and then it yields the parsed date and amount and the trimmed texts. |
| Dialog.ReadFormIgnoresSpace | src/main/java/com/example/expensetracker/ExpenseDialog.java:104-107 | Surrounding whitespace on any field never changes the outcome, and accepted texts carry none. |
| Dialog.PositivityBoundary | src/main/java/com/example/expensetracker/ExpenseDialog.java:109 | With a valid date and non-blank texts, an amount of zero or below is refused, "0" is refused, and "0.01" is accepted as one cent. |
| Dialog.ReadFormOfRecord | src/main/java/com/example/expensetracker/ExpenseDialog.java:104-109 | A form holding a record's ISO date (year 0001 on), its trimmed non-empty texts and a text of its positive amount is accepted as exactly that record's values. |
| Calendar.ParseDialogDate | src/main/java/com/example/expensetracker/ExpenseDialog.java:104 | The dialog accepts only `YYYY-MM-DD` text, and only dates from year 0001 on, since `yyyy` is the year of era. |
| Calendar.DialogDateExtendsIsoDate | src/main/java/com/example/expensetracker/ExpenseDialog.java:104 | From year 0001 on, what the store's parser accepts, the dialog's parser accepts with the same meaning. |
| Calendar.DialogClampsStoreRejects | src/main/java/com/example/expensetracker/ExpenseDialog.java:104 | The dialog's smart resolver reads "2023-02-30" as 2023-02-28. The store's strict parser rejects it. |
| Dialog.ExpenseDialog.constructor | src/main/java/com/example/expensetracker/ExpenseDialog.java:12-23 | The result starts empty, and the expense to edit (or null) is kept. |
| Dialog.ExpenseDialog.GetExpense | src/main/java/com/example/expensetracker/ExpenseDialog.java:98-100 | Returns the current result. |
| Dialog.ExpenseDialog.OnOk | src/main/java/com/example/expensetracker/ExpenseDialog.java:102-130 | On an error, its message is returned and neither the result nor the edited expense changes. On success in edit mode, the edited expense keeps its id, takes the four values, and is itself the result. In add mode, the result is a new expense with the drawn id and the four values. |
| Dialog.ExpenseDialog.OnCancel | src/main/java/com/example/expensetracker/ExpenseDialog.java:132-135 | The result is emptied. |

## Left out

- **File I/O.** File access and the character encoding of `FileWriter`
  and `FileReader` are left out. The file is a field holding its text, or
  `None` when it does not exist. An `IOException` while saving or
  loading is not modelled, and neither is the `System.err` logging.
- **Swing.** Layout, tables, message boxes and `dispose` are left out. The
  dialog returns the error it would show, and `None` when it closes.
- The dialog's prefilled fields are not modelled: the date of today, and
  `String.valueOf(price)` in edit mode. `OnOk` takes the texts of the
  fields as parameters.
- **Doubles.** Amounts are exact reals. Floating-point rounding of prices
  and of the `summingDouble` sums is not modelled. Neither is the order of
  the additions.
- `Double.parseDouble` is modelled on plain decimal text only: optional
  sign, digits, optional point and fraction, surrounding whitespace. It
  also accepts exponents, `NaN`, `Infinity`, hexadecimal and a trailing
  `d`/`f`; these are not modelled. `NaN` would pass the dialog's
  `amount <= 0` check.
- `UUID.fromString` is modelled on the canonical 36-character form only.
  Java also accepts shorter hex groups; that lenient form is not modelled.
- Dates are limited to years 0000-9999. Outside that range `LocalDate`
  writes a sign and more digits; those years are not modelled.
- `UUID.randomUUID` becomes a parameter (`randomId`).
- `Locale.getDefault()` in the weekly table becomes a parameter: the
  `WeekDefinition`.
- The default locale's decimal separator in `%.2f` is fixed to '.'.
  `EncodeLineWith` and `FormatAmountWith` keep the separator as a
  parameter for the finding below. Some default locales also make
  `printf`/`String.format` print other digits, such as Arabic-Indic ones.
  That is not modelled: the model always prints ASCII digits. This holds
  for `%.2f` in the file and in the tables (`FormatAmount`). It also holds
  for `%02d` in the weekly key (`Weeks.WeekKey`, through `FixedDigits`).
- `%n` and `println` write `System.lineSeparator()`. It becomes the
  store's `newline`, which is fixed when the store is opened. The round
  trip is proved for "\n" (Unix) and "\r\n" (Windows). Other separator
  values are not covered.
- Codec.FileRoundTrip: promised only for records with no line break in
  the category or description. The program writes such a record over
  several lines and loses it on the next load; `Codec.LineBreakLost`
  states that loss.
- The escape of `DateTimeParseException` out of the store's constructor is
  modelled as `Open` returning `null`. The calling frame is left out.
- `Store.ExpenseManager.GetExpenseById`: the model is a function that
  reads the store and searches the list with `FirstWithId`. The stream
  pipeline `filter(...).findFirst()` is not modelled step by step.
- `ExpenseTrackerFrame.java` is not part of this model.

## Findings

| source | as written | input that shows it | evidently intended | confidence | as-written member | corrected member |
|---|---|---|---|---|---|---|
| src/main/java/com/example/expensetracker/ExpenseManager.java:54 | `printf("%s,%s,%s,%s,%.2f%n", ...)` formats the price in the default locale, and `Double.parseDouble` at line 80 only reads '.'. | Any record saved under a locale whose decimal separator is ',' (German, French, …), e.g. price 12.5 written as `12,50`. The extra comma makes that line fail with a field error, so the load stops at the first record. | The price written with '.' whatever the locale (e.g. `String.format(Locale.ROOT, …)`), so saved files load back. | not executed | Codec.LocaleCommaRejected | Codec.FileRoundTrip |
