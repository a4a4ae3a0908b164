# Proofs about the engines of a chat-bot

This project models the algorithmic engines of a chat-bot written in C++ and
proves what they are for. Where the code does less than its comments promise,
the model keeps the code, shows an input, and proves exactly when the promise
holds.

* **Cron search** (`Calendar`, `CalendarPeriod`, `CronExpression`, `CronSteps`,
  `CronPass`, `CronFind`, `CronSearch`, `CronMatches`, `CronMonths`,
  `CronEarliest`, `CronAnswers`, `CronLimits`, `Cron`, `CronField`). A broken-down time is
  moved forward field by field; after every field that moves the search calls
  itself and then goes on. `CronFind` has these calls as functions, which
  the methods that change a `Tm` in place are proved to compute. One run up to
  the first moved field is a *pass*; with one day field unrestricted the calls
  are proved to be a loop of passes, the *search*, about which the results on
  the earliest match are stated.
  `mktime` is proleptic-Gregorian normalisation without daylight saving (section
  7.27.2.3 of ISO C11).
* **CSV** (`CsvFormat`, `CsvState`, `CsvRoundTrip`, `CsvParser`, `CsvParts`,
  `CsvCuts`, `CsvWindow`, `CsvSmallSource`, `CsvLastLine`, `CsvStray`,
  `CsvLimits`, `CsvReader`). The writer, the quote-state machine with its paged
  field list, and the reader whose window restarts at the last incomplete row,
  on RFC 4180 text, and on text with quotes where that standard has none.
* **Task scheduler** (`TaskNames`, `TaskQueue`, `SchedulerSteps`,
  `SchedulerSafety`, `SchedulerPass`, `SchedulerRuns`, `SchedulerRemoval`,
  `Scheduler`). Adders, a remover, task bodies, the manager thread and the
  destructor as atomic steps over shared state; the methods are proved to take
  exactly these steps.
* **Memory pool** (`PoolModel`, `PoolSafety`, `MemoryPool`). A bump allocator
  over a linked list of chunks, on flat addresses in wrapping 64-bit arithmetic.
* **Command trie** (`CommandTable`, `PlainText`, `CommandTrie`). A trie on the
  heap against a linear scan over registered keys, and what is left of a message
  when its command is taken off.
* **UTF codec** (`Utf`, `UtfStreams`, `UtfCodec`). The table-driven UTF-8
  decoder against section 4 of RFC 3629, UTF-16 against section 2 of RFC 2781,
  and transcoding of whole streams.
* **Smaller pieces** (`JsonEscape`, `Waiters`, `Weather`). JSON escaping into a
  buffer of exact size, the queues of coroutines that wait for a message, and
  weather windows.

What comes out differently from what the code or its comments suggest:

* `find_next` compares day numbers only, so with both day fields restricted it
  can answer with a time that does not match (`CronLimits.UnnoticedDay`). It
  never does exactly if no day of four hundred years moves unnoticed
  (`CronMatches.AnswersMatch`, `CronMatches.NoticedInFourCenturies`).
  Started a minute earlier the same search does find the match
  (`CronLimits.GoesOnAfterCall`).
* It can jump over a whole short month (`CronLimits.SkippedMonth`), exactly if
  such a month is allowed, the one before it is not, and there is an allowed
  day inside it and one beyond its end (`CronMonths.SkipsNothingExactly`). A
  second that moved is kept when a higher field moves
  (`CronLimits.LateSecondExample`), which happens from some start exactly if
  the allowed seconds have a gap, an allowed month holds an allowed day, and
  not every minute is allowed (`CronEarliest.LateExactly`). Without either, and
  only then, every answer is the earliest match
  (`CronEarliest.FindsEarliestExactly`, `CronEarliest.NextEarliestExactly`), and
  a cron task always goes on at its next match (`TaskQueue.TakesNextExactly`).
* `cron_next` can throw before 1970 (`CronLimits.ThrowsBefore1970`). Such times
  are outside the program's use: the scheduler asks from the current time of its
  clock only, and the results that need one start from 1970 on.
* A step of more than 196 can wrap the eight-bit index of a cron field
  (`CronField.ItemIsProgression`, `CronField.WrappedItem`).
* A line feed swallows an empty line after it (`CsvLimits.SwallowedLine`), and
  a byte order mark that belongs to the text is dropped, so written text reads
  back as itself exactly for the lists `CsvRoundTrip.RoundTrip` names. A window
  that ends between a line feed and the one it would swallow gives a row more
  (`CsvLimits.LineCut`); the rows are those of one whole parse exactly if no
  window does (`CsvWindow.WindowedRead`).
* A source below the standard window size ends with its first window
  (`CsvLimits.SmallSourceLosesRow`); its rows all come out exactly if that
  window holds all that is needed of the last one (`CsvSmallSource.SmallSource`).
* A quoted field that holds a doubled quote loses every second quote, so its
  single ones are kept exactly under the condition of
  `CsvStray.MeaningIsIntended`. A window that ends behind a doubled quote leaves
  that flag to the first field of the next one (`CsvLimits.StaleFlag`).
* A comment at `remove` promises one more run at most. A pass between its two
  steps breaks that: any number of runs can follow
  (`SchedulerRemoval.RemoveRace`; exact condition in
  `SchedulerRemoval.RemovedStartsAgain`).
* `Malloc` of a size close to 2^64 wraps (`PoolModel.WrappedRequest`; exact
  condition in `PoolModel.MallocServes`).
* The stored command size survives its conversion to `short` exactly below
  2^15 (`PlainText.SizeSurvives`). It counts characters of the message before
  it is unescaped, so the command is taken off cleanly exactly if no escape
  begins inside it (`PlainText.CommandTakenOff`, `PlainText.EscapedKey`).
  `PlainText.HandlerReadsRest` says it of what a handler reads, for any list of
  registrations and any message.
* At the end of its stream the UTF-8 decoder succeeds with U+0000
  (`UtfStreams.DecodeAtEnd`); everywhere else it is exact.
* A last `\u` escape leaves a backslash in the terminator slot of the escaped
  JSON string (`JsonEscape.JsonEscapeString`).

## Model

| member | source | states |
|---|---|---|
| Calendar.DateRoundTrip | source/schedule/Bosma/croncpp.h:602-610 | day d of a month, normalised to a day number and read back, is day d of that month: the calendar `mktime` is taken to follow |
| Calendar.PairOccurs | source/schedule/Bosma/croncpp.h:700-717 | in any two years every month day falls on every weekday, which is why the walk over days does not go on for ever |
| CalendarPeriod.FourCenturies | source/schedule/Bosma/croncpp.h:602-610 | after 146097 days every date falls on the same weekday again |
| CalendarPeriod.DayIsPosix | source/schedule/Bosma/croncpp.h:602-610 | the day number of any date is that of "Seconds Since the Epoch" in section 4.16 of POSIX.1-2017 |
| CalendarPeriod.KnownWeekdays | source/schedule/Bosma/croncpp.h:602-610 | the weekdays of three dates |
| CronExpression.TimeIsPosix | source/schedule/Bosma/croncpp.h:602-610 | the time value of any date and clock time is that of the same section |
| CronSteps.WalkLooksAhead | source/schedule/Bosma/croncpp.h:700-717 | a walk over days ends on the first matching one of its own day and the 366 after it, or, without one, on the last |
| Cron.Tm.Mktime | source/schedule/Bosma/croncpp.h:602-610 | raw fields are normalised to the same instant; the value is its seconds since 1970 |
| Cron.Tm.AddToField | source/schedule/Bosma/croncpp.h:547-577 | adds to one field and normalises; fails exactly when `mktime` answers -1 |
| Cron.Tm.SetField | source/schedule/Bosma/croncpp.h:579-611 | assigns one field and normalises; assigning the weekday changes nothing |
| Cron.Tm.ResetAllFields | source/schedule/Bosma/croncpp.h:646-657 | resets the marked fields in order from the second up, stopping at the first failure |
| Cron.FindSetBit | source/schedule/Bosma/croncpp.h:533-545 | the first set bit from an offset on, or no index |
| Cron.FindNextField | source/schedule/Bosma/croncpp.h:666-691 | moves one field to its next allowed value, carrying into the next field and resetting marked ones; reports a move exactly when the value changed |
| Cron.FindNextDay | source/schedule/Bosma/croncpp.h:694-718 | walks day by day to a day both day fields allow, at most 366 days, resetting marked fields at each |
| CronPass.PassGoes | source/schedule/Bosma/croncpp.h:721-825 | for every expression: a restart goes on from a strictly later minute, a finished pass has not gone back, and from 1970 on nothing throws |
| CronPass.DoneIsMatch | source/schedule/Bosma/croncpp.h:788-803 | for every expression: a finished pass is at a match if and only if the walk does not move off the day the pass came to, or ends on a day that matches at midnight |
| CronPass.OneDayPass | source/schedule/Bosma/croncpp.h:721-825 | with one day field unrestricted, a restart has skipped no matching minute unless it leaves a month that is not allowed, and a finished pass is at a match |
| CronFind.Find | source/schedule/Bosma/croncpp.h:721-825 | for every valid expression the recursion ends; what it finds is not before its start, and either every field is in place or it is a midnight in an allowed month; from 1970 on nothing throws |
| CronFind.CallDescends | source/schedule/Bosma/croncpp.h:747-821 | every call that `find_next` makes of itself, also after another call has come back, has less left: months up to the cut-off, then minutes to the next match |
| CronMatches.AnswersMatch | source/schedule/Bosma/croncpp.h:721-825 | for every valid expression: from 1970 on all answers of the search satisfy all six fields, if and only if no day moves to another one with the same number, in an allowed month, that does not match at midnight |
| CronMatches.NextMatches | source/schedule/Bosma/croncpp.h:884-908 | from 1970 on all answers of `cron_next` satisfy all six fields, under the same condition |
| CronMatches.NoticedInFourCenturies | source/schedule/Bosma/croncpp.h:788-803 | four hundred years of days decide that condition |
| CronMatches.OneDayNoticed | source/schedule/Bosma/croncpp.h:694-718 | with one day field unrestricted it holds |
| CronSearch.FindIsSearch | source/schedule/Bosma/croncpp.h:721-825 | with one day field unrestricted the recursive search is the loop of passes |
| CronSearch.RestartAdvances | source/schedule/Bosma/croncpp.h:747-821 | every restart strictly decreases the months and minutes left |
| CronSearch.Search | source/schedule/Bosma/croncpp.h:721-825 | what the search finds satisfies all six fields and is not before its start |
| CronMonths.SkipsNothingExactly | source/schedule/Bosma/croncpp.h:721-825 | with one day field unrestricted: from no start from 1970 on does the search, answering or giving up, pass a minute that matches minute, hour, day and month, if and only if no allowed month, after one that is not, has both an allowed day and one beyond its end |
| CronSearch.SearchSkipsNothing | source/schedule/Bosma/croncpp.h:721-825 | if no month can be skipped, the search passes no such minute from any start, before 1970 too; with all months allowed it never gives up |
| CronEarliest.LateExactly | source/schedule/Bosma/croncpp.h:741-744 | with one day field unrestricted and no month that can be skipped: some start from 1970 on leaves the second late, if and only if a second that is not allowed lies between two that are, an allowed month has an allowed day, and some minute is not allowed |
| CronEarliest.FindsEarliestExactly | source/schedule/Bosma/croncpp.h:721-825 | with one day field unrestricted: from every start from 1970 on the search finds the earliest match, and giving up there is none in the years it looks at, if and only if no month can be skipped and those three do not hold together |
| CronEarliest.NextEarliestExactly | source/schedule/Bosma/croncpp.h:884-908 | `cron_next` answers with the earliest later match at every time from 1970 on, under the same condition |
| CronSearch.SearchEarliest | source/schedule/Bosma/croncpp.h:721-825 | from one start, if no month can be skipped: the answer is the earliest match exactly if the second is not left late, which is that it moves to an allowed one that is not the first, the minute is no match, and the first field to move lands on one that is |
| CronSearch.SearchGivesUp | source/schedule/Bosma/croncpp.h:815-818 | if no month can be skipped: a search that gives up has passed every instant of the four years after its own without a match |
| CronAnswers.NeverGivesUp | source/schedule/Bosma/croncpp.h:815-818 | with one day field unrestricted, no month that can be skipped and a date that can be met, `cron_next` has an answer whenever a leap year is among the next four years, or the date occurs in every year |
| CronSearch.CronNextIsLater | source/schedule/Bosma/croncpp.h:884-908 | for every valid expression and every time an answer is strictly later; from 1970 on `cron_next` does not throw |
| CronSearch.FindsItsStart | source/schedule/Bosma/croncpp.h:894-904 | a search finds its own start exactly if that is a match, which is when `cron_next` searches again from the next second |
| CronSearch.CronNextIsLaterMatch | source/schedule/Bosma/croncpp.h:884-908 | with one day field unrestricted an answer is a later match, from every time; from 1970 on nothing throws, and there is no answer exactly if the search gives up |
| CronSearch.CronNextEarliest | source/schedule/Bosma/croncpp.h:884-908 | if no month can be skipped: nothing between argument and answer matches, if and only if the second is not left late from the argument or, if that is a match, from the second after it |
| CronSearch.FiveFieldCronNext | source/schedule/Bosma/croncpp.h:829-908 | for five-field expressions with all months and one day field free: always an answer, and it is the earliest match strictly after the argument |
| CronAnswers.DailyNext | source/schedule/Bosma/croncpp.h:884-908 | an expression for every day at one minute: the answer is the next instant at that time of day |
| Cron.FindNext | source/schedule/Bosma/croncpp.h:721-825 | for every valid expression the recursive, mutating search ends, and throws, fails or answers as `Find` does |
| Cron.CronNextTime | source/schedule/Bosma/croncpp.h:884-908 | the method on a broken-down time computes `cron_next`, for every valid expression |
| CronLimits.UnnoticedDay | source/schedule/Bosma/croncpp.h:788-803 | noon of a Sunday 15th: the search ends at midnight of one, which does not match |
| CronLimits.GoesOnAfterCall | source/schedule/Bosma/croncpp.h:747-786 | one minute before that noon: after the inner call has come back with that midnight the search goes on with the hour, and ends at noon, which matches |
| CronLimits.SkippedMonth | source/schedule/Bosma/croncpp.h:683-688 | midnight of any day of February: from 31 January 1970 the search finds 1 February 1971, although 1 February 1970 matches |
| CronLimits.LateSecondExample | source/schedule/Bosma/croncpp.h:741-744 | seconds 10 and 50 of minute 30: from 00:00:20 the search goes to 00:30:50 past 00:30:10 |
| CronLimits.ThrowsBefore1970 | source/schedule/Bosma/croncpp.h:884-908 | two seconds before 1970 `cron_next` throws, though every second matches |
| CronField.WhichItems | source/schedule/Bosma/croncpp.h:387-404 | an item is accepted exactly if its numbers, read into eight bits, are in order between minimum and maximum, and its increment is not 0 |
| CronField.PlainItemSets | source/schedule/Bosma/croncpp.h:365-388 | `*` sets every value from minimum to maximum, `n` sets n alone, `a-b` sets a to b |
| CronField.StepItemSets | source/schedule/Bosma/croncpp.h:426-461 | `*/d` and `n/d` run to the maximum and `a-b/d` to b in steps of d from the first value; if the first step leaves eight bits, the values set lie in steps of 256 - d before the first |
| CronField.ItemIsProgression | source/schedule/Bosma/croncpp.h:426-461 | an item sets exactly first, first + delta, ... up to last if and only if its first index plus delta fits eight bits, which delta up to 196 always does |
| CronField.WrappedItem | source/schedule/Bosma/croncpp.h:440-461 | `50/210` on minutes also sets 4 |
| CronField.SetItem | source/schedule/Bosma/croncpp.h:440-461 | the loop over an eight-bit index ends and adds exactly the item's values to the bitset |
| CronField.SetCronField | source/schedule/Bosma/croncpp.h:410-467 | a list is refused exactly if it is empty or holds an item in error, and otherwise gives exactly the union of its items |
| CronField.MakeCron | source/schedule/Bosma/croncpp.h:829-860 | six bitsets, each the expansion of its field; a `*` in a field allows every value of it, five fields mean second 0 only, and `minute hour * * *` means every day at that minute |
| CronField.NumbersMean | source/schedule/Bosma/croncpp.h:829-860 | six numbers are matched by the second, minute, hour, month day, month and weekday, in this order |
| CronField.DailyFieldsMeanDaily | source/schedule/Bosma/croncpp.h:829-860 | `minute hour * * *` is accepted and means every day at that minute |
| CsvFormat.FlagsAreBits | source/tools/csv.hpp:4807-4838 | the masked flag is the flag outside or inside quotes, and one comparison recognises delimiters and newlines |
| CsvFormat.DelimWriter.CsvEscape | source/tools/csv.hpp:6751-6787 | a field is quoted, with its quotes doubled, exactly if it holds a special character |
| CsvFormat.QuotedIfSpecial | source/tools/csv.hpp:6751-6787 | a field is written in quotes exactly if it holds a quote, the delimiter, a CR or an LF |
| CsvFormat.DelimWriter.WriteRow | source/tools/csv.hpp:6704-6715 | appends the escaped fields with delimiters between them and a line feed |
| CsvRoundTrip.ParseWholeSound | source/tools/csv.hpp:6983-7061 | any data read as one block: the parse ends, every field is a slice of the data, and the non-empty slices of a row are ordered and disjoint |
| CsvWindow.NextBlockSound | source/tools/csv.hpp:7094-7122 | any source through any window: every delivered row lies in its block in this way |
| CsvRoundTrip.WrittenReadsBack | source/tools/csv.hpp:6983-7061 | what reading written text gives for every list of records, with LF or CRLF, with or without a byte order mark |
| CsvRoundTrip.ReadBackIdentity | source/tools/csv.hpp:7001-7006 | reading back is the identity exactly on lists without a record of no fields and, with LF, without an empty line but the first |
| CsvRoundTrip.RoundTrip | source/tools/csv.hpp:6983-7061 | writing and reading back gives the same records, if and only if the list is one of those and the text read does not begin with a byte order mark of its own |
| CsvRoundTrip.MarkIsLost | source/tools/csv.hpp:7075-7088 | text with a byte order mark of its own never reads back as what was written |
| CsvLimits.SwallowedLine | source/tools/csv.hpp:7001-7006 | a row `a` and an empty line read back as the row alone |
| CsvLastLine.UnterminatedReadsBack | source/tools/csv.hpp:6913-6929 | text without the last line feed reads back as the whole text does, if and only if its last record is no empty line that makes a row of its own |
| CsvParts.EndOfPart | source/tools/csv.hpp:6913-6929 | the end of the input makes a row of a record that is cut off, and it is that record exactly if only its line feed or a closing quote before that is missing |
| CsvCuts.CutAdds | source/tools/csv.hpp:7001-7006 | reading a list of records in two parts gives the rows of reading it at once, or one more exactly if there are oddly many line feeds on both sides of the cut |
| CsvRoundTrip.DecodeDoubled | source/tools/csv.hpp:7694-7711 | dropping every second quote undoes doubling every quote, for every string |
| CsvStray.StrayReadsBack | source/tools/csv.hpp:7023-7056 | lines of any fields without quotes around them that hold quotes, and of quoted fields that hold single ones, with LF or CRLF and with or without a byte order mark: bare fields read back with all their quotes, and quoted ones as their meaning |
| CsvStray.MeaningIsIntended | source/tools/csv.hpp:7694-7711 | single quotes in a quoted field are kept exactly if it holds no doubled one or each single one has an even number of quotes before it |
| CsvStray.LoneQuoteLost | source/tools/csv.hpp:7694-7711 | a field that loses its second single quote |
| CsvStray.MarkIsUtf8 | source/tools/csv.hpp:7075-7087 | the mark that is skipped is the UTF-8 encoding of U+FEFF |
| CsvParser.FieldList.EmplaceBack | source/tools/csv.hpp:5448-5501 | the paged list appends to the flat sequence it stands for; old pages stay |
| CsvParser.FieldList.Get | source/tools/csv.hpp:7629-7633 | indexing by page gives the element of the flat sequence |
| CsvParser.Parser.ParseField | source/tools/csv.hpp:6931-6953 | a run of ordinary characters taken at once leaves the parse where single steps do |
| CsvParser.Parser.Parse | source/tools/csv.hpp:6983-7061 | the loop ends and leaves the state of the machine run over the block |
| CsvParser.Parser.EndFeed | source/tools/csv.hpp:6913-6929 | a pending field or row is pushed |
| CsvWindow.NextDelivers | source/tools/csv.hpp:7094-7122 | for any list of records one window delivers what the rows it holds completely read back as, moves behind them, and ends the file exactly when no row is left |
| CsvWindow.WindowedRead | source/tools/csv.hpp:7094-7122 | for any list of records, through windows that hold every row, at most one call a row reads the whole source; one row more than in one whole parse comes out for every window that ends between a line feed and the one it would swallow, and the rows are the same if and only if none does |
| CsvWindow.NeverCut | source/tools/csv.hpp:7094-7122 | lists that read back as themselves are never cut |
| CsvSmallSource.SmallSource | source/tools/csv.hpp:6073 | a source below the standard window ends with its first window, and all its rows come out if and only if that window holds what is needed of the last row |
| CsvSmallSource.NeededIs | source/tools/csv.hpp:6913-6929 | for a last record that is no empty line: all but one character of the source, or but two if its last field is quoted |
| CsvLimits.LineCut | source/tools/csv.hpp:7001-7006 | a window that ends after the line feed of the first row, with n empty lines behind it: the rows are those of one whole parse if and only if n is even |
| CsvLimits.SmallSourceLosesRow | source/tools/csv.hpp:7114-7117 | three short rows and a window of four characters: the third row is lost |
| CsvLimits.StaleFlag | source/tools/csv.hpp:7094-7122 | in any large source that begins so: a window ends behind a doubled quote, and the first field of the next one loses a quote it has when read at once |
| CsvReader.MmapParser.Next | source/tools/csv.hpp:7094-7122 | the method that resets the parser, maps, parses and steps back computes the next block |
| CsvReader.CsvData.GetField | source/tools/csv.hpp:7683-7717 | no value beyond the row, else the decoded field, whether cached or not |
| TaskNames.DecimalInjective | source/schedule/Bosma/Scheduler.h:256-261 | different numbers have different decimal names |
| TaskNames.DecimalReads | source/schedule/Bosma/Scheduler.h:256-261 | the name is the decimal numeral of the number, without leading zeros |
| TaskNames.FirstNames | source/schedule/Bosma/Scheduler.h:256-261 | names are `__internal__` and the number, and the counter wraps at 2^64 |
| TaskNames.SomeNameIsFree | source/schedule/Bosma/Scheduler.h:256-261 | with fewer registered names than counter values one generated name is free |
| Scheduler.Scheduler.GetRandomId | source/schedule/Bosma/Scheduler.h:256-261 | the loop ends, on the first free name in the order of the wrapping counter |
| TaskQueue.NewTimeAdvances | source/schedule/Bosma/Scheduler.h:48-74 | the next time of a task is later than the clock if and only if its period is positive or its cron expression got an answer |
| TaskQueue.CronAdvances | source/schedule/Bosma/Scheduler.h:65-74 | a cron task with one day field unrestricted advances only to a match; if also no month can be skipped, it advances whenever a match lies within the years looked at |
| TaskQueue.TakesNextExactly | source/schedule/Bosma/Scheduler.h:65-74 | with one day field unrestricted: at every clock time a cron task is given its next match, or stops with none in the four years ahead, if and only if the expression is one for which `cron_next` finds the earliest match |
| TaskQueue.NextMatchIsOne | source/schedule/Bosma/Scheduler.h:65-74 | that describes one time only |
| TaskQueue.FiveFieldAdvances | source/schedule/Bosma/Scheduler.h:65-74 | a cron task of the form the bot uses always advances, and to its next match: a whole second with no match between the clock and it |
| TaskQueue.DailyAdvances | source/schedule/Bosma/Scheduler.h:65-74 | a daily task goes on at the next instant at its time of day |
| TaskQueue.AdvancesEveryYear | source/schedule/Bosma/Scheduler.h:65-74 | with one day field unrestricted, no month that can be skipped and a date every year has, a cron task advances at every clock time |
| TaskQueue.InsertIsBehind | source/schedule/Bosma/Scheduler.h:264-266 | an entry goes behind those of its time and before the later ones |
| TaskQueue.CountInsert | source/schedule/Bosma/Scheduler.h:264-266 | inserting adds one entry to its own task and none to any other |
| SchedulerRuns.ReachableSafe | source/schedule/Bosma/Scheduler.h:263-329 | in every reachable state: a live every or cron task has exactly one entry, a live interval task an entry or one body but not both, a one-shot at most one entry and one start; every key is the time its task was added for or one it got at a reading of the clock; no start before its key time; starts of one task a period apart, those of a cron task that always advances in strictly later keys; no wake-up lost |
| SchedulerRuns.StepKeeps | source/schedule/Bosma/Scheduler.h:85-110 | every atomic step of every thread keeps that invariant |
| SchedulerRuns.EachMatchOnce | source/schedule/Bosma/Scheduler.h:263-329 | in every reachable state: a cron task with one day field unrestricted that always advances was started at most once for each match, and for no time that is none but the one it was added for |
| SchedulerSafety.SimpleWakes | source/schedule/Bosma/InterruptableSleep.h:34-56 | steps of the sleep, the interrupt and the destructor lose no wake-up |
| SchedulerSafety.DueWakes | source/schedule/Bosma/InterruptableSleep.h:34-56 | in any such state a sleeping manager can wake once an entry is due, unless that entry's adder has yet to interrupt it |
| SchedulerSafety.FinishQueues | source/schedule/Bosma/Scheduler.h:297-311 | when the body of an interval task ends its next entry is a period after the clock |
| SchedulerPass.ServeTask | source/schedule/Bosma/Scheduler.h:292-321 | a pass starts a task once if it has a due entry and is alive, else not at all, and queues it anew exactly if it recurs without the interval flag |
| SchedulerPass.ServedInOrder | source/schedule/Bosma/Scheduler.h:292-321 | a pass starts bodies in the order of their keys |
| SchedulerPass.PassQueuesNext | source/schedule/Bosma/Scheduler.h:279-329 | every entry after a pass was not due, or is queued anew for a due one: a period after the reading of the clock that belongs to that one, or for the next match after it, if its expression is one for which `cron_next` finds the earliest match and a match lies ahead |
| SchedulerPass.ManageKeeps | source/schedule/Bosma/Scheduler.h:279-329 | a whole pass keeps the invariant |
| SchedulerPass.PassLeavesLaterTimes | source/schedule/Bosma/Scheduler.h:279-329 | after a pass at clock c every entry is later than c, if the recurring tasks it served advance |
| SchedulerPass.PassLeavesLaterMatches | source/schedule/Bosma/Scheduler.h:279-329 | after a pass at clock c every entry is later than c, if the periods of the tasks it served are positive, and their cron expressions have one day field unrestricted, no month that can be skipped and a match ahead |
| SchedulerRuns.DestructorJoins | source/schedule/Bosma/Scheduler.h:106-110 | once `done` is set the manager ends within five more steps of its own, and after the destructor's interrupt it never blocks in its sleep |
| SchedulerRuns.RegisterIsFresh | source/schedule/Bosma/Scheduler.h:264-270 | a nameless task gets a name nobody has, and registration replaces nobody |
| SchedulerRuns.SilentForever | source/schedule/Bosma/Scheduler.h:292-319 | a task that is not registered and has no body, or no entry to come, is never started again in any run |
| SchedulerRemoval.SecondTaskNeverRuns | source/schedule/Bosma/Scheduler.h:264-270 | a second task under a held name never runs, and the first keeps its name |
| SchedulerRemoval.RemovedAtOnce | source/schedule/Bosma/Scheduler.h:112-120 | an interval task removed without a step in between never starts again |
| SchedulerRemoval.RemovedNeverAgain | source/schedule/Bosma/Scheduler.h:112-120 | in any state: a removed task that lacks an entry or a running body never starts again |
| SchedulerRemoval.RemovedStartsAgain | source/schedule/Bosma/Scheduler.h:112-120 | with the manager at work, a removed task can start again, and then any number of times, if and only if it has both an entry and a running body |
| SchedulerRemoval.RemoveRace | source/schedule/Bosma/Scheduler.h:112-120 | a pass between the two steps of `remove`: for every n a run in which an interval task starts more than n times after removal |
| Scheduler.InterruptableSleep.TryWake | source/schedule/Bosma/InterruptableSleep.h:40-50 | a sleep is over if it was interrupted, before or during it, or its time has come, and then takes the interrupt with it |
| Scheduler.Scheduler.AddTask | source/schedule/Bosma/Scheduler.h:264-270 | insertion, registration and interrupt, as three steps |
| Scheduler.Scheduler.Remove | source/schedule/Bosma/Scheduler.h:112-120 | false exactly for an unknown name, else clearing the flag and erasing the name |
| Scheduler.Scheduler.ManageTasks | source/schedule/Bosma/Scheduler.h:279-329 | the loops over due and recurring entries compute the pass |
| Scheduler.Scheduler.GoToSleep | source/schedule/Bosma/Scheduler.h:86-94 | the manager's way from the top of its loop to its sleep |
| PoolModel.MallocServes | third-party/include/tencentcloud/core/utils/rapidjson/allocators.h:176-189 | the pool stays valid and the answer is a new, large enough block, if and only if nothing wraps |
| PoolModel.MallocGives | third-party/include/tencentcloud/core/utils/rapidjson/allocators.h:176-189 | for sizes an object can have: nothing is answered only for size 0, or if the newest chunk has too few bytes left and no memory is granted; where the block lies, and the capacity of a new chunk |
| PoolModel.ObjectSizesFit | third-party/include/tencentcloud/core/utils/rapidjson/allocators.h:176-189 | no size an object can have wraps |
| PoolModel.WrappedRequest | third-party/include/tencentcloud/core/utils/rapidjson/allocators.h:180-188 | a request of 2^64 - 8 bytes makes a used chunk count as empty |
| PoolSafety.ReallocServes | third-party/include/tencentcloud/core/utils/rapidjson/allocators.h:191-222 | for a truthful old size, which may be 0, and any new size: the pool stays valid, and the answer is the same block with enough bytes, a new block, or nothing when memory is refused, if and only if no size wraps on the way |
| PoolSafety.ReallocGives | third-party/include/tencentcloud/core/utils/rapidjson/allocators.h:191-222 | where nothing wraps a block stays exactly if it need not grow, or is the last one with room behind it; nothing is answered exactly for size 0, or if it has to move and `Malloc` answers nothing |
| PoolSafety.ReallocKeepsContents | third-party/include/tencentcloud/core/utils/rapidjson/allocators.h:214-218 | if no size wraps, the caller's bytes are found in the answer and no other block changes |
| PoolSafety.ClearKeeps | third-party/include/tencentcloud/core/utils/rapidjson/allocators.h:145-153 | nothing is handed out any more and only the user's buffer is kept |
| PoolSafety.RunKeeps | third-party/include/tencentcloud/core/utils/rapidjson/allocators.h:145-249 | after any run of Malloc, Realloc and Clear blocks are in bounds, 8-aligned and pairwise disjoint, and chunk sizes account for all of them |
| PoolSafety.RoomFits | third-party/include/tencentcloud/core/utils/rapidjson/allocators.h:158-173 | all capacities together fit the address space, so no sum of them wraps |
| MemoryPool.MemoryPoolAllocator.Size | third-party/include/tencentcloud/core/utils/rapidjson/allocators.h:168-173 | walking the list gives the total of the bytes handed out, which is at most the capacity |
| MemoryPool.MemoryPoolAllocator.Capacity | third-party/include/tencentcloud/core/utils/rapidjson/allocators.h:158-163 | walking the list gives the total capacity |
| MemoryPool.MemoryPoolAllocator.Malloc | third-party/include/tencentcloud/core/utils/rapidjson/allocators.h:176-189 | for every size the method on the linked list computes the specified allocation, and the answer is a new block in a valid pool if and only if nothing wraps |
| MemoryPool.MemoryPoolAllocator.Realloc | third-party/include/tencentcloud/core/utils/rapidjson/allocators.h:191-222 | the same for `Realloc` of every size, with the bytes copied when the block moves |
| MemoryPool.MemoryPoolAllocator.Clear | third-party/include/tencentcloud/core/utils/rapidjson/allocators.h:145-153 | the loop gives back every chunk but the user's buffer |
| MemoryPool.MemoryPoolAllocator.AddChunk | third-party/include/tencentcloud/core/utils/rapidjson/allocators.h:237-249 | a granted chunk is linked before the others; a refusal changes nothing |
| CommandTable.FirstWins | source/event/trie.h:75-94 | the table holds each walked key with its first registration |
| CommandTable.LowerIsButCase | source/event/trie.h:82 | texts are the same in lower case exactly if they are the same up to the case of their letters |
| CommandTable.LowerAlphabet | source/event/trie.h:143 | lower case maps A to Z onto a to z and changes nothing else |
| CommandTable.CaseDoesNotMatter | source/event/trie.h:137-164 | messages that differ in case only get the same answer |
| CommandTable.LongestIsLinearScan | source/event/trie.h:137-164 | the longest lookup answers what a scan of all registrations does: of the longest key that begins (or ends) the message up to the case of letters, the first; nothing exactly if there is none |
| CommandTable.ShortestIsLinearScan | source/event/trie.h:109-134 | the same for the shortest key |
| CommandTrie.Trie.InsertImpl | source/event/trie.h:75-94 | the walk that grows the trie adds the key with its size exactly if it is not taken |
| CommandTrie.Trie.LongestSearch | source/event/trie.h:137-154 | the walk answers the longest lookup and writes the command size exactly on success |
| CommandTrie.Trie.ShortestSearch | source/event/trie.h:109-124 | the walk answers the shortest lookup |
| CommandTrie.Trie.RegisterCommands | source/event/trie.h:97-106 | after any sequence of insertions the trie holds the table of those registrations |
| CommandTrie.MatchCommands | source/event/event_handler.h:195-210 | the two lookups in the tries of prefixes and suffixes run exactly the handlers specified, each with its own copy of the event |
| PlainText.UnescapeIsRead | source/message/utility.h:37-43 | the four passes are one: every escape stands for its character, and no pass brings about or cuts apart an escape of another |
| PlainText.UnescapeUnchanged | source/message/utility.h:37-43 | unescaping leaves a message alone exactly if it holds none of the four escapes |
| PlainText.SizeSurvives | source/message/utility.h:62-67 | the stored size still means the key's length when read as `short`, exactly for keys below 2^15 (2^15 from the back) |
| PlainText.CommandTakenOff | source/message/utility.h:57-70 | for a matching key of a size that survives: what is left is the unescaped rest of the message, if and only if no escape begins inside the key, or, for a key at the end, ends inside it |
| PlainText.PlainKeyTakenOff | source/message/utility.h:57-70 | so it is for a key without an ampersand in front, or without a semicolon at the end |
| PlainText.PlainCommandTakenOff | source/message/utility.h:57-70 | on messages unescaping leaves alone exactly the matched key is removed |
| PlainText.HandlerReadsRest | source/event/event_handler.h:195-210 | for any registrations and any message: a handler is run exactly if a key matches, it is that of the first of the longest keys, and if the key's size survives it reads the unescaped rest of the message, if and only if no escape begins (at the end: ends) inside the key |
| PlainText.PlainHandlerReadsRest | source/event/event_handler.h:195-210 | so on messages unescaping leaves alone exactly the longest matching key is removed |
| PlainText.EscapedKey | source/message/utility.h:57-70 | a key that is itself an escape reaches beyond the unescaped message |
| PlainText.AmpersandInKey | source/message/utility.h:57-70 | an ampersand that begins no escape does no harm |
| Utf.Decode8IsExact | third-party/include/tencentcloud/core/utils/rapidjson/encodings.h:146-176 | before the end of the stream the decoder accepts exactly the well-formed sequences of section 4 of RFC 3629, and gives their value |
| Utf.EncodeIsWellFormed8 | third-party/include/tencentcloud/core/utils/rapidjson/encodings.h:102-122 | the encoding of a scalar value is well-formed and stands for it |
| Utf.KnownEncodings8 | third-party/include/tencentcloud/core/utils/rapidjson/encodings.h:102-122 | the examples of section 7 of RFC 3629 |
| UtfStreams.Decode8Consumes | third-party/include/tencentcloud/core/utils/rapidjson/encodings.h:146-176 | success exactly on a well-formed beginning, and the bytes consumed are the encoding of the result |
| UtfStreams.DecodeAtEnd | third-party/include/tencentcloud/core/utils/rapidjson/memorystream.h:46 | at the end of a stream decoding succeeds with U+0000 and consumes nothing |
| UtfStreams.ValidateAgrees | third-party/include/tencentcloud/core/utils/rapidjson/encodings.h:179-202 | validation accepts the same streams and copies exactly the bytes consumed |
| UtfStreams.Decode16Consumes | third-party/include/tencentcloud/core/utils/rapidjson/encodings.h:307-322 | UTF-16 decoding succeeds exactly on a unit or a surrogate pair, and consumes the encoding of its result |
| UtfStreams.PairValue | third-party/include/tencentcloud/core/utils/rapidjson/encodings.h:307-322 | a surrogate pair stands for its value in section 2 of RFC 2781 |
| UtfStreams.KnownEncoding16 | third-party/include/tencentcloud/core/utils/rapidjson/encodings.h:276-293 | the example of section 5 of RFC 2781 |
| UtfStreams.DecodeAllIsExact8 | third-party/include/tencentcloud/core/utils/rapidjson/encodings.h:146-176 | a stream decodes to a sequence if and only if it is that sequence's encoding |
| UtfStreams.RoundTrip16 | third-party/include/tencentcloud/core/utils/rapidjson/encodings.h:276-322 | decoding the UTF-16 encoding of any scalar values gives them back |
| UtfStreams.TranscodeBack | third-party/include/tencentcloud/core/utils/rapidjson/encodings.h:661-667 | UTF-8 to UTF-16 succeeds exactly on encodings of scalar values, and back again is the identity |
| UtfCodec.TakeDecoded8 | third-party/include/tencentcloud/core/utils/rapidjson/encodings.h:146-176 | the method on a stream computes the decoder and leaves the stream behind what it took |
| UtfCodec.Validate8Stream | third-party/include/tencentcloud/core/utils/rapidjson/encodings.h:179-202 | the same for validation, which appends what it took to any output |
| UtfCodec.PutEncoded8 | third-party/include/tencentcloud/core/utils/rapidjson/encodings.h:102-122 | appends the encoding |
| UtfCodec.Transcode | third-party/include/tencentcloud/core/utils/rapidjson/encodings.h:661-667 | the loop over a stream succeeds exactly when transcoding does, and appends its result to any output |
| JsonEscape.SpaceIsExact | source/tools/csv.hpp:7927-7964 | the first pass counts exactly what escaping adds |
| JsonEscape.EscapesAre | source/tools/csv.hpp:7966-8062 | which characters are escaped, and the escapes one by one |
| JsonEscape.JsonEscapeString | source/tools/csv.hpp:7966-8062 | the second pass fills exactly that many characters with the escapes, and what it leaves in the terminator slot |
| JsonEscape.RoundTrip | source/tools/csv.hpp:7966-8062 | unescaping by section 7 of RFC 8259 gives every string back |
| Waiters.ApiBot.WaitForNextMessage | source/bot/onebot_11/api_bot.h:163-181 | appends the waiter to its own queue and to no other |
| Waiters.ApiBot.IsNeedMessage | source/bot/onebot_11/api_bot.h:197-200 | holds exactly when somebody is queued |
| Waiters.ApiBot.FeedMessage | source/bot/onebot_11/api_bot.h:218-234 | for some k the first k waiters are gone and are dropped; if one is left it is alive, it alone gets the message, and those behind it wait on; no other queue changes and none is left empty |
| Waiters.AliveDropsExpired | source/bot/onebot_11/api_bot.h:221-229 | only expired waiters are dropped, and only from the front |
| Waiters.EachGetsOne | source/bot/onebot_11/api_bot.h:218-234 | messages one after the other go to the live waiters in their order, one each |
| Weather.AnnouncedTime | source/modules/module/weather/eorzean_weather.h:31-43 | the announced time is the start of the window after i more, and its hour is that of this window: 0, 8 or 16 |
| Weather.SameWindow | source/modules/module/weather/eorzean_weather.h:11-20 | the forecast is the same all through a window |
| Weather.FirstStepBits | source/modules/module/weather/eorzean_weather.h:17 | the first shift keeps the low eleven bits and adds to each other the one eleven places lower |
| Weather.SecondStepBits | source/modules/module/weather/eorzean_weather.h:18 | the second keeps the high eight and adds to each other the one eight places higher |
| Weather.KnownTargets | source/modules/module/weather/eorzean_weather.h:11-20 | the targets of five windows |
| Weather.ListedIsAnnounced | source/modules/module/weather/eorzean_weather.h:45-60 | the weather listed is the weather at the announced time |
| Weather.CalWeather | source/modules/module/weather/eorzean_weather.h:22-29 | the loop picks the first entry beyond the target |

## Left out

- CronSearch.Search: the loop of passes is what `find_next` does with one day field unrestricted; `CronFind.Find` is the search for every expression.
- CronSearch.SearchEarliest: from a single start stated for expressions that skip no month; `CronEarliest.FindsEarliestExactly` takes all starts and has no such condition.
- CronSearch.CronNextEarliest: the same; `CronEarliest.NextEarliestExactly` takes all times.
- CronSearch.CronNextIsLater: "does not throw" is stated from 1970 on; `CronLimits.ThrowsBefore1970` shows why.
- Daylight saving and time zones: `mktime` and `localtime` are inverse normalisations.
- Overflow of `tm_year` and of the conversion to `time_t`.
- The text of a cron expression: fields start as split items and numbers, so names, `?`, blanks and the leniency of `stoul` are not modelled.
- CsvRoundTrip.RoundTrip: trim characters, disabled quoting and the writer's mode that quotes everything are not modelled; quote, delimiter, CR and LF are distinct. If the text begins with a byte order mark, delimiter and quote are none of its characters.
- CsvRoundTrip.ParseWholeSound: field offsets are unbounded numbers; the source keeps them in `int`, which holds them for data below 2^31 characters.
- CsvWindow.NextBlockSound: the same of each block.
- CsvStray.StrayReadsBack: with LF line ends no line but the first is empty, and a quoted field does not end in a single quote; the text is read as one block.
- TaskQueue.TakesNextExactly: stated with one day field unrestricted, where answers are matches; `CronMatches.NextMatches` says when they are without that.
- CsvReader: `StreamParser::next`, which keeps the pending field from one window to the next, is not modelled; the windows are those of the memory-mapped parser.
- CsvWindow.WindowedRead: stated for LF text without a byte order mark, and for windows that hold every row; with a smaller window the reader stands still.
- CsvReader.MmapParser.Next: file mapping is taking a slice of the source; an empty file, which the mapping library refuses, is read as no rows.
- CSV: the thread hand-off between parser and rows, column names, format guessing, numeric conversion and statistics.
- SchedulerSteps: exceptions of task bodies are swallowed by the code and not modelled; `at`, which parses local times, is left out.
- SchedulerSteps: a body's end, its interval check, the new entry and the dropped reference are one step; the registry is read and written atomically although two different locks guard it.
- SchedulerPass.PassLeavesLaterTimes: the clock does not run backwards.
- SchedulerRemoval.RemovedStartsAgain: "can start again" is stated for a scheduler at work, with nobody inside `add_task`; "never again" holds in any state.
- PoolSafety.ReallocKeepsContents: stated where no size wraps, which `PoolSafety.ReallocServes` says exactly.
- MemoryPool: the base allocator is a parameter that answers nothing or an aligned object that overlaps no other; a user buffer is aligned for its header.
- CommandTrie.Trie.Insert: services are never null.
- CommandTrie.MatchCommands: a handler's switch, permission and mention checks, full-match and regular-expression commands, and handlers of every message.
- Utf.GetRange: the table is written by its runs of equal entries.
- UtfCodec: UTF-32, ASCII, the byte-order variants and byte order marks.
- JSON: the objects and arrays around the escaped strings.
- Waiters: the twins for private waiters, which have one level of the map less; the mutexes; the wait itself. Which promises are alive is a parameter.
- Weather: the tables of locations and the text that is sent; the shifts are taken on 32-bit words.
- WebSocket server, HTTP clients, Redis and MySQL, logging, YAML, files and regular expressions.
- The other bot modules, which format replies, draw images or call remote services.
- Service switches, connection pools, string splitting and permission ranking, which would add easy members only.
