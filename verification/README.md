# Revolver, modelled and verified

Revolver is a gateway that forwards HTTP calls, keeps asynchronous ones in a mailbox and answers them later. This
project models three parts of it in Dafny and proves what they promise, for all inputs and all runs.

**The mailbox** (`MailboxStore`, `MailboxProtocol`, `MailboxSafety`, `MailboxAccounting`, `MailboxListings`,
`MailboxAgreement`, `MailboxAcks`, `MailboxWitness`, `MailboxProviders`). A request is checked, saved, sent downstream,
completed on another thread, answered by a downstream callback, saved again by the callback handler and acknowledged by a
client. Each of these is a thread whose constructor is its program counter; a step is one access to the store, a schedule is any
interleaving, the outcome of a downstream call and whether Aerospike's `setRequestState` happens in one step are free
choices. The two persistence providers are two kinds of store, and also two classes whose methods are proved against the
same functions. Invariants hold after every schedule; the providers are compared by running the same schedule over both.
`SubmissionAlone`, `CompletionAlone`, `HandlerAlone`, `CallbackAlone` and `AckAlone` read off what a thread does when no other
interferes.
The providers agree on the responses of an id that is fair: upper-casing does not change whether its mode is passed on, or no
callback URI it is saved with has a scheme.

**The route table and the callback commands** (`PathPatterns`, `StableSorts`, `RouteTables`, `RevolverBundle`,
`DynamicConfig`, `CallbackCommands`). Path templates are rewritten to regular expressions, which are read into a syntax
tree with a meaning; sorted stably; appended to a list for each service on every configuration load; and searched for the
first match. A load may end half-way. A poller loads again when the hash of the configuration text changes. The command
for a callback is found through a cache by endpoint and the gateway's map of commands by service name.

**The dashboard script** (`Calendar`, `DateUnits`, `DateEnabling`, `DateSearch`, `DatePicker`, `DateFormat`, `Throttle`,
`ScrollSpy`, `Carousel`, `Remainders`). Dates are day numbers with year, month, date and weekday views, by the arithmetic of ECMA-262 edition 5.1,
sections 15.9.1.3 to 15.9.1.6 and 15.9.1.12. On them work the search for an enabled date, month navigation, printing and
parsing, and the editing of the list of disabled units. The throttle, the enter and exit events of the scroll spy and the
arithmetic of the carousel are independent of dates.

`dafny verify dfyconfig.toml` checks everything. Code that changes state is a class or a method with loops, proved against
functions; the theorems are about these functions and their runs.

## Where the code falls short of its promise

Each of these is a theorem with a condition that is exact, or a run that exhibits it.

- The in-memory provider has no guard on `setRequestState`: a 202 that arrives after the downstream callback takes a
  RESPONDED request back to REQUESTED. Over Aerospike the same happens when the read precedes the callback and the write
  follows it (`LateAcceptance`; `RespondedStaysExactly` says when RESPONDED stays, over either).
- Aerospike stores modes in upper case and the in-memory provider as they are spelt, while the callback resource compares
  them with upper-case names: for a request with the mode `callback` the two can end with different responses, exactly
  when its callback URI has a scheme (`UnplainModesTellProvidersApart`, `FairRequestsExactly`).
- Over Aerospike the guard also stops acknowledgements: READ is not written over RESPONDED, and with `setRequestState` as
  one step no request saved once is READ at rest (`AckAlone`, `AcksDoNotLast`); one that is saved again meanwhile can be
  (`ReadAfterAnotherSave`).
- Completions are handled by the spelling of the client, downstream callbacks by that of the store (`CallsByModeAndUri`).
- The comparator of the first sort of the routes is constant, so that sort does nothing (`FirstSortKeeps`). What decides
  is the order of characters: `|`, `}`, `~` and characters beyond ASCII come after `{`, and a template that starts a
  segment with one of them loses to a variable (`LiteralBeatsVariable`, `TildeLosesToVariable`).
- Routes are only ever added, so routes that a configuration drops go on answering (`AnswersAreKept`), and a configuration
  whose load fails is loaded again at each poll, adding its routes each time (`FailedLoadsPileUp`). If the configuration
  cannot be fetched at the start, no poll ever loads one (`WithoutFirstHashNothingLoads`).
- The state of an API of an https service is never recorded, so it cannot be deactivated, and a load activates http APIs
  that had been deactivated (`LoadStates`).
- The service name of a callback comes from its host alone. A second port or scheme of the same host, a host that differs
  in `.` against `-`, and a host named like a configured service get the wrong command (`CommandIsFreshExactly`,
  `SecondPortGoesToFirst`); hosts that `URI` does not recognise all become the host `null`. The method of the first
  callback of an endpoint is the only one allowed later on, and a ranger endpoint is only called when the third part of
  its host is `callback` (`OwnNamesGetFreshCommands`).
- Disabling a range with an end that is neither integer, boolean, date nor such a range adds it again each time
  (`DisableAllIsIdempotent`).
- Enabling a date does not always enable it, nor it alone (`DateIsEnabledExactly`, `OtherDaysStayExactly`). A date inside
  a disabled range stays disabled (`DateInRangeStaysDisabled`), and so does a Saturday disabled by its number without
  `firstDay` (`SaturdayStaysDisabled`). Enabling a date that is enabled inside a disabled range disables it
  (`EnablingAnEnabledDateDisablesIt`). Enabling a date that is disabled by itself before its weekday is enables the whole
  weekday (`WeekdayGoesToo`).
- After scrolling to a negative centre the carousel may take the longer way round (`ClickIsShortestExactly`,
  `NegativeCenterGoesTheLongWay`).

## Model

| member | source | states |
|---|---|---|
| Calendar.FromPick | src/main/resources/revolver/dashboard/assets/js/materialize.js:5269-5314 | every day number has a month from 0 to 11 and a date within that month, building the day of that year, month and date gives the number back, and the weekday is four after the day number, modulo seven |
| Calendar.EpochIsThursday | src/main/resources/revolver/dashboard/assets/js/materialize.js:5310 | day 0 is 1 January 1970, a Thursday |
| Calendar.NextDay | src/main/resources/revolver/dashboard/assets/js/materialize.js:5302-5313 | the day after any day, with the lengths of the months and the leap years in plain numbers: next date, first of the next month or 1 January, next weekday; with the day before it this fixes the views of every day number, before 1970 too |
| Calendar.DaysAreCounted | src/main/resources/revolver/dashboard/assets/js/materialize.js:5290 | the day number of any date is the sum of the years, months and days from 1 January 1970 on or back from it, two-digit years meaning the twentieth century |
| Calendar.ViewsInvertMakeDay | src/main/resources/revolver/dashboard/assets/js/materialize.js:5269-5314 | a proper year, month and date are the only views of the day they make (proleptic Gregorian calendar, all years) |
| Calendar.CreateShifts | src/main/resources/revolver/dashboard/assets/js/materialize.js:5603 | `create([year, month, date + k])` lands `k` days away, over month and year ends, if and only if the year is not one from 0 to 99 |
| Calendar.CreateFirstOfMonth | src/main/resources/revolver/dashboard/assets/js/materialize.js:5426-5429 | the first of month `m + nav` is the first of the normalised month of the normalised year, for every offset |
| Calendar.CreateOverflows | src/main/resources/revolver/dashboard/assets/js/materialize.js:5431-5439 | a date up to 31 past the end of its month is seen in another month, which is what the clamping loop watches for |
| DatePickers.DatePicker.Navigate | src/main/resources/revolver/dashboard/assets/js/materialize.js:5394-5445 | terminates for every year, month, date and offset, in the normalised target month; for a date from 1 to 31 the date is the smaller of the one asked for and the number of days of that month, leap years included; otherwise the last date not after it that is seen in the month |
| DatePickers.ClampedDate | src/main/resources/revolver/dashboard/assets/js/materialize.js:5431-5439 | the last date seen in the month, among those up to the one asked for, is the smaller of it and the length of the month |
| DatePickers.DatePicker.Validate | src/main/resources/revolver/dashboard/assets/js/materialize.js:5494-5611 | for every step, every list of disabled units and any date to start from, with the calendar and limits named under Left out: terminates; the result is a day inside the limits that no unit of the list matches, or an inverted one does, and it is the day the search settles on; or else every day within the limits is matched by a unit and by no inverted one |
| DatePickers.DatePicker.DisabledExactly | src/main/resources/revolver/dashboard/assets/js/materialize.js:5617-5653 | a date is disabled if and only if some unit of the list matches it and no inverted one does, or it lies outside the limits; an inverted calendar disables the dates not so matched |
| DatePickers.StridesStayInMonth | src/main/resources/revolver/dashboard/assets/js/materialize.js:5569-5573 | strides end at the first enabled day they land on, and are given up for single days from the start where they leave its month |
| DatePickers.LateLimits | src/main/resources/revolver/dashboard/assets/js/materialize.js:5576-5603 | limits from the year 101 on are clear of the years 0 to 99, so that the search may be relied on |
| DatePickers.Shifted | src/main/resources/revolver/dashboard/assets/js/materialize.js:5576-5603 | the date object built from year, month and shifted date is that many days away, if and only if the year is not one from 0 to 99 |
| DateSearch.SearchSettlesOnOneEnabledDay | src/main/resources/revolver/dashboard/assets/js/materialize.js:5560-5604 | whenever some day is enabled, a search settles on exactly one day, enabled and within the limits |
| DateSearch.UnitSearchExactly | src/main/resources/revolver/dashboard/assets/js/materialize.js:5576-5603 | a search by single days settles on the nearest enabled day ahead, or on the one nearest to the limit it turns at |
| DateSearch.StridesExactly | src/main/resources/revolver/dashboard/assets/js/materialize.js:5569-5603 | where a search by strides ends: at the first enabled day it lands on, in a search by single days when it leaves the month, at the days nearest to a limit when it meets one |
| DateSearch.SearchGivesUpStrides | src/main/resources/revolver/dashboard/assets/js/materialize.js:5568-5572 | strides that leave the month of the start are only given up before a limit was met, and the search goes on day by day from the start |
| DateSearch.SearchMeetsLo | src/main/resources/revolver/dashboard/assets/js/materialize.js:5576-5584 | meeting the lower limit turns the search forward; if the upper limit was met before, no day between them is enabled |
| DateSearch.SearchMeetsHi | src/main/resources/revolver/dashboard/assets/js/materialize.js:5585-5593 | the same at the upper limit |
| DateUnits.ExactIsSymmetric | src/main/resources/revolver/dashboard/assets/js/materialize.js:5816-5842 | whether two units are exactly the same does not depend on their order |
| DateUnits.ComparableIffSelfExact | src/main/resources/revolver/dashboard/assets/js/materialize.js:5816-5842 | a unit is exactly itself if and only if it is no range with an end that is neither integer, boolean, date nor such a range |
| DateUnits.ExactUnitsMatchTheSame | src/main/resources/revolver/dashboard/assets/js/materialize.js:5617-5653 | exactly the same units match the same dates |
| DateUnits.ExactlyTheSamePlainly | src/main/resources/revolver/dashboard/assets/js/materialize.js:5816-5844 | two units are the same if and only if they can be compared and are equal once every date in them is replaced by its day and marks are dropped |
| DateUnits.WeekdayMatches | src/main/resources/revolver/dashboard/assets/js/materialize.js:5625-5627 | which days a weekday number matches, by the remainder of the day number, for both settings of `firstDay` and for numbers of either sign |
| DateUnits.DateMatches | src/main/resources/revolver/dashboard/assets/js/materialize.js:5630-5632 | a date matches its own day only, and a proper triple the day with that year, month and date |
| DateUnits.RangeEnds | src/main/resources/revolver/dashboard/assets/js/materialize.js:5321-5351 | the first and last day of a range with ends of any kind |
| DateUnits.RangeOfDates | src/main/resources/revolver/dashboard/assets/js/materialize.js:5321-5360 | a range with two dates matches the days from the one to the other |
| DateUnits.RangeOfDays | src/main/resources/revolver/dashboard/assets/js/materialize.js:5321-5360 | a range with a number and a date matches the days so far before or after the date |
| DateUnits.RangeOfNoDate | src/main/resources/revolver/dashboard/assets/js/materialize.js:5321-5360 | a range without a date matches nothing |
| DateUnits.RangesOverlapByEnds | src/main/resources/revolver/dashboard/assets/js/materialize.js:5366-5376 | two ranges overlap if and only if an end of one lies in the other |
| DateUnits.RangesOverlapExactly | src/main/resources/revolver/dashboard/assets/js/materialize.js:5366-5376 | two ranges that match some day each overlap if and only if a day is matched by both |
| DateUnits.WhatOverlaps | src/main/resources/revolver/dashboard/assets/js/materialize.js:5849-5876 | nothing overlaps but two ranges, or a weekday number and a date |
| DateUnits.AcceptedUnits | src/main/resources/revolver/dashboard/assets/js/materialize.js:5921-5930 | integers, dates and ranges can be disabled, a range only when neither end is 0, false or missing |
| DateUnits.DisableAllAppends | src/main/resources/revolver/dashboard/assets/js/materialize.js:5884-5937 | disabling keeps the list as a prefix, appends only accepted units of the list given, and adds no exact duplicate |
| DateUnits.DisableAllIsIdempotent | src/main/resources/revolver/dashboard/assets/js/materialize.js:5884-5937 | disabling the same list again changes nothing if and only if all its accepted units are exactly themselves |
| DateUnits.DisablesExactlyTheMatchedDates | src/main/resources/revolver/dashboard/assets/js/materialize.js:5617-5653 | without inverted units, after disabling a list the disabled dates are those disabled before and those the list matches |
| DateUnits.EnablingUndoesDisabling | src/main/resources/revolver/dashboard/assets/js/materialize.js:5943-6029 | disabling acceptable units that are apart from each other and from everything present, then enabling the same list, restores the list |
| DateUnits.FirstHitIsFirst | src/main/resources/revolver/dashboard/assets/js/materialize.js:5975-6001 | the unit that enabling works on is the first that is exactly the one given or overlaps it |
| DateEnabling.WeekdayOverlapsExactly | src/main/resources/revolver/dashboard/assets/js/materialize.js:5848-5869 | a weekday number overlaps a date if and only if it matches it and, without `firstDay`, is positive and no multiple of seven |
| DateEnabling.EnabledIs | src/main/resources/revolver/dashboard/assets/js/materialize.js:5943-6029 | the list after enabling any one unit of any list: unchanged when nothing is exactly the unit or overlaps it; without its exact copy and with its inverted form when an overlap comes first; without its exact copy and without the first unit that overlaps it when the copy comes first |
| DateEnabling.DateEnabled | src/main/resources/revolver/dashboard/assets/js/materialize.js:5943-6029 | for any list, any date and any day, whether the list matches the day after the date was enabled, in all three cases; native dates of the years 0 to 99, whose inverted form stands for another day, included |
| DateEnabling.DateIsEnabledExactly | src/main/resources/revolver/dashboard/assets/js/materialize.js:5943-6029 | when the date is enabled afterwards, for any list: always when an overlapping weekday comes first, unless it is a native date of the years 0 to 99 that something but its copy disables; when its copy comes first, if and only if no range, no other number, no second copy and no second overlapping number matches it, or something inverted that stays does; otherwise if it was before |
| DateEnabling.OtherDaysStayExactly | src/main/resources/revolver/dashboard/assets/js/materialize.js:5943-6029 | no other day changes if and only if not both a copy of the date comes first and a weekday overlaps it that no other number left in the list stands for, and it is no native date of the years 0 to 99 that enables a disabled day of the twentieth century in its place |
| DateEnabling.WeekdayGoesToo | src/main/resources/revolver/dashboard/assets/js/materialize.js:6011-6018 | in the remaining case, for any list, some other day that was disabled is enabled; the day is given |
| DateEnabling.BlockedDateStaysDisabled | src/main/resources/revolver/dashboard/assets/js/materialize.js:5975-6001 | in any list, a disabled date stays disabled when something that matches it is neither its copy nor overlaps it, unless a weekday that overlaps it comes first |
| DateEnabling.DateInRangeStaysDisabled | src/main/resources/revolver/dashboard/assets/js/materialize.js:5848-5869 | so does a date inside a disabled range, since ranges are never compared with dates |
| DateEnabling.EnablingAnEnabledDateDisablesIt | src/main/resources/revolver/dashboard/assets/js/materialize.js:5975-6009 | for every date, a list in which it is enabled and after enabling it disabled |
| DateEnabling.EnablingAnOverlapEnablesItsDates | src/main/resources/revolver/dashboard/assets/js/materialize.js:5943-6029 | enabling a date or range that first overlaps something disabled enables the dates its inverted form matches and no others, for any list; these are its own unless it is a native date of the years 0 to 99 |
| DateEnabling.SaturdayStaysDisabled | src/main/resources/revolver/dashboard/assets/js/materialize.js:5848-5869 | without `firstDay` a Saturday that is disabled, in any list with a weekday number that matches it, stays disabled when its date is enabled |
| DatePickers.DatePicker.Deactivate | src/main/resources/revolver/dashboard/assets/js/materialize.js:5884-5937 | the returned list and the direction of the calendar for "flip", both booleans and lists of units |
| DatePickers.DatePicker.EnableUnit | src/main/resources/revolver/dashboard/assets/js/materialize.js:5967-6024 | what one unit makes of the list: an exact match is removed with the first unit it overlaps, an overlap gets the unit in its inverted form at the end, searched over the units present at the start only |
| DatePickers.DatePicker.RemoveExact | src/main/resources/revolver/dashboard/assets/js/materialize.js:6004-6009 | the first exact match becomes a hole, nothing else changes |
| DatePickers.DatePicker.RemoveOverlap | src/main/resources/revolver/dashboard/assets/js/materialize.js:6013-6018 | the first overlapping unit becomes a hole, nothing else changes |
| DatePickers.DatePicker.Activate | src/main/resources/revolver/dashboard/assets/js/materialize.js:5943-6029 | the returned list, without holes, the direction of the calendar, and the holes and additions left in its own list, for every argument |
| DatePickers.DatePicker.SetDisable | src/main/resources/revolver/dashboard/assets/js/materialize.js:5217-5255 | list and direction afterwards; `true` disables every day, `false` none inside the limits, "flip" swaps them; with nothing inverted, units disable the days they match and keep those that were disabled. The cascade that follows is left out |
| DatePickers.DatePicker.SetEnable | src/main/resources/revolver/dashboard/assets/js/materialize.js:5217-5255 | list and direction afterwards; `false` disables every day, `true` none inside the limits, "flip" swaps them. The cascade that follows is left out |
| DatePickers.DatePicker.DisableThenEnable | src/main/resources/revolver/dashboard/assets/js/materialize.js:5884-6029 | disabling fresh units and enabling them again leaves list and direction as they were |
| DateFormats.SplittingIsLossless | src/main/resources/revolver/dashboard/assets/js/materialize.js:5798 | the pieces of a format joined are the format |
| DateFormats.PiecesAlternate | src/main/resources/revolver/dashboard/assets/js/materialize.js:5798 | pieces are text without labels and labels or escapes by turns, text first and last |
| DateFormats.PrintsAsScanned | src/main/resources/revolver/dashboard/assets/js/materialize.js:5709-5807 | every format prints what reading it from left to right gives: the longest label at each place is replaced by its field, `!` gives the character after it, all other characters stand as they are |
| DateFormats.TextStands | src/main/resources/revolver/dashboard/assets/js/materialize.js:5801-5806 | text without labels and escapes stands unchanged before whatever follows it |
| DateFormats.TextPrintsItself | src/main/resources/revolver/dashboard/assets/js/materialize.js:5801-5806 | a format without labels and escapes prints as itself |
| DateFormats.EscapePrintsCharacter | src/main/resources/revolver/dashboard/assets/js/materialize.js:5804 | an escaped character prints as itself |
| DateFormats.DefaultFormatRoundTrip | src/main/resources/revolver/dashboard/assets/js/materialize.js:6436 | in the default format every day of the years 1000 to 9999 is printed as date, space, month name, comma, space and year, and that text is read back as the day |
| DateFormats.Parse | src/main/resources/revolver/dashboard/assets/js/materialize.js:5659-5702 | the empty value, and it alone, is given back; for every other value and every format the loop over the pieces computes the specification that the round trip is proved about |
| DateFormats.PieceTakes | src/main/resources/revolver/dashboard/assets/js/materialize.js:5709-5795 | how many characters each label takes of a value, and when a value without a word fails |
| DateFormats.TextTakes | src/main/resources/revolver/dashboard/assets/js/materialize.js:5684 | text takes its own length, an escape one character, a label nothing of a value that is used up |
| DateFormats.HarvestExactly | src/main/resources/revolver/dashboard/assets/js/materialize.js:5697-5701 | year, month and date of a parse: the field with more digits counts unless it is missing or empty, text counts when it is digits only |
| DateFormats.MonthIsNoted | src/main/resources/revolver/dashboard/assets/js/materialize.js:5711-5723 | the name of a month is noted by its place unless a month number has been read |
| DateFormats.OnlyMonthsAreNoted | src/main/resources/revolver/dashboard/assets/js/materialize.js:5709-5723 | no other label notes anything, and none does without a word |
| DateFormats.LeadValue | src/main/resources/revolver/dashboard/assets/js/materialize.js:4940-4942 | a number below 100 is written with two digits that read as the number |
| DateFormats.NegativeDecimal | src/main/resources/revolver/dashboard/assets/js/materialize.js:5791-5794 | a negative year is printed with a sign before the digits of its value |
| DateFormats.CharacterClasses | src/main/resources/revolver/dashboard/assets/js/materialize.js:5724-5726 | digits and word characters by their code points |
| DateFormats.DigitsOfNumber | src/main/resources/revolver/dashboard/assets/js/materialize.js:4956-4958 | a date or month number is cut off whole whenever no digit follows it |
| DateFormats.NamesFitExactly | src/main/resources/revolver/dashboard/assets/js/materialize.js:5745-5780 | the names that the round trip asks for, written out for each label |
| DateFormats.WordPieces | src/main/resources/revolver/dashboard/assets/js/materialize.js:5708-5780 | a month or weekday name is cut off whole when no word character follows it |
| DateFormats.ParseReadsOffPrint | src/main/resources/revolver/dashboard/assets/js/materialize.js:5659-5702 | parsing what separated pieces print reads each field of the date off, whatever was read before |
| DateFormats.ParseUndoesPrint | src/main/resources/revolver/dashboard/assets/js/materialize.js:5659-5808 | for every well-formed format and every day of the years 1000 to 9999, parsing the printed text gives the year, month and date |
| MailboxProviders.InMemoryPersistenceProvider.SaveRequest | src/main/java/io/dropwizard/revolver/persistence/InMemoryPersistenceProvider.java:53-66 | the four maps after a save; a blank mailbox files nothing |
| MailboxProviders.InMemoryPersistenceProvider.SetRequestState | src/main/java/io/dropwizard/revolver/persistence/InMemoryPersistenceProvider.java:69-71 | the state is put whatever it was |
| MailboxProviders.InMemoryPersistenceProvider.SaveResponse | src/main/java/io/dropwizard/revolver/persistence/InMemoryPersistenceProvider.java:74-77 | the response is put and the state becomes RESPONDED |
| MailboxProviders.InMemoryPersistenceProvider.Requests | src/main/java/io/dropwizard/revolver/persistence/InMemoryPersistenceProvider.java:95-103 | exactly the stored requests of the ids filed under the mailbox, in filing order |
| MailboxProviders.InMemoryPersistenceProvider.Responses | src/main/java/io/dropwizard/revolver/persistence/InMemoryPersistenceProvider.java:106-119 | the stored responses of the ids filed under the mailbox, without their request ids |
| MailboxProviders.AeroSpikePersistenceProvider.SaveRequest | src/main/java/io/dropwizard/revolver/persistence/AeroSpikePersistenceProvider.java:106-131 | the bins after a save: mode and method in upper case, "NONE" for no mailbox, a response already there stays |
| MailboxProviders.AeroSpikePersistenceProvider.SetRequestState | src/main/java/io/dropwizard/revolver/persistence/AeroSpikePersistenceProvider.java:160-171 | the state is written unless the record is RESPONDED; without a record the call fails |
| MailboxProviders.AeroSpikePersistenceProvider.SaveResponse | src/main/java/io/dropwizard/revolver/persistence/AeroSpikePersistenceProvider.java:174-196 | state and response bins are written, other bins stay |
| MailboxProviders.AeroSpikePersistenceProvider.Responses | src/main/java/io/dropwizard/revolver/persistence/AeroSpikePersistenceProvider.java:219-237 | the responses of the records filed under the mailbox that are in ERROR or RESPONDED |
| MailboxStore.UpperByCharacter | src/main/java/io/dropwizard/revolver/persistence/AeroSpikePersistenceProvider.java:106-131 | upper-casing moves the letters a to z thirty-two places and leaves every other character |
| MailboxStore.BlankByCodePoints | src/main/java/io/dropwizard/revolver/persistence/InMemoryPersistenceProvider.java:55-63 | which texts are blank, by the code points of their characters |
| MailboxSafety.ActOnReads | src/main/java/io/dropwizard/revolver/resource/RevolverRequestResource.java:309-460 | what any step of any thread does to existence, request, response and state of any id |
| MailboxSafety.InvRun | src/main/java/io/dropwizard/revolver/resource/RevolverRequestResource.java:309-460 | the invariant of the protocol holds after every schedule, over either provider |
| MailboxSafety.FinalStatesAreAnswered | src/main/java/io/dropwizard/revolver/resource/RevolverRequestResource.java:359-382 | in every reachable state a RESPONDED or READ request has a stored response or a completion between its two writes, and ERROR exists only inside that window |
| MailboxSafety.AtRestNoErrors | src/main/java/io/dropwizard/revolver/resource/RevolverRequestResource.java:359-382 | at rest no request is in ERROR, and every RESPONDED or READ one has its response |
| MailboxSafety.RespondedIsLostExactly | src/main/java/io/dropwizard/revolver/persistence/AeroSpikePersistenceProvider.java:160-171 | a step takes a request out of RESPONDED if and only if it saves the request, over Aerospike writes another state read before as another, in memory writes another state |
| MailboxSafety.RespondedStaysExactly | src/main/java/io/dropwizard/revolver/persistence/AeroSpikePersistenceProvider.java:160-171 | over either provider and any part of any schedule a RESPONDED request stays so if and only if no step of that part is such a step |
| MailboxSafety.RespondedIsLostOnlyByStaleWrites | src/main/java/io/dropwizard/revolver/persistence/AeroSpikePersistenceProvider.java:160-171 | over any part of any schedule, when RESPONDED has been lost, the losing step is given: over Aerospike a save or a write decided on a read of another state, in memory a save or any write of another state |
| MailboxSafety.RespondedStaysUntilSaved | src/main/java/io/dropwizard/revolver/persistence/AeroSpikePersistenceProvider.java:160-171 | with `setRequestState` as one step RESPONDED is lost only through a save of the request |
| MailboxAcks.SubmissionAlone | src/main/java/io/dropwizard/revolver/resource/RevolverRequestResource.java:180-201 | a submission alone, for every mode, URI, answer and store: POLLING, and CALLBACK with a URI, end RESPONDED with the response unless it is a 202; CALLBACK_SYNC with a URI, and a 202, end REQUESTED without one; any other mode, and an id that is stored, sends nothing and changes nothing. The log of each is given in full |
| MailboxAcks.CompletionSetsStateFirst | src/main/java/io/dropwizard/revolver/resource/RevolverRequestResource.java:359-382 | the state a completion writes before the response: REQUESTED, RESPONDED or ERROR by status and kind of API |
| MailboxAcks.HandlerAlone | src/main/java/io/dropwizard/revolver/callback/CallbackHandler.java:100-130 | the handler saves the response again exactly when the callback URI has a scheme |
| MailboxAcks.CallbackAlone | src/main/java/io/dropwizard/revolver/resource/RevolverCallbackResource.java:74-88 | a downstream callback is stored when its request is known, and passed on when the stored mode is CALLBACK or CALLBACK_SYNC and there is a URI |
| MailboxAcks.UnknownIdsAreLeft | src/main/java/io/dropwizard/revolver/persistence/AeroSpikePersistenceProvider.java:160-163 | threads that find no state or no request of their id end there and change nothing |
| MailboxWitness.LateAcceptance | src/main/java/io/dropwizard/revolver/persistence/InMemoryPersistenceProvider.java:69-71 | for every request in the mode POLLING, or CALLBACK or CALLBACK_SYNC with a callback URI, in any spelling, and every response there is a run in which a late 202 replaces RESPONDED by REQUESTED: always in memory, over Aerospike exactly when `setRequestState` is split |
| MailboxAcks.AckFitsRun | src/main/java/io/dropwizard/revolver/resource/RevolverMailboxResource.java:112-136 | over Aerospike an id saved once is READ only while a completion is about to answer, after any schedule with `setRequestState` as one step |
| MailboxAcks.AcksDoNotLast | src/main/java/io/dropwizard/revolver/resource/RevolverMailboxResource.java:112-136 | so at rest no request saved once is READ over Aerospike, whatever acknowledgements ran and when |
| MailboxWitness.ReadAfterAnotherSave | src/main/java/io/dropwizard/revolver/resource/RevolverMailboxResource.java:112-136 | for every accepted request there is a run, without split writes, in which it is saved again during an acknowledgement and is READ at rest |
| MailboxAccounting.TwoDispatchesRaced | src/main/java/io/dropwizard/revolver/resource/RevolverRequestResource.java:322-357 | two downstream calls for one id come from two threads each of which checked the id before the other saved it |
| MailboxAccounting.SerialSubmissionsDispatchOnce | src/main/java/io/dropwizard/revolver/resource/RevolverRequestResource.java:322-357 | serial submissions of an id call downstream at most once over any run |
| MailboxAccounting.ActBalances | src/main/java/io/dropwizard/revolver/resource/RevolverRequestResource.java:369-383 | in every step of any thread, calls made and calls still owed change by the completions that answer and the callbacks passed on |
| MailboxAccounting.CallsByEvents | src/main/java/io/dropwizard/revolver/resource/RevolverRequestResource.java:309-460 | at rest, over every run and for every id, calls to `handle` equal the non-202 completions whose request had the mode CALLBACK plus the downstream callbacks passed on |
| MailboxAccounting.CallbackWasFetched | src/main/java/io/dropwizard/revolver/resource/RevolverCallbackResource.java:74-88 | whether a callback is passed on was settled by mode and URI of the request its own thread had fetched, over every run |
| MailboxAccounting.CallsAreAccountedFor | src/main/java/io/dropwizard/revolver/resource/RevolverRequestResource.java:309-460 | at rest, for an id saved any number of times by requests that answer callbacks alike and pass them on alike, calls to `handle` equal the non-202 completions if they answer plus the accepted downstream callbacks if they are passed on |
| MailboxAccounting.CallsByModeAndUri | src/main/java/io/dropwizard/revolver/resource/RevolverRequestResource.java:309-460 | so for an id whose saves agree on mode and on whether there is a URI: completions count if the mode is CALLBACK, downstream callbacks if the stored mode is CALLBACK or CALLBACK_SYNC and there is a URI |
| MailboxAccounting.NeverHandled | src/main/java/io/dropwizard/revolver/resource/RevolverCallbackResource.java:85-88 | an id none of whose saves has the mode CALLBACK, or passes callbacks on as stored, never triggers a call to `handle`, over any run |
| MailboxAccounting.PollingIsNeverHandled | src/main/java/io/dropwizard/revolver/resource/RevolverCallbackResource.java:85-88 | an id saved in the mode POLLING only, in any spelling, however often and by racing submissions too, never triggers a call to `handle`, over any run |
| MailboxListings.GatherIgnoresOrder | src/main/java/io/dropwizard/revolver/persistence/AeroSpikePersistenceProvider.java:219-237 | a listing depends on the ids filed, not on the order the query returns them in |
| MailboxAgreement.TwinRun | src/main/java/io/dropwizard/revolver/persistence/PersistenceProvider.java:30-52 | the same schedule over both providers keeps them in step, whatever the modes and however often ids are saved: same ids, requests equal up to upper-casing, same responses of fair ids, logs equal up to calls to `handle` for ids with a mode that upper-casing changes |
| MailboxAgreement.PlainRunsAreEqual | src/main/java/io/dropwizard/revolver/persistence/PersistenceProvider.java:30-52 | when upper-casing changes no mode, both log the same events and know the same responses of every id |
| MailboxAgreement.RequestsAgree | src/main/java/io/dropwizard/revolver/persistence/InMemoryPersistenceProvider.java:95-103 | with each id saved once and any modes, both providers list the same requests of a mailbox, as multisets and up to upper-casing, if and only if every save Aerospike files there names it and it is not blank |
| MailboxAgreement.OrdinaryMailboxesAreFiledAlike | src/main/java/io/dropwizard/revolver/persistence/AeroSpikePersistenceProvider.java:106-131 | the condition holds for every mailbox that is not blank and not "NONE" |
| MailboxAgreement.ResponsesAgree | src/main/java/io/dropwizard/revolver/persistence/AeroSpikePersistenceProvider.java:219-237 | at rest both providers list the same responses of a mailbox of fair ids if and only if no stored response has lost its RESPONDED state |
| MailboxAgreement.ProvidersAgree | src/main/java/io/dropwizard/revolver/persistence/AeroSpikePersistenceProvider.java:219-266 | at rest, with `setRequestState` as one step and each id saved once, both providers list the same requests and responses of every mailbox of fair ids that is not blank and not "NONE" |
| MailboxAgreement.NormalizedListing | src/main/java/io/dropwizard/revolver/persistence/InMemoryPersistenceProvider.java:95-103 | the normalised listing is the listing of the normalised requests, one by one |
| MailboxWitness.UnplainModesTellProvidersApart | src/main/java/io/dropwizard/revolver/resource/RevolverCallbackResource.java:86-88 | for every mode passed on in upper case only, and any two responses, one schedule ends with different responses in the two providers |
| MailboxWitness.FairRequestsExactly | src/main/java/io/dropwizard/revolver/resource/RevolverCallbackResource.java:86-88 | in every run side by side the providers know the same response of a request if and only if it is fair: upper-casing does not decide whether its mode is passed on, or its callback URI has no scheme |
| MailboxWitness.PlainModesExactly | src/main/java/io/dropwizard/revolver/resource/RevolverCallbackResource.java:86 | upper-casing decides nothing for all modes but the other spellings of CALLBACK and CALLBACK_SYNC |
| PathPatterns.PathMatchesExactly | src/main/java/io/dropwizard/revolver/RevolverBundle.java:195-197 | an expression of characters, groups, `[^/]` and `+` matches a path if and only if it is the writing of a concatenation that does; what is none of these matches nothing |
| PathPatterns.MetaCharacters | src/main/java/io/dropwizard/revolver/RevolverBundle.java:191-193 | the characters that do not stand for themselves in an expression |
| PathPatterns.ExpressionReadsAsCompiled | src/main/java/io/dropwizard/revolver/RevolverBundle.java:191-193 | the rewritten template, read as a regular expression, is the concatenation of its characters and wildcards |
| PathPatterns.AcceptsJoin | src/main/java/io/dropwizard/revolver/RevolverBundle.java:191-193 | what two parts of a template match, one after the other, the whole matches |
| PathPatterns.AcceptsSplit | src/main/java/io/dropwizard/revolver/RevolverBundle.java:191-193 | what the whole matches can be cut where the parts meet |
| PathPatterns.TokensOfSegment | src/main/java/io/dropwizard/revolver/RevolverBundle.java:191-193 | the span from the first `{` to the last `}` of a segment is one wildcard if it has text, and otherwise the segment is literal |
| PathPatterns.SegmentMeaning | src/main/java/io/dropwizard/revolver/RevolverBundle.java:191-193 | a segment matches its literal, or prefix, some text and suffix |
| PathPatterns.ExpressionMeansTemplate | src/main/java/io/dropwizard/revolver/RevolverBundle.java:191-197 | for templates without metacharacters outside braces, a path matches the generated expression if and only if the segment counts agree and every segment of the path is what its template segment says |
| StableSorts.SortIsStable | src/main/java/io/dropwizard/revolver/RevolverBundle.java:176-181 | the sort is ordered and keeps the order of equals |
| StableSorts.StableSortIsUnique | src/main/java/io/dropwizard/revolver/RevolverBundle.java:176-181 | no other list is, so nothing depends on how `List.sort` works |
| RouteTables.FirstSortKeeps | src/main/java/io/dropwizard/revolver/RevolverBundle.java:174-180 | the sort by number of groups never moves an API |
| RouteTables.ApisInPathOrder | src/main/java/io/dropwizard/revolver/RevolverBundle.java:176-181 | the routes of a load are the APIs in path order, equal paths in their own order, and this determines them |
| RouteTables.LoadAdds | src/main/java/io/dropwizard/revolver/RevolverBundle.java:267-322 | a load appends to a service the sorted routes of its entries, up to and with the first entry that fails |
| RouteTables.LoadFinishes | src/main/java/io/dropwizard/revolver/RevolverBundle.java:267-322 | a load goes through if and only if no supported entry has an API name twice or a command that fails uncaught |
| RouteTables.RoutesAreConcatenated | src/main/java/io/dropwizard/revolver/RevolverBundle.java:182-185 | after any loads the routes of a service are the concatenation of what each load added |
| RouteTables.FirstMatchByTemplate | src/main/java/io/dropwizard/revolver/RevolverBundle.java:195-202 | the answer is the first route whose template accepts the path, and there is none if and only if no template does |
| RouteTables.LoadAnswers | src/main/java/io/dropwizard/revolver/RevolverBundle.java:195-202 | after a load a path has the answer it had, otherwise the first match among the routes added |
| RouteTables.AnswersAreKept | src/main/java/io/dropwizard/revolver/RevolverBundle.java:182-202 | a path once matched keeps its answer through any later loads, failed ones included |
| RouteTables.ReloadChangesNoAnswer | src/main/java/io/dropwizard/revolver/RevolverBundle.java:182-202 | loading a configuration again, at once or after any other loads, changes no answer |
| RouteTables.LeastTemplateWins | src/main/java/io/dropwizard/revolver/RevolverBundle.java:181-202 | within one load the answer has the least path among all templates that accept |
| RouteTables.LiteralBeatsVariable | src/main/java/io/dropwizard/revolver/RevolverBundle.java:181-202 | a literal wins against a variable at the first difference if and only if its character there comes before `{`; within any load, the later of the two never is the answer |
| RouteTables.TildeLosesToVariable | src/main/java/io/dropwizard/revolver/RevolverBundle.java:181-202 | a load in which the path `~` is answered by the template `{id}` although the template `~` is there |
| RouteTables.LoadBuilds | src/main/java/io/dropwizard/revolver/RevolverBundle.java:308-322 | after a load each service runs the last command built for it before the load ended, the others keep theirs |
| RouteTables.LoadStates | src/main/java/io/dropwizard/revolver/RevolverBundle.java:317-321 | a load activates the APIs of the http services it builds, also deactivated ones; all other states stay, so an https API never gets one |
| RevolverBundles.RevolverBundle.GenerateApiConfigMap | src/main/java/io/dropwizard/revolver/RevolverBundle.java:173-189 | the routes are added whether or not the map can be built; it can if and only if no API name occurs twice, and then maps each name to its API |
| RevolverBundles.RevolverBundle.RegisterCommand | src/main/java/io/dropwizard/revolver/RevolverBundle.java:308-322 | the three static maps after a registration, for each way it can end |
| RevolverBundles.RevolverBundle.LoadServiceConfiguration | src/main/java/io/dropwizard/revolver/RevolverBundle.java:267-282 | the three static maps after a load, complete or not |
| RevolverBundles.RevolverBundle.MatchPath | src/main/java/io/dropwizard/revolver/RevolverBundle.java:195-202 | the first route of the service whose expression matches the path; none if and only if the service is unknown or no route of it does |
| RevolverBundles.ByName | src/main/java/io/dropwizard/revolver/RevolverBundle.java:186-188 | the map of APIs by name exists if and only if all names differ, and holds exactly the APIs |
| DynamicConfigs.DynamicConfigHandler.RefreshConfig | src/main/java/io/dropwizard/revolver/handler/DynamicConfigHandler.java:83-106 | hash, load time, static maps and answer after a poll, for every way it can go; the two lemmas below say when hash and time change and what is answered |
| DynamicConfigs.LoadsAreRemembered | src/main/java/io/dropwizard/revolver/handler/DynamicConfigHandler.java:91-101 | after a poll hash and time are those of its text if and only if this passed the gate, could be read and was loaded to the end; otherwise both stay |
| DynamicConfigs.PollAnswersRememberedHash | src/main/java/io/dropwizard/revolver/handler/DynamicConfigHandler.java:83-106 | a poll answers the hash of its text, which is the one remembered, or nothing exactly when there is no text, no hash, or a new text not loaded to the end |
| DynamicConfigs.PollsAreLoads | src/main/java/io/dropwizard/revolver/handler/DynamicConfigHandler.java:83-106 | any polls change the static maps as the loads of the configurations that pass the hash gate do |
| DynamicConfigs.PollsKeepAnswers | src/main/java/io/dropwizard/revolver/handler/DynamicConfigHandler.java:83-106 | a path once matched keeps its answer through any polls |
| DynamicConfigs.LoadedTextIsNotLoadedAgain | src/main/java/io/dropwizard/revolver/handler/DynamicConfigHandler.java:91-101 | while the hash of a text is remembered, polls that fetch it or nothing change nothing |
| DynamicConfigs.NewTextIsLoadedOnce | src/main/java/io/dropwizard/revolver/handler/DynamicConfigHandler.java:83-106 | a new text that a poll loads to the end is loaded once, whatever number of later polls fetch it or nothing |
| DynamicConfigs.FailedLoadsPileUp | src/main/java/io/dropwizard/revolver/handler/DynamicConfigHandler.java:91-105 | a text whose load fails is loaded at every poll: its routes are added once more each time, the hash and load time stay, and from the second poll on no answer changes |
| DynamicConfigs.WithoutFirstHashNothingLoads | src/main/java/io/dropwizard/revolver/handler/DynamicConfigHandler.java:64-75 | when the text could not be fetched at the start, no later poll ever loads anything |
| CallbackCommands.CallbackHandler.GetCommand | src/main/java/io/dropwizard/revolver/callback/CallbackHandler.java:232-249 | the command of the service name that is there already, otherwise the one just built and put |
| CallbackCommands.CallbackHandler.MakeCallback | src/main/java/io/dropwizard/revolver/callback/CallbackHandler.java:134-177 | after any run the handler holds the lookups of that run, and what it sends is what the theorems speak of |
| CallbackCommands.CacheHoldsFirstBuild | src/main/java/io/dropwizard/revolver/callback/CallbackHandler.java:81-98 | over every run the cache holds, for each endpoint, the configuration of its first callback for which one could be built |
| CallbackCommands.CommandsAreTheirOwners | src/main/java/io/dropwizard/revolver/callback/CallbackHandler.java:232-249 | over every run of callbacks and configuration loads a service name stands for the command of its owner: the last load of that name, otherwise the first callback able to put one |
| CallbackCommands.CommandIsFreshExactly | src/main/java/io/dropwizard/revolver/callback/CallbackHandler.java:134-249 | a callback gets the command built afresh for its endpoint, up to method and timeout, if and only if the owner of the name is a callback whose endpoint has the same target |
| CallbackCommands.OwnNamesGetFreshCommands | src/main/java/io/dropwizard/revolver/callback/CallbackHandler.java:134-249 | an endpoint with a service name of its own that is not configured always gets its own command, with method and timeout of its first callback; later callbacks are made if they have that method and refused otherwise |
| CallbackCommands.SameTargetExactly | src/main/java/io/dropwizard/revolver/callback/CallbackHandler.java:179-230 | two http or https endpoints have one target if and only if scheme, host and port agree, 0 and none counting as 80 |
| CallbackCommands.FirstCallbackIsSent | src/main/java/io/dropwizard/revolver/callback/CallbackHandler.java:134-230 | the first callback to a service name that is not configured: host, port, method and timeout it is sent with for every kind of header, and when it is not sent |
| CallbackCommands.ParseIntExactly | src/main/java/io/dropwizard/revolver/callback/CallbackHandler.java:227 | a timeout is read off exactly a sign or none and digits, with their value by places, within 32 bits |
| CallbackCommands.TargetOfHttp | src/main/java/io/dropwizard/revolver/callback/CallbackHandler.java:191-199 | service, kind, security, address and API of an http or https endpoint |
| CallbackCommands.RangerTargetExactly | src/main/java/io/dropwizard/revolver/callback/CallbackHandler.java:200-209 | a ranger host has a target if and only if it is environment, service and API between dots, with any dots after them |
| CallbackCommands.SecondPortGoesToFirst | src/main/java/io/dropwizard/revolver/callback/CallbackHandler.java:183 | a callback to a second port of a host is made to the first port |
| Throttles.Throttle.Invoke | src/main/resources/revolver/dashboard/assets/js/materialize.js:2500-2516 | the closure and what the function runs with after a call |
| Throttles.Throttle.Later | src/main/resources/revolver/dashboard/assets/js/materialize.js:2494-2499 | the closure and what the function runs with when the timer goes off |
| Throttles.TimerIsDueAfterWait | src/main/resources/revolver/dashboard/assets/js/materialize.js:2489-2517 | a timer is always due `wait` after the remembered time, is only set with trailing on, and has the arguments of the last call |
| Throttles.RunsAreApart | src/main/resources/revolver/dashboard/assets/js/materialize.js:2489-2517 | for any monotone clock and any calls, any two runs are at least `wait` apart, with any options |
| Throttles.CallRunsExactly | src/main/resources/revolver/dashboard/assets/js/materialize.js:2500-2516 | a call runs the function at once if and only if `wait` has passed since the last run, or with leading off since the first call after it; for any options and history |
| Throttles.FirstCallRunsExactly | src/main/resources/revolver/dashboard/assets/js/materialize.js:2502 | the very first call runs at once with leading on and not with leading off |
| Throttles.RunsWithLastArguments | src/main/resources/revolver/dashboard/assets/js/materialize.js:2489-2517 | each run has the arguments of the last call |
| Throttles.NoCallIsLost | src/main/resources/revolver/dashboard/assets/js/materialize.js:2489-2517 | with trailing on, after each call the function has run, or a timer is set, due at most `wait` after the call, that will run it with the last arguments |
| Throttles.FiredTimersRun | src/main/resources/revolver/dashboard/assets/js/materialize.js:2494-2499 | a timer that goes off runs the function |
| ScrollSpies.ScrollSpy.OnScroll | src/main/resources/revolver/dashboard/assets/js/materialize.js:2421-2458 | ticks, numbers, elements in view and events after a step, for any elements found, also twice |
| ScrollSpies.ScrollSpy.MarkHits | src/main/resources/revolver/dashboard/assets/js/materialize.js:2434-2444 | elements without a number enter once each, all found get the number of this tick |
| ScrollSpies.ScrollSpy.SweepView | src/main/resources/revolver/dashboard/assets/js/materialize.js:2447-2454 | elements in view before and not found now exit once each and lose their number |
| ScrollSpies.StepOfNode | src/main/resources/revolver/dashboard/assets/js/materialize.js:2421-2458 | in a step an element enters if it is found and was not in view, exits in the converse case, and nothing else |
| ScrollSpies.EventsAlternate | src/main/resources/revolver/dashboard/assets/js/materialize.js:2421-2458 | over every run of steps the events of each element alternate, enter first; the last is an enter if and only if the element is in view, which is if and only if it carries a number, and that is the number of the last step |
| Carousels.WrapIsModulo | src/main/resources/revolver/dashboard/assets/js/materialize.js:6651-6653 | `wrap` is total and is the mathematical remainder for every integer |
| Carousels.ImageAt | src/main/resources/revolver/dashboard/assets/js/materialize.js:6655-6726 | the image some places from the centre is the one with that offset |
| Carousels.Scroll | src/main/resources/revolver/dashboard/assets/js/materialize.js:6655-6726 | one pass positions every image, for any count from 1 and any centre, by its signed shorter way to the centre, with `zIndex` minus that distance |
| Carousels.CenterIsNearest | src/main/resources/revolver/dashboard/assets/js/materialize.js:6659 | the centre is the multiple of `dim` nearest to the offset |
| Carousels.ClickReachesImage | src/main/resources/revolver/dashboard/assets/js/materialize.js:6756-6783 | a click sets a target whose centre is the clicked image, for any offset |
| Carousels.NoWayIsShorter | src/main/resources/revolver/dashboard/assets/js/materialize.js:6756-6783 | no number of moves that ends at an image is smaller than its distance |
| Carousels.ClickIsShortestExactly | src/main/resources/revolver/dashboard/assets/js/materialize.js:6763-6774 | the click goes a shortest way if and only if the clicked index is at most one and a half rounds after the signed remainder of the centre; always for a centre that is not negative |
| Carousels.ClickOnOpposite | src/main/resources/revolver/dashboard/assets/js/materialize.js:6763-6774 | a click on an image just opposite goes there without passing the end of the images |
| Carousels.NegativeCenterGoesTheLongWay | src/main/resources/revolver/dashboard/assets/js/materialize.js:6763-6774 | six images and a negative centre: four images on instead of two back |

## Left out

- Foreign code: HTTP, OkHttp, TLS, Hystrix, Ranger and ZooKeeper, the Aerospike client. A downstream call ends with any
  response or none; building a command ends in one of the three ways the code tells apart.
- JSON, XML, MsgPack and Base64, headers, query parameters and bodies: opaque contents that are stored and given back.
- Expiry of records: it happens inside Aerospike, and the in-memory provider ignores it.
- Failing writes of a provider, other than `setRequestState` without a record, and a process that ends between two steps.
- The several map writes of one in-memory operation are one step.
- The request, callback and mailbox resources are steps of threads, not methods of classes: their interleaving matters.
- Exception mappers, filters, metadata, the Hystrix setter, configuration beans and inline execution: easy members.
- Upper-casing beyond ASCII, the one character that is white space only to older versions of Java (U+180E), and comparison
  of paths that hold characters outside the basic plane (Java compares code units).
- Regular expressions with more than characters, groups, `[^/]` and `+`: one that cannot be read matches nothing here, while
  Java may give it a meaning or throw. The rewriting theorem asks for templates without metacharacters outside braces.
- An API map's order: the list of APIs of a service is given in the iteration order of its set.
- Parsing a callback URI, and printing and reading the endpoint text: its scheme, host and port are given.
- The DOM, animation, transforms, opacity and dragging; of the carousel the images' places and the click remain.
- Inverted calendars and infinite limits in `validate`, and limits around days of the years 0 to 99, where `new Date` with
  a two-digit year means the twentieth century.
- Time of day and daylight saving.
- Conversion of parsed text to numbers other than plain digits, and two-digit years in the round trip.
- Literal pieces of a format that are names of properties of the formats object, such as `toString`: excluded by `WellFormed`.
- Throttled functions that call the throttle, handlers that scroll, and timers that go off before they are due.
- DatePickers.DatePicker.Validate: asks for a calendar that is not inverted and for finite limits with no day of the years
  0 to 99 between them or next to them, as said above.
- DatePickers.DatePicker.SetDisable: does not follow the cascade that moves a selected or highlighted date that has become
  disabled, because that only calls `validate` and `navigate` again.
- DatePickers.DatePicker.SetEnable: does not follow that cascade either.
- DatePickers.DatePicker.Activate: the units themselves are values, so that marking a unit of the caller as inverted, which
  the source does in place, is not seen by the caller.
- Calendar.CreateOverflows: speaks of dates up to 31, since a date far enough past its month is seen in the same month of
  a later year.
- DateUnits.DayOf: a range given without one of its ends has no day there, where the source throws on reading it; such a
  range is refused by disabling and can only come from the calendar's options or from the list to be enabled.
- MailboxAcks.AckFitsRun: asks that the id is saved once, as does MailboxAcks.AcksDoNotLast, because otherwise the claim
  is false: see `ReadAfterAnotherSave`.
- DateFormats.ParseUndoesPrint: covers formats with a full year, a month and a date whose pieces can be told apart, as the
  source's length functions require; others are parsed as the code does but not claimed to round-trip.
- CallbackCommands.SendCallback: what a command of a configured service does with a callback is not modelled.
