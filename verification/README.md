# Transitime time-of-day arithmetic and automatic block assignment

This project models two parts of the Transitime real-time transit system
and proves properties of them in Dafny.

**`Time`** covers the integer side of `org.transitime.utils.Time`:
- the time constants;
- `parseTimeOfDay` and `timeOfDayStr`, the parser and printer of signed `[-]HH:MM:SS` time-of-day strings. These are GTFS `stop_times` times, where hours may pass 24.
- `getTimeDifference`, the shorter distance between two times on a 24 hour clock;
- `getMsecsIntoDay(Date, long)`, which places a time-into-day on the day before, the same day or the day after, whichever is nearest a reference;
- `getEpochTime`, which splits seconds-into-day into hours, minutes and seconds and then moves the calendar's answer by a day when it lies more than 12 hours from the reference.

Java's 32-bit `int` arithmetic is written out (`JavaInt.Wrap32`), and so are its truncating `/` and `%` (`JavaInt.Quot`, `JavaInt.Rem`). `Integer.parseInt`, `Long.toString` and `String.indexOf`/`lastIndexOf` are modelled in `JavaText`. Every exception `parseTimeOfDay` can throw is `None`. `java.util.Calendar` is a library: the time-into-day it reports and the epoch time it computes for given clock fields are parameters.

**`AutoBlockAssigner`** covers the policy that assigns an unassigned vehicle to a block:
- keep the active blocks that no real (non-schedule-based) vehicle serves;
- for each one, take the best non-layover temporal match of the vehicle's current AVL report, discarding it when it is out of the allowed early/late bounds;
- require an earlier report, far enough away, to match the same block no later;
- assign only when exactly one block survives.

The caches, the matchers, the report history and the match ordering are collaborators, modelled as the function fields of an `Environment` value. The currently active blocks are a parameter.

## Model

| member | source | states |
|---|---|---|
| Time.ConstantsAgree | mainProject/src/main/java/org/transitime/utils/Time.java:51-62 | MS_PER_HOUR is 3,600,000 and MS_PER_DAY is 86,400,000 = SEC_PER_DAY * MS_PER_SEC. SEC_PER_DAY is 86,400, MS_PER_YEAR is 31,536,000,000, NSEC_PER_MSEC is 1,000,000, and each constant fits its declared Java type. |
| Time.ParseTimeOfDay | mainProject/src/main/java/org/transitime/utils/Time.java:411-429 | A parsed time of day is always a 32-bit int. The empty string gives no value. |
| Time.ParseTimeOfDayNeedsTwoColons | mainProject/src/main/java/org/transitime/utils/Time.java:414-424 | Text with at most one ':' gives no value. With no colon the substring calls fail; with one colon the minutes would end before they start. |
| Time.ParseClock | mainProject/src/main/java/org/transitime/utils/Time.java:418-424 | The unsigned part, when it parses, is a 32-bit int. |
| Time.CombineFields | mainProject/src/main/java/org/transitime/utils/Time.java:424 | The combination exists exactly when hours, minutes and seconds all parsed, and it is an int. |
| Time.ParseTimeOfDayFields | mainProject/src/main/java/org/transitime/utils/Time.java:418-424 | Suppose the text is "H:M:S", where H and S hold no colon and H does not start with '-'. It parses to H*3600 + M*60 + S in int arithmetic when all three fields parse, and to nothing otherwise. |
| Time.ParseTimeOfDayNegative | mainProject/src/main/java/org/transitime/utils/Time.java:415-428 | A leading '-' gives the int negation of what the rest parses to, and nothing when the rest does not parse. |
| Time.ZeroPaddedDigits | mainProject/src/main/java/org/transitime/utils/Time.java:454-459 | A field written with a "0" before values below ten is all digits and reads back as its value. |
| Time.AppendPadded | mainProject/src/main/java/org/transitime/utils/Time.java:454-459 | Appending one field extends the builder's text by the zero-padded number and nothing else. |
| Time.TimeOfDayStr | mainProject/src/main/java/org/transitime/utils/Time.java:438-461 | The text built piece by piece equals the sign followed by the HH:MM:SS of the magnitude (TimeOfDayText), for every long except Long.MIN_VALUE. |
| Time.TimeOfDayStrBoxed | mainProject/src/main/java/org/transitime/utils/Time.java:471-475 | The result is null exactly for a null argument. Otherwise it is the text of the int value. |
| Time.ParseClockText | mainProject/src/main/java/org/transitime/utils/Time.java:444-459 | Parsing the unsigned clock text of n seconds gives n in int arithmetic. It fails only when the hours exceed an int. |
| Time.TimeOfDayRoundTrip | mainProject/src/main/java/org/transitime/utils/Time.java:411-461 | For every long except Long.MIN_VALUE, negative values included, parseTimeOfDay(timeOfDayStr(s)) is s reduced to an int. It fails only when the hours overflow an int. |
| Time.TimeOfDayRoundTripInt | mainProject/src/main/java/org/transitime/utils/Time.java:411-475 | For every int s, parseTimeOfDay(timeOfDayStr(s)) == s exactly. |
| Time.ClockTextFields | mainProject/src/main/java/org/transitime/utils/Time.java:444-459 | The text ends in ":MM:SS". MM and SS are two digits each, below 60, and denote the minutes and seconds of the value. Before them stand at least two digits of hours, which are not capped at 23. |
| Time.TimeOfDayTextSign | mainProject/src/main/java/org/transitime/utils/Time.java:438-443 | The text starts with '-' exactly when the value is negative. What follows the sign is the clock text of the magnitude. |
| Time.TimeOfDayTextPastMidnight | mainProject/src/main/java/org/transitime/utils/Time.java:444-455 | 90000 s is written "25:00:00": hours past 23 are kept. |
| Time.TimeOfDayTextNegative | mainProject/src/main/java/org/transitime/utils/Time.java:438-459 | -3723 s is written "-01:02:03". |
| Time.GetTimeDifference | mainProject/src/main/java/org/transitime/utils/Time.java:682-689 | The difference is an int and never more than 12 hours. |
| Time.TimeDifferenceSymmetric | mainProject/src/main/java/org/transitime/utils/Time.java:682-689 | The difference is the same with the arguments swapped, for all ints, int overflow included. |
| Time.TimeDifferenceIsClockDistance | mainProject/src/main/java/org/transitime/utils/Time.java:671-689 | For times at most a day apart, the difference is the smaller of the direct gap and the gap across midnight. It lies between 0 and 43200. |
| Time.TimeDifferenceAcrossMidnight | mainProject/src/main/java/org/transitime/utils/Time.java:671-677 | 23:50 against 00:05 gives 900 s, as the documentation's example says. |
| Time.TimeDifferenceBeyondADay | mainProject/src/main/java/org/transitime/utils/Time.java:682-689 | Times 25 hours apart give -3600: outside a day the result can be negative. |
| Time.MsecsIntoDayNear | mainProject/src/main/java/org/transitime/utils/Time.java:304-319 | The result is t - MS_PER_DAY, t or t + MS_PER_DAY, and fits an int. It is at least as near the reference as each of the three. It is never farther than t, and differs from t only when strictly nearer, so ties keep t. |
| Time.MsecsIntoDayNearWithinHalfDay | mainProject/src/main/java/org/transitime/utils/Time.java:292-319 | A reference within a day and a half of t is met within half a day. |
| Time.SplitSecondsIntoDayValid | mainProject/src/main/java/org/transitime/utils/Time.java:233-238 | For secondsIntoDay >= 0, hours are in 0..23 and minutes and seconds in 0..59. hours*3600 + minutes*60 + seconds is secondsIntoDay modulo 86400. |
| Time.SplitSecondsIntoDayNegative | mainProject/src/main/java/org/transitime/utils/Time.java:233-238 | With Java's truncating division, a negative secondsIntoDay splits into the negated fields of its magnitude. |
| Time.GetEpochTime | mainProject/src/main/java/org/transitime/utils/Time.java:230-276 | The result is the calendar's epoch time plus 0, +MS_PER_DAY or -MS_PER_DAY. It is unchanged within 12 hours of the reference. A calendar time more than 12 hours after the reference loses a day, and one more than 12 hours before it gains a day. It lands within 12 hours when the calendar time is strictly within a day of the reference. It stays a long. |
| JavaInt.Wrap32 | mainProject/src/main/java/org/transitime/utils/Time.java:424 | The 32-bit result of an int computation is an int, and it equals the exact value when that fits. |
| JavaInt.WrapIsModulo | mainProject/src/main/java/org/transitime/utils/Time.java:424 | Wrapping is reduction modulo 2^32 into [MIN_VALUE, MAX_VALUE]. |
| JavaInt.WrapNegate | mainProject/src/main/java/org/transitime/utils/Time.java:426 | Negating a wrapped int and wrapping again is wrapping the exact negation. |
| JavaInt.AbsInt | mainProject/src/main/java/org/transitime/utils/Time.java:684 | Math.abs on an int is the magnitude, except that MIN_VALUE stays MIN_VALUE. |
| JavaInt.Quot | mainProject/src/main/java/org/transitime/utils/Time.java:235-237 | Integer division truncates toward zero: a non-negative a lies at most b - 1 above q * b, and a negative a lies at most b - 1 below it. |
| JavaInt.Rem | mainProject/src/main/java/org/transitime/utils/Time.java:234-238 | The remainder takes the sign of the dividend. |
| JavaInt.QuotRemOdd | mainProject/src/main/java/org/transitime/utils/Time.java:234-238 | Truncating division and remainder are odd in the dividend. |
| JavaText.DecimalTextValue | mainProject/src/main/java/org/transitime/utils/Time.java:455-459 | The decimal text of n is all digits and reads back as n. It has no leading zero from 10 upward. |
| JavaText.ParseInt | mainProject/src/main/java/org/transitime/utils/Time.java:420-422 | Integer.parseInt succeeds only on non-empty text, with an int result. |
| JavaText.ParseIntOfDigits | mainProject/src/main/java/org/transitime/utils/Time.java:420-422 | A non-empty run of digits parses to its value when that fits an int, and fails otherwise. |
| JavaText.ParseIntCharacters | mainProject/src/main/java/org/transitime/utils/Time.java:420-422 | Text that parses holds only digits, apart from one leading sign. |
| JavaText.IndexOf | mainProject/src/main/java/org/transitime/utils/Time.java:418 | indexOf returns the first position holding the character, or -1 when there is none. |
| JavaText.LastIndexOf | mainProject/src/main/java/org/transitime/utils/Time.java:419 | lastIndexOf returns the last position holding the character, or -1 when there is none. |
| AutoBlockAssigner.IsBlockUnassigned | transitime/src/main/java/org/transitime/core/autoAssigner/AutoBlockAssigner.java:134-156 | The result is true exactly when every vehicle serving the block is schedule based, and in particular when none serves it. |
| AutoBlockAssigner.UnassignedBlocks | transitime/src/main/java/org/transitime/core/autoAssigner/AutoBlockAssigner.java:164-176 | The loop returns the unassigned blocks among the active ones (UnassignedAmong). |
| AutoBlockAssigner.UnassignedAmongMembers | transitime/src/main/java/org/transitime/core/autoAssigner/AutoBlockAssigner.java:164-176 | A block is returned exactly when it is active and unassigned. |
| AutoBlockAssigner.UnassignedAmongAppend | transitime/src/main/java/org/transitime/core/autoAssigner/AutoBlockAssigner.java:164-176 | The original order is kept: the result for a + b is the result for a followed by the result for b. |
| AutoBlockAssigner.BestTemporalMatch | transitime/src/main/java/org/transitime/core/autoAssigner/AutoBlockAssigner.java:188-226 | The result is the temporal matcher's best non-layover match when that exists and is within bounds. Otherwise it is null, and it is never out of bounds. |
| AutoBlockAssigner.DetermineTemporalMatches | transitime/src/main/java/org/transitime/core/autoAssigner/AutoBlockAssigner.java:241-306 | The loop returns, in block order, the current report's match to each unassigned block whose current and previous matches both exist with previous <= current. It returns none without a previous report. |
| AutoBlockAssigner.ValidMatchMembers | transitime/src/main/java/org/transitime/core/autoAssigner/AutoBlockAssigner.java:266-305 | A match is collected exactly when it is the current report's in-bounds match to some block that both reports match, previous no later than current. |
| AutoBlockAssigner.ValidMatchesAppend | transitime/src/main/java/org/transitime/core/autoAssigner/AutoBlockAssigner.java:266-305 | Each block adds at most one match, in block order: the matches for a + b are those for a followed by those for b. |
| AutoBlockAssigner.AutoAssignVehicleToBlockIfEnabled | transitime/src/main/java/org/transitime/core/autoAssigner/AutoBlockAssigner.java:323-355 | The method returns null when disabled, when there are no matches and when there are several. With exactly one match it returns that match (AutoAssignment). |
| AutoBlockAssigner.DisabledNeverAssigns | transitime/src/main/java/org/transitime/core/autoAssigner/AutoBlockAssigner.java:327-328 | When the feature is off, every vehicle state gets null. |
| AutoBlockAssigner.DefaultConfigValues | transitime/src/main/java/org/transitime/core/autoAssigner/AutoBlockAssigner.java:54-94 | The defaults are: off, AVL assignments not ignored, 100 m, 180 s early and 300 s late. Under them nothing is assigned. |
| AutoBlockAssigner.NoPreviousReportNeverAssigns | transitime/src/main/java/org/transitime/core/autoAssigner/AutoBlockAssigner.java:248-263 | Without a previous report far enough away the match list is empty and the result is null, however well the current report fits. |
| AutoBlockAssigner.AssignedIffSoleMatch | transitime/src/main/java/org/transitime/core/autoAssigner/AutoBlockAssigner.java:337-354 | A match is assigned exactly when the feature is on and that match is the only valid one. |
| AutoBlockAssigner.AssignedMatchProvenance | transitime/src/main/java/org/transitime/core/autoAssigner/AutoBlockAssigner.java:266-294 | An assigned match comes from an active block that no real vehicle serves. The current report's match to it is within bounds. A previous report exists whose match to it is within bounds and no later. |
| AutoBlockAssigner.SecondContributorAnnuls | transitime/src/main/java/org/transitime/core/autoAssigner/AutoBlockAssigner.java:343-349 | Adding one more active, unassigned block that both reports match turns an assignment into null. |

## Left out

- TimeOfDayStr: Long.MIN_VALUE is excluded. Its Java negation overflows back to itself, so the fields come out negative and the printed text is not a time of day.
- TimeOfDayRoundTrip: a long whose hours exceed an int has no round trip, because parseTimeOfDay throws there. The lemma states exactly that.
- MsecsIntoDayNear: the reference is kept two days clear of the ends of the long range, where the Java subtraction would wrap. The calendar's msecs into the day is a parameter in [0, MS_PER_DAY).
- GetEpochTime: the reference is kept 12 hours clear of the ends of the long range. The calendar is a function parameter from clock fields to epoch milliseconds. Its time-zone and daylight-saving behaviour is not part of this model.
- GetTimeDifference: documented for times into a day. For inputs more than a day apart, the code as written returns negative values (TimeDifferenceBeyondADay). The model keeps that behaviour.
- ParseInt: Integer.parseInt also accepts non-ASCII Unicode digits. The model accepts only '0'..'9'.
- The SimpleDateFormat-based parse and format methods of Time.java, and the float formatting of minutesStr, secondsStr and elapsedTimeStr: library behaviour and floating point.
- The Calendar field extraction (getSecondsIntoDay, getDayOfYear, getStartOfDay, getMsecsIntoDay(Date)): library behaviour, whose outputs are parameters here.
- sleep, main and the `synchronized (calendar)` locking: threads and I/O.
- AutoBlockAssigner's singleton, its logging and its config-value plumbing. The configuration is a Config value; ignoreAvlAssignments() only returns its field.
- VehicleStateManager.getVehicleState is treated as total. A vehicle id without a state (a null dereference in Java) is not part of this model.
- The internals of the spatial and temporal matchers, TemporalDifference.isWithinBounds, TemporalMatch.lessThanOrEqualTo, VehicleState.getPreviousAvlReport, BlocksInfo and VehicleDataCache: they are opaque functions of the Environment.
- Two vehicles racing to claim the same block: that is concurrency outside this code.
- KalmanErrorCache and DatabaseQueueMonitoring: a cache library wrapper and monitoring plumbing with no logic of their own to model.
