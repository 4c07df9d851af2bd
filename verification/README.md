# Attendance, reminders and one-time codes: a Dafny model

This project models the parts of the campus backend whose correctness depends on
order, time and concurrency, and proves what they guarantee.

* **Attendance lifecycle** (`AttendanceTables`, `AttendanceRepositories`,
  `AttendanceLifecycle`, `AttendanceServices`, `AttendanceProtocol`,
  `AttendanceRuns`, `AttendanceWindows`, `AttendanceSiblings`,
  `AttendanceOpenSiblings`, `AttendanceRaces`, `OccurrenceHistory`,
  `AttendanceCounts`, `StudentExport`). The tables are
  fields of repository classes, one method per database statement; the services
  loop over them as the source does. The same statement functions drive a state
  machine in which opening, scanning, closing by hand, closing as stale and
  calling the roll interleave statement by statement and may vanish between any
  two of them.
* **Reminder delivery** (`NotificationTable`, `NotificationRepositories`,
  `Dispatcher`, `LeaseProtocol`, `LeaseTheorems`, `LeaseTimely`,
  `LeaseOutcomes`, `LeaseRuns`). The lease is a second state machine: read candidates, claim,
  read back, deliver, record, with crashes, records the database refuses,
  stale-lock takeovers, cancellations and deletions in between.
* **Weekly slots and the generator** (`Zones`, `WeeklyWalk`, `Occurrences`,
  `Reminders`, `ReminderGenerator`). Instants are integers in milliseconds, local
  dates are day numbers, and a zone is a clock with its true offset.
* **One-time codes** (`ChallengeTable`, `EmailChallengeRepositories`,
  `EmailChallengeServices`, `OneTimeCodes`, `CodeAnswers`, `CodeProtocol`,
  `CodeRuns`).
* **Timetable and cohorts** (`Text`, `Clock`, `Cohort`, `Lectures`,
  `Timetable`, `ScheduleServices`).

`Prelude`, `Batches` and `SessionWindow` are shared: identifiers and instants,
bounded ordered reads, and the window arithmetic.

Where comments in the source promise more than the code gives, the code is
modelled and the difference is a theorem:

* A duplicate session that is still open can be scanned after the roll was called
  on its sibling, so the sweep alone does not make the harm impossible.
  `RollIsContradictedIff` says from exactly which reachable states it can still
  happen, `OpenDuplicateContradictsTheRoll` that it does, and
  `NoOrderOfRollCallsContradictsItself` that closed siblings are safe.
* Within one occurrence the sibling window is not complete
  (`SessionsOfOneOccurrenceSeeEachOtherIff`, `EarlyAndLateSessionsMissEachOther`).
* A session's state moves backwards in exactly one way, an edit of its lecture's
  times (`StateMovesBackIff`, and a run for every lengthening in
  `LengtheningCanReopenASession`).
* A manual close overwrites an automatic one when it loaded the session first
  (`EndingIsRewrittenIff`, and a run in `ManualCloseOverwritesAStaleOne`).
* The scan's comments say nothing is disclosed about a session before the code is
  proved genuine, but the session is looked up first: a forged code learns whether
  the session it names exists (`ForgedCodeDetectsASession`), and nothing more
  (`ForgedCodeLearnsOnlyExistence`).
* A scan judged while a manual close, its clock already read, is on its way to the
  database lies after the end the session is then given
  (`ScanCanOutliveAManualClose`), and no other scan does
  (`AcceptedScansLieInTheLecture`).
* A reminder can go out twice, and an outcome can change. `markSent` and
  `markFailed` do not re-test ownership, so one stale lock taken over is enough
  (`OneTakeoverCanDeliverTwice`); a `markSent` the database refuses is retried as
  an outage, so one lost record is too (`OneLostRecordCanDeliverTwice`). Each
  takeover and each lost record costs at most one more delivery
  (`AttemptsAndDeliveriesAreBounded`). From which reachable states a row can still
  go out, a SENT one go out again, and a SENT or FAILED one change, is said
  exactly by `RowCanGoOutIff`, `SentRowGoesOutAgainIff` and
  `SettledRowChangesIff`. When deliveries finish before their lease goes stale,
  nobody shares a row and outcomes are final in runs of any length
  (`LeaseTimely`).
* `occurrenceStates` can report NOT_RECORDED for its oldest occurrence although a
  session was opened early, before the window begins (`HeldButNotRecordedIff`,
  `EarlySessionIsMissed`).
* `findAttendeesOfCourse` is described as the students who really attended; its
  query takes any row, an ABSENT one included (`ListedWithoutTurningUpIff`,
  `AbsenteeCanStayOnTheRegister`).

## Model

| member | source | states |
|---|---|---|
| AttendanceProtocol.AttendanceIsSafe | backend/src/services/attendance-lifecycle.service.ts:137-305 | in every interleaving with crashes: one row per student and session, rows never lost or rewritten, ABSENT only behind a closed lecture session, CLOSED and the sweep stamp permanent |
| AttendanceProtocol.StepKeepsInv | backend/src/repositories/session.repository.ts:269-322 | every single statement of every process keeps that invariant |
| AttendanceProtocol.RunGrows | backend/src/repositories/session.repository.ts:216-322 | along any run identity columns stay, closed sessions stay closed, attendance rows are only appended |
| AttendanceWindows.AcceptedScansLieInTheLecture | backend/src/services/attendance.service.ts:113-157 | every PRESENT or LATE row was judged inside the lecture, and after the session's final end only when a manual close had read its clock before and reached the database after |
| AttendanceWindows.SessionStateOnlyMovesForward | backend/src/utils/session-window.ts:121-140 | with lecture times unchanged a session's state only moves UPCOMING, IN_PROGRESS, PENDING, RECORDED |
| AttendanceWindows.InWindowKept | backend/src/services/attendance-lifecycle.service.ts:144-160 | neither way of closing, nor both racing, moves an end before a scan already accepted, but for the time between a manual close's clock reading and its update |
| AttendanceWindows.EndingIsRewrittenIff | backend/src/repositories/session.repository.ts:216-276 | how a closed session ended changes exactly at a manual close of it whose clock reading is another time, or against another reason |
| AttendanceRaces.ManualCloseOverwritesAStaleOne | backend/src/services/session.service.ts:140-156 | under every configuration some run turns a session closed as stale into one closed by hand, later |
| AttendanceRaces.ScanCanOutliveAManualClose | backend/src/services/session.service.ts:140-156 | for every lecture and every student on its roll some run accepts a scan after the end the session is then given |
| AttendanceWindows.StateMovesBackIff | backend/src/utils/session-window.ts:85-140 | a state moves back exactly when an edit puts the end of an open, already ended session in the future again, from PENDING to IN_PROGRESS |
| AttendanceRaces.LengtheningCanReopenASession | backend/src/utils/session-window.ts:85-140 | for every edit that lengthens an active lecture some run does so |
| AttendanceSiblings.AbsentOnlyWithoutEvidence | backend/src/services/attendance-lifecycle.service.ts:263-347 | an ABSENT row is written only for somebody this roll call read as expected and found without a row, and without PRESENT or LATE in the sibling sessions it read, at the steps it read them |
| AttendanceSiblings.RollCallWritesWhatItRead | backend/src/services/attendance-lifecycle.service.ts:244-304 | in every interleaving a roll call marks absent exactly those its own four reads call for who still have no row, and everybody it read as expected then has a row or was seen at a sibling |
| AttendanceSiblings.NoOrderOfRollCallsContradictsItself | backend/src/services/attendance-lifecycle.service.ts:203-347 | closed siblings under twelve hours apart: no order or interleaving of roll calls marks a student absent in one and present in another |
| AttendanceSiblings.StepKeepsGroupInv | backend/src/services/attendance-lifecycle.service.ts:263-347 | each statement keeps the one-verdict invariant of such a group |
| AttendanceOpenSiblings.OpenDuplicateContradictsTheRoll | backend/src/services/session.service.ts:240-274 | for any lecture and any student on its roll a run exists that leaves them ABSENT in one session and PRESENT or LATE in its open duplicate |
| AttendanceOpenSiblings.TwoSessionsCanBeOpened | backend/src/services/session.service.ts:249-274 | two simultaneous requests both pass the duplicate check |
| AttendanceOpenSiblings.RollIsContradictedIff | backend/src/services/attendance.service.ts:97-157 | from a reachable state with an ABSENT row a continuation without edits of lectures or profiles contradicts it in a sibling if and only if the student has no row there and it is open, not over and theirs to scan, or a scan of theirs under way passes its remaining checks |
| AttendanceOpenSiblings.RollStudentMayScanIff | backend/src/services/attendance.service.ts:97-157 | a student on the roll without a row can be recorded in a session exactly when it is in progress |
| AttendanceRuns.UndisturbedScanWrites | backend/src/services/attendance.service.ts:69-160 | the scan's statements in the protocol, left alone, write exactly its one row |
| AttendanceRuns.UndisturbedCloseWrites | backend/src/services/session.service.ts:140-156 | the manual close's three statements in the protocol, left alone, end the session now |
| AttendanceRuns.UndisturbedRollCall | backend/src/services/attendance-lifecycle.service.ts:203-305 | the roll call's statements in the protocol, left alone, have exactly the effect stated for sweepOne |
| AttendanceRuns.UndisturbedRollWrites | backend/src/services/attendance-lifecycle.service.ts:263-300 | cut off before the stamp, they have written exactly those absences |
| AttendanceLifecycle.EverybodyExpectedIsAccountedFor | backend/src/services/attendance-lifecycle.service.ts:244-304 | after a roll call every expected student has a row there or turned up to a sibling |
| AttendanceLifecycle.RollCallsConverge | backend/src/services/attendance-lifecycle.service.ts:180-305 | whatever the order, the batches and the crashes, the absences written are exactly those the data called for |
| AttendanceLifecycle.CallKeepsProgress | backend/src/services/attendance-lifecycle.service.ts:203-305 | one roll call, crashed or not, neither invents nor forgets an absence |
| AttendanceLifecycle.PassStamps | backend/src/repositories/session.repository.ts:284-322 | a completed pass stamps exactly the sessions it read |
| AttendanceLifecycle.PassesDrainTheBacklog | backend/src/services/attendance-lifecycle.service.ts:180-201 | N waiting sessions are all swept after N/100 passes, rounded up |
| AttendanceLifecycle.PassTakesAHundred | backend/src/repositories/session.repository.ts:284-309 | one pass takes a hundred waiting sessions or what there is |
| AttendanceLifecycle.ClosingIsExact | backend/src/services/attendance-lifecycle.service.ts:137-168 | of the sessions read exactly the stale ones close, each at the end of its own lecture |
| AttendanceLifecycle.AttendanceLifecycleService.CloseStaleSessions | backend/src/services/attendance-lifecycle.service.ts:137-168 | each session read is closed exactly when its own lecture's length, or the configured one without readable times, and the grace have passed since it opened; it then ends when that length had, and the closed ones are counted |
| Lectures.DurationIsItsLength | backend/src/utils/session-window.ts:22-63 | a lecture lasts from its start to its end as its clock texts say them, and the default exactly when one of them says nothing or they are out of order |
| AttendanceLifecycle.AttendanceLifecycleService.SweepOne | backend/src/services/attendance-lifecycle.service.ts:203-305 | one roll call's effect on both tables, with its three outcomes |
| AttendanceLifecycle.AttendanceLifecycleService.AttendedElsewhereInOccurrence | backend/src/services/attendance-lifecycle.service.ts:319-347 | exactly the students with PRESENT or LATE in another session of the lecture opened within twelve hours |
| AttendanceLifecycle.AttendanceLifecycleService.SweepAll | backend/src/services/attendance-lifecycle.service.ts:186-200 | the loop over a batch, with its three counters |
| AttendanceLifecycle.AttendanceLifecycleService.SweepAbsences | backend/src/services/attendance-lifecycle.service.ts:180-201 | one pass over the oldest hundred waiting sessions |
| AttendanceLifecycle.AttendanceLifecycleService.RunSweep | backend/src/services/attendance-lifecycle.service.ts:119-124 | close first, then call the roll |
| AttendanceLifecycle.AttendanceLifecycleService.ClosedAndCalledInOnePass | backend/src/services/attendance-lifecycle.service.ts:119-124 | when those waiting and those it closes are at most a hundred, a pass leaves none waiting: each session it closed was overdue and has its roll called; with at most a hundred open it closes every overdue one |
| AttendanceLifecycle.AttendanceLifecycleService.IdlePassChangesNothing | backend/src/services/attendance-lifecycle.service.ts:119-201 | with nothing stale and nothing waiting a pass changes nothing |
| AttendanceTables.InsertAbsencesAppends | backend/src/repositories/attendance.repository.ts:171-188 | the insert appends absences only for listed students without a row, and leaves each with one |
| AttendanceTables.MissingStudents | backend/src/services/attendance-lifecycle.service.ts:263-290 | exactly the expected who have no row and no evidence elsewhere |
| AttendanceRepositories.SessionRepository.CloseIfOpen | backend/src/repositories/session.repository.ts:269-276 | closes only an ACTIVE session and says whether it did |
| AttendanceRepositories.SessionRepository.UpdateStatus | backend/src/repositories/session.repository.ts:216-230 | closes whatever the status is |
| AttendanceRepositories.SessionRepository.MarkAbsencesSwept | backend/src/repositories/session.repository.ts:315-322 | stamps once and never again |
| AttendanceRepositories.SessionRepository.FindOpenForStaleCheck | backend/src/repositories/session.repository.ts:244-257 | the oldest hundred open sessions with their lecture times |
| AttendanceRepositories.SessionRepository.FindClosedAwaitingSweep | backend/src/repositories/session.repository.ts:284-309 | the hundred closed unswept sessions that ended first |
| AttendanceRepositories.SessionRepository.FindOpenedForScheduleBetween | backend/src/repositories/session.repository.ts:331-384 | each session of the lecture opened in the half-open window once, and no other, first opened first |
| AttendanceRepositories.AttendanceRepository.Create | backend/src/repositories/attendance.repository.ts:5-13 | one row, or the unique constraint's refusal |
| AttendanceRepositories.AttendanceRepository.FindStudentIdsBySession | backend/src/repositories/attendance.repository.ts:121-128 | a student is in it exactly when the unique constraint would refuse them another row |
| AttendanceRepositories.AttendanceRepository.FindAttendedStudentIdsBySessions | backend/src/repositories/attendance.repository.ts:140-155 | a student is in it exactly when one of the sessions was attended, ABSENT rows not counting |
| AttendanceRepositories.AttendanceRepository.CreateAbsences | backend/src/repositories/attendance.repository.ts:171-188 | skips duplicates and counts what it wrote |
| AttendanceRepositories.AttendanceRepository.GetSessionStats | backend/src/repositories/attendance.repository.ts:196-225 | the three counts, and that together they are a head count |
| AttendanceServices.AttendanceService.ScanAttendance | backend/src/services/attendance.service.ts:69-160 | writes one row exactly when the code is genuine, the session open, the student eligible and not recorded, and now is within the lecture's length of the opening; otherwise changes nothing and gives a true reason, the first failing check deciding |
| AttendanceServices.ForgedCodeLearnsOnlyExistence | backend/src/services/attendance.service.ts:75-95 | whatever else differs between two systems, their answers to a code that is not genuine differ exactly when it decodes and the session it names exists in one only |
| AttendanceServices.ForgedCodeDetectsASession | backend/src/services/attendance.service.ts:75-95 | opening a session changes what a forged code naming it is told |
| AttendanceServices.AttendanceService.AssertEligible | backend/src/services/attendance.service.ts:205-256 | refuses exactly the ineligible, with a true reason |
| AttendanceServices.SessionService.CreateSession | backend/src/services/session.service.ts:64-95 | opens, with exactly this row, when the lecture may be opened and has no session from twelve hours before now to less than twelve after |
| AttendanceServices.SessionService.LoadScheduleForOpening | backend/src/services/session.service.ts:292-317 | exactly when it refuses and why: tenant and ownership before cancellation before the room |
| AttendanceServices.SessionService.CloseSession | backend/src/services/session.service.ts:140-156 | ends an open session now and leaves a closed one as it is |
| OccurrenceHistory.AnotherWeekIsNoDuplicate | backend/src/services/session.service.ts:249-274 | sessions of other weeks never count as duplicates of this one's occurrence |
| AttendanceServices.OneSessionPerHalfDay | backend/src/services/session.service.ts:249-274 | one request at a time, no lecture gets a second session within twelve hours of another |
| SessionWindow.StaleMeansPending | backend/src/utils/session-window.ts:207-212 | a stale session's lecture has ended |
| SessionWindow.PunctualityOf | backend/src/utils/session-window.ts:227-234 | PRESENT up to and including the threshold, LATE after it, never ABSENT |
| OccurrenceHistory.SiblingSessionsShareTheOccurrence | backend/src/utils/session-window.ts:186-204 | two sessions of a slot in one sibling window belong to one weekly occurrence, even across an hour's change of offset |
| OccurrenceHistory.SlotOccurrencesAreWeeklyApart | backend/src/utils/occurrence.util.ts:140-188 | two occurrences of a slot are the same or at least a week less an hour apart |
| SessionWindow.SessionsOfOneOccurrenceSeeEachOtherIff | backend/src/utils/session-window.ts:190-204 | sessions of one occurrence see each other exactly when opened less than twelve hours apart |
| SessionWindow.EarlyAndLateSessionsMissEachOther | backend/src/utils/session-window.ts:186-204 | an early and a late session of one occurrence need not |
| OccurrenceHistory.OccurrenceReader.OccurrenceStates | backend/src/services/attendance-lifecycle.service.ts:361-449 | one report per past occurrence, on the lecture's weekday and time within the weeks asked for, with the earliest session that belongs to it and the state its length gives; each count is of the reports saying that state |
| OccurrenceHistory.OnTimeSessionEndsWithItsLecture | backend/src/utils/session-window.ts:48-75 | opened at its occurrence, a session ends when the zone's clock shows the lecture's end time |
| OccurrenceHistory.OccurrencesHaveTheirOwnSessions | backend/src/services/attendance-lifecycle.service.ts:399-428 | distinct occurrences are matched to distinct sessions |
| OccurrenceHistory.NotRecordedIff | backend/src/services/attendance-lifecycle.service.ts:392-411 | exactly when an occurrence is NOT_RECORDED |
| OccurrenceHistory.HeldButNotRecordedIff | backend/src/services/attendance-lifecycle.service.ts:385-411 | a lecture that was held is so reported exactly when all its sessions were opened, early, before the window began |
| OccurrenceHistory.EarlySessionIsMissed | backend/src/services/attendance-lifecycle.service.ts:385-411 | and for every occurrence of a regular slot there is a moment at which it is |
| OccurrenceHistory.CountsAddUp | backend/src/services/attendance-lifecycle.service.ts:430-446 | the counts sum to the occurrences and none is upcoming |
| OccurrenceHistory.ClampWeeks | backend/src/services/attendance-lifecycle.service.ts:366-367 | four weeks by default, raised to 1, cut to 26, kept in between |
| AttendanceCounts.GetMyAttendanceSummary | backend/src/services/attendance.service.ts:349-390 | per-course tallies, one per course met, summing to the overall tally; each figure is the number of rows with that status |
| AttendanceCounts.CoursesSumToOverall | backend/src/services/attendance.service.ts:366-390 | the tallies of distinct courses add up, whatever their order |
| AttendanceCounts.TalliesCountMarks | backend/src/services/attendance.service.ts:349-390 | every tally counts the rows of its course, each status under its own name |
| AttendanceCounts.Show | backend/src/services/attendance.service.ts:390-407 | recorded, attended and the rate rounded to one decimal, absent until something is recorded |
| AttendanceCounts.RoundingIsDetermined | backend/src/services/attendance.service.ts:402-405 | one number only is the rate to one decimal, a tie going up |
| AttendanceCounts.AttendedNeverExceedsHeld | backend/src/repositories/attendance.repository.ts:237-248 | nobody attended more closed sessions of a course than were held |
| AttendanceCounts.RowsCountSessions | backend/src/repositories/attendance.repository.ts:237-248 | the grouped row count is a count of distinct sessions |
| AttendanceCounts.CountAttendedByCourse | backend/src/repositories/attendance.repository.ts:237-248 | one entry per student with a row that counts |
| AttendanceCounts.ExportLine | backend/src/services/student-export.service.ts:68-94 | attended at most held, and a share between 0 and 1, empty when nothing was held |
| OccurrenceHistory.CountsAreOfReports | backend/src/services/attendance-lifecycle.service.ts:430-446 | each of the five counts is the number of reports in that state |
| AttendanceRepositories.StatusesCountStudents | backend/src/repositories/attendance.repository.ts:196-225 | PRESENT, LATE and ABSENT add up to the students with a row |
| StudentExport.BuildRoster | backend/src/services/student-export.service.ts:152-232 | each user once, exactly cohort and attendees, by section then name, each under the name and section of their own profile or account |
| StudentExport.ListedWithoutTurningUpIff | backend/src/repositories/student.repository.ts:150-181 | somebody outside the cohorts is on the roster exactly when they are a student there who turned up to one of its sessions, or, having turned up to none, was marked ABSENT in one |
| AttendanceRaces.AbsenteeCanStayOnTheRegister | backend/src/repositories/student.repository.ts:150-181 | for every student on a roll some run brings that about |
| StudentExport.AddCohorts | backend/src/services/student-export.service.ts:165-198 | exactly the students some lecture of the course is addressed to |
| StudentExport.AddAttendees | backend/src/services/student-export.service.ts:200-224 | adds exactly the attendees not there yet |
| Cohort.Roll | backend/src/repositories/student.repository.ts:43-109 | exactly the students of the cohort query narrowed by semester |
| Text.TrimTakesOnlyBlanks | backend/src/utils/cohort.ts:124-138 | trimming takes blanks off both ends and nothing else |
| Text.FoldedAlikeIff | backend/src/utils/cohort.ts:124-138 | two texts fold alike exactly when they differ in the case of letters at most |
| Cohort.RollIsTheScannableCohort | backend/src/utils/cohort.ts:73-138 | the roll is exactly the active students of the organization who pass the scan check and whose stored text is trimmed |
| Cohort.StoredTextMatchesIff | backend/src/repositories/student.repository.ts:43-60 | one field: the query's comparison is the scan's plus trimmed stored text |
| Text.FoldCommutesWithTrim | backend/src/utils/cohort.ts:124-138 | the order of trimming and lowercasing does not matter |
| Clock.StringOrderIsTimeOrder | backend/src/types/schedule.types.ts:71-72 | comparing HH:MM as strings compares times |
| Clock.ClockIsReadIff | backend/src/utils/session-window.ts:22-37 | a clock text is read exactly when it is spelled H:MM or HH:MM in range, and as what it says |
| Clock.ZeroPaddedIff | backend/src/types/schedule.types.ts:71-75 | the validator's clocks are exactly the zero-padded times of day |
| Clock.ValidClocksAreRead | backend/src/utils/session-window.ts:22-37 | every HH:MM the validator admits is read as its minutes |
| Timetable.FreeSlotMeansNoClash | backend/src/repositories/schedule.repository.ts:288-311 | the two lookups refuse exactly the clashes |
| Timetable.OpKeepsClashFree | backend/src/services/schedule.service.ts:49-134 | create, update, reactivate and deactivate each keep the timetable clash-free |
| Timetable.TimetableStaysClashFree | backend/src/services/schedule.service.ts:354-374 | so does every sequence of them |
| ScheduleServices.ScheduleService.CreateSchedule | backend/src/services/schedule.service.ts:49-67 | accepts exactly a lecture whose course and instructor are the organization's and that clashes with none, giving the first failing check as the reason, and writes that row only |
| ScheduleServices.ScheduleService.UpdateSchedule | backend/src/services/schedule.service.ts:69-112 | takes every field that was sent and keeps the others; accepts exactly if course and instructor sent are the organization's, the times stay in order and no other lecture clashes; a successful edit discards unsent reminders |
| ScheduleServices.ScheduleService.DeactivateSchedule | backend/src/services/schedule.service.ts:118-134 | deactivates that lecture only and once, cancels its queued reminders and leaves every other row of the table as it was |
| ScheduleServices.QueuedRemindersAreCurrent | backend/src/services/schedule.service.ts:101-134 | after any sequence of edits, passes and ticks a queued reminder is for an active lecture and says what it says now |
| ScheduleServices.EditsTouchOnlyTheirLectures | backend/src/services/schedule.service.ts:69-134 | whatever edits other lectures see, a lecture and its reminders stay as they are |
| ScheduleServices.EditThenPassRewritesReminders | backend/src/services/lecture-notification.service.ts:188-198 | edit then pass: every reminder now called for is queued as called for unless already sent or given up, and nothing else is |
| ScheduleServices.EditLeavesOnlyHistory | backend/src/repositories/notification.repository.ts:260-272 | an edit leaves only SENT and FAILED rows of the lecture |
| Zones.TwoPasses | backend/src/utils/occurrence.util.ts:105-121 | the conversion reads the true offset twice and lands within a day, where the clock shows the true local time |
| Zones.ExistingTimesRoundTrip | backend/src/utils/occurrence.util.ts:80-121 | every local time that exists reads back, the ambiguous hour as one of its two instants |
| Zones.SkippedTimesMissByTheChange | backend/src/utils/occurrence.util.ts:80-121 | a skipped local time misses by exactly the size of the change |
| Occurrences.OccurrencesBetween | backend/src/utils/occurrence.util.ts:140-188 | the day walk computes the specified window, on the slot's weekday and time |
| Occurrences.WindowIsExact | backend/src/utils/occurrence.util.ts:140-188 | the window holds exactly the slot's instants in (from, from+horizon], increasing |
| Occurrences.OccurrencesFallOnTheWeekday | backend/src/utils/occurrence.util.ts:140-188 | counted from the first Sunday of 1970, every instant returned shows the slot's weekday and time of day on the zone's clock, and no such day of the window is missing |
| Occurrences.WeeklyWithoutGaps | backend/src/utils/occurrence.util.ts:140-188 | consecutive occurrences are seven days apart up to the offset change |
| Occurrences.AdjacentWindowsConcatenate | backend/src/utils/occurrence.util.ts:140-188 | windows end to end give the combined window |
| Occurrences.NextOccurrenceIsLeast | backend/src/utils/occurrence.util.ts:191-195 | the next occurrence exists and is the least instant after from |
| WeeklyWalk.WalkIsExact | backend/src/utils/occurrence.util.ts:156-185 | a walk over enough days returns exactly what falls in the window |
| Reminders.LongestLeadIsADay | backend/src/config/notification.config.ts:27-56 | the longest lead is 1440 minutes and bounds every rule |
| Reminders.CallsForIff | backend/src/services/lecture-notification.service.ts:202-286 | what a lecture calls for: to its active instructor a day and half an hour ahead, to each addressed student ten minutes ahead, of an occurrence within the horizon, not past |
| Reminders.CalledForTheLecturesTime | backend/src/services/lecture-notification.service.ts:202-286 | each is about an occurrence at the lecture's weekday and start time |
| ReminderGenerator.LectureNotificationService.DraftsFor | backend/src/services/lecture-notification.service.ts:202-286 | one draft per occurrence, rule and recipient whose moment is not past, none missing, and no two about the same reminder |
| Cohort.RollIsDistinct | backend/src/repositories/student.repository.ts:43-109 | with one profile a user nobody is on the roll twice |
| ReminderGenerator.LectureNotificationService.GenerateUpcoming | backend/src/services/lecture-notification.service.ts:61-98 | a pass leaves existing rows, writes a row for everything called for, and nothing else |
| ReminderGenerator.SecondPassIsIdle | backend/src/repositories/notification.repository.ts:62-73 | a second pass changes nothing |
| ReminderGenerator.NoReminderIsMissed | backend/src/services/lecture-notification.service.ts:61-98 | with passes close enough every reminder due after the first is drafted no later than it is due |
| ReminderGenerator.EveryReminderHasItsRow | backend/src/services/lecture-notification.service.ts:61-98 | so its row is in the table by then |
| ReminderGenerator.DraftedBeforeItFires | backend/src/services/lecture-notification.service.ts:202-286 | a reminder due between two passes is called for at the earlier |
| ReminderGenerator.PassesMayBeAnHourApart | backend/src/config/notification.config.ts:53-74 | the allowed gap is at least sixty minutes whatever is configured |
| NotificationRepositories.NotificationRepository.ClaimDue | backend/src/repositories/notification.repository.ts:165-201 | up to a hundred due rows locked, and exactly the won rows returned |
| NotificationRepositories.NotificationRepository.CreateManyIgnoringDuplicates | backend/src/repositories/notification.repository.ts:62-73 | writes drafts under free keys only, waiting, untried and unlocked, and counts them |
| NotificationRepositories.NotificationRepository.CancelOverdue | backend/src/repositories/notification.repository.ts:236-248 | afterwards nothing is overdue: those rows are cancelled, unlocked and counted, one in flight included, and no other row changes |
| NotificationRepositories.NotificationRepository.DeleteUnsentForSchedule | backend/src/repositories/notification.repository.ts:260-272 | exactly the lecture's rows never sent nor given up go, and their keys are free again |
| NotificationRepositories.NotificationRepository.CancelPendingForSchedule | backend/src/repositories/notification.repository.ts:275-287 | exactly the lecture's PENDING rows become CANCELLED and unlocked; every other row and every key stays |
| Dispatcher.NotificationDispatcher.Deliver | backend/src/services/notification.dispatcher.ts:81-142 | one provider call: SENT now if delivered, FAILED if rejected whatever the attempt, after an outage FAILED from the third attempt on and before that back in the queue; nothing else of the row changes |
| Dispatcher.NotificationDispatcher.Tick | backend/src/services/notification.dispatcher.ts:48-79 | retires the long overdue, counts an attempt of each claimed row and delivers it once, touches no other, and tallies them as their rows say |
| LeaseRuns.UndisturbedDeliveryWrites | backend/src/services/notification.dispatcher.ts:81-142 | the protocol's delivery and record, left alone, write the row `deliver` writes |
| LeaseRuns.UndisturbedTickWrites | backend/src/services/notification.dispatcher.ts:48-79 | the protocol's statements of one worker, left alone, do to the table what a tick does |
| LeaseRuns.CancelledGoesOutIff | backend/src/repositories/notification.repository.ts:275-287 | after a lecture is deactivated a reminder of it still goes out exactly when a worker has it in hand |
| LeaseRuns.DiscardedGoesOutIff | backend/src/repositories/notification.repository.ts:260-272 | after an edit a reminder not sent before still goes out exactly when a worker has it in hand |
| LeaseTheorems.LeaseIsExclusive | backend/src/repositories/notification.repository.ts:165-201 | no row in two hands unless a stale lock on it was taken over; lock fields set together and only while PENDING |
| LeaseTimely.TimelyWorkersNeverShareARow | backend/src/repositories/notification.repository.ts:165-201 | in runs of any length, if whoever holds a row when another claims read its clock at most a lock timeout earlier, no row is in two hands, and its holder has its lock unless it was cancelled |
| LeaseTimely.TimelyOutcomesAreFinal | backend/src/repositories/notification.repository.ts:203-230 | in such runs, dead workers' rows recovered or not, SENT and FAILED rows never change again |
| LeaseTimely.WithoutDeathsEachRowIsDeliveredOnce | backend/src/services/notification.dispatcher.ts:81-142 | if moreover no worker dies holding a row: no takeovers, at most three attempts, fewer on a retry, and one successful delivery besides those whose record the database refused |
| LeaseTheorems.TakeoverMeansStale | backend/src/repositories/notification.repository.ts:165-201 | a takeover is a claim of a row whose lock is older than the timeout |
| LeaseTheorems.AttemptsAndDeliveriesAreBounded | backend/src/services/notification.dispatcher.ts:81-142 | at most three attempts per row, deleted or not, plus one for each takeover; at most one delivery, plus one for each takeover and each delivery the database refused to record |
| LeaseTheorems.DeliveriesAreCounted | backend/src/services/notification.dispatcher.ts:81-142 | the history counts the provider's acceptances of every row, one deleted in a worker's hands included |
| LeaseTheorems.SentAndFailedAreTerminal | backend/src/repositories/notification.repository.ts:203-230 | without takeovers of a row SENT and FAILED are final |
| LeaseTheorems.OneTakeoverCanDeliverTwice | backend/src/repositories/notification.repository.ts:203-230 | with one takeover a second delivery does happen in some run |
| LeaseTheorems.OneLostRecordCanDeliverTwice | backend/src/services/notification.dispatcher.ts:85-142 | without any takeover, one delivery the database refuses to record can be followed by a second |
| LeaseTheorems.LossesAreCounted | backend/src/services/notification.dispatcher.ts:103-127 | the history counts the deliveries whose record was refused |
| LeaseOutcomes.RowCanGoOutIff | backend/src/services/notification.dispatcher.ts:24-142 | after any run a row goes out in some continuation if and only if it is in the queue, or a worker has it in hand with no answer about it and can record its last answer, or with one that will put it back; with and without refused records |
| LeaseOutcomes.SentRowGoesOutAgainIff | backend/src/services/notification.dispatcher.ts:24-142 | a reminder recorded as SENT goes out again in some continuation exactly when another worker has it in hand in one of those ways |
| LeaseOutcomes.SettledRowChangesIff | backend/src/repositories/notification.repository.ts:203-230 | a SENT or FAILED row can change or disappear exactly when a worker has it in hand unanswered in one of those ways, or with an answer whose record says otherwise |
| LeaseProtocol.StepKeepsInv | backend/src/repositories/notification.repository.ts:165-248 | every statement keeps the lease invariant |
| OneTimeCodes.HourlyLimitHolds | backend/src/services/email-challenge.service.ts:67-99 | in every hour an address is issued at most the hourly limit, both purposes together |
| OneTimeCodes.GuessesAreBounded | backend/src/services/email-challenge.service.ts:197-244 | in every hour at most attempts times (limit + 2) guesses are compared with its codes |
| OneTimeCodes.PruningIsInvisible | backend/src/repositories/email-challenge.repository.ts:127-133 | every request of every run is answered alike with or without pruning |
| OneTimeCodes.LookupsIgnoreTheDead | backend/src/repositories/email-challenge.repository.ts:23-57 | pruned rows are missed by no lookup, now or later |
| OneTimeCodes.OpKeepsInv | backend/src/services/email-challenge.service.ts:67-251 | every request keeps the invariant behind the two ceilings |
| OneTimeCodes.RunsServeTheNextRequest | backend/src/repositories/email-challenge.repository.ts:23-84 | every run leaves at most one live code for the next lookup to find |
| CodeAnswers.GuessIsSpentIff | backend/src/services/email-challenge.service.ts:197-244 | after any wrong guesses, whatever else happens but a new code for the address, the next is answered as spending the code exactly if it is right, the code was mailed, has not expired and the wrong guesses are below the ceiling |
| CodeAnswers.ThrottlesFollowTheHistory | backend/src/services/email-challenge.service.ts:67-99 | a request is put off exactly within the cooldown of a code issued there, refused exactly when the address had its hour's worth, and issues otherwise, whatever was spent or pruned |
| EmailChallengeServices.EmailChallengeService.AssertMayIssue | backend/src/services/email-challenge.service.ts:67-99 | refuses exactly when throttled, and the seconds it reports are exactly how much longer |
| EmailChallengeServices.EmailChallengeService.Issue | backend/src/services/email-challenge.service.ts:111-145 | supersedes and creates, and burns a code that could not be mailed |
| EmailChallengeServices.EmailChallengeService.NotifyWithoutCode | backend/src/services/email-challenge.service.ts:159-183 | holds the throttle like an issue, whatever happens to the mail |
| EmailChallengeServices.EmailChallengeService.Verify | backend/src/services/email-challenge.service.ts:197-244 | spends the live code on a match; a wrong guess is counted, leaves the code live and burns it only with the last allowed |
| EmailChallengeServices.EmailChallengeService.PruneExpired | backend/src/services/email-challenge.service.ts:247-251 | removes exactly the rows over a day past expiry |
| EmailChallengeRepositories.EmailChallengeRepository.FindLive | backend/src/repositories/email-challenge.repository.ts:23-34 | the newest spendable code, the only one there is |
| EmailChallengeRepositories.EmailChallengeRepository.FindLatest | backend/src/repositories/email-challenge.repository.ts:37-43 | when the newest code was issued, spendable or not |
| EmailChallengeRepositories.EmailChallengeRepository.Issue | backend/src/repositories/email-challenge.repository.ts:69-84 | retire and create in one transaction |
| EmailChallengeRepositories.EmailChallengeRepository.Consume | backend/src/repositories/email-challenge.repository.ts:105-112 | true for the one caller that spends it |
| CodeRuns.UndisturbedIssueWrites | backend/src/services/email-challenge.service.ts:111-145 | the protocol's statements of one issue, left alone, write what the request writes |
| CodeRuns.UndisturbedVerifyWrites | backend/src/services/email-challenge.service.ts:197-244 | so do those of one guess, and the code is told spent exactly on a match |
| CodeProtocol.SpentAtMostOnce | backend/src/repositories/email-challenge.repository.ts:105-112 | however requests race a code is spent by at most one |
| CodeProtocol.OneOpenCode | backend/src/repositories/email-challenge.repository.ts:69-84 | one unconsumed code per address and purpose at any time |
| CodeProtocol.OnlyTheNewestIsSpent | backend/src/repositories/email-challenge.repository.ts:69-112 | a superseded code never verifies |
| CodeProtocol.BurnedNeverVerifies | backend/src/repositories/email-challenge.repository.ts:115-120 | nor does a burned one |

## Left out

- HTTP, routing, request schemas, pagination, metrics, spreadsheet output, the web and mobile apps: plumbing that would only add easy members.
- Authorization: its outcome is a parameter where a service asks for it (`visible`, the operator of an opening).
- JWT and QR signatures, bcrypt, mail and push providers: outcomes are parameters (genuine, expired or forged; which hashes a guess fits; delivered, rejected or threw).
- `Intl.DateTimeFormat`: the zone is a clock and an offset function with whole-second offsets; `Regular` says what is asked of a real zone (monotone local dates, existing slot times, shifts under a day).
- Case folding and trimming beyond ASCII.
- The vocabulary of `parseSemesterNumber`: a shared reader from text to a number, required only to read nothing from blank text.
- The wording of reminders: a row records the lecture it was rendered from; renaming a course does not change that record, and the source does not rewrite reminders for it either.
- The development simulator that releases a reminder early takes part in the lease protocol only.
- The delay between evaluating `new Date()` and the statement that carries it: both happen in one step. A manual close keeps its clock reading and its update apart, issuing its check and its write.
- Rows and their joined lecture are read in one statement.
- A database failure while recording a delivery is a step of the lease protocol; in the `Dispatcher` class every record succeeds. A second failure, in the handler of the first, is the worker's death.
- AttendanceOpenSiblings.RollIsContradictedIff: speaks of continuations that edit neither lectures nor profiles, because an edit that lengthens the lecture reopens a session already ended (`StateMovesBackIff`).
- The process-local `sweeping` and `delivering` flags and the timers: passes may start at any time, any number at once.
- Opening sessions, editing lectures and issuing codes are check-then-write without a lock: the timetable, hourly-limit and one-session-per-half-day theorems take one request at a time; the retire-and-create transaction is one atomic step.
- Under races the attempt ceiling of a code is not claimed: several guesses may be compared between one lookup and its increment.
- The order of the courses in the student summary, and the error of the binary quotient that `toFixed` rounds: the rate is the exact share rounded.
- CodeProtocol.OneOpenCode: takes retire-and-create as one atomic step, because two such transactions overlapping at the database's default isolation level are outside the model.
- ReminderGenerator.EveryReminderHasItsRow: takes the timetable, the profiles and the zone to be the same at all passes; edits in between are the subject of `EditThenPassRewritesReminders`.
