# UdeM Esports Scheduler — reservation core in Dafny

This project models the booking core of the UdeM Esports Scheduler, a Next.js
application where club administrators book lab computers for teams. It is
written in Dafny and its properties are proved. The modelled parts are:

- **Reservations route** (`ReservationsRoute`, `reservations_route.dfy`).
  - POST `/api/reservations` runs these steps in order:
    - resolves the session;
    - normalises the requested computer ids;
    - validates the payload, the team and the set of active computers;
    - runs the blackout guard, then the conflict guard (half-open overlap `startsAt < end && endsAt > start`);
    - appends one CONFIRMED row per computer, all or nothing.
  - GET filters rows by computer and by time window, then orders them by start time.
- **The store** (`Db`, `db.dfy`). Prisma's tables are sequences held by a `Database` object. Its methods are the Prisma calls the core makes:
  - `count` and `deleteMany` on reservations ending before a cutoff;
  - the upserts of users, computers and teams.

  The booking invariant "no two CONFIRMED rows on the same computer overlap" is stated here.
- **Calendar** (`ReservationCalendar`, `calendar.dfy`).
  - `summarizePcLabels`: parse the trailing numbers, sort them in place, then collapse consecutive runs into `a-b` segments in one loop.
  - The event title built in `loadReservations`.
  - The `teamGameById` map and the `GAME_COLORS` colour lookup.
  - The filter that decides which stream messages reload the calendar.
- **Month cutoff** (`Utc`, `utc.dfy`). `startOfCurrentMonthUTC` is modelled as `Date.UTC(year, month, 1)` over a proleptic Gregorian day count.
- **Purge** (`PurgeRoute`, `purge_route.dfy`; `PurgeScript`, `purge_script.dfy`).
  - The cron route adds a shared-secret gate and a `dryRun=1` count-only mode.
  - The command-line script always counts, and deletes only when `DRY_RUN` is `"0"`.
- **Seed** (`Seed`, `seed.dfy`).
  - Six admin upserts.
  - Computers `PC-01`..`PC-15`.
  - Ten teams from five games × two letters, each with its slug id.

  It also proves that the calendar summarises the fifteen seeded labels as `PCs 1-15`.
- **String helpers** (`Text`, `text.dfy`): digits, `String(n)`, `join`, `trim`, ASCII `toLowerCase`.

Modelling conventions:
- Instants are integers (milliseconds since the epoch).
- The clock is passed in as the UTC year and month it reads.
- Environment variables are parameters.
- bcrypt hashes are opaque strings passed in by the caller.

## Model

| member | source | states |
|---|---|---|
| ReservationsRoute.NormalizeIds | esports-scheduler/src/app/api/reservations/route.ts:62-67 | an array `computerIds` yields its entries with the non-finite ones dropped; otherwise the legacy `computerId` is used, unfiltered; otherwise the list is empty. Each finite entry keeps its count, so a repeated id stays repeated, and an all-finite array is kept as given |
| ReservationsRoute.KeepFinite | esports-scheduler/src/app/api/reservations/route.ts:64 | the result holds exactly the finite entries of the input, each as many times as the input holds it, and equals the input when every entry is finite |
| ReservationsRoute.FiniteValues | esports-scheduler/src/app/api/reservations/route.ts:64 | when every entry is finite, the numbers are the entries' values, in order |
| ReservationsRoute.ActiveMatches | esports-scheduler/src/app/api/reservations/route.ts:76 | the lookup returns exactly the active computers whose id was requested |
| ReservationsRoute.MissingIds | esports-scheduler/src/app/api/reservations/route.ts:80-82 | the list of missing ids holds a requested id iff it is non-finite or was not found |
| ReservationsRoute.InvalidPayload | esports-scheduler/src/app/api/reservations/route.ts:69-71 | no ids, or a window whose end is not after its start, is always invalid; a valid payload has a non-empty team id, at least one id and both instants with start strictly before end |
| ReservationsRoute.Validate | esports-scheduler/src/app/api/reservations/route.ts:33-83 | each refusal in the route's order: no session gives 401 "Unauthorized"; a session whose user row is gone gives 401 with the out-of-date message; a non-ADMIN gives 403 "Forbidden"; a missing team id or instant, a start not before the end, or no ids give 400 "Invalid payload"; an unknown team gives 400 "teamId does not exist"; every refusal is 400, 401 or 403; an accepted request comes from an ADMIN session and carries its user id |
| ReservationsRoute.CheckComputers | esports-scheduler/src/app/api/reservations/route.ts:74-83 | a refusal is 400, and its message is "Invalid or inactive computerId(s): " followed by the MissingIds list of the request against the active computers found, joined with ", "; an accepted request carries the given team, window and user |
| ReservationsRoute.FiniteSetSize | esports-scheduler/src/app/api/reservations/route.ts:79 | the number of distinct finite ids is at most the number requested, and equal exactly when all are finite and pairwise distinct |
| ReservationsRoute.CheckComputersAcceptsExactly | esports-scheduler/src/app/api/reservations/route.ts:74-83 | the length comparison accepts exactly when the ids are distinct and each names an existing active computer |
| ReservationsRoute.ValidateAcceptsExactly | esports-scheduler/src/app/api/reservations/route.ts:33-83 | validation accepts iff all of these hold: a session exists; its user row exists; its role is ADMIN; the team id is non-empty; both instants are present with start < end; at least one id is given; the team exists; the ids are distinct active computers |
| ReservationsRoute.AcceptedRequest | esports-scheduler/src/app/api/reservations/route.ts:45-83 | an accepted request carries the session's user and the body's team, start and end (with start < end). Its ids are the normalised ids in order: non-empty, distinct, and each an active computer |
| ReservationsRoute.DuplicateIdRefusedWithEmptyList | esports-scheduler/src/app/api/reservations/route.ts:79-82 | a request that otherwise passes but names one active computer twice is refused with 400, and the message lists no id |
| ReservationsRoute.BlackoutScope | esports-scheduler/src/app/api/reservations/route.ts:88-95 | an overlapping ALL blackout blocks; so does an overlapping COMPUTER blackout on a requested computer. When every blackout is COMPUTER-scoped on other computers, nothing blocks |
| ReservationsRoute.Blocks | esports-scheduler/src/app/api/reservations/route.ts:88-95 | a blackout that ends when the window starts, or starts when it ends, never blocks |
| ReservationsRoute.BlackoutHit | esports-scheduler/src/app/api/reservations/route.ts:88-95 | no blackouts never block; an ALL-scope blackout overlapping the window always blocks; blackouts that all end by the window's start or begin at or after its end never block |
| ReservationsRoute.Conflicts | esports-scheduler/src/app/api/reservations/route.ts:98-106 | the conflicts are exactly the CONFIRMED rows on a requested computer that overlap the window |
| ReservationsRoute.Collides | esports-scheduler/src/app/api/reservations/route.ts:98-106 | a row that is not CONFIRMED never collides, nor does one that ends when the window starts or starts when it ends |
| ReservationsRoute.TouchingRowsDoNotConflict | esports-scheduler/src/app/api/reservations/route.ts:102-103 | a row that ends when the window starts, or starts when it ends, is not a conflict |
| ReservationsRoute.LabelOf | esports-scheduler/src/app/api/reservations/route.ts:108 | a conflict is named by its computer's label, or by its id in decimal when no computer has that id |
| ReservationsRoute.Labels | esports-scheduler/src/app/api/reservations/route.ts:108 | one name per conflicting row, in order |
| ReservationsRoute.Dedupe | esports-scheduler/src/app/api/reservations/route.ts:108 | each name appears once, and no name is lost or added |
| ReservationsRoute.ConflictMessage | esports-scheduler/src/app/api/reservations/route.ts:107-109 | the message begins "Already reserved for: ", and is exactly that with no conflicts |
| ReservationsRoute.NewRows | esports-scheduler/src/app/api/reservations/route.ts:113-126 | one CONFIRMED row per requested id, in order. Every row shares the team, the window and the session's user id |
| ReservationsRoute.InsertRows | esports-scheduler/src/app/api/reservations/route.ts:113-126 | the table gains exactly the new rows at its end, and nothing else changes |
| ReservationsRoute.Post | esports-scheduler/src/app/api/reservations/route.ts:31-133 | response and new table for each outcome (table unchanged unless created): refusal → same status and message; blackout → 409; conflicts → 409 naming the colliding labels; otherwise 201 with old table + new rows. No double booking before means none after |
| ReservationsRoute.AppendKeepsNoDoubleBooking | esports-scheduler/src/app/api/reservations/route.ts:98-126 | with distinct ids and no conflicts, appending the new rows keeps the table free of double bookings |
| ReservationsRoute.PostPreservesNoDoubleBooking | esports-scheduler/src/app/api/reservations/route.ts:79-126 | every request that validation accepts and the conflict guard passes keeps the table free of double bookings |
| ReservationsRoute.Select | esports-scheduler/src/app/api/reservations/route.ts:14-19 | a row is listed iff it is on the given computer (when given) and overlaps the window (only when both ends are given), and as many times as the table holds it |
| ReservationsRoute.Matches | esports-scheduler/src/app/api/reservations/route.ts:14-19 | with no computer and not both window ends, every row matches; a row on another computer never matches; a row that only touches the window, or lies outside it, never matches |
| ReservationsRoute.InsertByStart | esports-scheduler/src/app/api/reservations/route.ts:24 | inserting into a list ordered by start keeps it ordered and adds exactly that row |
| ReservationsRoute.SortByStart | esports-scheduler/src/app/api/reservations/route.ts:24 | the result is ordered by start time and is a permutation of the input |
| ReservationsRoute.List | esports-scheduler/src/app/api/reservations/route.ts:8-28 | GET returns exactly the matching rows, each as often as the table holds it, ascending by start time |
| Db.Expired | esports-scheduler/src/app/api/admin/purge-reservation/route.ts:28 | a row is counted iff it is in the table and ends strictly before the cutoff |
| Db.Overlaps | esports-scheduler/src/app/api/reservations/route.ts:100-101 | the `startsAt lt end, endsAt gt start` pair, which GET and the blackout guard use too, over half-open intervals: touching or disjoint intervals do not overlap, and a non-empty interval overlaps the other whenever it contains the other's start |
| Db.Surviving | esports-scheduler/src/app/api/admin/purge-reservation/route.ts:33-35 | a row survives iff it ends at or after the cutoff |
| Db.PurgePartition | esports-scheduler/src/app/api/admin/purge-reservation/route.ts:26-35 | expired and surviving rows split the table: as multisets they add up to it, so the counted and kept sizes sum to its size |
| Db.PurgeKeepsNoDoubleBooking | esports-scheduler/src/app/api/admin/purge-reservation/route.ts:33-35 | a purge keeps a table free of double bookings |
| Db.FindUserByEmail | esports-scheduler/prisma/seed.ts:10 | the index found holds a user with that email; when none is found, no user has that email |
| Db.Database.CountEndingBefore | esports-scheduler/src/app/api/admin/purge-reservation/route.ts:27-29 | the count is the number of rows that a purge at the same cutoff would remove |
| Db.Database.DeleteEndingBefore | esports-scheduler/src/app/api/admin/purge-reservation/route.ts:33-35 | the table becomes its surviving rows. The count returned is the number of expired rows, which is the number removed |
| Db.Database.UpsertAdmin | esports-scheduler/prisma/seed.ts:7-14 | an existing email gets role ADMIN and the new hash, with all else unchanged; a new email gets a fresh ADMIN user. Other users are kept, any user not there before has that email, role and hash, and the table constraints hold |
| Db.Database.UpsertComputer | esports-scheduler/prisma/seed.ts:29-33 | an existing label changes nothing; a new label is appended as an active computer with a fresh id. Nothing is removed, and any computer not there before is active and has that label |
| Db.Database.UpsertTeam | esports-scheduler/prisma/seed.ts:50-54 | an existing id changes nothing; a new team is appended. Nothing is removed, and any team not there before is the given one |
| Utc.DateUtcFirstOfMonth | esports-scheduler/src/app/api/admin/purge-reservation/route.ts:10 | `Date.UTC(y, m, 1)` is the first instant of that month, and years 0 to 99 are read as 1900 to 1999 |
| Utc.StartOfCurrentMonthUtc | esports-scheduler/src/app/api/admin/purge-reservation/route.ts:8-11 | the cutoff is `Date.UTC(year, month, 1)` and falls at midnight UTC |
| Utc.MonthLength | esports-scheduler/src/app/api/admin/purge-reservation/route.ts:10 | the next month starts exactly one month's days later |
| Utc.MonthStartMonotone | esports-scheduler/src/app/api/admin/purge-reservation/route.ts:10 | a later month never starts earlier |
| Utc.CutoffSeparatesMonths | esports-scheduler/src/app/api/admin/purge-reservation/route.ts:24-35 | an instant in some month is before the cutoff iff that month is earlier than the current one |
| Utc.EveryInstantInAMonth | esports-scheduler/src/app/api/admin/purge-reservation/route.ts:9-10 | every instant lies in some UTC month, so the year and month the clock reports always exist |
| Utc.InstantInOneMonth | esports-scheduler/src/app/api/admin/purge-reservation/route.ts:9-10 | an instant lies in only one UTC month, so the cutoff the clock gives is determined by the instant |
| Utc.EpochIsMonthStart | esports-scheduler/src/app/api/admin/purge-reservation/route.ts:10 | January 1970 starts at instant 0 |
| Utc.February2024 | esports-scheduler/src/app/api/admin/purge-reservation/route.ts:10 | February 2024 starts at 1706745600000 |
| PurgeRoute.AuthorizedIff | esports-scheduler/src/app/api/admin/purge-reservation/route.ts:15-20 | with CRON_SECRET set, a request passes iff its query secret matches, or it has no query secret and its header matches |
| PurgeRoute.Authorized | esports-scheduler/src/app/api/admin/purge-reservation/route.ts:15-20 | a request presenting no secret is never authorised, and neither is one whose query secret differs from CRON_SECRET |
| PurgeRoute.UnsetSecretRefusesAll | esports-scheduler/src/app/api/admin/purge-reservation/route.ts:18 | without CRON_SECRET every request is refused, including one with no secret |
| PurgeRoute.QuerySecretShadowsHeader | esports-scheduler/src/app/api/admin/purge-reservation/route.ts:18 | a wrong query secret is refused even with a correct header |
| PurgeRoute.IsDryRun | esports-scheduler/src/app/api/admin/purge-reservation/route.ts:23 | an absent `dryRun` parameter means a real purge; only the exact value "1" means a dry run |
| PurgeRoute.Handle | esports-scheduler/src/app/api/admin/purge-reservation/route.ts:13-41 | unauthorised: 401, table unchanged. `dryRun=1`: the cutoff and the count of expired rows, table unchanged. Otherwise: the cutoff and that same count as deleted, with the table reduced to its surviving rows |
| PurgeRoute.PurgeKeepsCurrentMonth | esports-scheduler/src/app/api/admin/purge-reservation/route.ts:24-35 | a row ending in some month is purged iff that month is before the current one, and kept otherwise |
| PurgeScript.DeletesFor | esports-scheduler/src/scripts/purge-old-reservations.ts:15 | an unset DRY_RUN never deletes; only the exact value "0" does |
| PurgeScript.Run | esports-scheduler/src/scripts/purge-old-reservations.ts:4-21 | the report always carries the month cutoff and the count of expired rows. With `DRY_RUN` exactly "0" it deletes exactly those rows and reports the same count; otherwise the table is unchanged |
| ReservationCalendar.TrailingDigits | esports-scheduler/src/components/ReservationCalendar.tsx:122 | the result is the maximal run of digits that ends the string |
| ReservationCalendar.TrailingNumber | esports-scheduler/src/components/ReservationCalendar.tsx:121-124 | a label fails to parse iff, once trailing white space is trimmed, it is empty or does not end in a digit |
| ReservationCalendar.TrailingNumberOf | esports-scheduler/src/components/ReservationCalendar.tsx:122-123 | a prefix not ending in a digit, then digits, then white space, reads as the digits' decimal value |
| ReservationCalendar.LabelPC3 | esports-scheduler/src/components/ReservationCalendar.tsx:122-123 | "PC-3" reads as 3 |
| ReservationCalendar.Numbers | esports-scheduler/src/components/ReservationCalendar.tsx:121-124 | one number per label, in order, each the label's trailing number |
| ReservationCalendar.AllParse | esports-scheduler/src/components/ReservationCalendar.tsx:125 | every label parses iff each one, with trailing white space removed, is non-empty and ends in a digit |
| ReservationCalendar.SortSeq | esports-scheduler/src/components/ReservationCalendar.tsx:126 | the result is sorted and is a permutation of its input |
| ReservationCalendar.SortedUnique | esports-scheduler/src/components/ReservationCalendar.tsx:126 | two sorted permutations of the same numbers are equal, so any correct sort gives the same order |
| ReservationCalendar.SortNumbers | esports-scheduler/src/components/ReservationCalendar.tsx:126 | the in-place sort leaves the array sorted and a permutation of its old contents |
| ReservationCalendar.InsertAt | esports-scheduler/src/components/ReservationCalendar.tsx:126 | one insertion step extends the sorted prefix by one element and keeps the contents |
| ReservationCalendar.RunsFrom | esports-scheduler/src/components/ReservationCalendar.tsx:128-139 | every segment has lo ≤ hi, and no segment is followed by one starting right after its end |
| ReservationCalendar.RunsCover | esports-scheduler/src/components/ReservationCalendar.tsx:128-139 | expanding the segments gives back exactly the input numbers, so every number lies in exactly one segment, and adjacent segments never join into one run |
| ReservationCalendar.RunsAscending | esports-scheduler/src/components/ReservationCalendar.tsx:126-139 | on sorted numbers the segments come in ascending order; without repeats, a gap separates each segment from the next |
| ReservationCalendar.RenderAll | esports-scheduler/src/components/ReservationCalendar.tsx:136-139 | one piece of text per segment, in order |
| ReservationCalendar.RenderRange | esports-scheduler/src/components/ReservationCalendar.tsx:136-139 | the text begins with the segment's first number; it holds a dash iff the segment spans more than one number, and then it ends with the last number |
| ReservationCalendar.CollapseRuns | esports-scheduler/src/components/ReservationCalendar.tsx:128-139 | the loop over s, p and out emits exactly the rendered segments of the sorted array |
| ReservationCalendar.SummarizePcLabels | esports-scheduler/src/components/ReservationCalendar.tsx:120-141 | the method computes the summary: the labels as given when one has no number, otherwise "PCs " then the segments of the sorted numbers |
| ReservationCalendar.SummaryOf | esports-scheduler/src/components/ReservationCalendar.tsx:120-141 | the summary begins "PCs "; when some label has no trailing number it is "PCs " followed by all the labels joined with ", " in input order, so a single such label is shown as given |
| ReservationCalendar.SummaryOfConsecutive | esports-scheduler/src/components/ReservationCalendar.tsx:120-141 | labels numbered lo..hi, in any order, summarise as "PCs lo-hi" |
| ReservationCalendar.DuplicateLabelsListedTwice | esports-scheduler/src/components/ReservationCalendar.tsx:130-139 | a label given twice is listed twice, as "PCs n, n" |
| ReservationCalendar.LabelsOf | esports-scheduler/src/components/ReservationCalendar.tsx:202 | the labels of the group's computers, in order |
| ReservationCalendar.IdsOfGroup | esports-scheduler/src/components/ReservationCalendar.tsx:203 | the ids of the group's computers, in order |
| ReservationCalendar.EventTitleParts | esports-scheduler/src/components/ReservationCalendar.tsx:202-205 | the title is the team name (the team id when the name is missing), " — ", the summary, then " (", decimal digits reading back as the number of computers, and ")" |
| ReservationCalendar.EventTitle | esports-scheduler/src/components/ReservationCalendar.tsx:205 | the title begins with the team shown and ends with ")" |
| ReservationCalendar.TeamShown | esports-scheduler/src/components/ReservationCalendar.tsx:205-216 | the team's name when the group has a team, even an empty one, as `??` keeps it; otherwise the team id |
| ReservationCalendar.ToEvent | esports-scheduler/src/components/ReservationCalendar.tsx:201-219 | the event keeps the group's id, window and team id; its title is EventTitle's and its team name the team shown; its labels and ids are the group's computers' labels and ids, in order; it has no colour yet |
| ReservationCalendar.BuildEvent | esports-scheduler/src/components/ReservationCalendar.tsx:201-219 | the event built for one group is that group's uncoloured event |
| ReservationCalendar.BuildEvents | esports-scheduler/src/components/ReservationCalendar.tsx:197-222 | one event per group, in the order received |
| ReservationCalendar.LastWithId | esports-scheduler/src/components/ReservationCalendar.tsx:263 | finds the last team with the id, or none iff no team has it |
| ReservationCalendar.NormalizedGame | esports-scheduler/src/components/ReservationCalendar.tsx:263 | the normalised game has no upper-case ASCII letter and no white space at either end |
| ReservationCalendar.NormalizedGameSlice | esports-scheduler/src/components/ReservationCalendar.tsx:263 | the key is the game title, lower-cased character by character, with exactly its leading and trailing white space removed: a slice of the title with only white space before and after it |
| ReservationCalendar.TeamGameById | esports-scheduler/src/components/ReservationCalendar.tsx:261-265 | the keys are exactly the team ids. Each value is the lower-cased, trimmed game title of the last team with that id |
| ReservationCalendar.ColorKey | esports-scheduler/src/components/ReservationCalendar.tsx:271 | a non-empty key is the game recorded for a non-empty, known team id; an empty or unknown team id gives the empty key |
| ReservationCalendar.EventColor | esports-scheduler/src/components/ReservationCalendar.tsx:268-273 | the colour is the palette colour of the team's normalised game when it has one; otherwise (no team id, unknown team, game outside the palette) it is '#3b82f6' |
| ReservationCalendar.Colorize | esports-scheduler/src/components/ReservationCalendar.tsx:273 | background and border get the same colour, and nothing else of the event changes |
| ReservationCalendar.GameColorsIndex | esports-scheduler/src/components/ReservationCalendar.tsx:13-25 | indexing the palette object finds its own entries; a key that is not its own but names an Object.prototype member finds that inherited member; otherwise `undefined` |
| ReservationCalendar.EventColorAsWritten | esports-scheduler/src/components/ReservationCalendar.tsx:271-272 | when the looked-up key is not an Object.prototype member, the colour as written is the string EventColor gives; when it names one outside the palette, the colour is that inherited member |
| ReservationCalendar.ConstructorNormalizes | esports-scheduler/src/components/ReservationCalendar.tsx:263 | the game title "Constructor" normalises to "constructor" |
| ReservationCalendar.ConstructorGameGetsNoColour | esports-scheduler/src/components/ReservationCalendar.tsx:263-272 | as written, a team whose game is "Constructor" is coloured with Object.prototype's constructor, not a colour string; the corrected lookup gives the default blue |
| ReservationCalendar.ShouldReload | esports-scheduler/src/components/ReservationCalendar.tsx:307-316 | a message reloads the calendar iff it parses and its `type` is truthy and converts by `String` to text starting with "reservation."; empty or malformed data never does |
| Text.NatToStringRoundTrip | esports-scheduler/src/components/ReservationCalendar.tsx:123 | reading back the decimal text of n gives n |
| Text.Join | esports-scheduler/src/components/ReservationCalendar.tsx:125 | no parts join to the empty string and one part to itself; otherwise the result begins with the first part and ends with the last |
| Text.JoinLast | esports-scheduler/src/components/ReservationCalendar.tsx:125 | two or more parts join as the join of all but the last, the separator, then the last part, so the separator stands between every two neighbouring parts |
| Text.TrimEnd | esports-scheduler/src/components/ReservationCalendar.tsx:122 | removes exactly the trailing white space |
| Text.Trim | esports-scheduler/src/components/ReservationCalendar.tsx:263 | the result is a contiguous slice of the input with only white space before and after it, has no white space at either end, and is empty iff the input is all white space |
| Text.ToLower | esports-scheduler/src/components/ReservationCalendar.tsx:263 | lower-cases each character in place |
| Seed.AdminEmailsDistinct | esports-scheduler/prisma/seed.ts:18-23 | the six admin emails are pairwise different |
| Seed.SeedAdmins | esports-scheduler/prisma/seed.ts:18-23 | after the six upserts, each admin email is an ADMIN with its own hash. Users with other emails are kept, every user added is an ADMIN with a seeded email and its hash, and the table constraints hold |
| Seed.PadStart2 | esports-scheduler/prisma/seed.ts:26 | pads with zeros on the left to two characters; longer text is left as is |
| Seed.SeedLabel | esports-scheduler/prisma/seed.ts:26 | a label is at least five characters and begins "PC-" |
| Seed.SeedLabels | esports-scheduler/prisma/seed.ts:26 | fifteen labels, the i-th being "PC-" and i+1 padded to two digits |
| Seed.FirstAndLastSeedLabels | esports-scheduler/prisma/seed.ts:26 | the labels run from "PC-01" to "PC-15" |
| Seed.LeadingZeros | esports-scheduler/prisma/seed.ts:26 | leading zeros do not change the value the calendar reads |
| Seed.SeedLabelNumber | esports-scheduler/prisma/seed.ts:26 | the calendar reads the i-th seeded label as i+1 |
| Seed.SeedLabelsDistinct | esports-scheduler/prisma/seed.ts:26 | the fifteen labels are pairwise different |
| Seed.SeedLabelsSummary | esports-scheduler/prisma/seed.ts:26 | a booking of all seeded computers is summarised as "PCs 1-15" |
| Seed.SeedComputers | esports-scheduler/prisma/seed.ts:27-35 | afterwards every label names a computer and no computer is removed. Every computer added is active and carries one of the labels. When every label already existed, the table is unchanged |
| Seed.DashWhitespace | esports-scheduler/prisma/seed.ts:43 | the slug contains no white space, and text without white space is unchanged |
| Seed.DashWhitespaceSplit | esports-scheduler/prisma/seed.ts:43 | a word, a run of white space and the rest become the word, one dash, and the slug of the rest |
| Seed.TeamIdFor | esports-scheduler/prisma/seed.ts:43 | the id begins "team-" and ends with the lower-cased letter |
| Seed.SeedTeam | esports-scheduler/prisma/seed.ts:42-46 | the team has the id TeamIdFor gives and the game as its game title; its name is the game, a space and the letter |
| Seed.SeedTeams | esports-scheduler/prisma/seed.ts:38-47 | ten teams in game-major order. Team 2g+l is game g with letter l: its name is "game letter" and its game title is the game |
| Seed.SeedTeamRows | esports-scheduler/prisma/seed.ts:49-55 | afterwards every team id exists and no team is removed. Every team added is one of the given teams. When every id already existed, the table is unchanged, so re-seeding is idempotent |
| Seed.Seed | esports-scheduler/prisma/seed.ts:16-58 | the whole seed: the six admins, all fifteen computers and all ten teams exist afterwards. Nothing is removed; every user, computer or team added is a seeded admin, an active seeded computer or a seeded team; and a re-run over a seeded store changes no computer or team |

## Left out

- Request bodies that are not a JSON object: `req.json()` throws on text that is not JSON, and a `null` body makes `body.startsAt` throw; either way the route answers with an unhandled 500. The Body datatype is an already parsed object.
- Date parsing and ISO strings: instants are integers. A body instant that is missing, empty or unparseable is one absent value; each fails the `start < end` test alike. GET's query parameters are modelled as already parsed: `Number(computerId)` giving NaN, and `new Date(start)` or `new Date(end)` giving an Invalid Date, are not modelled.
- `Number(x)` of body ids: an entry is either a finite integer or non-finite. Fractional ids, and the non-finite legacy `computerId` handed on to the database query, are not modelled beyond "matches no computer".
- The order of names in "Already reserved for: …": the conflict query has no `orderBy`, so the source lists them in whatever order the database returns. The model uses table order.
- Transactions and concurrency: POST runs as one atomic, sequential step, and no claim is made about concurrent requests.
- `Promise.all` in POST and in the seed is modelled as sequential upserts and inserts, so completion order is fixed.
- The database's own row ids, the `createdBy` relation included by GET, and the JSON shape of responses are not modelled. GET returns the rows themselves.
- PUT, DELETE, the `grouped=1` listing and group ids: the route file shown implements only GET and POST, and its created rows carry no group id.
- bcrypt hashing: hashes are opaque strings supplied by the caller of `Seed.SeedAdmins`.
- The seed's closing log line ("5 admins") and all other console output. The six upserts are modelled, not the message.
- `toLowerCase` covers ASCII letters only; Unicode case mapping is not modelled.
- `parseInt` is read as an exact natural number; precision loss on very long digit runs is not modelled.
- ReservationCalendar.SummarizePcLabels requires a non-empty list: on an empty list the source reads `parsed[0].n` of `undefined` and throws.
- ReservationCalendar.SortNumbers compares numbers only. The source sorts `{label, n}` records by `n`, and labels play no part in the output.
- ReservationCalendar.BuildEvents: the events carry no `createdBy` pass-through field.
- Team and computer ordering with `localeCompare`, the overlap-equalising layout code, local-time form helpers, React state, modals and fetch calls: these are UI or locale-dependent and not modelled.
- The server-sent events transport (connection, reconnect timers, the stream route): only the message filter is modelled.
- The clock: `new Date()` becomes the UTC year and month passed to `PurgeRoute.Handle` and `PurgeScript.Run`.
- Utc.CutoffSeparatesMonths and PurgeRoute.PurgeKeepsCurrentMonth exclude years 0 to 99, which `Date.UTC` maps to 1900 to 1999. Years beyond the range of JavaScript dates are not bounded.
- PurgeRoute.Handle models GET; the route exports the same function as POST, so POST needs no model of its own.
- Seed.TeamIdFor: the concrete id "team-league-of-legends-a" is not proved as a literal. The slug rule it follows is proved in general by Seed.DashWhitespaceSplit and Seed.DashWhitespace.
- Authentication (next-auth, sign-in and password pages): the session enters only as an optional user id and role.

## Findings

| source | as written | input that shows it | evidently intended | confidence | as-written member | corrected member |
|---|---|---|---|---|---|---|
| esports-scheduler/src/components/ReservationCalendar.tsx:272 | `GAME_COLORS[key] ?? '#3b82f6'` indexes a plain object literal, so a key naming an Object.prototype member finds an inherited function, not undefined | a team whose game title is "Constructor" (key "constructor") is coloured with the Object constructor function instead of a colour string | only the palette's own entries give a colour; any other key gives the default '#3b82f6' | not executed | ReservationCalendar.ConstructorGameGetsNoColour | ReservationCalendar.EventColor |
