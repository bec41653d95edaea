# Regatta manager core, modelled in Dafny

This project models the core of a manager for canoe marathon regattas. The
original is written in Python and keeps its data in SQLite. It covers:

- the store of boat registrations ("inscripciones");
- placing the finishers of a category ("recalcular posiciones");
- the club points table and the club medal table;
- the athlete points and medal tables, in the store and in the older
  stand-alone module;
- an athlete's list of registrations with their crew mates;
- the lap-time dialog, which reads lap times, totals them and encodes them as JSON;
- the results screen: typing a final time, entering lap times, changing a boat's state;
- the CSV importer of registrations;
- the race programme: scheduling start times and saving them;
- the registration screen: bib numbers, the age eligibility check, CSV export;
- the scoring screen, with its ten spin boxes of points;
- the participant picker dialog.

The store is a class. Its fields are the tables the code changes:
registrations, category validity flags, the programme and the next row id.
Each writing function of the store is a method on that class. The method is
tied to a pure function of the old state, and lemmas state what that
function preserves. Queries are pure functions over the rows, taken in
table order. The dictionary-accumulation loops of the standings are methods
whose loop invariants tie them to those query functions. Python's
`sorted(..., reverse=True)` is a generic insertion sort. The sort is proved
to return a permutation that is ordered by the key.

SQLite compares `TEXT` values byte by byte. The model uses lexicographic
order on code points, which is the same as UTF-8 byte order.

Three behaviours of the code that a reader might not expect; the model
follows the code in each:

- A boat marked "Finalizado" whose final time is empty or NULL keeps
  whatever rank it had before (`database_maraton.py:262-266`).
  - The first statement ranks only boats that have a time.
  - The second statement clears ranks only for boats that are not "Finalizado".
- Finishers are ordered by comparing their time texts, not by duration.
  For example "9:00:00" sorts after "10:00:00", because '9' comes after '1'.
- A lap dialog whose fields are all blank is accepted. It stores the total
  "00:00:00" and the state "Finalizado", with an empty lap list.

In two places the model follows what the code evidently means rather than
what it does: the stale table column indices of the registration and
results screens, and the older athlete standings module, whose connection
helper makes every call raise (both under "## Left out").

## Model

| member | source | states |
|---|---|---|
| Store.Store.constructor | database_maraton.py:27-47 | The store starts with no registrations, flags or programme rows and with next id 1. It satisfies its invariant: ids are unique and below the next id, bibs are unique within each event and category, and programme keys are unique. |
| Store.Store.Register | database_maraton.py:206-215 | The insert is refused with the "Error: ..." bib message, and nothing changes, when the bib is already used in the boat's event and category or when the category or a named athlete does not exist (the foreign keys, which `database_maraton.py:18` turns on). Otherwise the boat is appended with the next id, the success message is returned and the id counter advances. |
| Store.Store.UpdateResult | database_maraton.py:252-257 | Only the row with the id changes, getting the new time, state and laps. Every other table is untouched. |
| Store.Store.RecomputeRanks | database_maraton.py:259-268 | The rows become `Recomputed` of the old rows. Ranking.RecomputedFrame states what that is. |
| Store.WriteRanks | database_maraton.py:264-265 | The loop gives the i-th boat of the order the rank i+1 and leaves all other rows as they were. |
| Store.Store.CategoryValidity | database_maraton.py:270-279 | A missing flag is inserted as valid and reported valid. An existing flag is reported and left unchanged. |
| Store.Store.SetCategoryValidity | database_maraton.py:281-285 | Insert-or-replace: the flag of that event and category becomes the given value, and the other flags are kept. |
| Store.Store.UpdateBib | database_maraton.py:384-389 | The write succeeds exactly when the id is unknown or no other boat of its event and category holds the bib. On success only that boat's bib changes. On failure the rows stay the same. |
| Store.Store.SaveProgramme | database_maraton.py:455-462 | Delete then insert. When the (event, category) key stays unique, the event's programme is replaced by the new rows and other events keep theirs. Otherwise nothing changes. |
| Store.MaxBib | database_maraton.py:371 | `MAX(numero_competidor)` is absent exactly for an empty group. Otherwise it is a bib of the group that is at least every bib of the group. |
| Store.NextBib | database_maraton.py:368-373 | The next bib is 1 for an empty group. Otherwise it is one more than the largest bib, so no boat of the group holds it. |
| Store.OtherEvents | database_maraton.py:458 | The programme rows that survive the delete are exactly those of other events. |
| Store.FindById | database_maraton.py:255 | Finds the row with the id, or reports that no row has it. |
| Store.RecomputedKeepsKeys | database_maraton.py:259-268 | Recomputing keeps every row's id, event, category, bib and crew, so the store invariant survives. |
| Store.WithBibKeepsBibsUnique | database_maraton.py:384-389 | A bib change that passed the in-use test keeps bibs unique within each group. |
| Store.NextBibAccepted | database_maraton.py:368-373 | The next bib is never in use in its group, so a registration with it is never refused for its bib, and appending it keeps bibs unique. |
| Store.RegisterKeepsBibsUnique | database_maraton.py:206-215 | An accepted registration keeps bibs unique within each group. |
| Ranking.FinishersFacts | database_maraton.py:262 | The rankable boats are sound, complete and in table order. They are the boats of the event and category that are "Finalizado" with a non-NULL, non-empty time. |
| Ranking.RecomputedFrame | database_maraton.py:259-268 | Boats of other groups are unchanged. Group boats that are not "Finalizado" get no rank. "Finalizado" boats without a time are unchanged. Each finisher gets a rank in 1..N, and its other fields stay the same. |
| Ranking.RankAt | database_maraton.py:264-265 | The boat at position p of the time order gets rank p+1. |
| Ranking.PositionOf | database_maraton.py:264-265 | A finisher's rank, minus one, is its position in the time order. |
| Ranking.RanksDiffer | database_maraton.py:264-265 | Two different finishers never share a rank. |
| Ranking.RankHeld | database_maraton.py:264-265 | Every rank 1..N is held by some finisher. |
| Ranking.RanksArePermutation | database_maraton.py:264-265 | The finishers' ranks are exactly 1..N. |
| Ranking.RanksFollowTimes | database_maraton.py:262-265 | A strictly smaller time text gives a smaller rank. A smaller rank means a time text that is smaller or equal. |
| Ranking.RanksIgnoreOldRanks | database_maraton.py:262 | Which boats are ranked does not depend on the ranks stored before. |
| Ranking.RecomputedKeepsFinishers | database_maraton.py:259-268 | Recomputing does not change which boats are finishers. |
| Ranking.RecomputeIdempotent | database_maraton.py:259-268 | Recomputing twice gives the same rows as recomputing once. |
| Ranking.DistinctTimesDetermineRanks | database_maraton.py:262-265 | When the finishers' times are distinct, every order that the ORDER BY allows gives the same ranks. |
| Standings.ClubRows | database_maraton.py:288-298 | The query rows for the club tables, one per included boat and named by its first athlete's club. Every row of the medal query has place 1 to 3. Which boats are included is stated by Standings.ClubRowsSkipUnvalidated and Standings.ClubRowsIgnoreCrew. |
| Standings.ClubScores | database_maraton.py:304-311 | There is one line per club, in first-seen order. Each line carries the club's total points and its first logo. |
| Standings.ClubMedalLines | database_maraton.py:330-337 | There is one line per club, in first-seen order. Each line carries the club's gold, silver and bronze counts. |
| Standings.ClubOrdersTotal | database_maraton.py:310-338 | The points order and the medal order are total preorders, so the sort is well defined. |
| Standings.TallyClubPoints | database_maraton.py:299-311 | The method returns a permutation of the computed club lines, ordered by non-increasing points. |
| Standings.CountClubPoints | database_maraton.py:304-308 | The dictionary loop ends with keys equal to the clubs seen and totals equal to the sums of their points. |
| Standings.CountClubPoint | database_maraton.py:305-308 | One query row opens its club's entry, with the row's logo, if the club is new, then adds that row's points. |
| Standings.ClubPointsRead | database_maraton.py:311 | Reading the dictionary back in insertion order gives exactly the computed club lines. |
| Standings.TallyClubMedals | database_maraton.py:325-339 | The method returns a permutation of the club medal lines, ordered by non-increasing (gold, silver, bronze). |
| Standings.CountClubMedals | database_maraton.py:330-335 | The dictionary loop ends with one entry per club seen, holding that club's counts of places 1, 2 and 3. |
| Standings.CountClubMedal | database_maraton.py:331-335 | One query row opens its club's entry if the club is new, then counts its place. |
| Standings.ClubMedalDictStep | database_maraton.py:331-335 | Adding a row to the counted prefix changes the dictionary exactly as the loop body does. |
| Standings.ClubMedalsRead | database_maraton.py:337 | Reading the dictionary back in insertion order gives exactly the club medal lines. |
| Standings.ClubHeads | database_maraton.py:306-307 | Each listed club is first seen at a row that carries its logo, and no earlier row has that club. |
| Standings.ClubsListedOnce | database_maraton.py:306 | No club appears twice in a table. |
| Standings.ClubsAllListed | database_maraton.py:306 | Every club of a query row appears in the table. |
| Standings.ClubLinesAreTotals | database_maraton.py:304-308 | The points of a club's line are the sum, over its rows, of the system's points for the row's place, with 0 for places the system lacks. |
| Standings.ClubMedalLinesAreCounts | database_maraton.py:330-335 | The gold, silver and bronze of a club's line count its rows with place 1, 2 and 3. |
| Standings.ClubPointsConserved | database_maraton.py:304-311 | The points over all lines add up to the points over all query rows. |
| Standings.PodiumRowsCount | database_maraton.py:322 | Every medal query row has place 1, 2 or 3. |
| Standings.ClubMedalsConserved | database_maraton.py:330-339 | The medals over all lines add up to the number of podium rows. |
| Standings.ClubRowsIgnoreCrew | database_maraton.py:291-292 | Only the first athlete's club counts. Changing crew seats 2 to 4 leaves the club tables as they were. |
| Standings.ClubRowsAppend | database_maraton.py:288-298 | The club query over two runs of registrations is the query over the first followed by the query over the second. |
| Standings.ClubRowsSkipUnvalidated | database_maraton.py:293-297 | A boat whose category flag is missing or false contributes nothing to the club tables, wherever it stands among the other boats: removing it leaves the query rows unchanged. |
| Individual.Truthy | database_maraton.py:495 | `filter(None, ...)` keeps exactly the crew slots that hold a non-zero id. |
| Individual.NotNull | ranking_individual.py:29 | The `is not None` filter keeps exactly the crew slots that hold an id. |
| Individual.CrewRows | database_maraton.py:482-487 | At most one row per registration. The medal query's rows have place 1 to 3. |
| Individual.LookupFinds | database_maraton.py:497 | The info query finds an athlete exactly when the athlete exists. |
| Individual.AthleteScores | database_maraton.py:492-500 | There is one line per athlete found, in first-seen order, with the first info and the summed points. |
| Individual.AthleteMedalLines | database_maraton.py:514-522 | There is one line per athlete found, in first-seen order, with the counts of places 1, 2 and 3. |
| Individual.AthleteOrdersTotal | database_maraton.py:501-523 | The athlete points order and medal order are total preorders. |
| Individual.TallyAthletePoints | database_maraton.py:488-501 | The method returns a permutation of the athlete lines, ordered by non-increasing points. |
| Individual.CountAthletePoints | database_maraton.py:492-500 | The dictionary loop ends with one entry per athlete found, holding the info and the total points. |
| Individual.CreditCrewPoints | database_maraton.py:493-500 | A row worth 0 points is skipped. Otherwise each crew member is credited in seat order. |
| Individual.CreditMemberPoints | database_maraton.py:495-500 | Crediting one seat of the crew is the same as crediting the athlete in that seat. |
| Individual.CreditAthletePoints | database_maraton.py:496-500 | An athlete not found leaves the dictionary unchanged. An athlete found opens an entry with its info if new, then gains the row's points. |
| Individual.AthletePointsRead | database_maraton.py:501 | Reading the dictionary back in insertion order gives exactly the athlete lines. |
| Individual.TallyAthleteMedals | database_maraton.py:510-523 | The method returns a permutation of the athlete medal lines, ordered by non-increasing (gold, silver, bronze). |
| Individual.CountAthleteMedals | database_maraton.py:514-522 | The dictionary loop ends with one entry per athlete found, holding the place counts. |
| Individual.CreditCrewMedals | database_maraton.py:515-522 | Each crew member of a podium row is credited with that place, in seat order. |
| Individual.CreditMemberMedals | database_maraton.py:515-522 | Crediting one seat is the same as crediting the athlete in that seat. |
| Individual.CreditAthleteMedal | database_maraton.py:516-522 | An athlete not found leaves the dictionary unchanged. An athlete found opens an entry if new, then counts the place. |
| Individual.AthleteMedalsRead | database_maraton.py:523 | Reading the dictionary back gives exactly the athlete medal lines. |
| Individual.CrewSeatsTotal | database_maraton.py:495-500 | An athlete's credit is the full points of each scoring row, once for every crew seat the athlete holds. |
| Individual.PointSeatsTotal | database_maraton.py:492-500 | An athlete's total points equal that athlete's crew credit over all rows. |
| Individual.MedalSeatsTotal | database_maraton.py:514-522 | An athlete's medal count for a place equals the number of crew seats the athlete holds in rows with that place. |
| Individual.AthletePointLines | database_maraton.py:481-501 | Each athlete appears at most once. A line's info is that athlete's lookup and its points are the crew credit. An athlete is listed exactly when found and seated in a row that scores. |
| Individual.AthleteMedalLinesAreCounts | database_maraton.py:503-523 | Each athlete appears at most once. A line holds that athlete's counts of places 1, 2 and 3. An athlete is listed exactly when found and seated in a podium row. |
| Individual.CheckedAgreesWhenValidated | ranking_individual.py:7-49 | When every category is validated, the older module (no validity filter) and the store (with the filter) read the same rows. |
| Individual.PickAgrees | ranking_individual.py:29 | When no slot holds id 0, the `is not None` filter and `filter(None, ...)` keep the same athletes. |
| Reports.ClubPointStandings | database_maraton.py:287-311 | Gives the club points table: a permutation of the per-club totals over the store's rows, sorted by points. |
| Reports.ClubMedalStandings | database_maraton.py:313-339 | Gives the club medal table: a permutation of the per-club counts, sorted by (gold, silver, bronze). |
| Reports.AthletePointStandings | database_maraton.py:481-501 | Gives the athlete points table from the store's validated rows, sorted by points. |
| Reports.AthleteMedalStandings | database_maraton.py:503-523 | Gives the athlete medal table from the store's validated podium rows, sorted by medals. |
| Reports.LegacyAthletePointStandings | ranking_individual.py:7-49 | The query logic of the older module, as if its connection helper returned a connection: the athlete points table without the validity filter, sorted by points. The flag `storeFailed` stands for its `if not conn` and `sqlite3.Error` branches, which give the empty table. |
| Reports.LegacyAthleteMedalStandings | ranking_individual.py:51-92 | The query logic of the older module, as if its connection helper returned a connection: the athlete medal table without the validity filter, sorted by medals. The flag `storeFailed` stands for its `if not conn` and `sqlite3.Error` branches, which give the empty table. |
| Reports.Companions | database_maraton.py:443-447 | Every name listed is the full name of another athlete seated in the boat. Every other athlete of the boat who exists is listed. |
| Reports.EntriesAreListed | database_maraton.py:410-450 | The athlete's entries are at most one per registration. Each comes from a registration of the event in which the athlete is seated. |
| Reports.ListedAreEntries | database_maraton.py:426-431 | Every registration of the event that seats the athlete produces an entry. |
| Reports.SoloExactly | database_maraton.py:449 | "Bote individual" is shown exactly when no other existing athlete is in the boat. |
| LapTimes.GetTimes | tiempos_vuelta_dialog_ui.py:52-90 | The dialog's loop returns exactly `Times(fields)`: an error naming the first unreadable lap, or the JSON lap list and the formatted total. |
| LapTimes.Filled | tiempos_vuelta_dialog_ui.py:58-60 | The kept fields are the stripped fields that are not blank, in order. |
| LapTimes.ScanStops | tiempos_vuelta_dialog_ui.py:75-77 | Once a lap fails, later fields cannot change the error. |
| LapTimes.ScanSucceeds | tiempos_vuelta_dialog_ui.py:56-80 | The scan succeeds exactly when every non-blank field reads as a lap time. |
| LapTimes.ScanKeeps | tiempos_vuelta_dialog_ui.py:56-80 | On success the kept laps are the non-blank fields and the total is the sum of their values. |
| LapTimes.ScanFails | tiempos_vuelta_dialog_ui.py:75-77 | An unreadable non-blank field makes the scan fail. |
| LapTimes.ScanFailsAt | tiempos_vuelta_dialog_ui.py:75-77 | A failure names a 1-based lap number whose stripped text does not read. |
| LapTimes.ScanFailsFirst | tiempos_vuelta_dialog_ui.py:56-77 | The lap named is the first unreadable one: every earlier non-blank field reads. |
| LapTimes.LapIsClean | tiempos_vuelta_dialog_ui.py:61-72 | A readable lap holds only digits, ':' and '.', so the JSON needs no escaping. |
| LapTimes.FractionTrailingZero | tiempos_vuelta_dialog_ui.py:67 | Right-padding the fraction means "h:m:s.5" and "h:m:s.500" read the same. |
| LapTimes.ClockReadsBack | tiempos_vuelta_dialog_ui.py:83-87 | The `HH:MM:SS` text of any number of seconds reads back as those seconds. Hours are not capped. |
| LapTimes.ClockFieldsReadBack | tiempos_vuelta_dialog_ui.py:61-65 | A clock reads as hours×3600 + minutes×60 + seconds. Minutes and seconds are not range-checked. |
| LapTimes.MillisReadBack | tiempos_vuelta_dialog_ui.py:67-87 | A three-digit millisecond fraction reads back as that many thousands of microseconds. |
| LapTimes.FormatReadsBack | tiempos_vuelta_dialog_ui.py:80-88 | The formatted total reads back as the total truncated to whole milliseconds. |
| LapTimes.SubMillisecondShowsZeros | tiempos_vuelta_dialog_ui.py:85-88 | A total with less than a millisecond past the whole seconds still shows the fraction ".000". |
| LapTimes.EncodeDecode | tiempos_vuelta_dialog_ui.py:27-33 | Decoding the JSON list that `json.dumps` writes for clean laps gives the laps back. |
| LapTimes.Prefill | tiempos_vuelta_dialog_ui.py:27-39 | Field i of the reopened dialog shows stored lap i, or is empty when no lap was stored for it. |
| LapTimes.FilledSkipsBlanks | tiempos_vuelta_dialog_ui.py:58-60 | Blank fields anywhere leave the kept laps unchanged. |
| LapTimes.ReopenKeepsLaps | tiempos_vuelta_dialog_ui.py:27-90 | Reopening the dialog on a stored lap list and accepting it unchanged gives the same list and total. |
| LapTimes.KeptAreClean | tiempos_vuelta_dialog_ui.py:58-72 | Every kept lap is readable and holds only digits, ':' and '.'. |
| LapTimes.ReopenFilled | tiempos_vuelta_dialog_ui.py:27-39 | The non-blank prefilled fields are exactly the stored laps, in order. |
| LapTimes.AllBlankTotal | tiempos_vuelta_dialog_ui.py:57-90 | All-blank fields give the empty list "[]" and the total "00:00:00". |
| LapTimes.TwoLapsTotal | tiempos_vuelta_dialog_ui.py:52-90 | Laps "00:10:00" and "00:12:30.500" give the list `["00:10:00", "00:12:30.500"]` and the total "00:22:30.500". |
| Results.TimeEntry | resultados_ui.py:135-136 | A typed final time is written only when it was given and is not empty. It is written stripped, with "Finalizado" and no laps. |
| Results.LapEntry | resultados_ui.py:150-154 | The lap dialog writes only when accepted and when the laps read. It writes the total, "Finalizado" and the JSON laps. |
| Results.Preselected | resultados_ui.py:169-175 | The state picker starts at the boat's current state if it is one of the five, else at the first. |
| Results.StatusWrite | resultados_ui.py:175-188 | Nothing is written if the dialog is cancelled or the state is unchanged. "Finalizado" keeps the shown time and the stored laps. Any other state clears both. |
| Results.FindLaps | resultados_ui.py:190-196 | Finds the stored lap JSON of the boat with the id in the shown group, or none. |
| Results.Written | resultados_ui.py:150-156 | The write followed by the rank recomputation keeps the number of rows. Results.FinishedEntryIsRanked and Results.UnfinishedEntryIsUnranked state its effect on the written boat. |
| Results.EnterTime | resultados_ui.py:120-156 | Either nothing changes, or the rows become the written-then-recomputed rows. No other table changes. |
| Results.ChangeStatus | resultados_ui.py:158-188 | Either nothing changes, or the rows become the written-then-recomputed rows. No other table changes. |
| Results.StoredLapsUnique | resultados_ui.py:190-196 | With unique ids the lookup's answer is the stored laps of that boat. |
| Results.FinishedEntryIsRanked | resultados_ui.py:137-156 | A boat given a non-empty time as "Finalizado" gets a rank between 1 and the number of finishers. |
| Results.UnfinishedEntryIsUnranked | resultados_ui.py:182-188 | A boat moved to another state loses its time, laps and rank. |
| Results.WriteKeepsOtherGroups | resultados_ui.py:150-156 | Boats of other event/category groups are not touched. |
| Results.BlankTimeIsNotRanked | resultados_ui.py:137-139 | A final time made only of spaces is written as "" with "Finalizado", which the ranking then skips. |
| Importer.Stripped | importador_csv_ui.py:119 | Each key and value of a complete CSV row is stripped. |
| Importer.Clean | importador_csv_ui.py:119 | Cleaning raises, with the `NoneType` `strip` message, exactly when the row is ragged: a cell is missing or there are extra cells under the `None` key. |
| Importer.CleanHas | importador_csv_ui.py:119 | Every stripped header is a key of the cleaned row, holding the stripped value of the last column with that stripped header. |
| Importer.CleanSource | importador_csv_ui.py:119 | Every key of the cleaned row is the stripped header of some column. |
| Importer.Headers | importador_csv_ui.py:106 | The first row's headers are its stripped column names. A first row with extra cells makes the `strip` of its `None` key raise. |
| Importer.MissingHeaders | importador_csv_ui.py:107-108 | The missing headers are exactly the required headers that are absent, in the required order. |
| Importer.CheckFile | importador_csv_ui.py:101-110 | The file is accepted exactly when it has a row, its first row has no extra cells and no required header is missing. Otherwise the error gives the exact message of each case. |
| Importer.CheckFileHeaders | importador_csv_ui.py:106-110 | A file is accepted exactly when its first row has no extra cells and every required header is the stripped name of one of its columns. |
| Importer.Included | importador_csv_ui.py:154-158 | Only crew seats whose name and RUT are both non-empty are looked up. |
| Importer.IdsOf | importador_csv_ui.py:166-168 | The found athletes' ids, in seat order. |
| Importer.Compaction | importador_csv_ui.py:153-170 | Collection succeeds exactly when every included seat resolves, and then gives their ids in seat order. |
| Importer.SecondMovesUp | importador_csv_ui.py:189-192 | A row that names only seat 2 registers that athlete in seat 1. |
| Importer.FailureSticks | importador_csv_ui.py:169-170 | Once a seat fails to resolve, the row fails whatever later seats hold. |
| Importer.CollectParticipants | importador_csv_ui.py:153-170 | The loop over seats 1 to 4 returns exactly the collected result. |
| Importer.Plan | importador_csv_ui.py:143-193 | An empty code gives the "obligatoria" error and an unknown code the "no fue encontrada" error. A row with no athlete or an unparsable bib fails. On success the category is resolved, the crew is non-empty, and the bib is the given one or the next free one. |
| Importer.EntryHasCrew | importador_csv_ui.py:172-192 | A planned registration has 1 to 4 athletes, filling the seats from the first. |
| Importer.Applied | importador_csv_ui.py:185-197 | A failed plan leaves the store as it was. A successful one registers the boat, which fails only on a taken bib. |
| Importer.InsertMessages | importador_csv_ui.py:196-197 | Of the store's two messages, only the taken-bib one contains "Error", so only it fails the row. |
| Importer.CollectedKnown | importador_csv_ui.py:153-170 | When the lookup answers only ids of the store's athletes, every collected participant id names an athlete of the store. |
| Importer.CrewKnown | importador_csv_ui.py:185-192 | A known category with a crew of known athletes passes the store's foreign keys, with the crew compacted into seats 1 to 4. |
| Importer.ProcessRow | importador_csv_ui.py:143-199 | Processing a row changes the store exactly as the row's plan applied to it does, and reports whether it succeeded. |
| Importer.RunCounts | importador_csv_ui.py:115-126 | Successes plus failures equal the number of rows. Failed line numbers increase and lie in 2..rows+1. |
| Importer.RunStep | importador_csv_ui.py:118-126 | One more row adds one success, or one failure with its line number. |
| Importer.FirstRagged | importador_csv_ui.py:118-119 | The rows before the first ragged row are complete, and the row it names, if any, is ragged. |
| Importer.Cleaned | importador_csv_ui.py:119 | Each row of a file without ragged rows cleans successfully, and its cleaned dictionary is the one processed. |
| Importer.Import | importador_csv_ui.py:80-141 | A rejected file gives its error and changes nothing. Otherwise the rows are processed until the first ragged row, and the store is the result of that run. Without a ragged row, the summary gives the row count, successes, failures and failed lines. A ragged row stops the import with the fatal error and no summary; the rows before it stay registered. |
| Programme.ClockOfDay | programa_ui.py:136 | `strftime("%H:%M")` gives five characters, two digits, ':', two digits. |
| Programme.ClockReads | programa_ui.py:151-153 | The hour and minute fields read back as the time of day. |
| Programme.ClockHasNoSpace | programa_ui.py:125-136 | The clock never contains a space, so the label split finds the separator after it. |
| Programme.LabelSplits | programa_ui.py:125 | Splitting a scheduled label at its first " - " gives the clock and the original label back. |
| Programme.AvailableOf | programa_ui.py:99-106 | The available list holds exactly the categories that are not in the saved programme, in category order. |
| Programme.SavedIds | programa_ui.py:89 | The programme's category ids, in programme order. |
| Programme.StartOf | programa_ui.py:131-136 | The start of the i-th race, in minutes after midnight, is always below 1440. |
| Programme.StartOfClosed | programa_ui.py:131-136 | Start i is (first start + i × interval) modulo one day. |
| Programme.StartOfShift | programa_ui.py:131-136 | Each start is the previous start plus the interval, modulo one day. |
| Programme.SweepAt | programa_ui.py:132-138 | The scheduling loop touches item i only if the items before it were all labelled. Then it gives that item the clock of its position. |
| Programme.TimedFromAt | programa_ui.py:132-138 | Items of the leading labelled run are retimed. Later items are kept unchanged. |
| Programme.ScheduleItems | programa_ui.py:129-140 | The loop over the list returns exactly the retimed list. |
| Programme.ScheduledLabel | programa_ui.py:137-138 | A retimed item keeps its text after " - ", with the new clock before it. |
| Programme.ScheduleTwice | programa_ui.py:129-140 | Retiming one item twice with the same start and interval gives the same item as retiming it once, and the item stays labelled. |
| Programme.ScheduleListTwice | programa_ui.py:129-140 | Scheduling the whole programme twice with the same start and interval gives the same list as scheduling it once. |
| Programme.SaveRows | programa_ui.py:147-156 | Row i saves order i+1, the item's category and its stored time. |
| Programme.SaveRowsOrdered | programa_ui.py:150 | The saved orders are 1..n in list order. |
| Programme.ProgrammeRows | programa_ui.py:147-156 | The loop over the list builds exactly those rows. |
| Programme.SavedTimes | programa_ui.py:151-153 | A scheduled item saves its clock. A label whose head is the placeholder "HH:MM" saves no time. |
| Programme.Panel.constructor | programa_ui.py:15-22 | The panel starts with no event and empty lists. |
| Programme.Panel.Load | programa_ui.py:82-106 | The programme list shows the saved items in order, and the available list shows the remaining categories. |
| Programme.Panel.Add | programa_ui.py:108-116 | The selected available category moves to the end of the programme with the "HH:MM" placeholder. |
| Programme.Panel.Remove | programa_ui.py:118-127 | The selected item leaves the programme. It goes to the end of the available list under the text after its first " - ". An item without " - " is lost, because the split raises after the item was taken out. |
| Programme.Panel.Schedule | programa_ui.py:129-140 | The programme becomes its retimed list. |
| Programme.Panel.Save | programa_ui.py:142-162 | Without an event nothing is saved. Otherwise the store's programme for the event is replaced by the built rows. |
| Programme.AddThenRemove | programa_ui.py:108-127 | Adding a category and removing it again gives back its label. |
| Programme.LoadPartitions | programa_ui.py:82-106 | After loading, each category is in exactly one of the two lists. |
| Inscriptions.DaysIn | inscripciones_ui.py:349 | The days of a Gregorian month are 28 to 31. |
| Inscriptions.MonthField | inscripciones_ui.py:349 | `%m` accepts a one- or two-digit month from 1 to 12. |
| Inscriptions.DayField | inscripciones_ui.py:349 | `%d` accepts a one- or two-digit day from 1 to 31. |
| Inscriptions.ParseDate | inscripciones_ui.py:349 | A parsed `YYYY-MM-DD` is a valid calendar date. |
| Inscriptions.ParseFormat | inscripciones_ui.py:399 | A valid date, written in ISO form, parses back to itself. |
| Inscriptions.Truthy | inscripciones_ui.py:390 | The crew seats that `filter(None, ...)` keeps. |
| Inscriptions.CheckCrew | inscripciones_ui.py:389-407 | The crew passes exactly when every athlete's birth year lies within the category's bounds. |
| Inscriptions.MarkIneligible | inscripciones_ui.py:334-411 | No marks when there is no category, no date or an unparsable date. Otherwise row k is marked exactly when its crew fails the age check. |
| Inscriptions.SameAgeCrewFits | inscripciones_ui.py:389-407 | A crew whose members share one birth date passes bounds exactly when that age lies between the minimum and the maximum (an empty crew always passes). |
| Inscriptions.MissingBoundFails | inscripciones_ui.py:389-407 | A category without both age bounds fails every crew. |
| Inscriptions.EditBib | inscripciones_ui.py:175-201 | Without a selected registration only the warning is given. A cancelled or same-number edit changes nothing. A number used by another boat of the group is refused. Otherwise the boat's bib becomes the new number. |
| Inscriptions.EditNeverRefused | inscripciones_ui.py:175-201 | A number free in the group is never refused. |
| Inscriptions.ChangedBibIsOwn | inscripciones_ui.py:175-201 | After a change, the new bib belongs to the edited boat only. |
| Inscriptions.Enter | inscripciones_ui.py:302-332 | Missing event, category or first athlete each give their warning. Otherwise the boat is registered exactly when its bib is free and its category and athletes exist. A refusal gives the store's error message. |
| Inscriptions.Cell | inscripciones_ui.py:244-246 | NULL exports as "", text as itself, and a number as digits that read back. |
| Inscriptions.ExportRow | inscripciones_ui.py:232-246 | Each exported row has one cell per header, padded with "". |
| Inscriptions.ExportIsImportable | inscripciones_ui.py:232-238 | The export headers include every header the importer requires, and the bib header. |
| Scoring.Clamp | puntuacion_ui.py:93-95 | A spin box holds a value within 0..100. Values outside are moved to the nearest bound. |
| Scoring.InitialSpinners | puntuacion_ui.py:91-98 | The ten boxes start at the default points, 0 for places 9 and 10. |
| Scoring.System | puntuacion_ui.py:159 | The system holds exactly the places whose box shows more than zero, each with its value. |
| Scoring.SystemScoresAsShown | puntuacion_ui.py:159 | Every place scores what its box shows, and places outside 1..10 score 0. |
| Scoring.EmptySystemIffAllZero | puntuacion_ui.py:160-162 | The points warning appears exactly when every box shows zero. |
| Scoring.DefaultSystem | puntuacion_ui.py:94-95 | Untouched boxes give back the default points table. |
| Scoring.FillPoints | puntuacion_ui.py:169-173 | Row k shows place k+1, the club and its points. |
| Scoring.FillMedals | puntuacion_ui.py:181-187 | Row k shows place k+1, the club and its three counts. |
| Scoring.Calculate | puntuacion_ui.py:148-187 | With no event only a warning is shown. Otherwise the points table is not refilled, and keeps what it showed before, exactly when every box is zero. The shown tables are the store's standings, and places further down never show more. |
| Participants.Picked | seleccionar_participante_dialog.py:60-70 | The listed participants are those the search keeps, in query order, and none is missed. |
| Participants.Display | seleccionar_participante_dialog.py:75-79 | The hidden id cell reads back as the id. A missing RUT shows "" and a missing club shows "Sin Club". |
| Participants.Table | seleccionar_participante_dialog.py:56-79 | There is one table row per kept participant. |
| Participants.TableStep | seleccionar_participante_dialog.py:60-79 | Each participant adds its row exactly when the search keeps it. |
| Participants.EmptyFilterShowsAll | seleccionar_participante_dialog.py:64 | An empty search lists everyone, in order. |
| Participants.SearchIgnoresCase | seleccionar_participante_dialog.py:65-70 | A search and its lower-cased form keep the same participants. |
| Participants.ContainsLower | seleccionar_participante_dialog.py:65-70 | Lower-casing both sides keeps an occurrence. |
| Participants.TypedFieldMatches | seleccionar_participante_dialog.py:64-70 | Text typed as it appears in a name, RUT or club finds that participant. |
| Participants.ChosenIsListed | seleccionar_participante_dialog.py:84-95 | Accepting row k hands back that participant's id and "first-name surname". |
| Participants.Picker.constructor | seleccionar_participante_dialog.py:15-56 | The dialog opens listing everyone, with nothing chosen. |
| Participants.Picker.Load | seleccionar_participante_dialog.py:56-79 | The table becomes the rows of the kept participants. |
| Participants.Picker.Accept | seleccionar_participante_dialog.py:84-95 | With no selection nothing changes. Otherwise the info is the chosen row's and the dialog is accepted. |
| Text.Strip | tiempos_vuelta_dialog_ui.py:58 | The result is empty exactly when the text is all spaces. It has no space at either end. Text.StripSlice states which slice it is. |
| Text.StripSlice | tiempos_vuelta_dialog_ui.py:58 | The stripped text is the slice of the input that starts after its leading whitespace. Everything before and after that slice is whitespace. |
| Text.StripUnpadded | importador_csv_ui.py:119 | A text without edge spaces strips to itself. |
| Text.LessTotal | database_maraton.py:262 | SQLite text order compares any two different texts. |
| Text.LessAsymmetric | database_maraton.py:262 | The text order is asymmetric. |
| Text.LessTransitive | database_maraton.py:262 | The text order is transitive. |
| Text.LessIrreflexive | database_maraton.py:262 | No text is below itself. |
| Text.LessEqTransitive | database_maraton.py:262 | Less-or-equal on texts is transitive. |
| Text.SplitFirst | programa_ui.py:125 | `split(" - ", 1)`: when there is a separator, the text is the head, the separator and the tail, and no occurrence of the separator starts inside the head. Without one, the head is the whole text. |
| Text.SplitFirstFinds | programa_ui.py:125 | The split finds a separator exactly when the text contains one. |
| Text.ParseNat | seleccionar_participante_dialog.py:91 | Decimal text is read exactly when it is non-empty and all digits. |
| Text.NatToString | seleccionar_participante_dialog.py:75 | `str(n)` gives digits that read back as n. |
| Text.ZeroPadRoundTrip | tiempos_vuelta_dialog_ui.py:87 | Zero-padding does not change the value read back. |
| Text.Lower | seleccionar_participante_dialog.py:65 | Lower-casing keeps the length and maps each character. |
| Sorting.SortBy | database_maraton.py:310 | The sort returns a permutation of its input. |
| Sorting.SortBySorted | database_maraton.py:310 | Under a total preorder, the sort returns an ordered list. |
| Sorting.SortBySum | database_maraton.py:310 | Sorting keeps the sum of any measure. |
| Sorting.SumByPermutation | database_maraton.py:310 | Permuted lists have the same sum. |
| Sorting.SortByDistinct | database_maraton.py:310 | Sorting keeps a list free of duplicates. |
| Sorting.PermutationDistinct | database_maraton.py:310 | Permuting keeps a list free of duplicates. |
| Grouping.FirstsFacts | database_maraton.py:306-307 | The keys in first-seen order are distinct, and they are exactly the keys that occur. |
| Grouping.FirstsAreEarliest | database_maraton.py:306-307 | Each key's position in first-seen order follows its first occurrence. |
| Grouping.TotalsAddUp | database_maraton.py:308 | The per-key totals add up to the total over all rows. |
| Grouping.KeysFacts | database_maraton.py:306-307 | The dictionary's keys are the keys seen. |
| Grouping.TallyFacts | database_maraton.py:308 | A key's entry is the sum of its rows. |
| Grouping.FirstMapFacts | database_maraton.py:307 | A key's stored extra comes from its first row. |
| Grouping.DictSnoc | database_maraton.py:306-308 | One more row updates the dictionary as the loop body does. |

## Left out

- The SQL schema itself, the connections and transactions, the Qt widgets, message boxes, table rendering and colours, the logos, file dialogs and file I/O are not modelled. Dialog inputs (typed text, chosen rows, spin box values) are parameters.
- The PDF and web report generators, the report screen, the main window, the event, club, category and participant screens, and the worker thread of main_maraton.py are not part of this model. Their calls into the core are covered by the core's own members.
- Floating point is not modelled. `distancia_km` is not modelled. `timedelta.total_seconds()` is modelled as exact integer microseconds.
- The overflow of a `timedelta` with a very large hour count is not modelled: hours are unbounded.
- LapTimes.ParseLap: Python's `int()` also accepts a sign, underscores, surrounding whitespace and non-ASCII digits in a field. The model reads ASCII digits only.
- Importer.Plan: the `int()` of the bib column is modelled on ASCII digits only, for the same reason.
- Participants.Picker.Accept: the `int()` of the hidden id column is modelled on ASCII digits only, for the same reason.
- Inscriptions.ParseDate: `strptime`'s `%Y`, `%m` and `%d` also accept non-ASCII digits. The model reads ASCII digits only.
- Text.Lower: lower-casing covers ASCII and Latin-1 letters only, not all of Unicode.
- Ranking.Recomputed: `ORDER BY tiempo_final ASC` (`database_maraton.py:262`) does not fix the order of boats with equal time texts. The model breaks such ties by table order, so they take consecutive ranks in table order. Ranking.RecomputeIdempotent depends on that choice. Ranking.DistinctTimesDetermineRanks states that without ties every order the query allows gives the same ranks.
- The query orders `ORDER BY apellido, nombre` (participants) and `ORDER BY orden` (programme) are taken as the order of the input list. The order among tied lines of the sorted standings is left open: only ordering and permutation are stated.
- The registration and results screens read table cells by column index. Several of those indices are stale with respect to the query at `database_maraton.py:217-243`. For example the age check at `inscripciones_ui.py:389-390` reads columns that are not participant ids. The model reads named fields instead.
- Seconds of the programme's `QTime` are ignored. Times of day are in whole minutes.
- `obtener_categoria_por_codigo` and `buscar_o_crear_participante` are function parameters of the importer. Their find-or-create side effects on the participant and club tables are not modelled. Instead, Importer.ProcessRow and Importer.Import require that every id these lookups answer names a row of the store (`Importer.LookupsKnown`): the category is read from the table, and a participant is found in it or inserted before its id is returned.
- CSV dialect sniffing, the progress bar and the import log are not modelled. A file is the list of rows `csv.DictReader` yields: each header with its cell, `None` for a cell missing from a short row, and the extra cells of a long row under the key `None`. Blank lines, which the reader skips, do not appear.
- Reports.LegacyAthletePointStandings: as written, every call raises. `db.conectar_db()` (`ranking_individual.py:9`) returns a context manager rather than a connection, so `if not conn` never fires, `conn.cursor()` raises an `AttributeError` that `except sqlite3.Error` does not catch, and the `conn.close()` of the `finally` raises again. The model follows the query logic as if a connection were returned; the `storeFailed` flag stands for the `if not conn` and `sqlite3.Error` branches, which give the empty table.
- Reports.LegacyAthleteMedalStandings: the same holds for the connection at `ranking_individual.py:53`; every call raises, and the model follows the query logic.
- Store.Store.Register: the events table is not modelled, so the foreign key on the event is not checked. An insert naming an event that does not exist is accepted here, whereas the source refuses it with the bib message.
- Store.Store.UpdateBib: an uncaught uniqueness error is modelled as a `false` result with nothing changed.
- Store.Store.SaveProgramme: a uniqueness error raised by the insert is modelled as a `false` result with nothing changed.
- Results.EnterTime: a NULL lap count on a category makes the comparison at `resultados_ui.py:132` raise a `TypeError`. This is not modelled: the lap count is a number or absent, since the screens always store a number.
- The reports handing every place of the ten spin boxes to the standings, including zeros (main_maraton.py), are not part of this model. Scoring.SystemScoresAsShown states that a zero entry scores like an absent one.
- Text.Strip: whitespace is the ASCII whitespace of `str.isspace()` (tab, line feed, vertical tab, form feed, carriage return, the separators 28-31 and space). Python's `strip()` also removes Unicode whitespace such as U+0085, U+00A0, U+1680, U+2000-U+200A, U+2028, U+2029, U+202F, U+205F and U+3000. This affects LapTimes.Filled, Results.TimeEntry and Importer.Stripped.
- LapTimes.Stored: `json.loads` is modelled only on the shape `json.dumps` writes for clean laps (`[]` or `["a", "b"]`, no escapes). Other spacing and escapes that `json.loads` accepts read as no list here. A stored value that is valid JSON but not a list (a number, say) makes `len()` raise a `TypeError` at `tiempos_vuelta_dialog_ui.py:37`, outside the `try`; this is not modelled either.
