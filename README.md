# KEC-HUB placement backend: a Dafny model

KEC-HUB is the campus placement portal of Kongu Engineering College. Its Python backend
stores students, placement notices, events and chat threads in MongoDB. It ranks
opportunities for a student with a small trained classifier. It also post-processes the
answers of a hosted language model into interview-preparation material.

This project models the decision logic of that backend in Dafny and proves properties of
it. The database, the HTTP clients, the classifier and the clock become parameters.

| file | module | what it models |
|---|---|---|
| wrappers.dfy | `Wrappers` | the `Option` and `Result` types every module uses |
| text.dfy | `Text` | the Python `str` operations the backend relies on: `strip`, `lower`, `find`, `split`, `join`, slices, `sorted` on two strings |
| access.dfy | `Access` | `_is_allowed_domain`, the owner check by trimmed lower-case e-mail, `_require_role` |
| departments.dfy | `Departments` | `_normalize_allowed_departments` and `_parse_departments_csv` |
| features.dfy | `Features` | `clean_skills`, `skill_match`, `build_features` |
| ranking.dfy | `Ranking` | `sorted(..., key, reverse=True)` as a stable descending insertion sort |
| predict.dfy | `Predict` | `recommend`, with the classifier as a partial function |
| feedback.dfy | `Feedback` | `store_feedback` as an append to a feedback log |
| listings.dfy | `Listings` | joining recommender scores onto listings, set-union of reasons, re-sorting |
| management.dfy | `Management` | `safe_company`, the export eligibility gates, `_extract_skills`, `list_visible_placement_notices` |
| events.dfy | `Events` | `_parse_dt`, the date and form-schema checks of `create_event` |
| registrations.dfy | `Registrations` | `register_for_event` and `mark_event_attendance` as outcome functions over the stored registrations |
| event_store.dfy | `EventStore` | the registration store as a class whose methods realise those outcomes, and the attendance report |
| resume.dfy | `Resume` | the JSON value type (`Resume.Json`) the sanitisers read, `_safe_str_list` and `_to_resume_analysis_result` |
| student.dfy | `StudentRoutes` | `get_student_placement_status` and `realtime_opportunities` |
| chat.dfy | `Chat` | participant keys in `chat_send`, the other-participant split in `chat_threads` |
| ai_coach.dfy | `AiCoach` | fence stripping and replies of `start_interview_prep` and `get_interview_tips`, prompt phrases |
| gemini_advantage.dfy | `GeminiAdvantage` | fenced-block extraction in `strategic_preparation`, `generate_cover_letter`, prompt truncations |

`backend/app/main.py` holds copies of `_safe_str_list`, `_to_resume_analysis_result`,
`_parse_dt`, `_normalize_allowed_departments` and `_parse_departments_csv`. Those copies
have the same text as the router versions, so each is modelled once.

## Model

| member | source | states |
|---|---|---|
| Text.Strip | backend/app/main.py:462 | `str.strip()`: the result is no longer than the input, has no leading or trailing whitespace, and holds only characters of the input |
| Text.StripExact | backend/app/main.py:462 | `str.strip()` is the slice of the input left after removing a whitespace-only prefix and a whitespace-only suffix |
| Text.StripIdempotent | backend/app/main.py:462 | stripping twice is stripping once |
| Text.StripLowerCommute | backend/app/routers/events.py:207-208 | trimming then lower-casing equals lower-casing then trimming |
| Text.Find | backend/app/gemini_advantage.py:128-129 | `str.find(p, start)` is the first occurrence at or after `start`, or -1 when there is none |
| Text.Take | backend/app/routers/chat.py:92 | `s[:n]` is a prefix of `s` with exactly `n` elements when `s` is longer, and all of `s` otherwise |
| Text.SplitJoin | backend/app/routers/management.py:100 | joining the pieces of `split(c)` with `c` gives back the string |
| Text.JoinSplit | backend/app/gemini_advantage.py:171-176 | splitting a `join` of pieces free of `c` gives back the pieces |
| Text.SplitFirst | backend/app/routers/chat.py:36 | `split(":", 1)` gives a head without ':' that, joined to the tail with ':', rebuilds the string |
| Text.AfterLast | backend/app/routers/management.py:31 | `split("@")[-1]` is the suffix after the last separator and contains none |
| Text.AfterLastIsLastPiece | backend/app/routers/management.py:31 | the last piece of `split` is that suffix |
| Text.StripChar | backend/app/routers/management.py:300 | `strip("_")` is the slice left after removing a prefix and a suffix made only of '_'; it neither starts nor ends with '_', and keeps a string that already does not |
| Text.StrLessTotal | backend/app/routers/chat.py:74-77 | string order is total |
| Text.StrLessAsymmetric | backend/app/routers/chat.py:74-77 | string order is asymmetric |
| Access.AllowedDomainIff | backend/app/routers/management.py:30-32 | an address is allowed iff its domain, lower-cased, is "kongu.edu" or "kongu.ac.in" |
| Access.AllowedDomainWithoutAt | backend/app/routers/management.py:30-32 | with no '@' the whole string is tested as the domain |
| Access.RequireRole | backend/app/main.py:391-393 | `_require_role` fails iff the trimmed, lower-cased actual role differs from the expected one, with the message "Role must be ...." |
| Access.RequireRoleUpperNeverMet | backend/app/main.py:391-393 | an expected role with an upper-case letter is never met, since only `actual` is normalised |
| Departments.StrippedNonBlankMembers | backend/app/main.py:462 | the kept entries are exactly the trimmed non-blank inputs |
| Departments.NormalizeAllowedDepartments | backend/app/main.py:461-465 | entries trimmed and non-empty; an "all"/"*" entry empties the list; the second list is the element-wise lower case of the first |
| Departments.NormalizeIdempotent | backend/app/main.py:461-465 | normalising a normalised list changes nothing |
| Departments.WildcardOpensList | backend/app/routers/events.py:88-91 | one wildcard entry anywhere opens the event to everyone |
| Departments.ParseDepartmentsCsv | backend/app/main.py:468-476 | None or blank gives []; a wildcard gives ["all"]; otherwise the trimmed non-blank comma-separated parts |
| Departments.ParsedHaveNoCommas | backend/app/routers/management.py:92-100 | no parsed department contains a comma |
| Departments.ParseThenNormalize | backend/app/routers/management.py:410-411 | normalising a parsed list empties it exactly when it holds a wildcard, and otherwise keeps it |
| Departments.WildcardCsvOpensList | backend/app/routers/management.py:410-411 | a wildcard form value ends as an open allow-list |
| Features.NormalizeSkillIdempotent | backend/ml/features.py:5 | normalising a skill twice is normalising once |
| Features.CleanSkills | backend/ml/features.py:2-5 | exactly the normal forms of the input skills (so empty input gives the empty set); every element is normalised |
| Features.CleanSkillsOfNormalized | backend/ml/features.py:2-5 | cleaning pre-normalised skills gives the same set |
| Features.SkillMatch | backend/ml/features.py:7-14 | the ratio lies in [0, 1] and is 0 when either list is empty |
| Features.SkillMatchFullCoverage | backend/ml/features.py:10-14 | every required skill covered gives 1.0 |
| Features.SkillMatchNoOverlap | backend/ml/features.py:10-14 | disjoint skill sets give 0.0 |
| Features.SkillMatchIgnoresCaseAndSpace | backend/ml/features.py:5-14 | case and surrounding whitespace of skills never change the ratio |
| Features.BuildFeatures | backend/ml/features.py:16-26 | four entries: the skill ratio, 1 iff the lower-cased branches agree, 1 iff the year reaches the minimum, the resume score defaulting to 0.5 |
| Predict.Score | backend/ml/predict.py:20-24 | the classifier's probability, or exactly 0.5 when it raised; always in [0, 1] |
| Predict.Reasons | backend/ml/predict.py:29-32 | two reasons: "High skill match" iff the ratio exceeds 0.6, "Eligible year" iff the year feature is 1; the two differ |
| Predict.Entry | backend/ml/predict.py:17-33 | an entry carries its opportunity's id, a score in [0, 1] and two distinct reasons |
| Predict.Recommend | backend/ml/predict.py:11-36 | the result is exactly the stable descending sort of one entry per opportunity: a permutation of those entries, sorted by score non-increasing, stable among equal scores, with the opportunity ids as a multiset |
| Predict.RankedEntries | backend/ml/predict.py:36 | sorting the entries keeps equal-score order and the multiset of ids |
| Predict.RecommendKeepsIds | backend/ml/predict.py:14-33 | every opportunity has an entry with its id, and there are as many entries as opportunities |
| Predict.EntryReasonsMeaning | backend/ml/predict.py:29-32 | the reasons in terms of the student and opportunity: skill ratio above 0.6, year at least the minimum |
| Predict.ReasonsIgnoreClassifier | backend/ml/predict.py:29-32 | the reasons do not depend on the classifier, only on the features |
| Ranking.SortDesc | backend/ml/predict.py:36 | `sorted(..., reverse=True)`: a permutation, sorted non-increasing |
| Ranking.SortDescStable | backend/ml/predict.py:36 | for each score, the elements with that score keep their input order |
| Ranking.ProjectPermutation | backend/ml/predict.py:36 | a permutation of records permutes their ids |
| Ranking.StableSortUnique | backend/ml/predict.py:36 | two lists sorted by the key non-increasing that hold, for every key value, the same elements in the same order are equal |
| Ranking.SortDescUnique | backend/ml/predict.py:36 | any sorted list that keeps each key's elements in input order is the result of the stable descending sort, so that sort is determined |
| Feedback.FeedbackValue | backend/ml/feedback.py:10 | 1 iff the action is exactly "applied", "liked" or "clicked", else 0 |
| Feedback.MakeRecord | backend/ml/feedback.py:12-18 | the record carries email, opportunity id and action unchanged, the value rule and the given time |
| Feedback.FeedbackLog.StoreFeedback | backend/ml/feedback.py:4-21 | appends exactly one record to the log, leaves earlier records untouched, returns true |
| Feedback.StoreCountsLabel | backend/ml/feedback.py:10-20 | an append raises the number of positive records by the new record's value |
| Listings.Dedup | backend/app/routers/management.py:220 | `list(set(xs))`: the same elements, each once |
| Listings.DedupOfDistinct | backend/app/routers/management.py:220 | a duplicate-free list is kept as it is |
| Listings.RecMap | backend/app/routers/management.py:212 | the id-to-recommendation map covers every recommendation, maps each id to one carrying it, the last one winning |
| Listings.RecMapDistinct | backend/app/routers/management.py:212 | with distinct ids each recommendation is found under its id |
| Listings.Enhance | backend/app/routers/management.py:216-221 | with a recommendation: its score and the duplicate-free union of reasons; without: the item unchanged |
| Listings.EnhanceAll | backend/app/routers/management.py:214-221 | one enhanced item per item, in order |
| Listings.MergeAndRank | backend/app/routers/management.py:211-223 | exactly the stable descending sort by score of the items enhanced from the recommendation map: a permutation, sorted non-increasing, stable, with the item ids as a multiset |
| Listings.RecMapAt | backend/app/routers/management.py:211-212 | with distinct opportunity ids, the map built from the recommender's output holds, under each opportunity's id, the entry computed for that opportunity |
| Listings.MergedListing | backend/app/routers/management.py:211-223 | when the listings and the recommender inputs share distinct ids, each listing appears in the ranking with its own id and fields, the recommender's score for it, and as reasons exactly the union, without duplicates, of its own reasons and the recommender's |
| Listings.RankedListings | backend/app/routers/management.py:223 | sorting the enhanced items keeps equal-score order and the id multiset |
| Listings.MergeCoversAll | backend/app/routers/management.py:212-223 | when every item has a recommendation, every ranked item carries its score and all its reasons |
| Listings.MergeScoresFromEntries | backend/app/routers/student.py:197-211 | when the items and the recommender inputs share ids, every ranked item's score is the recommender's score for that id |
| Management.Underscored | backend/app/routers/management.py:300 | every character the alphanumeric class rejects becomes '_', every other character stays in place |
| Management.SafeCompany | backend/app/routers/management.py:300 | "company" for a missing or empty name; otherwise exactly the underscored name with its leading and trailing '_' removed, so only alphanumerics and '_' and no '_' at either end |
| Management.SafeCompanyKeepsMiddle | backend/app/routers/management.py:300 | only '_' is cut: the result is a slice of the underscored name that keeps everything from its first to its last alphanumeric character |
| Management.SafeCompanyIdempotent | backend/app/routers/management.py:300 | sanitising a non-empty sanitised name changes nothing |
| Management.AlnumNameKept | backend/app/routers/management.py:300 | an alphanumeric name is kept as it is |
| Management.SafeCompanyHeaderSafe | backend/app/routers/management.py:300-302 | the name can hold no '"' and no '/', so it cannot break the quoted file name |
| Management.EligibleRowsExact | backend/app/routers/management.py:260-291 | a student is exported iff all three gates pass |
| Management.MissingCgpaExcluded | backend/app/routers/management.py:269-273 | with a CGPA minimum set, a student whose CGPA is missing or unparsable is not exported |
| Management.FilterEligible | backend/app/routers/management.py:260-291 | the export loop with its `continue` skips computes the eligible rows in student order |
| Management.ExportEligibleStudents | backend/app/routers/management.py:227-291 | succeeds iff domain, database, role and notice ownership pass, and then yields exactly the eligible rows |
| Management.ResourceLabels | backend/app/routers/management.py:197-202 | fails iff some resource has a label that is present but not a string (the `.lower()` call raises); otherwise one lower-cased label per resource, "" when missing |
| Management.ExtractSkills | backend/app/routers/management.py:197-202 | `_extract_skills` appends the lower-cased labels in order and stops with a failure at an unreadable label |
| Management.PlacementFeatures | backend/app/routers/management.py:190-209 | the branch feature is always 1; the year feature is 1 iff the year (default 3) reaches the minimum (default 1) |
| Management.ListVisiblePlacementNotices | backend/app/routers/management.py:158-224 | succeeds iff domain, database, role, student lookup pass, the profile's CGPA and arrears convert with `float`/`int`, and every label is readable (an unconvertible value or an unreadable label is a 500 answer); then the notices are exactly the merged ranking: every notice once, sorted by score, with duplicate-free reasons and the recommender's score for its id |
| Management.VisibleNoticeOfDoc | backend/app/routers/management.py:204-223 | with distinct notice ids, each notice appears in the ranking with its own fields, the recommender's score, and as reasons exactly the union of its own and the recommender's |
| Management.VisibleOutcome | backend/app/routers/management.py:211-223 | the ranked notices carry the notice ids as a multiset and each the recommender's score |
| Management.VisibleScores | backend/app/routers/management.py:211-223 | each ranked notice's score is the recommender's entry for a notice with its id |
| Events.ZuluToOffset | backend/app/routers/events.py:44-45 | a trailing "Z" becomes "+00:00"; other strings are unchanged |
| Events.ParseDt | backend/app/routers/events.py:40-46 | blank input fails; otherwise the trimmed text, with "Z" rewritten, is parsed |
| Events.ZuluSameInstant | backend/app/routers/events.py:44-46 | "...Z" and "...+00:00" denote the same instant, for any text |
| Events.ZuluParsed | backend/app/main.py:377-383 | text without leading whitespace ending in "Z" reaches the parser as the same text ending in "+00:00" |
| Events.EventDates | backend/app/routers/events.py:80-86 | accepted iff the start parses and the end is absent, empty, or parses to no earlier than the start; otherwise one of the two messages |
| Events.SchemaErrorIff | backend/app/routers/events.py:93-101 | the schema is accepted iff the keys are distinct and every select field has options |
| Events.ValidateFormFields | backend/app/routers/events.py:94-101 | the `seen_keys` loop returns the first schema error, or none |
| Events.CreateEvent | backend/app/routers/events.py:67-116 | succeeds iff domain, database, role, manager, dates and schema pass; stores the dates in order and the normalised allow-list |
| Registrations.FieldError | backend/app/routers/events.py:217-228 | no error iff the trimmed key is blank, or else a required field has a non-blank answer and a non-blank select answer is one of the trimmed options; an error is one of the two messages naming the label |
| Registrations.AnswersErrorIff | backend/app/routers/events.py:214-228 | no error iff every field is acceptable; otherwise the error of the first unacceptable field |
| Registrations.AdmittedByNormalizedList | backend/app/routers/events.py:207-212 | for a list stored by `create_event`, a student is admitted iff the list is open or names the department, ignoring case and padding |
| Registrations.RegisterCheckIff | backend/app/routers/events.py:192-228 | the request checks pass iff domain, role, event, student, department and answers are all acceptable |
| Registrations.FindRegistration | backend/app/routers/events.py:340-342 | the index of a registration for the event and student, present iff the student is registered |
| Registrations.RegisterSucceedsIff | backend/app/routers/events.py:191-250 | registration succeeds iff the request is acceptable, the id valid, the student not yet registered and the insert succeeds; it then appends exactly one registration and otherwise changes nothing |
| Registrations.RegisterTwiceRejected | backend/app/routers/events.py:235-236 | a second registration for the same event and student is rejected and changes nothing |
| Registrations.RegisterKeepsUnique | backend/app/routers/events.py:235-248 | at most one registration per event and student is kept |
| Registrations.ResolveStudentCases | backend/app/routers/events.py:326-338 | an identifier with '@' is the e-mail; otherwise the roll-number lookup, then the answer lookup; it fails iff both find nothing |
| Registrations.ToggleTouchesOne | backend/app/routers/events.py:344-354 | the toggle changes only the found registration's flag and stamp; an already matching flag is success with nothing written; otherwise the new flag and stamp are written iff the write succeeds, and the answer succeeds iff it is written |
| Registrations.AttendanceTouchesOne | backend/app/routers/events.py:307-354 | marking attendance changes at most the target's registration, and a failed call changes nothing |
| Registrations.AttendanceSucceedsIff | backend/app/routers/events.py:307-354 | success iff the checks pass, the student resolves and is registered, and the flag already matches or the write succeeds |
| Registrations.AttendanceIdempotent | backend/app/routers/events.py:344-347 | repeating a successful marking succeeds again and changes nothing |
| Registrations.AttendanceKeepsUnique | backend/app/routers/events.py:349-354 | marking attendance keeps registrations unique per event and student |
| EventStore.CheckField | backend/app/routers/events.py:217-228 | the loop body's checks give exactly the field's error |
| EventStore.CheckAnswers | backend/app/routers/events.py:216-228 | the answer loop with early returns gives the first field error |
| EventStore.ResolveIdentifier | backend/app/routers/events.py:326-338 | the lookup chain gives the resolved e-mail or the not-found message |
| EventStore.EventRegistrations.Register | backend/app/routers/events.py:191-250 | the store and the response after one call are the registration outcome of the old store |
| EventStore.EventRegistrations.MarkAttendance | backend/app/routers/events.py:307-354 | the store and the response after one call are the attendance outcome of the old store |
| EventStore.EventRegistrations.ToggleAt | backend/app/routers/events.py:344-354 | the check-then-write on the stored flag |
| EventStore.BuildRow | backend/app/routers/events.py:386-397 | five fixed cells then one answer per field; the Attended cell is "YES" iff present |
| EventStore.AttendanceReport | backend/app/routers/events.py:378-397 | the header is the five fixed columns plus each field's label or key; one row per registration, each as long as the header |
| EventStore.DownloadAttendanceReport | backend/app/routers/events.py:357-397 | a wrong role is reported first; the report is produced iff the role, the event, its manager and the id pass, with the field header and, for each registration in order, its row: the fixed cells and one answer per field key |
| Resume.CleanStrings | backend/app/routers/student.py:93-100 | every kept element is non-empty and trimmed |
| Resume.SafeStrList | backend/app/main.py:243-250 | the append loop yields the trimmed non-blank strings of a list, and [] for anything else |
| Resume.CleanStringsMembers | backend/app/routers/student.py:97-99 | an output element is exactly the trimmed form of a non-blank string element |
| Resume.CleanStringsConcat | backend/app/routers/student.py:97-99 | the filter works element by element, so order is kept |
| Resume.CleanStringsIdempotent | backend/app/routers/student.py:93-100 | sanitising a sanitised list changes nothing |
| Resume.OptionalText | backend/app/main.py:274-284 | None unless a string that is non-blank, and then its trimmed form |
| Resume.StripOrEmpty | backend/app/main.py:260-261 | `(x or "").strip()` raises exactly for a truthy non-string |
| Resume.ImprovementOf | backend/app/main.py:257-265 | a non-object is skipped; an object raises iff its area or recommendation is a truthy non-string; it is kept iff both read as non-empty, and then holds exactly those trimmed strings and the optional example |
| Resume.ImprovementKeptIff | backend/app/main.py:260-265 | with string fields, an improvement is kept iff area and recommendation are both non-blank |
| Resume.ImprovementsRaiseIff | backend/app/main.py:256-265 | the loop raises iff some element raises |
| Resume.ImprovementsKeptSound | backend/app/main.py:256-265 | every kept improvement comes from an element kept on its own |
| Resume.ImprovementsKeptComplete | backend/app/main.py:256-265 | every element kept on its own is in the output |
| Resume.SanitizeImprovements | backend/app/main.py:254-265 | the improvements loop over a list, and [] for anything else |
| Resume.Trunc | backend/app/main.py:269 | `int()` of a float truncates toward zero |
| Resume.ParseIntLiteral | backend/app/main.py:269 | reading back a written integer gives the integer |
| Resume.FitScore | backend/app/main.py:267-272 | in [0, 100]; 0 when `int()` raises; otherwise the value clamped to [0, 100] |
| Resume.FitScoreInRange | backend/app/routers/student.py:116-121 | an integer in [0, 100], given as a number or as text, is kept |
| Resume.ToResumeAnalysisResult | backend/app/routers/student.py:102-145 | fails iff an improvement raises; otherwise the clamped score, the optional texts, the sanitised lists, and the kept improvements ([] when `improvements` is not a list) |
| StudentRoutes.NotifiedAt | backend/app/routers/student.py:333 | the round's upload time when set, else the notice's creation time, else "None" |
| StudentRoutes.CollectSelections | backend/app/routers/student.py:322-334 | the nested loops collect one record per (notice, round) selecting the student |
| StudentRoutes.GetStudentPlacementStatus | backend/app/routers/student.py:308-336 | another caller is refused; succeeds iff the caller asks for themselves as a student; then the selections |
| StudentRoutes.RoundSelectionsMembers | backend/app/routers/student.py:325-334 | a record is present iff some round lists the e-mail and it is that round's record |
| StudentRoutes.EveryRoundSelected | backend/app/routers/student.py:325-334 | when every round selects the student, there is one record per round, in round order |
| StudentRoutes.SelectionsConcat | backend/app/routers/student.py:324-334 | records follow notice order |
| StudentRoutes.UnrelatedNoticeIgnored | backend/app/routers/student.py:321-334 | a notice that never selects the student adds no record |
| StudentRoutes.RtId | backend/app/routers/student.py:40 | "rt-" followed by the extractor id |
| StudentRoutes.RtIdInjective | backend/app/routers/student.py:191 | distinct extractor ids give distinct listing ids |
| StudentRoutes.RealtimeFeatures | backend/app/routers/student.py:183-195 | the branch feature is always 1; the year feature is 1 iff the year (default 3) is at least 1 |
| StudentRoutes.SameIds | backend/app/routers/student.py:190-208 | items and recommender inputs carry the same ids, in the same order |
| StudentRoutes.GetRealtimeOpportunities | backend/app/routers/student.py:148-230 | succeeds iff caller, domain, database, user and extraction pass; then exactly the merged ranking: one item per extracted opportunity, sorted by score, with duplicate-free reasons and the recommender's score |
| StudentRoutes.RealtimeItemOf | backend/app/routers/student.py:190-211 | with distinct extracted ids, each opportunity appears in the ranking under its `rt-` id with its own fields, the recommender's score, and as reasons exactly the union of its own and the recommender's |
| Chat.SortedPair | backend/app/routers/chat.py:74-77 | `sorted` of two strings: both, in non-decreasing order |
| Chat.ParticipantsSymmetric | backend/app/routers/chat.py:74-77 | a reply stores the same participants as the message it answers |
| Chat.ChatSend | backend/app/routers/chat.py:66-95 | succeeds iff both domains are allowed and the database is up; stores the sorted lower-cased keys and the first 500 characters as preview |
| Chat.FirstOtherFrom | backend/app/routers/chat.py:33 | the first participant whose lower case differs from the caller's key |
| Chat.ThreadOf | backend/app/routers/chat.py:30-44 | skipped iff there is no other participant or it has no ':'; otherwise role and e-mail rebuild the key, the role has no ':' |
| Chat.Threads | backend/app/routers/chat.py:29-44 | at most one entry per thread document |
| Chat.ThreadsConcat | backend/app/routers/chat.py:29-44 | the entries follow document order |
| Chat.ChatThreads | backend/app/routers/chat.py:22-45 | succeeds iff the domain is allowed and the database is up; the loop collects the entries of the documents in order |
| Chat.SplitFirstOfJoin | backend/app/routers/chat.py:36 | splitting at the first ':' undoes joining at a ':' |
| Chat.SendThenList | backend/app/routers/chat.py:74-77 | in a thread `chat_send` stored, the sender sees the recipient's lower-cased role and e-mail |
| AiCoach.SkillsPhrase | backend/app/ai_coach.py:65 | the fallback phrase when there are no skills |
| AiCoach.SkillsPhraseIgnoresRest | backend/app/ai_coach.py:65 | skills past the limit never reach the prompt |
| AiCoach.OptionalPhrase | backend/app/ai_coach.py:66 | the target phrase is empty iff no target role is given; otherwise it holds the role |
| AiCoach.DropPrefix | backend/app/ai_coach.py:144-147 | the prefix and the result rebuild the text when it starts with the prefix |
| AiCoach.DropSuffix | backend/app/ai_coach.py:148-149 | the result and the suffix rebuild the text when it ends with the suffix |
| AiCoach.StripFences | backend/app/ai_coach.py:143-150 | the reassignments compute the fence rule |
| AiCoach.UnfenceIsPiece | backend/app/ai_coach.py:143-150 | the stripped result is a contiguous piece of the answer |
| AiCoach.UnfenceNoFence | backend/app/ai_coach.py:143-150 | with no leading or trailing fence the answer is only trimmed |
| AiCoach.UnfenceJsonBlock | backend/app/ai_coach.py:143-150 | the body of a block fenced by three backticks tagged json is recovered, trimmed |
| AiCoach.UnfencePlainBlock | backend/app/ai_coach.py:143-150 | the body of a block fenced by plain three-backtick fences is recovered, trimmed |
| AiCoach.InterviewPrepReply | backend/app/ai_coach.py:130-157 | no choice and an empty answer are errors without parsing; otherwise the unfenced answer parsed, or its first 500 characters as raw |
| AiCoach.InterviewTipsReply | backend/app/ai_coach.py:212-234 | an empty choice list raises, an empty answer is an error; otherwise the unfenced answer parsed, or a single tip of at most 500 characters |
| GeminiAdvantage.BlockEnd | backend/app/gemini_advantage.py:129 | the next three-backtick fence after the start, or the end of the text |
| GeminiAdvantage.ExtractBlock | backend/app/gemini_advantage.py:127-134 | text without a fence is left unchanged |
| GeminiAdvantage.StrategicContent | backend/app/gemini_advantage.py:127-134 | the reassignments compute the corrected extraction |
| GeminiAdvantage.JsonBlockFinds | backend/app/gemini_advantage.py:128-129 | the two `find` calls locate the opening and closing fences of a json-tagged block |
| GeminiAdvantage.PlainBlockFinds | backend/app/gemini_advantage.py:132-133 | the two `find` calls locate the fences of a plain block |
| GeminiAdvantage.ExtractJsonBlock | backend/app/gemini_advantage.py:127-130 | the trimmed body of the first json-tagged block, as written and corrected |
| GeminiAdvantage.ExtractPlainBlock | backend/app/gemini_advantage.py:131-134 | without a json-tagged fence, the trimmed body of the first plain-fenced block |
| GeminiAdvantage.ExtractJsonUnclosed | backend/app/gemini_advantage.py:127-130 | an unclosed json-tagged block yields its whole trimmed body |
| GeminiAdvantage.AsWrittenUnclosedDropsLast | backend/app/gemini_advantage.py:128-130 | as written, an unclosed block loses its last character |
| GeminiAdvantage.AsWrittenUnclosedExample | backend/app/gemini_advantage.py:128-130 | as written, a json-tagged fence followed by "{}" and no closing fence yields "{" where "{}" is intended |
| GeminiAdvantage.StrategicPreparationReply | backend/app/gemini_advantage.py:112-141 | no choice and an empty answer are errors; otherwise the extracted block parsed, or returned raw |
| GeminiAdvantage.CoverLetterReply | backend/app/gemini_advantage.py:217-245 | no choice and an empty answer are errors; otherwise the unfenced answer parsed, or a draft holding it |
| GeminiAdvantage.ProjectsBlock | backend/app/gemini_advantage.py:171-174 | "No projects listed" when there are none |
| GeminiAdvantage.ProjectsBlockLines | backend/app/gemini_advantage.py:171-174 | at most three lines, one per project, each "- title: " plus at most 100 characters of description |
| GeminiAdvantage.AchievementsBlock | backend/app/gemini_advantage.py:176 | "No achievements listed" when there are none |
| GeminiAdvantage.AchievementsBlockLines | backend/app/gemini_advantage.py:176 | at most three lines, "- " plus each of the first achievements |
| GeminiAdvantage.JobExcerpt | backend/app/gemini_advantage.py:185 | a prefix of the job description of at most 1500 characters, exactly 1500 when it is longer |

## Left out

- MongoDB: every repository call is a parameter. The lookups (event, student, manager, notice, roll number, answer value), the validity of an `ObjectId`, the success of an insert or update, and the attendance time the repository stamps are passed in. `find` cursors become sequences of documents.
- `mongodb_ok()` in `register_for_event` and `mark_event_attendance` is not modelled: those outcomes assume a connected database. The other modelled routes take it as a flag.
- The classifier (`predict_proba`, the joblib model) is a function from the feature vector to a probability or to failure. `round(score, 3)` is not modelled, since it is float rounding.
- Floats are Dafny `real`; IEEE behaviour, NaN and infinities are not modelled.
- `json.loads` and the HTTP calls to the language-model service are parameters: `parse` gives the decoded value or `None`, and the answer text arrives as the list of choice contents. The exceptions those calls raise, logging, and the prompt wording beyond the modelled truncations are not modelled.
- Prompt pieces: `name`, `job_title`, `difficulty` and the `user_profile` defaults only feed prompt text and are not modelled.
- PDF extraction, file uploads, the CSV writer and `StreamingResponse` are not modelled. The report is its header and rows; the export is its identifying columns.
- Time: `datetime.fromisoformat`, `datetime.now` and `_iso` are parameters or opaque instants; time zones are not modelled.
- `chat_messages`, `make_thread_id` and the repository upserts of `chat_send` are not part of this model.
- Predict.Score: the score is the unrounded probability, because `round(..., 3)` is left out.
- Listings.Dedup: `list(set(xs))` has no specified order; the model keeps first occurrences, which is one of the orders Python may produce, and its contract promises only the elements.
- Text.Lower: lower-cases ASCII letters only; Python's Unicode case mapping is not modelled.
- Resume.ParseInt: accepts surrounding whitespace, an optional sign and ASCII digits; underscores between digits and non-ASCII digits, which `int()` also accepts, are read as failures.
- Resume.StripOrEmpty: values of other JSON types are not converted with `str()`; a truthy non-string is the case that raises.
- Features.BuildFeatures: branch, year and resume score arrive already typed; the `str()`, `int()` and `float()` conversions and the exceptions they raise are not modelled.
- Chat.ChatSend: returns the participants and the preview that would be stored, not the thread id, since `make_thread_id` is not part of this model.
- Chat.Threads: its own contract bounds only the length; order and skips are stated by Chat.ThreadsConcat and Chat.ThreadOf.
- Chat.ThreadOf: the timestamp is converted by the `iso` parameter when present; non-datetime values of `updatedAt` are represented as absent.
- AiCoach.SkillsPhrase: its own contract states only the fallback; the limit is stated by AiCoach.SkillsPhraseIgnoresRest.
- AiCoach.InterviewPrepReply: the `session_title` "Error" that accompanies every error reply is implied by the constructor, not stored.
- GeminiAdvantage.ExtractBlock: its own contract states only the no-fence case; the block cases are stated by the lemmas below it, for text whose part before the fence and whose body hold no backtick.
- GeminiAdvantage.ProjectsBlock: the block lines are stated for titles and descriptions without line breaks.
- StudentRoutes.GetRealtimeOpportunities: the extractor is a parameter holding its list or its error message; the Groq and web-search flags of the response are not modelled.
- GeminiAdvantage.StrategicContent: computes the corrected extraction; for a json-tagged fence with no closing fence the code as written drops the answer's last character (see Findings), which GeminiAdvantage.ExtractAsWritten models.
- GeminiAdvantage.StrategicPreparationReply: parses the corrected extraction, so an unclosed json fence over valid JSON parses here, where the code as written has already reassigned the content to the truncated slice, so `json.loads` fails and the reply falls back to that truncated text as `raw_response`.
- Management.Underscored: which non-ASCII characters count as alphanumeric is the `alnum` parameter, constrained only to agree with `str.isalnum` on ASCII; the Unicode letter and digit tables are not modelled.
- Registrations.ResolveStudentCases: the case-insensitive roll-number query and the answer-value query are repository lookups, passed in as their results.

## Findings

| source | as written | input that shows it | evidently intended | confidence | as-written member | corrected member |
|---|---|---|---|---|---|---|
| backend/app/gemini_advantage.py:128-130 | when no closing fence follows the json-tagged opening fence, `find` returns -1 and the slice `[json_start:-1]` drops the last character of the answer | a json-tagged opening fence followed by "{}" gives "{", which `json.loads` rejects | the text up to the end of the answer, "{}" | not executed | GeminiAdvantage.AsWrittenUnclosedExample | GeminiAdvantage.ExtractJsonUnclosed |

The same slice appears for a plain-fenced block at backend/app/gemini_advantage.py:132-133.
`GeminiAdvantage.ExtractAsWritten` models the code as written; `GeminiAdvantage.ExtractBlock`
ends the block at the end of the text when no closing fence follows. The rest of the model
uses the corrected function.
