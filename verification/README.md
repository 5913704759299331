# Verified models of Robonix test-bench and service algorithms

Dafny 4.11 models of six algorithmic parts of Robonix, with proofs of what each of them is for.
`dafny verify dfyconfig.toml` checks everything.

| files | part of the system |
|---|---|
| `Assignment.dfy`, `Sums.dfy` | the minimum-cost assignment solver of the scene benchmark: a potential-based Hungarian method working in place on arrays |
| `Matching.dfy`, `CostMatrix.dfy`, `SceneObjects.dfy`, `PositionMatching.dfy`, `SemanticMatching.dfy` | the two associations of detections with simulator targets, each reduced to one assignment |
| `SemanticInventory.dfy` | the report made from the semantic association: matches, misses, duplicates, ghosts |
| `ClearanceMap.dfy` | goal candidates of the navigation stress run: a breadth-first distance transform and a clearance filter |
| `CivilTime.dfy` | Unix seconds to a UTC date-time text in the build script of `rbnx` |
| `TtsSplit.dfy`, `PcmFraming.dfy`, `TtsCache.dfy` | the speech service: splitting text into provider requests, re-framing audio streams, the bounded prompt cache |
| `EnrolledStore.dfy` | the voiceprint store: unique enrolment, deletion, identification, rollback of failed saves |
| `FirstFit.dfy`, `ScenarioCheck.dfy`, `HistoryProgress.dfy` | the scenario harness: serving expectations first come, first served; matching expected steps to planning rounds; the fake VLM's progress through a scenario |

Code that updates variables in loops is modelled by methods with loops over arrays, sequences or fields, proved
against specifications; the calendar arithmetic, which is one chain of expressions, is modelled by functions.
`Options.dfy` holds the option type, `Arithmetic.dfy` facts about products and quotients.

## Main results

* **Assignment.** For every square matrix of exact costs of any sign the solver returns a permutation no
  dearer than any other, after a cubic number of column visits. After every outer phase the partial matching
  is already cheapest among all placements of the inserted rows, and minus the artificial column's potential is
  its cost.
* **Association.** A cheapest assignment never uses an inadmissible cell, so the filters after it drop nothing.
  The position-only association finds the most matches, then the least total of distance over radius; the
  semantic one the most admissible pairs, then the most equivalent labels, then the least normalised error.
  Optimality is over all partial one-to-one matchings. The documented least total distance is met on every
  scene exactly when all association radii are equal.
* **Report.** Every detection that is not missing, not the robot and has a centre is counted exactly once; every
  target near a duplicate is matched already; a ghost has no target it could match; the true positives number
  the filled per-target entries exactly when no unmatched target shares its identity with a matched one.
* **Clearance.** The distance transform is the exact nearest Manhattan distance. The documented promise that
  candidates keep `clearance_m` metres is not true of the code in general; the exact condition under which it
  holds on every map is proved in both directions. No cell that far away is missed.
* **Calendar.** For every number of seconds the conversion yields a valid proleptic Gregorian date-time that counts
  back to the same seconds, agrees with the calendar's own next-day rule, is strictly increasing and onto, and
  overflows no 64-bit integer. Reading the text back gives the seconds; texts with four-digit years sort as their
  instants.
* **Speech.** Both splitters conserve the text within the limit; the hard one uses the fewest possible pieces; the
  natural one first tries the last usable sentence break, then the last usable clause break, then a window. A
  bound on separator runs, shown to be sharp, makes acceptance depend on the length alone. Frames depend on
  the bytes of a stream alone. The cache is always the longest affordable suffix of what was inserted.
* **Voiceprint store.** Over every run with failing saves and restarts, memory and file hold the same users,
  pairwise distinct in id, name and voice, so a stored non-zero voice is recognised as its owner's. A user is
  enrolled exactly when no stored one has the id, the non-empty name or a voice at the threshold.
* **Harness.** Taking the earliest fitting round reports no unmatched step exactly when the steps embed into the
  rounds in order. Within a round or step, first come, first served finds a one-to-one correspondence whenever
  there is one exactly when of two expectations that share a leaf result the later accepts all the earlier does
  (or one accepts nothing). Later leaf results never move the fake VLM backwards or change what a step consumed.

## Where code and documentation differ

The models follow the code.

* `match_objects_one_to_one` documents the least "total center distance"
  (`testing/scene_quality_ground_truth.py:876-877`) but minimises the total of distance over association radius
  (lines 912-916). With radii 1 and 2 and distances 0.9 and 1.0 it takes the pair at 1.0
  (`TotalDistanceCounterexample`); the two agree on every scene exactly when all radii are equal
  (`TotalDistanceExactly`).
* `candidates` documents free cells at least `clearance_m` from any occupied or unknown cell
  (`testing/nav_stress.py:124`). It counts Manhattan steps, so diagonal candidates may be nearer, down to
  `clearance_m / sqrt(2)`; the default of 0.2 m on a 0.05 m map is an instance. And a map without any blocked cell
  yields no candidate, unless the clearance is at or below minus one cell.

## Modelling choices

Costs, distances, similarities and clearances are exact reals, and infinity is a separate constructor. Distances,
volumes, label judgments, the cosine similarity, argument and output assertions and the speech backend are inputs;
about distances only that they are not negative is used, and for the comparison with plain distances that they
are differences along the first axis, as Euclid's are; about the cosine that it is symmetric and 1
between a non-zero embedding and itself. Labels are taken as already stripped and lower-cased. Association radii
are positive, as the loaders enforce (`testing/scene_quality_ground_truth.py:575-577`, `758-760`). An occupancy grid has
width times height cells. Nothing is assumed about call ids, which the harness does not check to be distinct.
Characters are classified as content, sentence break, clause break or other separator;
every break is itself a separator. A save either replaces the whole file or leaves it as it was.

## Model

| member | source | states |
|---|---|---|
| Assignment.MinimumCostAssignment | testing/scene_quality_ground_truth.py:947-1004 | a ragged matrix is refused; otherwise the columns form a permutation whose cost no other permutation undercuts, found with at most n(n+1)(n+1) column visits, counted in the loops |
| Assignment.PhaseOptimal | testing/scene_quality_ground_truth.py:965-999 | after each outer phase the partial matching is cheapest among all placements of the inserted rows in distinct columns, and -v[0] is its cost |
| Assignment.CostFromDuals | testing/scene_quality_ground_truth.py:980-988 | feasible potentials bound the cost of every placement from below, with equality on cells without slack |
| Assignment.DualBound | testing/scene_quality_ground_truth.py:961-964 | -v[0] bounds every placement of the inserted rows, and is reached by tight ones that leave only weightless columns free |
| Assignment.RelaxColumns | testing/scene_quality_ground_truth.py:974-983 | in n visits every unused column takes the new row's slack if strictly smaller, and the first least margin is selected |
| Assignment.ShiftPotentials | testing/scene_quality_ground_truth.py:984-989 | in n+1 visits the potentials end as the column-by-column shift prescribes |
| Assignment.ShiftedDualsMeaning | testing/scene_quality_ground_truth.py:984-989 | that shift moves exactly the used columns and the rows they hold, lowers the other margins, and keeps the sum of all potentials |
| Assignment.ShiftFeasible | testing/scene_quality_ground_truth.py:984-989 | moving by the least margin keeps u[i]+v[j] <= cost on all inserted rows, the new one included, even when the first margin is negative |
| Assignment.FreshColumn | testing/scene_quality_ground_truth.py:970-992 | used columns hold distinct rows, so there are at most as many as the phase number and an unused column remains |
| Assignment.Search | testing/scene_quality_ground_truth.py:970-992 | within at most `row` rounds of 2n+1 visits the search reaches a free column, with a tree of slackless cells leading back to column 0 and all potentials feasible |
| Assignment.Augment | testing/scene_quality_ground_truth.py:993-998 | following `way` ends at column 0; every earlier row stays matched, row `row` joins, only the sink stops being free, in at most as many steps as search rounds |
| Assignment.InsertRow | testing/scene_quality_ground_truth.py:965-998 | one outer phase restores the phase invariant with one more row |
| Assignment.VisitsAreCubic | testing/scene_quality_ground_truth.py:952 | the column visits of all phases together are cubic |
| Assignment.ReadAssignment | testing/scene_quality_ground_truth.py:1000-1004 | the list returned holds the column of each row |
| Matching.ExtendedIsLegal | testing/scene_quality_ground_truth.py:896-921 | every partial matching is the matching of some assignment that costs exactly its net score plus fixed charges |
| Matching.FullCost | testing/scene_quality_ground_truth.py:896-921 | an assignment costs at least the net score of its admissible pairs, exactly that if and only if all its cells are legal |
| Matching.CheapestIsLegal | testing/scene_quality_ground_truth.py:923-932 | a cheapest assignment uses legal cells only, and its matching has the least net score of all |
| Matching.NetIsLexicographic | testing/scene_quality_ground_truth.py:896-905 | charges above any achievable total make the net order lexicographic: match count, then total score |
| Matching.ReductionIsExact | testing/scene_quality_ground_truth.py:896-932 | the matching read off a cheapest assignment is best among all partial matchings, and no pair has to be filtered out |
| Matching.BestIsMaximal | testing/scene_quality_ground_truth.py:1260-1277 | a best matching leaves no admissible pair with both ends unmatched |
| PositionMatching.PositionCosts | testing/scene_quality_ground_truth.py:903-921 | every cell of the matrix holds its normalised distance, invalid, unmatched or zero cost, and every raw distance is remembered |
| PositionMatching.PositionReduction | testing/scene_quality_ground_truth.py:896-932 | the penalties U = n+1 and 4U suffice: the assignment's pairs are within radius and best |
| PositionMatching.RestoredIsBest | testing/scene_quality_ground_truth.py:880-890 | associating only the eligible objects loses nothing against associating all of them |
| PositionMatching.MatchObjectsOneToOne | testing/scene_quality_ground_truth.py:866-944 | the result lists a matching that is largest and then least in total distance over radius; in truth order, no target or object twice, only objects that are not missing, not the robot and have a centre within the radius, with their plain distance |
| PositionMatching.CountsExactly | testing/scene_quality_ground_truth.py:880-916 | which pairs may match, by the inputs alone, and that their score times the radius is the distance |
| PositionMatching.ExtractMatches | testing/scene_quality_ground_truth.py:924-933 | extraction lists exactly the pairs of the matching |
| PositionMatching.EqualRadiiSuffice | testing/scene_quality_ground_truth.py:874-878 | with one radius for all targets every best matching also has the least total of plain distances among matchings of its size |
| PositionMatching.GoalMissed | testing/scene_quality_ground_truth.py:874-878 | of two targets in reach of one object the association takes the farther when it is nearer by its own radius, and so misses the least total distance |
| PositionMatching.TotalDistanceCounterexample | testing/scene_quality_ground_truth.py:874-878 | radii 1 and 2 at distances 0.9 and 1.0: the only best matching takes the pair at 1.0 |
| PositionMatching.TotalDistanceExactly | testing/scene_quality_ground_truth.py:874-878 | the documented least total distance is met by every best matching of every scene with given radii exactly when these are all equal |
| SemanticMatching.EquivalenceTable | testing/scene_quality_ground_truth.py:1056-1083 | succeeds exactly for disjoint groups of at least two labels, names the first bad group's error, and answers whether some group holds both labels |
| SemanticMatching.GroupsExactly | testing/scene_quality_ground_truth.py:1066-1083 | groups are accepted when each names two different non-empty labels and no non-empty label is in two of them |
| SemanticMatching.AgreesExactly | testing/scene_quality_ground_truth.py:1085-1094 | labels agree when not preferred, equal, together in a group, or judged equivalent with the expected label first |
| SemanticMatching.VolumesCompareBothWays | testing/scene_quality_ground_truth.py:1096-1109 | volumes are compatible when neither is less than the ratio times the other, or there is nothing to compare |
| SemanticMatching.AdmissibleExactly | testing/scene_quality_ground_truth.py:1124-1159 | a pair may match within the radius and with compatible volumes; its normalised error times the radius is the distance |
| SemanticMatching.PenaltiesSuffice | testing/scene_quality_ground_truth.py:1118-1123 | the invalid cost exceeds two unmatched costs, and those exceed the score of any matching |
| SemanticMatching.SemanticCosts | testing/scene_quality_ground_truth.py:1124-1159 | every cell of the matrix holds its pair, own-dummy, invalid or zero cost |
| SemanticMatching.BestIsLexicographic | testing/scene_quality_ground_truth.py:1020-1024 | least total score among largest matchings means most equivalent labels first, then least normalised error |
| SemanticMatching.AssociateSemantically | testing/scene_quality_ground_truth.py:1111-1179 | the assignment's real pairs are all admissible and form a lexicographically best matching |
| SemanticInventory.Evaluate | testing/scene_quality_ground_truth.py:1007-1321 | refuses exactly the invalid ratios and groups, with the error of the first bad group; otherwise reports on a lexicographically best matching of all objects that are not missing, not the robot and have a centre, in order |
| SemanticInventory.PredictionsAreSelected | testing/scene_quality_ground_truth.py:1046-1052 | the predictions are the objects at exactly the positions of objects that are not missing, not the robot and have a centre, in order |
| SemanticInventory.MatchesExactly | testing/scene_quality_ground_truth.py:1162-1190 | the visible and ignored matches are the matching's pairs with their map-plane distance, split by whether visibility evidence, if any, names the target |
| SemanticInventory.NearestTarget | testing/scene_quality_ground_truth.py:1260-1288 | an admissible target with none closer and none as close before it; none exactly when no target is admissible |
| SemanticInventory.ClassifyUnmatched | testing/scene_quality_ground_truth.py:1254-1317 | duplicates are the unmatched predictions with an admissible target, ghosts those without, in order |
| SemanticInventory.TargetEntries | testing/scene_quality_ground_truth.py:1191-1234 | one entry per target in scope: the last visible match of a target with its identity |
| SemanticInventory.LastPairExactly | testing/scene_quality_ground_truth.py:1191-1194 | of several matches with one identity the last one is looked up |
| SemanticInventory.EntryFacts | testing/scene_quality_ground_truth.py:1191-1234 | an entry is filled exactly when its target is matched or shares its identity with a matched one; with unique identities it is the target's own match |
| SemanticInventory.PredictionsAccountedFor | testing/scene_quality_ground_truth.py:1236-1321 | true positives, ignored-real, duplicates and ghosts together count every prediction once |
| SemanticInventory.DetectionsAccountedFor | testing/scene_quality_ground_truth.py:1046-1321 | true positives, ignored-real and false positives together number the objects that are not missing, not the robot and have a centre |
| SemanticInventory.TargetsAccountedFor | testing/scene_quality_ground_truth.py:1040-1044 | true positives and misses together number the targets that visibility evidence, if any, names |
| SemanticInventory.TruePositivesAreMatchedTargets | testing/scene_quality_ground_truth.py:1319-1320 | misses are never negative; the true positives are at most the filled entries, as many exactly when no unmatched target shares its identity with a matched one |
| SemanticInventory.FalsePositivesAreJustified | testing/scene_quality_ground_truth.py:1028-1030 | every target a duplicate could match is matched already; a ghost could match none |
| ClearanceMap.NearestIsMinimum | testing/nav_stress.py:131-143 | the specified nearest distance is attained and below the distance to every blocked cell |
| ClearanceMap.StepCloser | testing/nav_stress.py:140 | from every free cell one of the four steps leads one closer to the nearest blocked cell |
| ClearanceMap.FrontierComplete | testing/nav_stress.py:137-143 | every cell as near as the head of the queue already has its exact distance |
| ClearanceMap.Expand | testing/nav_stress.py:138-143 | expanding the head keeps the queue sorted with spread at most one, each cell enqueued once, all distances exact |
| ClearanceMap.DistanceTransform | testing/nav_stress.py:131-143 | the distances are the nearest Manhattan distances, -1 everywhere if nothing is blocked; exactly the cells with a distance are enqueued, once each, nearest first |
| ClearanceMap.CandidatesBelow | testing/nav_stress.py:145-149 | the specified list holds exactly the candidate cells, each once, in index order |
| ClearanceMap.Candidates | testing/nav_stress.py:123-149 | one point per candidate cell, in index order, strictly inside its cell and halfway between its edges |
| ClearanceMap.CandidateMeaning | testing/nav_stress.py:144-149 | with something blocked: a free cell is a candidate exactly when every blocked cell is at least ceil(clearance/resolution) steps away |
| ClearanceMap.AllFreeHasNoCandidates | testing/nav_stress.py:131-149 | a map without blocked cells yields no candidate exactly when the clearance exceeds minus one cell |
| ClearanceMap.ClearanceGuarantee | testing/nav_stress.py:124-127 | every candidate is at least clearance / sqrt(2) from every blocked centre |
| ClearanceMap.SquaredDistanceInSteps | testing/nav_stress.py:146 | the squared distance of two returned centres is the squared cell offset times the squared resolution |
| ClearanceMap.FarCellsAreCandidates | testing/nav_stress.py:124-149 | with something blocked, every free cell whose centre is at least the clearance from every blocked centre is a candidate |
| ClearanceMap.KeptMeansExact | testing/nav_stress.py:124-149 | on such a map candidates keep the clearance exactly when they are the free cells at least that far from every blocked one |
| ClearanceMap.ClearancePromise | testing/nav_stress.py:124-127 | candidates keep the full clearance on every map of a resolution exactly when the square of half-and-half steps reaches it |
| ClearanceMap.DefaultClearanceIsUnsafe | testing/nav_stress.py:178 | the default clearance of 0.2 m breaks the promise on some 0.05 m map |
| CivilTime.YearOfEraIsRight | tools/rbnx/build.rs:174-176 | the year formula puts every day of an era inside its year, day 365 only in leap years |
| CivilTime.CivilDateRoundTrip | tools/rbnx/build.rs:171-180 | for every day count the date exists in the calendar and counts back to the same days |
| CivilTime.CivilDateFollowsCalendar | tools/rbnx/build.rs:163-180 | consecutive days get consecutive calendar dates |
| CivilTime.EpochIsDayZero | tools/rbnx/build.rs:159-162 | day 0 is 1970-01-01 |
| CivilTime.RoundTrip | tools/rbnx/build.rs:166-180 | every instant gives a valid date-time that counts back to the same seconds |
| CivilTime.EveryTimeIsReached | tools/rbnx/build.rs:166-180 | every valid date-time is the one of its own second |
| CivilTime.StrictlyIncreasing | tools/rbnx/build.rs:162-183 | later seconds give later date-times |
| CivilTime.NoOverflow | tools/rbnx/build.rs:162-183 | no intermediate value leaves the 64-bit range |
| CivilTime.FormatShape | tools/rbnx/build.rs:182 | with a four-digit year the text has 20 characters, fixed-width fields and separators as in section 5.6 of RFC 3339 |
| CivilTime.PaddedReadsBack | tools/rbnx/build.rs:182 | a padded number reads back, sign first, with no more zeros than the width asks for |
| CivilTime.TextReadsBack | tools/rbnx/build.rs:162-183 | the fields of every text, read as decimal digits at their positions, are year, month, day, hour, minute and second, with the separators of section 5.6 of RFC 3339 between them; 20 characters for a four-digit year |
| CivilTime.TextDeterminesInstant | tools/rbnx/build.rs:162-183 | reading the text of an instant gives back its date, time and seconds |
| CivilTime.TextsSortAsInstants | tools/rbnx/build.rs:162-183 | such texts sort exactly as their instants do, as section 5.1 of RFC 3339 expects |
| TtsSplit.AttachTrailingSeparators | services/speech/speech_service/tencent_cloud.py:72-82 | the loop computes the attached cut, whenever it ends |
| TtsSplit.UnsettledNeverEnds | services/speech/speech_service/tencent_cloud.py:72-82 | on the other inputs the loop condition holds at every position, so the loop never ends |
| TtsSplit.AttachedFacts | services/speech/speech_service/tencent_cloud.py:72-82 | a cut stays above 0, leaves a speakable tail or a whole window, and when moved leaves at most one window |
| TtsSplit.HardSplit | services/speech/speech_service/tencent_cloud.py:85-100 | returns the specified hard pieces; its guard against a cut at 0 never fires |
| TtsSplit.NaturalSplit | services/speech/speech_service/tencent_cloud.py:103-163 | refuses a non-positive limit, else returns the specified natural pieces |
| TtsSplit.FindCut | services/speech/speech_service/tencent_cloud.py:132-159 | one natural cut; its guard against a cut at 0 never fires |
| TtsSplit.SentenceThenClause | services/speech/speech_service/tencent_cloud.py:123-154 | the cut tried first is the end of the last sentence break in the window if usable, else of the last clause break if usable, else the window; usable means something to say before it, and a quarter window or less than a window after it |
| TtsSplit.FirstPieceExactly | services/speech/speech_service/tencent_cloud.py:72-163 | the first piece ends at the last position up to that cut with a whole window or something to say behind it; the rest is split the same way |
| TtsSplit.ShortTextIsOnePiece | services/speech/speech_service/tencent_cloud.py:85-115 | a text is one piece exactly when it is within the limit |
| TtsSplit.PiecesConserve | services/speech/speech_service/tencent_cloud.py:85-163 | the pieces of either splitter join to the text, none is empty, none exceeds the limit |
| TtsSplit.FewestPieces | services/speech/speech_service/tencent_cloud.py:85-100 | any pieces within the limit cover at most their number times the limit |
| TtsSplit.HardCount | services/speech/speech_service/tencent_cloud.py:85-100 | the hard splitter returns exactly as many pieces as the length divided by the limit, rounded up |
| TtsSplit.HardIsFewest | services/speech/speech_service/tencent_cloud.py:85-100 | no other cut of the text within the limit has fewer pieces |
| TtsSplit.NaturalCount | services/speech/speech_service/tencent_cloud.py:110-113 | all natural pieces but two take a quarter window, and those two exceed a window together |
| TtsSplit.PiecesAreSpeakable | services/speech/speech_service/tencent_cloud.py:72-163 | with separator runs of at most (limit-1)/2, every piece of either splitter has content |
| TtsSplit.SegmentsForProvider | services/speech/speech_service/tencent_cloud.py:563-590 | gives the specified verdict |
| TtsSplit.VerdictExactly | services/speech/speech_service/tencent_cloud.py:563-590 | each verdict holds exactly when its own cause does and no earlier one; the natural pieces are sent unless there are more than 40 |
| TtsSplit.TooManyRequestsExactly | services/speech/speech_service/tencent_cloud.py:574-585 | among texts that pass the earlier checks, too many requests exactly when longer than 40 windows |
| TtsSplit.AcceptedExactly | services/speech/speech_service/tencent_cloud.py:563-590 | with such runs, accepted exactly when within the total limit and 40 windows |
| TtsSplit.AcceptedIsSafe | services/speech/speech_service/tencent_cloud.py:563-590 | accepted requests join to the text, at most 40 of them, each within the limit and speakable |
| TtsSplit.RunBoundIsSharp | services/speech/speech_service/tencent_cloud.py:586-590 | for every limit, runs one longer than the bound can make a text of acceptable length be refused |
| PcmFraming.SendFrames | services/speech/speech_service/tencent_cloud.py:244-266 | sends the whole frames of the joined bytes, then the remainder if it is not empty |
| PcmFraming.RecognizeStrides | services/speech/speech_service/service.py:447-475 | recognises the whole strides of the joined bytes, then the remainder, even empty, as final |
| PcmFraming.FramesConserve | services/speech/speech_service/tencent_cloud.py:244-260 | frames and remainder are the input bytes; frames are whole and the remainder is shorter |
| PcmFraming.FramingIsUnique | services/speech/speech_service/tencent_cloud.py:244-260 | no other cut into whole frames and a shorter remainder exists, so chunk boundaries do not matter |
| TtsCache.SpeechTtsServicer.SynthesizeCached | services/speech/speech_service/service.py:956-980 | returns what the current backend synthesises; appends a fresh answer that fits and trims, else leaves the cache alone |
| TtsCache.SpeechTtsServicer.ConfigureBackend | services/speech/speech_service/service.py:951-954 | the new backend starts with an empty cache |
| TtsCache.TrimmedIsLongest | services/speech/speech_service/service.py:974-979 | eviction keeps the longest suffix within 16 entries and 64 MiB |
| TtsCache.LimitsExactly | services/speech/speech_service/service.py:973-979 | another entry fits exactly when fewer than 16 are held and all audio stays within 67108864 bytes |
| TtsCache.PutKeepsPlace | services/speech/speech_service/service.py:973 | assigning to a key already held replaces its audio in place |
| TtsCache.NewestSurvives | services/speech/speech_service/service.py:970-979 | the entry just inserted is never evicted |
| TtsCache.InsertKeepsTruth | services/speech/speech_service/service.py:972-979 | after an insertion every entry is still what the backend says, keys distinct, limits met |
| EnrolledStore.KnownExactly | services/voiceprint/voiceprint_service/service.py:141-151 | a query is recognised exactly when some stored voice reaches the threshold |
| EnrolledStore.BestBelowFacts | services/voiceprint/voiceprint_service/service.py:145-150 | the best score is at least every score and belongs to the first user reaching it |
| EnrolledStore.FirstBestIsNamed | services/voiceprint/voiceprint_service/service.py:141-151 | identification names the first user with the highest score above -1, or nobody if there is none |
| EnrolledStore.EnrolledDB.IdentifyLocked | services/voiceprint/voiceprint_service/service.py:141-151 | the loop finds the specified best user |
| EnrolledStore.EnrolledDB.EnrollUnique | services/voiceprint/voiceprint_service/service.py:175-234 | memory, file and outcome after an enrolment, each refusal and a failed save included |
| EnrolledStore.EnrolledDB.DeleteUser | services/voiceprint/voiceprint_service/service.py:248-265 | memory, file and outcome after a deletion, an absent user and a failed save included |
| EnrolledStore.EnrolExactly | services/voiceprint/voiceprint_service/service.py:183-234 | enrolled exactly when the save works and no stored user has the id, the non-empty name or a voice at the threshold; each refusal exactly for its own cause and no earlier one; the user is appended, or nothing changes |
| EnrolledStore.DeleteExactly | services/voiceprint/voiceprint_service/service.py:248-265 | the user with the id is removed and the others keep their order; a failed save leaves the file and puts the user last; an unknown id changes nothing |
| EnrolledStore.EveryRunKeeps | services/voiceprint/voiceprint_service/service.py:115-265 | over every run memory and file hold the same users, distinct in id, non-empty name and voice |
| EnrolledStore.RestartKeepsUsers | services/voiceprint/voiceprint_service/service.py:115-125 | after every run a restart has exactly the users that were stored |
| EnrolledStore.OwnerIsIdentified | services/voiceprint/voiceprint_service/service.py:93-151 | after every run, identifying a stored non-zero embedding with a threshold in [0, 1] gives its owner as known |
| EnrolledStore.DeleteUndoesEnrol | services/voiceprint/voiceprint_service/service.py:175-265 | deleting a user just enrolled restores the previous users in their order |
| FirstFit.NestedIsEnough | testing/run.py:543-549 | if of two expectations that share a leaf the later accepts all the earlier does, first fit serves everyone exactly when everyone can be served |
| FirstFit.TakenExactly | testing/run.py:543-549 | first fit takes exactly the very first acceptable leaf not taken before, for each expectation in turn |
| FirstFit.NeverMissesExactly | testing/run.py:543-549 | first fit serves everyone on all leaves that can serve everyone exactly when the expectations are so nested or one accepts nothing |
| FirstFit.Missed | testing/run.py:543-549 | for expectations that are not nested: leaves that can serve everyone although first fit leaves someone out |
| ScenarioCheck.FindExpectedLeafIndex | testing/run.py:401-420 | the first unused leaf with the right contract and outcome whose assertions hold |
| ScenarioCheck.RoundLeavesExactly | testing/run.py:535-537 | a round's leaf results are exactly those that carry the id of one of its calls, in order |
| ScenarioCheck.TakesExactly | testing/run.py:384-398 | an expectation takes a leaf result of the round with its contract, its outcome and accepted assertions |
| ScenarioCheck.RoundFitsInTurn | testing/run.py:535-553 | a round fits exactly when calls, results and expectations are as many and each expectation in turn finds a leaf result |
| ScenarioCheck.RoundIsBijection | testing/run.py:535-549 | in a matched round, expectations and leaf results correspond one to one, each pair satisfied |
| ScenarioCheck.NestedRoundFits | testing/run.py:535-549 | a round whose expectations are nested on its leaf results fits exactly when some one-to-one correspondence exists |
| ScenarioCheck.RoundFitsExactly | testing/run.py:535-549 | for given expectations and calls, every run with a correspondence fits exactly when the expectations are nested or one can be met by no leaf result of the round |
| ScenarioCheck.ExclusiveFirstFit | testing/run.py:535-549 | if no leaf satisfies two expectations, a round of the right size fits exactly when every expectation has a leaf |
| ScenarioCheck.FirstFitIsNotComplete | testing/run.py:535-549 | an expectation without an output clause ahead of one that asks for a text: the round of two calls does not fit although swapping the two leaf results serves both |
| ScenarioCheck.GreedyIsComplete | testing/run.py:519-566 | if the steps embed into the rounds, every step finds a round, none later than in any embedding |
| ScenarioCheck.GreedyIsSound | testing/run.py:519-566 | the rounds taken, when every step has one, are an embedding |
| ScenarioCheck.UnmatchedSteps | testing/run.py:519-566 | reports, in order, the steps for which no fitting round comes after all that earlier steps took; none exactly when the expecting steps embed into the rounds in order |
| ScenarioCheck.RoundSuitsExactly | testing/run.py:534-553 | a step may take exactly the rounds that fit its expectations |
| HistoryProgress.StepIsComplete | testing/fake_vlm/server.py:388-408 | complete exactly when every expectation takes a fresh leaf in turn; only then are those leaves consumed |
| HistoryProgress.MatchesExactly | testing/fake_vlm/server.py:287-295 | without retries and captures contract and outcome decide alone, with either of them the full check alone |
| HistoryProgress.CompletionExactly | testing/fake_vlm/server.py:388-408 | a step without expectations completes when marked done; any other when each expectation in turn finds the first fresh leaf that matches |
| HistoryProgress.StepCompletesExactly | testing/fake_vlm/server.py:388-408 | a step completes on every history that can serve it exactly when its expectations are nested or one accepts nothing |
| HistoryProgress.PlainStepCompletesExactly | testing/fake_vlm/server.py:287-291 | without retries and captures: exactly when no expectation without a contract comes before one with a contract and the same outcome |
| HistoryProgress.NextStepIndex | testing/fake_vlm/server.py:411-422 | the index of the first incomplete step, or of a step that only marks the end |
| HistoryProgress.NextIsFirstIncomplete | testing/fake_vlm/server.py:411-422 | every step before the index is complete on the leaves the ones before left over and does more than mark the end; the step at the index is not, or only marks the end |
| HistoryProgress.ProgressIsMonotone | testing/fake_vlm/server.py:388-422 | more leaf results never lower the index, and completed steps keep exactly their leaves |
| HistoryProgress.NoLeafTwice | testing/fake_vlm/server.py:388-408 | no leaf is consumed twice, by one step or by two |
| HistoryProgress.CompletedIsServed | testing/fake_vlm/server.py:388-422 | every expectation of a completed step is matched by the leaf taken for it |

## Left out

- Floating-point rounding, NaN and numpy: reals are exact.
- Association on infinite or missing radii: the loaders refuse them before association.
- Report ratios, medians, confusion, per-class and per-size tables, label accuracy and the nearest target of a ghost: presentation of the counts that are proved.
- WBT parsing, map alignment, box overlap and yaw errors: approximate geometry with tolerances.
- `check_scenario` beyond step matching: validation messages, retry bookkeeping and unexpected leaf failures; expectations are taken as well formed.
- JSON extraction of leaf results and the contents of argument and output assertions: inputs of the model.
- `EnrolledDB.enroll`, the unconditional enrolment: it may break the distinctness of voices and is not part of the runs.
- Threshold parsing, locking, gRPC, HTTP, WebSocket, ROS and subprocesses: input and output around the algorithms.
- A configuration change during a running synthesis: the cache is modelled for sequential use.
- Text with years outside 0 to 9999: the format is modelled, its alphabetical order is not claimed.
- TtsSplit.AttachTrailingSeparators: cuts are positions from the start; negative ones, which Python would read from the end and no caller passes, are not modelled.
- Speech provider calls, event merging and pacing between frames: network behaviour.
