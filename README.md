# artes scoring core in Dafny

This project models the computational core of artes, a Slovak speech-assessment app. While drilling, a therapist has a child say a list of words. For every word the app derives the phonemes the child is expected to pronounce, and the therapist marks each one with a status: `OK`, `NZ`, `D` or `A`.

The model covers three parts of the app:

- **Transcription** (`phonemes.dfy`, module `Phonemes`). `toWord` turns a spelling into its expected phonemes in four steps:
  - it removes whitespace;
  - it splits the spelling greedily into tokens, where a digraph from a fixed table wins over a single character;
  - it runs the recursive assimilation cascade: softening of d/t/n, devoicing, voicing, and devoicing of a lone last phoneme;
  - it maps y/ý to i/í.
- **Result seeding** (`results.dfy`, module `Results`). A results object maps each spelling to its list of status strings. It is modelled as the list of its entries in insertion order. `initialResult` and `initialResults` build the empty seed.
- **Repertoire statistics** (`positions.dfy`, `tally_facts.dfy` and `repertoire.dfy`, modules `Positions`, `TallyFacts` and `Repertoire`).
  - Two tallies are filled in place, entry by entry:
    - one per phoneme and position tag (I, M, F);
    - one per phoneme and status.
  - The figures shown to the therapist filter these tallies:
    - inconsistent consonants;
    - consonants correct in every position;
    - consonants, vowels and diphthongs marked with a status.

The source fills the two tallies and the position set in loops. The model does the same: the methods `CalculateResultsPerPhonemePosition`, `CalculateStatusResultsPerPhoneme` and `AllPhonemePositions` carry loop invariants. Each is proved equal to a specification function that folds over the entries. `TallyFacts` then proves what those functions compute:
- every cell and counter equals a count of the zipped (phoneme, status, position) occurrences of the whole results object;
- exactly when the tallies fail, and with which error.

A thrown error is modelled as the `Err` case of a `Result`. `LengthMismatch` is the thrown length check. `InvalidStatus` is the "Invalid status" error.

The specification functions and lemmas take the transcription as a parameter `transcribe: string -> Word`. The methods, which are what the app runs, call `ToWord` itself and are proved against the specification instantiated with `ToWord`. So every lemma about the tallies holds for the app's transcription in particular.

The phoneme classes (consonant, vowel, diphthong) are decided by functions whose bodies are not part of this model. They are the fields of the parameter `Repertoire.Classifier`.

The model follows the code as written, including five behaviours a reader might not expect:

- **The final tag is never produced.** The position tag compares a zero-based index with the word's length, so the final tag `F` is never assigned. Index 0 is tagged `I` and every other index, the last one included, is tagged `M`; a one-phoneme word is therefore tagged `I` only. `Positions.PositionOf` keeps this comparison. `TallyFacts.NoFinalOccurrence` and `TallyFacts.AllPositionsTags` prove that `F` never appears.
- **The softening exception uses the remaining phonemes.** The exception list is checked against the phonemes still to be processed, joined together, not against the whole word. So the d of "odeka" is not softened either (`Phonemes.TranscribeOdeka`).
- **The seed counts characters.** `initialResult` makes one status per character, not one per expected phoneme. A word with a digraph, such as "chata", is seeded with more statuses than it has phonemes (`Results.InitialResultMismatch`).
- **The seed's empty status is rejected.** It names no counter, so the per-status tally rejects a fresh seed (`TallyFacts.SeedIsRejected`).
- **`all` is accepted as a status.** The status check accepts any key that holds a number, and `all` is one of them. A status `all` is therefore accepted and counted twice in `all`. `Positions.IsBucket` and `TallyFacts.Counted` model this.

## Model

| member | source | states |
|---|---|---|
| Phonemes.IndexOf | src/phonemes.ts:11-12 | the index is -1 exactly when the phoneme is not in the table; otherwise it is the first position holding it |
| Phonemes.IndexOfAppend | src/phonemes.ts:11-12 | appending to a table leaves the index of a phoneme already in it unchanged, and a new last phoneme is found at the old length |
| Phonemes.IsVoiced | src/phonemes.ts:12 | the test holds exactly for the phonemes of the voiced table |
| Phonemes.IsUnvoiced | src/phonemes.ts:11 | the test holds exactly for the phonemes of the unvoiced table |
| Phonemes.VoicedToUnvoiced | src/phonemes.ts:14-18 | a phoneme off the voiced table is returned unchanged; a voiced one becomes an unvoiced one |
| Phonemes.UnvoicedToVoiced | src/phonemes.ts:20-24 | a phoneme off the unvoiced table is returned unchanged; an unvoiced one becomes a voiced one |
| Phonemes.VoicingInverse | src/phonemes.ts:14-24 | devoicing and voicing leave phonemes off their table unchanged, map each table into the other and undo each other |
| Phonemes.VoicingPair | src/phonemes.ts:6-7 | the i-th voiced consonant devoices to the i-th unvoiced one and back |
| Phonemes.SoftenChanges | src/phonemes.ts:8-9 | softening changes exactly d, t and n, each into a softened consonant, and never yields d, t or n |
| Phonemes.YToI | src/phonemes.ts:26-30 | y becomes i and ý becomes í, any other phoneme is unchanged, so the result is never y or ý |
| Phonemes.StripWhitespace | src/phonemes.ts:55 | the result has no whitespace, holds a character exactly when the input holds it as a non-whitespace character, and is no longer than the input |
| Phonemes.StripWhitespaceAppend | src/phonemes.ts:55 | stripping distributes over concatenation, and a single character is dropped if it is whitespace and kept otherwise; so the non-whitespace characters are kept in order, each as often as it occurs |
| Phonemes.StripWhitespaceIdentity | src/phonemes.ts:55 | a spelling without whitespace is left unchanged, so stripping is idempotent |
| Phonemes.Take | src/phonemes.ts:34 | a two-character slice is clamped to the string's length and is its prefix |
| Phonemes.ToPhonemes | src/phonemes.ts:32-38 | there are no more tokens than characters, and no tokens exactly for the empty spelling |
| Phonemes.ToPhonemesRoundTrip | src/phonemes.ts:32-38 | joining the tokens gives the spelling back; only the empty spelling has no tokens |
| Phonemes.ToPhonemesTokens | src/phonemes.ts:32-38 | every token is one character or a table digraph; there are no more tokens than characters, and equally many exactly when all tokens are single characters |
| Phonemes.ToPhonemesGreedy | src/phonemes.ts:34-36 | the segmentation is greedy: no single-character token forms a table digraph with the first character of the next token |
| Phonemes.GreedySegmentationUnique | src/phonemes.ts:32-38 | any greedy segmentation of a spelling into tokens is the one computed |
| Phonemes.SegmentDie | src/phonemes.ts:5 | "die" is segmented as d, ie |
| Phonemes.ApplyAssimilations | src/phonemes.ts:42-52 | the cascade returns exactly one phoneme per input phoneme |
| Phonemes.AssimilationsJustified | src/phonemes.ts:42-52 | each output phoneme is either kept or justified by its right neighbour: softened before e/é/i/í, devoiced before an unvoiced consonant or at the end, or voiced before a voiced one but never at the very start of a word; the neighbour of a changed phoneme is emitted unchanged |
| Phonemes.AssimilationsStep | src/phonemes.ts:45-51 | one step emits one or two phonemes, the first justified and the second unchanged, and continues on the rest as a non-initial call |
| Phonemes.AssimilationsKeepOthers | src/phonemes.ts:51 | a phoneme outside the voicing and softening tables is never changed |
| Phonemes.KeepStep | src/phonemes.ts:51 | when no rule applies, the first phoneme is kept and the cascade moves on by one |
| Phonemes.SoftenStep | src/phonemes.ts:45-47 | d/t/n before e/é/i/í, outside the exception, is replaced by its softened form, which takes precedence over the voicing rules |
| Phonemes.DevoiceStep | src/phonemes.ts:49 | a voiced consonant before an unvoiced one is devoiced |
| Phonemes.LastStep | src/phonemes.ts:44 | a lone remaining phoneme that is not voiced is kept |
| Phonemes.LastVoicedStep | src/phonemes.ts:44 | a lone remaining i-th voiced consonant becomes the i-th unvoiced one |
| Phonemes.VoiceStep | src/phonemes.ts:50 | inside a word, the i-th unvoiced consonant before a voiced one becomes the i-th voiced consonant, its neighbour is kept, and the cascade moves on by two |
| Phonemes.VoiceAtStart | src/phonemes.ts:50-51 | at the start of a word an unvoiced consonant before a voiced one is kept and the cascade moves on by one |
| Phonemes.MapYToI | src/phonemes.ts:55 | the normalisation maps every phoneme through y→i, ý→í and keeps the length |
| Phonemes.ToWord | src/phonemes.ts:54-56 | the word keeps its spelling, and has no more phonemes than the spelling has characters |
| Phonemes.ToWordShape | src/phonemes.ts:54-56 | the phoneme count equals the token count of the stripped spelling, which is at most its character count; no y or ý remains |
| Phonemes.ToWordIgnoresWhitespace | src/phonemes.ts:55 | the phonemes depend only on the spelling with its whitespace removed |
| Phonemes.TranscribeZ | src/phonemes.ts:44 | a spelling that is "z" up to whitespace is transcribed as s (a lone voiced consonant devoices) |
| Phonemes.TranscribeKresba | src/phonemes.ts:50 | a spelling that is "kresba" up to whitespace is transcribed as k, r, e, z, b, a (the s voices before b inside the word) |
| Phonemes.TranscribeSbor | src/phonemes.ts:50 | a spelling that is "sbor" up to whitespace is transcribed as s, b, o, r (no voicing at the start of the word) |
| Phonemes.TranscribeMy | src/phonemes.ts:26-28 | a spelling that is "my" up to whitespace is transcribed as m, i (the y, untouched by the cascade, is normalised to i) |
| Phonemes.TranscribeVtak | src/phonemes.ts:49 | "vták" is transcribed as f, t, á, k |
| Phonemes.TranscribeDeka | src/phonemes.ts:40 | the d of "deka" is not softened |
| Phonemes.TranscribeOdeka | src/phonemes.ts:47 | in "odeka" the exception is met on the remaining phonemes, so the d is kept |
| Phonemes.TranscribeDeti | src/phonemes.ts:45-47 | "deti" is transcribed as ď, e, ť, i |
| Results.Get | src/results.ts:1 | a key is found exactly when it is one of the object's keys, and its own entry is returned |
| Results.Put | src/results.ts:7 | assigning a key keeps an existing key in its place, appends a new one, leaves other entries unchanged and keeps keys distinct |
| Results.InitialResult | src/results.ts:3-4 | one status per character of the spelling, each the empty string |
| Results.InitialResults | src/results.ts:6-7 | the keys are exactly the input words, listed once each, and each maps to its initial result |
| Results.InitialResultsSmall | src/results.ts:6-7 | no words give an empty object; one word gives one entry |
| Results.InitialResultsLookup | src/results.ts:6-7 | every input word looks up its initial result |
| Results.InitialResultMismatch | src/results.ts:3-4 | for "chata" the seeded statuses do not line up with the expected phonemes |
| Results.AssertSameLength | src/positions.ts:22 | the check passes exactly when there are as many statuses as expected phonemes, and otherwise fails naming the spelling |
| Positions.PositionOf | src/positions.ts:24 | a tag computed for an index below the length is never F |
| Positions.Zip | src/positions.ts:23-24 | the zip pairs the i-th phoneme with the i-th status and tags index 0 as I and every other index as M |
| Positions.PositionTallyOf | src/positions.ts:18-35 | the per-position fold can fail only by a length mismatch |
| Positions.CalculateResultsPerPhonemePosition | src/positions.ts:18-35 | the method's tally equals the per-position fold over the entries, including its first length mismatch |
| Positions.RecordPositions | src/positions.ts:23-32 | recording a word's zipped phonemes equals folding them into the tally |
| Positions.RecordPosition | src/positions.ts:25-31 | one phoneme creates its row and cell when missing, counts it as tested, and counts it as correct for OK |
| Positions.PositionTallyStopsAt | src/positions.ts:22 | the first entry that fails the length check fails the whole tally with its spelling |
| Positions.CountOf | src/positions.ts:51 | a counter is read exactly for the keys OK, NZ, D, A and all |
| Positions.Bump | src/positions.ts:54-55 | one counter goes up by one and the others are unchanged |
| Positions.StatusTallyOf | src/positions.ts:38-59 | when the per-status fold fails by an invalid status, that status names no counter |
| Positions.CalculateStatusResultsPerPhoneme | src/positions.ts:38-59 | the method's tally equals the per-status fold, including the first length mismatch or invalid status |
| Positions.RecordStatuses | src/positions.ts:43-56 | recording a word's zipped phonemes equals folding them into the tally, stopping at an invalid status |
| Positions.StatusesStopAt | src/positions.ts:51-53 | once an invalid status is met, recording fails with it |
| Positions.StatusTallyStopsAt | src/positions.ts:42-53 | once the entries up to some point fail the per-status tally, the whole tally fails with the same error |
| Positions.AllPositions | src/positions.ts:64-75 | the collected tags never include F |
| Positions.AllPhonemePositions | src/positions.ts:64-75 | the collected set equals the union, over all entries, of the tags at which the phoneme stands |
| Positions.AddWordPositions | src/positions.ts:68-73 | one word adds exactly the tags of its indices holding the phoneme |
| TallyFacts.CountPositive | src/positions.ts:25-31 | a count is positive exactly when some occurrence matches |
| TallyFacts.CountSplit | src/positions.ts:25-31 | a phoneme's occurrences split over the tags I, M and F; occurrences with one status are among those of the phoneme |
| TallyFacts.CountOthers | src/positions.ts:88-90 | fewer occurrences of a phoneme carry a status than occur at all exactly when one carries another status |
| TallyFacts.NoFinalOccurrence | src/positions.ts:24 | no zipped occurrence is tagged F |
| TallyFacts.OccurrencesCover | src/positions.ts:23 | every status of an entry that lines up becomes an occurrence |
| TallyFacts.OccurrencesFrom | src/positions.ts:23 | every occurrence's status comes from some entry |
| TallyFacts.PositionTallyDescribes | src/positions.ts:25-31 | after any occurrences, the phonemes are listed once each; a cell exists exactly for an attested (phoneme, tag); its tested count is the number of such occurrences and its correct count the number marked OK |
| TallyFacts.FirstMetStep | src/positions.ts:25 | meeting one more phoneme keeps a first-met order, appending the phoneme when it is new |
| TallyFacts.PositionTallyOrder | src/positions.ts:25 | the per-position fold lists exactly the occurring phonemes, in the order they are first met, and lists exactly the phonemes that have a row |
| TallyFacts.StatusTallyOrder | src/positions.ts:44-50 | a successful per-status fold lists exactly the occurring phonemes, in the order they are first met, and lists exactly the phonemes that have counters |
| TallyFacts.PositionTallyOfOrder | src/positions.ts:18-35 | a successful per-position tally lists its phonemes in the order they are first met over the entries and their words |
| TallyFacts.StatusTallyOfOrder | src/positions.ts:38-59 | a successful per-status tally lists its phonemes in the order they are first met over the entries and their words |
| TallyFacts.TotalTestedIsLength | src/positions.ts:31 | the tested counts over all cells add up to the number of occurrences |
| TallyFacts.PositionTallyOfOk | src/positions.ts:18-35 | the per-position tally succeeds exactly when every entry lines up; it then tallies all occurrences, and otherwise names a first mismatching entry |
| TallyFacts.PositionTallyCounts | src/positions.ts:25-31 | after a successful tally, every cell has correct ≤ tested, no cell is tagged F, and tested adds up to the number of occurrences |
| TallyFacts.AddAllToStatusesFails | src/positions.ts:51-53 | recording fails exactly when some status names no counter, and the error names such a status |
| TallyFacts.StatusTallyDescribes | src/positions.ts:44-55 | with valid statuses, the phonemes are listed once each; each counter counts its status, and all counts every occurrence plus once more per status all |
| TallyFacts.StatusTallyOfOk | src/positions.ts:38-59 | the per-status tally succeeds exactly when every entry lines up and every status names a counter, and then describes all occurrences |
| TallyFacts.StatusTallyError | src/positions.ts:42-53 | a failed per-status tally names a mismatching entry or an invalid status found in the results |
| TallyFacts.SeedIsRejected | src/positions.ts:51-53 | a seed holding a non-empty word fails the per-status tally, by a length mismatch or by the empty status |
| TallyFacts.AllPositionsOccur | src/positions.ts:64-75 | when entries line up, a phoneme is expected at a tag exactly when some occurrence holds it there |
| TallyFacts.AllPositionsTags | src/positions.ts:70 | F is never collected; I is collected exactly when some word's phonemes start with the phoneme |
| TallyFacts.AllPositionsAreCells | src/positions.ts:78-82 | for a tallied phoneme, the collected tags are exactly the tags of its cells |
| Repertoire.Select | src/positions.ts:80-82 | a filter keeps exactly the listed phonemes that pass it, adds no repeats and keeps no more of them |
| Repertoire.SelectOrder | src/positions.ts:95-98 | a list sorted by where each phoneme is first met stays so sorted after filtering |
| Repertoire.StatusCount | src/positions.ts:96-97 | reading a status that names no counter yields no positive count |
| Repertoire.PhonemesWithStatus | src/positions.ts:93-99 | the listing fails exactly when the per-status tally fails, with its error; otherwise it lists only tallied phonemes that pass the filter, and no more of them than are tallied |
| Repertoire.ConsonantsWithStatus | src/positions.ts:93-99 | the listing fails exactly when the per-status tally fails, and lists only consonants |
| Repertoire.PhonemesWithStatusOrder | src/positions.ts:93-99 | the listed phonemes come in the order they are first met over the entries and their words |
| Repertoire.MarkedCount | src/positions.ts:96-97 | a phoneme's counter for a status is positive exactly when some occurrence marks it with that status; for all, exactly when it occurs |
| Repertoire.PhonemesWithStatusMeaning | src/positions.ts:93-99 | the listed consonants are listed once each and are exactly those marked with the status; their number is the number of such distinct phonemes |
| Repertoire.ConsonantsWithStatusCount | src/positions.ts:100 | the count fails exactly when the per-status tally fails |
| Repertoire.VocalsWithStatusCount | src/positions.ts:102-108 | the count fails exactly when the per-status tally fails, and is at most the number of tallied phonemes |
| Repertoire.DiphthongsWithStatusCount | src/positions.ts:110-116 | the count fails exactly when the per-status tally fails, and is at most the number of tallied phonemes |
| Repertoire.WithStatusCounts | src/positions.ts:100-116 | the consonant, vowel and diphthong counts for a status are the numbers of distinct phonemes of that class marked with it |
| Repertoire.NonConstantConsonantsCount | src/positions.ts:85-91 | the count fails exactly when the per-status tally fails, with its error |
| Repertoire.InconsistentCount | src/positions.ts:88-89 | 0 < OK < all holds exactly when a phoneme was marked OK at least once and something else at least once |
| Repertoire.NonConstantConsonantsMeaning | src/positions.ts:85-91 | the count is the number of distinct consonants marked OK somewhere and something else elsewhere |
| Repertoire.ConsonantsCorrectInAllPositionsCount | src/positions.ts:77-83 | the count fails exactly when the per-position tally fails and never exceeds the number of tallied phonemes |
| Repertoire.IsCorrectOnPositions | src/positions.ts:61-62 | the test holds only when every given tag has a cell, and always holds for no tags |
| Repertoire.CorrectInAllPositionsMeaning | src/positions.ts:61-62 | a consonant counts exactly when, at every tag where it occurs, it was marked OK at least once; the count is at most the number of distinct consonants that occur |

## Left out

- The React components, the app state with its random identifiers and local storage, and the network fetch of the word list are not part of this model. They are UI, I/O and randomness.
- The classifiers `isConsonant`, `isVocal` and `isDiphthong`, and the zip and length-check helpers, are not part of this model's source. The classifiers are parameters (`Repertoire.Classifier`). The zip is modelled as an exact zip of equal-length lists. The length check is `Results.AssertSameLength`.
- Whitespace removal uses the fixed set of characters matched by `\s` in ECMAScript. Strings are sequences of characters; UTF-16 code units and surrogate pairs are not modelled.
- A results object is the list of its entries in insertion order, and each tally lists its phonemes in the order they are first met. JavaScript lists integer-like keys first, in ascending order, both among the words of a results object and among the phonemes of a tally (so `consonantsWithStatus` would list a digit phoneme first); that key order is not modelled.
- Percentages and the other figures the display computes with floating-point division are not part of this model.
- Positions.PositionOf: keeps the source's comparison of the index with the length, so the final tag is unreachable; no rule that tags the last index `F` is modelled, since the source's `'F'` branch at src/positions.ts:24 is dead code.
