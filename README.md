# A verified model of the Viterbi word recogniser

The repository is a small continuous-speech recogniser written in Ruby:

- it reads HTK-style acoustic models (`~h "name"` headers, `<STATE>`, `<MIXTURE>`, `<MEAN>`, `<VARIANCE>` and `<TRANSP>` directives, numeric rows);
- it builds one HMM per dictionary word by concatenating phoneme HMMs with `HMM#+`;
- it stitches all words into one sentence network, using a bigram file for the word-to-word transitions;
- it decodes a sequence of observation vectors with a Viterbi trellis.

This project models the four index-and-mode pieces of that pipeline and proves what they compute:

- **Parameter-file state machine.** Module `HmmSpec` builds `State` and `HMM` (src/hmm.rb) as values. Module `Hmm` builds them as classes whose methods are proved against those values. Module `Loader` covers the line dispatch of `read_multi_hmm_file`, with the input given as already classified lines: `Header(name)`, `Directive(entry, tokens)` and `Numbers(row)`.
- **Concatenation and words.** `HMM#+` (`HmmSpec.PlusTransitions`, `Hmm.HMM.Plus`) places two transition blocks into a fresh zero matrix. `Words.MakeHmmWords` folds `+` over each dictionary line's phonemes. Ruby hashes remember insertion order, so they are modelled by `Tables.Table`.
- **Sentence network.** `make_bigram` and `copy_matrix` are covered twice:
  - module `Network` gives the value-level definitions of the layout (offsets, start and end maps, block copy) and of the bigram overlay;
  - module `Sentence` has the statement-level methods, which write each word's `offset` into its model object and are proved equal to those definitions.
- **Viterbi trellis.** Module `Viterbi` covers `gaussian_viterbi`:
  - functions build each trellis row and each path list as the loops do;
  - the method `GaussianViterbi` is proved equal to them;
  - lemmas state the recurrence, that each value is the score of its path, that no path of the same length scores higher, and what the decoded sentence is.

Reals stand for the source's floats. The Gaussian term of `weighted_pdf` and `Math.log` are uninterpreted function parameters. The inverse of the variance matrix and the normaliser are symbolic terms. Ruby's floating-point multiplication in the bigram overlay is a parameter `times`.

Where Ruby raises (a `nil` dereference, `nil + Array`, a negative array size), the model returns a `Failure` naming the cause. The exceptions of the variance arithmetic are the one exception to this rule; see "## Left out".

### Behaviour of the code that is easy to miss

- **The "sp" step is a no-op.** The block `@words.each_value { |word| word = word + @models["sp"] }` (src/app.rb:303) evidently means to append the short-pause model to every word. It only rebinds the block's local, and `each_value` returns the hash itself. The sums are thrown away; only the exceptions they can raise are observable (`Sentence.SpError`). Among those are the two that `+` raises for a word without transition rows (`Network.SumError`).
- **Unknown bigram words are not simply skipped.** `from` and `to` (src/app.rb:337-345) are method locals and keep their values from earlier lines. So a line with an unknown second word writes to the previous line's `to` (`Network.BigramStaleTo`). A line with an unknown first word and a stale `from` calls `end_transition` on `nil` and raises (`Network.BigramStaleFrom`).
- **The exit row is not excluded.** `copy_matrix` drops the last row of a word's matrix. For the usual HTK shape, the copied rows have one column more than the word has states. Each row therefore writes into the first column of the next word, or one column past the square for the last word, where the Ruby row grows (`Network.ExitColumnLeaks`, `Network.LayoutCell`).
- **The decoded sentence is not read off the final argmax.** After each frame, `sentence` is built from the *previous* frame's `paths[max_index]`, where `max_index` is the best predecessor of the first best state of the new frame (src/app.rb:494-515). `Viterbi.SentenceOfBestPath` states how this relates to the best final path: it is that path's labels without the label of the final state. With a single observation the loop never runs and the sentence is empty.
- **No observations, or no states.** With no observations, `obs[1..-1]` is `nil` and Ruby raises (`NoObservations`). With a network of no states and at least two frames, `paths[0]` is `nil` (`NoStates`).
- **The loader raises only in the variance arithmetic.** Directive and row lines before the first header are dropped. A repeated header replaces the earlier model. The lines `@last == ""` in `update_last` are comparisons, so a mode is never reset and later rows keep going to the same directive.

## Model

| member | source | states |
|---|---|---|
| Hmm.State.constructor | src/hmm.rb:8-11 | a new state has no mixtures and no current mixture |
| Hmm.State.SwitchNewMixture | src/hmm.rb:13-18 | updating the object in place has the effect of `HmmSpec.SwitchNewMixture` on its value, and keeps the at-most-two-mixtures invariant |
| Hmm.State.SetMixtureMean | src/hmm.rb:20-22 | the in-place write has the effect of `HmmSpec.SetMixtureMean` (first write wins) |
| Hmm.State.SetMixtureMeanTotal | src/hmm.rb:24-26 | the in-place write has the effect of `HmmSpec.SetMixtureMeanTotal` |
| Hmm.State.SetMixtureVariance | src/hmm.rb:28-34 | the in-place write has the effect of `HmmSpec.SetMixtureVariance` |
| Hmm.State.SetMixtureVarianceTotal | src/hmm.rb:36-38 | the in-place write has the effect of `HmmSpec.SetMixtureVarianceTotal` |
| Hmm.State.WeightedPdf | src/hmm.rb:40-52 | the accumulating loop returns `safe_log` of the weighted sum of the mixtures' Gaussian terms, `HmmSpec.WeightedPdf` |
| Hmm.HMM.constructor | src/hmm.rb:62-69 | a new HMM has no states, no transitions, no current state, no initial row, offset 0 and no last directive |
| Hmm.HMM.NewState | src/hmm.rb:103-106 | a fresh state object is appended and becomes the current state, as `HmmSpec.NewState` |
| Hmm.HMM.Set | src/hmm.rb:71-88 | the object's new fields are `HmmSpec.Set` of the old ones; only the fresh state objects are new |
| Hmm.HMM.UpdateLast | src/hmm.rb:108-123 | the object's new fields are `HmmSpec.UpdateLast` of the old ones |
| Hmm.PlusMatrices | src/hmm.rb:140-155 | the nested copy loops of `+` produce exactly `HmmSpec.PlusTransitions` |
| Hmm.HMM.Plus | src/hmm.rb:134-158 | `a + b` is a fresh HMM: states concatenated, `initial` padded with one zero per state of `b`, the combined matrix, offset 0, no current state and no last directive |
| HmmSpec.SwitchNewMixture | src/hmm.rb:13-18 | a mixture with the given weight is appended only while there are fewer than two; with two, the state is unchanged; the invariant holds either way |
| HmmSpec.SetMixtureMean | src/hmm.rb:20-22 | the mean is written only when a current mixture exists and has no mean yet; otherwise nothing changes |
| HmmSpec.SetMixtureMeanTotal | src/hmm.rb:24-26 | `mean_total` is written only when a current mixture exists and has none yet |
| HmmSpec.SetMixtureVariance | src/hmm.rb:28-34 | variance, inverse and denominator are written together, only when a current mixture exists and has no variance yet |
| HmmSpec.SetMixtureVarianceTotal | src/hmm.rb:36-38 | `variance_total` is written only when a current mixture exists and has none yet |
| HmmSpec.SettersKeepShape | src/hmm.rb:20-38 | the four field setters never add or remove a mixture, nor move the current mixture |
| HmmSpec.SafeLog | src/hmm.rb:54-56 | zero maps to 0; any other value maps to its logarithm |
| HmmSpec.NoMixturesScoreZero | src/hmm.rb:40-56 | a state without mixtures has `weighted_pdf` 0 |
| HmmSpec.MixtureSumPermutation | src/hmm.rb:40-50 | the weighted sum does not depend on the order of the mixtures |
| HmmSpec.ClassifyRoundTrip | src/hmm.rb:72-87 | keeping the directive as a tag loses nothing: the entry string is recovered from it, and exactly the five known names get their own tag |
| HmmSpec.TagRoundTrip | src/hmm.rb:72-87 | every tag is the tag of its own name |
| HmmSpec.NewState | src/hmm.rb:103-106 | one empty state is appended, becomes current, and the HMM invariant is kept |
| HmmSpec.Set | src/hmm.rb:71-88 | every directive, recognised or not, is recorded as the last one, and the invariant is kept |
| HmmSpec.UpdateLast | src/hmm.rb:108-123 | a row never changes the last directive (the mode is sticky), and the invariant is kept |
| HmmSpec.ThirdMixtureIgnored | src/hmm.rb:13-18 | a third `MIXTURE` on a state changes nothing but the recorded directive |
| HmmSpec.DirectivesBeforeState | src/hmm.rb:71-81 | `MIXTURE`, `MEAN` and `VARIANCE` before any `STATE` only record the directive |
| HmmSpec.StateDirectiveOpensState | src/hmm.rb:82-84 | `STATE` appends an empty state and makes it current |
| HmmSpec.MixtureWeightIsLastToken | src/hmm.rb:74-77 | `MIXTURE` opens a mixture whose weight is the last token of the value, and it becomes current |
| HmmSpec.UnknownDirectiveOnlyRecorded | src/hmm.rb:71-88 | an unrecognised directive changes nothing but the recorded directive |
| HmmSpec.OtherModesIgnoreRows | src/hmm.rb:108-123 | a row that arrives in any mode other than `VARIANCE`, `MEAN` or `TRANSP` is ignored |
| HmmSpec.PlusTransitions | src/hmm.rb:140-155 | the combined matrix has size \|a\| + \|b\| - 1 and no row shorter than that |
| HmmSpec.PlusTransitionsCells | src/hmm.rb:143-155 | each cell is taken from `a` (rows but the last, same place) or from `b` (shifted by \|a\| - 1 on both axes), never from both, and is 0 otherwise |
| HmmSpec.PlusLeftCell | src/hmm.rb:145-149 | every cell of every row of `a` but its last is copied to the same coordinates |
| HmmSpec.PlusRightCell | src/hmm.rb:151-155 | every cell of `b` is copied shifted by \|a\| - 1 on both axes |
| HmmSpec.PlusUpperZero | src/hmm.rb:143-149 | in a row from `a`, a column past that row's length is 0 |
| HmmSpec.PlusLowerZero | src/hmm.rb:151-155 | in a row from `b`, a column outside the shifted copy is 0 |
| HmmSpec.PlusOtherCell | src/hmm.rb:143 | a cell written by neither copy keeps the 0 it started with |
| HmmSpec.EndTransition | src/hmm.rb:90-92 | defined exactly when there are at least two rows and the second-to-last is not empty, and then it is that row's last entry |
| Matrices.Zeros | src/hmm.rb:142 | `Array.new(n, 0)` has n entries, all 0 |
| Matrices.ZeroMatrix | src/hmm.rb:143 | h rows, each of w zeros |
| Matrices.AllButLast | src/app.rb:528 | `m[0...-1]` is every row but the last, and nothing for an empty matrix |
| Matrices.Place | src/hmm.rb:151-155 | writing rows at an offset keeps the number of rows and never shortens a row |
| Matrices.PlaceWritten | src/hmm.rb:151-155 | every source cell lands at its shifted coordinates |
| Matrices.PlaceUntouched | src/hmm.rb:151-155 | every cell outside the shifted copy keeps its old value |
| Matrices.OverlayRow | src/hmm.rb:152-154 | the column loop writes one row as the overlay of the source row at the offset |
| Matrices.PlaceRows | src/hmm.rb:151-155 | the row loop writes the whole block as `Place` |
| Tables.PutSpec | src/app.rb:293 | `h[k] = v` maps `k` to `v`, keeps every other key, and adds `k` at the end of the key order only if it is new |
| Tables.PutDistinct | src/app.rb:293 | assignment never lists a key twice |
| Loader.Apply | src/app.rb:272-277 | a directive goes to `set` and any other line to `update_last`; the invariant is kept |
| Loader.Step | src/app.rb:268-279 | one line of the loop keeps every stored model well formed and the current model stored |
| Loader.LoadKeys | src/app.rb:269-271 | the returned hash has exactly the header names of the file as keys |
| Loader.NoHeaderNoEffect | src/app.rb:273-277 | lines with no current model change nothing |
| Loader.LinesBeforeFirstHeaderIgnored | src/app.rb:272-277 | lines before the first header do not affect the result |
| Loader.BodyFeedsCurrent | src/app.rb:272-277 | the lines of a section all go, in order, to the current model, and no other model changes |
| Loader.OtherModelUntouched | src/app.rb:268-279 | a stored model that is not current and is not named again keeps its value |
| Loader.LaterSectionsLeaveModel | src/app.rb:268-279 | later sections under other names do not change a stored model |
| Loader.ModelIsItsLastSection | src/app.rb:269-271 | the model stored under a name is built from the last section with that header alone; earlier sections under that name are replaced |
| Loader.TranspSection | src/hmm.rb:108-123 | after `TRANSP n`, `transition_size` is n - 1, the first row becomes `initial`, and every later row is appended with its first column dropped |
| Loader.ValueModeKeepsFirstRow | src/hmm.rb:109-114 | after `MEAN` or `VARIANCE`, only the first row has an effect |
| Loader.MeanSection | src/hmm.rb:78-79 | a `MEAN` section on a fresh mixture sets its total from the value and its mean from the first row |
| Loader.FeedExtends | src/hmm.rb:71-123 | feeding lines never removes or overwrites anything already set: states, mixture fields, `initial` and transition rows only grow |
| Loader.OpenModel | src/app.rb:269-271 | a header stores a fresh HMM under its name and makes it current |
| Loader.Deliver | src/app.rb:272-277 | the in-place dispatch of one line has the effect of `Loader.Apply` |
| Loader.FeedCurrent | src/app.rb:272-277 | one non-header line updates the current object as `Loader.Step` says |
| Loader.ReadMultiHmmFile | src/app.rb:263-283 | the returned hash has the names of the value-level load, each object's fields are that load's model, and no two models share any object |
| Words.FoldTransitions | src/app.rb:293 | the folded matrix has the summed sizes less one per join |
| Words.FoldStep | src/app.rb:293 | folding one more phoneme is one more `+` on the right (a left fold) |
| Words.Compose | src/app.rb:293 | `inject(:+)` over two or more models: the phonemes' states concatenated, the first `initial` padded with zeros for the rest, and the folded matrix |
| Words.ComposedAll | src/app.rb:293 | once every phoneme is folded in, the result is the full concatenation |
| Words.SumsStep | src/hmm.rb:134-158 | adding the next phoneme with `+` extends the running states, `initial` and matrix as the fold says |
| Words.WordEntry | src/app.rb:290-293 | a line with no phoneme stores nil, one phoneme stores that model object itself, and more store a fresh fold |
| Words.PutLine | src/app.rb:293 | storing a line's word keeps the table equal to the last pronunciation of every word seen so far |
| Words.AddLine | src/app.rb:289-294 | a line fails exactly when Ruby raises on it; otherwise its word is stored |
| Words.MakeHmmWords | src/app.rb:285-296 | fails exactly when some line raises; otherwise the words are in first-appearance order and each maps to the model of its last line |
| Network.AllStates | src/app.rb:308 | the sentence states are the words' states in hash order, one per offset position |
| Network.OffsetMono | src/app.rb:312-323 | offsets are non-decreasing, and each word's block ends before the next word's block starts |
| Network.CopyMatrix | src/app.rb:526-533 | a successful copy keeps the number of rows and never shortens a row |
| Network.CopyMatrixWrites | src/app.rb:528-531 | every row but the last of the block lands at `[y + off][x + off]` |
| Network.CopyMatrixKeeps | src/app.rb:526-533 | every cell outside the copied rows keeps its value |
| Network.CopyMatrixFails | src/app.rb:530 | the copy fails exactly when a non-empty row would land past the last row |
| Network.Layout | src/app.rb:312-324 | a successful layout has one row per sentence state and no short row |
| Network.LayoutStep | src/app.rb:313-323 | each word is copied at the running offset, and the offset then grows by its number of states |
| Network.LayoutRows | src/app.rb:312-324 | for the HTK shape (one more transition row and column than states), the layout succeeds and is the explicit block matrix |
| Network.LayoutRow | src/app.rb:314 | each of a word's rows is its transition row overlaid on zeros at the word's offset |
| Network.LayoutCell | src/app.rb:309-314 | each cell of a word's row is the word's transition at that column inside the block and its exit column, and 0 elsewhere |
| Network.ExitColumnLeaks | src/app.rb:528-531 | a word's exit column lands in the first column of the next word |
| Network.StartOf | src/app.rb:318 | every word's offset maps to that word in the start map (offsets are distinct because every word has a state) |
| Network.StartsOnly | src/app.rb:318 | the start map has no key that is not some word's offset |
| Network.EndOf | src/app.rb:317 | every word's last state maps to that word in the end map |
| Network.EndsOnly | src/app.rb:317 | the end map has no key that is not some word's last state |
| Network.LastPlaced | src/app.rb:319 | the offset of a shared model object is that of its last placement |
| Network.Find | src/app.rb:337 | a name's placement, or None exactly when no placement has that name |
| Network.FromState | src/app.rb:339 | `from` is a sentence state |
| Network.ToState | src/app.rb:344 | `to` is a sentence state |
| Network.BigramStep | src/app.rb:331-358 | a bigram line keeps the matrix's shape and leaves `from` and `to` inside the sentence |
| Network.Bigrams | src/app.rb:329-359 | the bigram loop keeps the matrix's shape |
| Network.SentenceMatrix | src/app.rb:309-359 | the sentence matrix is square over the sentence states, with no short row |
| Network.BigramWrites | src/app.rb:348-351 | a line naming two known words writes `p * end_transition(A)` at `[end(A)][start(B)]` and changes no other cell |
| Network.BigramStaleFrom | src/app.rb:337-350 | an unknown first word with a stale `from` raises at `end_transition` |
| Network.BigramStaleTo | src/app.rb:342-351 | an unknown second word writes to the previous line's `to` |
| Network.BigramSkips | src/app.rb:331-332 | a line without exactly three tab fields changes nothing |
| Network.FromStateEnds | src/app.rb:337-345 | `from` is always a word-end state and `to` a word-start state |
| Network.BigramsShape | src/app.rb:329-359 | after the loop, `from` and `to` are word-end and word-start states, and no row changed length |
| Network.BigramsCrossWordOnly | src/app.rb:329-359 | the bigram loop changes only cells from a word-end state to a word-start state |
| Network.SumError | src/hmm.rb:140-155 | `a + b` raises while building its matrix exactly when `a` has no transition row and `b` has none (negative size) or a single non-empty one (a write through a nil row) |
| Sentence.SpErrorNone | src/app.rb:303 | the "sp" pass raises nothing exactly when there is an "sp" model (if there are words) and every word has a model with an initial row, and either has a transition row or "sp" has two or more rows or a single empty row |
| Sentence.SpErrorSticky | src/app.rb:303 | the first exception of the pass is the one raised |
| Sentence.CheckWords | src/app.rb:303 | the loop raises exactly what `SpError` says, including the two `+` exceptions |
| Sentence.CopyMatrixRows | src/app.rb:526-533 | the row loop of `copy_matrix` computes `Network.CopyMatrix` |
| Sentence.JoinStates | src/app.rb:308 | the states join produces `Network.AllStates` |
| Sentence.SetOffset | src/app.rb:319 | writing the offset keeps every placed object's offset equal to that of its last placement |
| Sentence.LayoutSticky | src/app.rb:313-324 | once a copy raises, later words change nothing |
| Sentence.MapsStep | src/app.rb:317-318 | placing a word adds its offset to the start map and its last state to the end map |
| Sentence.CopyWord | src/app.rb:314-318 | one iteration of the layout loop computes the layout, starts and ends of one more word |
| Sentence.LayoutWords | src/app.rb:312-324 | the layout loop computes `Network.Layout` and the two maps, and leaves every object's offset at its last placement |
| Sentence.LookupWord | src/app.rb:337-345 | `@words[name]` is found exactly when the name is placed, and its offsets give `from` and `to` |
| Sentence.WordSpan | src/app.rb:337-345 | the first and last state of a named word, or None exactly when it is unknown |
| Sentence.WordEnd | src/app.rb:350 | a known word's `end_transition` |
| Sentence.BigramLineStep | src/app.rb:331-358 | one iteration of the bigram loop computes `Network.BigramStep` |
| Sentence.WriteLine | src/app.rb:337-357 | the guarded write, given the looked-up spans, computes `Network.BigramStep` |
| Sentence.BigramsSticky | src/app.rb:329-359 | once a bigram line raises, later lines change nothing |
| Sentence.BigramsNext | src/app.rb:329-359 | each line continues the loop from the matrix and locals the earlier lines left |
| Sentence.ApplyBigrams | src/app.rb:327-359 | the bigram loop computes `Network.Bigrams` |
| Sentence.SentenceWords | src/app.rb:307 | `"<s>"` maps to the `sil` model (nil if there is none), every other word is kept, and the key order grows only if `"<s>"` is new |
| Sentence.SpErrorAllSet | src/app.rb:303 | if the "sp" pass raises nothing, no word is nil |
| Sentence.SentenceWordsSet | src/app.rb:307 | with a `sil` model, no word of the sentence table is nil |
| Sentence.BuildNet | src/app.rb:308-359 | the network built is the value-level network of the placements and the bigram lines, or its error |
| Sentence.MakeBigram | src/app.rb:298-360 | raises the "sp" pass's error, or `NoSil`, or gives the value-level network of the words in hash order with `"<s>"` added |
| Viterbi.NetOf | src/app.rb:430-447 | the decoder reads the sentence HMM's number of states and its two location hashes, as `make_bigram` left them |
| Viterbi.ScoringOfNet | src/app.rb:483-489 | on the network `make_bigram` builds, the emission of state s is that state object's `weighted_pdf`, and the transition score of (p, s) is the `safe_log` of the sentence matrix cell |
| Viterbi.ScoringOf | src/app.rb:483-489 | the emission of state s is its `weighted_pdf`, and the transition score of cell (p, s) is the `safe_log` of that cell |
| Viterbi.ArgMax | src/app.rb:494 | the selected candidate exists |
| Viterbi.ArgMaxFirst | src/app.rb:494 | the selected candidate is a maximum, and every candidate before it is strictly smaller |
| Viterbi.ArgMaxUnique | src/app.rb:494 | an index that is a maximum, with every earlier candidate strictly smaller, is the one selected |
| Viterbi.ArgMaxStep | src/app.rb:496-499 | a new candidate replaces the best only when it is strictly greater |
| Viterbi.InitialAt | src/app.rb:447-452 | v[0][s] is the emission of `obs[0]` when s starts a word, and 0 otherwise |
| Viterbi.InitialPathsAt | src/app.rb:453 | the first paths are `[s]` |
| Viterbi.CandsAt | src/app.rb:486-491 | the candidate of predecessor p is v[t-1][p] + trans(p, s) + pdf(s) |
| Viterbi.Pred | src/app.rb:494 | the chosen predecessor is a state |
| Viterbi.NextRowAt | src/app.rb:501 | v[t][s] is the best candidate |
| Viterbi.NextPathsAt | src/app.rb:502 | `newpath[s]` is the chosen predecessor's path with s appended |
| Viterbi.MaxIndex | src/app.rb:496-499 | `max_index` is a state |
| Viterbi.RowsAt | src/app.rb:463 | `@v` holds every earlier row unchanged |
| Viterbi.TrellisStep | src/app.rb:460-521 | each row and path list follows from the previous frame's |
| Viterbi.FrameStep | src/app.rb:460-521 | each frame appends one row to `@v`, replaces the paths, and reads the sentence from the previous paths at `max_index` |
| Viterbi.Labels | src/app.rb:512-515 | a path has at most one label per state |
| Viterbi.LabelsAppend | src/app.rb:512-515 | labelling distributes over concatenation of paths |
| Viterbi.LabelsMember | src/app.rb:512-515 | a label occurs exactly when its state is on the path and is a word end of that word |
| Viterbi.Viterbi | src/app.rb:430-523 | fails exactly for no observations or for a stateless network with two or more frames; otherwise one row per frame and one path per state, and an empty sentence for a single frame |
| Viterbi.FrameZero | src/app.rb:443-453 | the first row and paths of the trellis |
| Viterbi.StepAt | src/app.rb:482-501 | the new value is the chosen predecessor's candidate, no candidate is larger, and every earlier candidate is strictly smaller |
| Viterbi.Recurrence | src/app.rb:460-502 | v[t][s] is the maximum over predecessors of v[t-1][p] + trans(p, s) + pdf(s, obs[t]), the recorded p attains it first, and paths[s] extends that p's path |
| Viterbi.PathScoreStep | src/app.rb:501-502 | extending the chosen predecessor's path by s gives a path whose score is the new value |
| Viterbi.ValueIsPathScore | src/app.rb:453-502 | after frame t, every `paths[s]` has length t + 1, ends in s, holds only states, and scores exactly v[t][s] |
| Viterbi.TracedAll | src/app.rb:453-502 | the same property, proved by induction on the frame |
| Viterbi.OptimalStep | src/app.rb:482-501 | if a path's prefix scores at most the previous value, the path scores at most the new value |
| Viterbi.ValueIsOptimal | src/app.rb:482-501 | no path of t + 1 states ending in s scores more than v[t][s] |
| Viterbi.SentenceOfBestPath | src/app.rb:509-515 | the labels of the best final path are the sentence of that frame, plus the final state's own label if it ends a word |
| Viterbi.WordLabels | src/app.rb:511-515 | the label loop lists the word-end labels along the path in order |
| Viterbi.BestPredecessor | src/app.rb:482-494 | the predecessor scan returns the first best predecessor and its candidate |
| Viterbi.NextFrame | src/app.rb:463-502 | the state loop of one frame computes the next row, the new paths and `max_index` |
| Viterbi.FirstFrame | src/app.rb:443-458 | the initial loop computes row 0 and the one-state paths |
| Viterbi.Advance | src/app.rb:460-521 | one pass of the frame loop extends `@v` by a row, replaces the paths and gives that frame's sentence |
| Viterbi.Frames | src/app.rb:460-521 | the frame loop computes the whole trellis, the last paths and the last sentence |
| Viterbi.GaussianViterbi | src/app.rb:430-523 | the decoder computes `Viterbi.Viterbi`, including its two error cases |

## Left out

- Terminal UI (`WindowManager`, `display`, grids, footers, `puts`/`print`, `system("clear")`): presentation only.
- File I/O and orchestration (`File.new`/`gets`, `Dir.glob`, `find_input_files_from`, `words_fast_pass`, `read_input_file`, `run`, `Application#initialize`): lines are given already classified. The regular expressions and `to_f` are replaced by the `Line`, `DictLine` and `BigramLine` inputs.
- Floating-point numerics: the Gaussian density (`Matrix` operations, `Math.exp`, `inverse`, the normaliser) is an uninterpreted parameter. `Math.log` is the parameter `ln`. Reals stand for floats, so rounding, infinities and NaN are not modelled.
- `add_logs`, `sum_logs` and `gaussian_forward` (src/app.rb:375-428): log-sum-exp over floats, not part of this model.
- Dead or broken helpers: `read_hmm_file` (it names undefined variables), the `test_*` methods, `rm` (random), `pm`, `matrix`, `HMM#switch_state` (never called) and `print_trans`.
- The Ruby `Matrix` library is not part of this model.
- `State#weighted_pdf` raises on a mixture without a mean or variance; the model computes the symbolic sum instead.
- HmmSpec.SetMixtureVariance: always writes the variance, its inverse and its normaliser. `set_mixture_variance` (src/hmm.rb:30-32) raises in three cases, and so does `read_multi_hmm_file` through it (the same holds for Hmm.State.SetMixtureVariance):
  - on an empty row, such as a blank line after `<VARIANCE>`: `[].inject(:*)` is nil and `Math.sqrt(nil)` raises;
  - on a zero entry: `Matrix#inverse` raises for a singular matrix;
  - on a negative product: `Math.sqrt` raises.
  These conditions are floating-point arithmetic on the variance values, and the inverse and normaliser are kept symbolic, so they are not modelled.
- Hmm.HMM.Plus: requires a left operand with an `initial` row and at least one transition row. Without the row Ruby raises (`nil + Array`); the "sp" pass in Sentence returns `NoInitial` at exactly that point, and returns `Network.SumError`'s failure where `+` raises for want of a transition row. Without a transition row the shift is -1 and Ruby's negative index wraps around, which the model does not follow.
- Words.MakeHmmWords: requires every known phoneme of a line with two or more phonemes to have at least one transition row, for the same wrap-around reason. Models that no such line names, and one-phoneme lines, are unconstrained. The same holds for Words.AddLine and Words.WordEntry.
- Sentence.CheckWords: stated through `old(...)` of the table because `SpError` reads the words' `initial` fields, so its contract is not counted mechanically.
- Sentence.MakeBigram: stated through `old(...)` for the same reason. It also requires every word of the sentence table to have at least one state. For a stateless word, `offset + length - 1` can be -1, which Ruby reads as the last row.
- Network.Layout: after a failed copy the offsets already written are not described; the `Failure` names the word.
- `make_bigram`'s "sp" pass: the sums it builds are discarded by Ruby, so only their exceptions are modelled.
- Viterbi.ScoringOf: gives 0 for a state or matrix cell outside the model, where Ruby would raise. The trellis itself takes the two scores as given functions.
- Viterbi.Viterbi: the sentence is kept as (word, state) pairs instead of the formatted string `"word(index)"`. `@v` is returned as part of a `Trellis` value instead of being assigned to a field.
- `@sentences`: it only ever receives the first, empty array, because `sentence = []` later rebinds the local. It is left out.
- Words.MakeHmmWords: its contract also does not state that composed words are fresh objects.
- Table iteration order follows insertion order, as Ruby hashes do. Deleting keys does not occur in the core and is not modelled.
