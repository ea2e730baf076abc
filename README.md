# Quiz controllers and explanation translation, in Dafny

This project models the logic of a grade-twelve quiz web application:

- **The standard quiz controller** (`QuizInterface`). It runs one chapter at one difficulty. A correct answer earns points from a difficulty base, a capped streak bonus and a speed bonus. Four achievements unlock at streak and point thresholds. A countdown of 90 seconds per question runs, and the final score goes to the parent through `onComplete`.
- **The mixed-subject page** (`Reximix`). It pools every geography and history question, shuffles the pool and keeps up to 20 of the shuffled questions. It records the answers in order and keeps a running score. It has a 30-minute countdown and a result screen with a per-question breakdown.
- **The explanation translator** (`translateExplanation`). It rewrites English explanations into Oromo using a fixed word dictionary, with whole-word, case-insensitive replacement in dictionary order, followed by eleven phrase substitutions. `translateOptions` and `translateQuestion` are identities.

Layout:

- `quiz_data.dfy`: the values shared by both controllers (`Question`, `Difficulty`, `Option`).
- `time_format.dfy`: `formatTime`, which both controllers define identically, and its inverse `ParseTime`.
- `quiz_interface.dfy`: the standard controller. The component is the class `QuizInterface.Session`. Its fields are the `useState` slots, and each React handler is one atomic method that sees one snapshot of the state. The pure helpers are module-level functions.
- `reximix.dfy`: the mixed quiz, with the class `Reximix.Session`.
- `translation_tables.dfy`: the 97 declarations of the `translations` object literal, in source order, in blocks of about ten lines.
- `translation_utils.dfy`: a model of `String.prototype.replace` with a global regular expression (`ReplaceAll`), the object-literal semantics behind `Object.entries`, and the translator itself.

Modelling choices:

- **Timer ticks.** Each tick is an explicit `Tick()` call. `QuizInterface` has no finished state of its own: it only calls `onComplete`. The field `reports` records those calls in order.
- **The timer effect.** It depends on `[timeLeft, showFeedback]` and finishes the quiz whenever it runs with `timeLeft === 0`. It is modelled as `TimerEffect`, run after every handler that changes one of those two slots. So a quiz can report twice, for example on Continue at the last question with the clock at 0. This assumes the component stays mounted after its first `onComplete`. The parent page that decides this is not part of this model.
- **Rendering guards.** What the rendering offers becomes each handler's precondition. Submit is shown only while feedback is hidden, and Continue only while it is shown.
- **The shuffle.** It is a permutation parameter `perm`. The chapters come in as parameters.

## Model

| member | source | states |
|---|---|---|
| QuizInterface.CalculatePoints | src/components/QuizInterface.tsx:67-86 | A wrong answer earns 0. A right one earns between the difficulty base and base + 20 + timeBonus / 10, so between 10 and 58 when timeBonus < 90. |
| QuizInterface.StreakBonusCapped | src/components/QuizInterface.tsx:78 | The award never drops as the previous streak grows, and stops growing once that streak reaches 10. |
| QuizInterface.BasePoints | src/components/QuizInterface.tsx:71-75 | The difficulty base: 10, 20 or 30. Its partner lemma DifficultyOrdersPoints orders the awards easy < medium < hard. |
| QuizInterface.DifficultyOrdersPoints | src/components/QuizInterface.tsx:71-75 | With all else equal, easy < medium < hard. |
| QuizInterface.Reached | src/components/QuizInterface.tsx:91-100 | The threshold of each achievement: streak >= 3, streak >= 5, points >= 100, points >= 200. NewAchievements and AchievementsAfterCorrect state the unlocked lists in terms of it. |
| QuizInterface.NewAchievements | src/components/QuizInterface.tsx:88-103 | The new list holds exactly the achievements whose threshold the new streak or total reaches and that are not yet earned. They come in the fixed order streak_3, streak_5, points_100, points_200. |
| QuizInterface.TestAchievement | src/components/QuizInterface.tsx:91-102 | One `if ... push` step extends the "exactly the reached, unearned ones checked so far" property by one achievement. |
| QuizInterface.AllTested | src/components/QuizInterface.tsx:89-102 | After the four tests, every achievement has been considered, in order. |
| QuizInterface.AchievementsAfterCorrect | src/components/QuizInterface.tsx:104-106 | The earned list plus the new ones has no duplicates. It is exactly the set of thresholds reached by max(bestStreak, newStreak) and the new total. |
| QuizInterface.CorrectAnswerKeepsRewards | src/components/QuizInterface.tsx:123-134 | A correct answer keeps the reward invariant. Combo and streak rise together, the best streak bounds the streak, achievements are earned once each and are exactly those reached, and the one shown is among them. |
| QuizInterface.CorrectUpTo | src/components/QuizInterface.tsx:156-161 | The count over the first n positions is at most n. |
| QuizInterface.Score | src/components/QuizInterface.tsx:155-163 | The final score is at most the number of questions. |
| QuizInterface.CorrectUpToIsCardinality | src/components/QuizInterface.tsx:156-161 | The count equals the size of the set of positions whose recorded answer is `correct`. |
| QuizInterface.NothingAnsweredScoresZero | src/components/QuizInterface.tsx:156-161 | With no recorded answers the score is 0, as when the clock runs out before the first submit. |
| QuizInterface.CountCorrect | src/components/QuizInterface.tsx:156-161 | The `forEach` loop computes exactly `Score`. |
| QuizInterface.Session.Outcome | src/components/QuizInterface.tsx:162 | The report carries score <= total, with total = number of questions. |
| QuizInterface.Session.constructor | src/components/QuizInterface.tsx:23-53 | Gives the initial slots and a budget of 90 s per question. An empty question list reports 0 of 0 at once through the timer effect. |
| QuizInterface.Session.TimerEffect | src/components/QuizInterface.tsx:55-62 | At 0 it reports the outcome; otherwise it changes nothing. |
| QuizInterface.Session.HandleFinishQuiz | src/components/QuizInterface.tsx:155-163 | Appends one report (score, length, chapterName, difficulty) and keeps the invariant. |
| QuizInterface.Session.HandleAnswerSelect | src/components/QuizInterface.tsx:111-113 | With the click guard of line 331, the selection becomes the option only while feedback is hidden. |
| QuizInterface.Session.HandleNextQuestion | src/components/QuizInterface.tsx:115-142 | An empty selection changes nothing. Otherwise the answer is recorded and feedback is shown. If correct, streak and combo rise by 1, bestStreak = max, points rise by `calculatePoints` of the old streak and `timeLeft % 90`, and exactly the newly reached, unearned achievements are appended, in the order streak_3, streak_5, points_100, points_200, with the first of them shown. If wrong, streak and combo become 0 and bestStreak, points and achievements stay. |
| QuizInterface.Session.RewardCorrect | src/components/QuizInterface.tsx:123-134 | The correct branch on its own: the new streak, best streak, combo and points. Exactly the newly reached, unearned achievements are appended in check order, and the first of them is shown. The reward invariant is kept. |
| QuizInterface.Session.HandleContinue | src/components/QuizInterface.tsx:144-153 | Hides feedback and clears the selection. It advances the index by exactly 1, or on the last question finishes. The index stays below the length, and at 0 s the re-run timer effect reports again. |
| QuizInterface.Session.Tick | src/components/QuizInterface.tsx:55-58 | `timeLeft` drops by 1 only while > 0 and feedback is hidden; reaching 0 finishes. |
| TimeFormat.PadStart2 | src/components/QuizInterface.tsx:168 | `padStart(2, '0')`: the result has length max(|s|, 2). SecondsField states the padded seconds are two digits with the value `s % 60`. |
| TimeFormat.FormatTime | src/components/QuizInterface.tsx:165-169 | `formatTime`, which src/pages/Reximix.tsx:105-109 defines identically. Its partner ParseTime inverts it on every whole number of seconds (FormatTimeRoundTrip). |
| TimeFormat.Decimal | src/components/QuizInterface.tsx:166-168 | `toString`: at least one digit, one digit exactly below 10, no leading zero. |
| TimeFormat.DecimalValue | src/components/QuizInterface.tsx:166-168 | The digits read back as the number. |
| TimeFormat.SecondsField | src/components/QuizInterface.tsx:167-168 | The seconds part is always two digits and reads back as `s % 60`. |
| TimeFormat.FormatTimeRoundTrip | src/components/QuizInterface.tsx:165-169 | Reading `m:ss` back gives m * 60 + ss = s for every whole number s of seconds. The Reximix page's identical helper is the same function. |
| Reximix.Flatten | src/pages/Reximix.tsx:29-36 | The `forEach`/`push(...chapter.questions)` collection, chapter after chapter. FlattenMembers states which questions it holds. |
| Reximix.FlattenMembers | src/pages/Reximix.tsx:29-36 | A question is collected exactly when some chapter holds it. |
| Reximix.Pool | src/pages/Reximix.tsx:26-37 | `allQuestions`: the geography questions followed by the history ones. |
| Reximix.PoolMembers | src/pages/Reximix.tsx:26-37 | The pool holds exactly the questions of some geography or history chapter. |
| Reximix.SliceEnd | src/pages/Reximix.tsx:41 | `slice(0, count)` keeps min(count, length) for count >= 0. |
| Reximix.GenerateMixedQuiz | src/pages/Reximix.tsx:26-42 | The quiz has SliceEnd(count, pool size) questions, and position i holds pool[perm[i]]. The pool is geography then history, chapter by chapter. |
| Reximix.MixedQuizDistinct | src/pages/Reximix.tsx:39-41 | A prefix of a permutation of a pool with distinct ids has distinct ids: no pool entry appears twice. |
| Reximix.Tally | src/pages/Reximix.tsx:81-83 | The score of the recorded answers is at most their number. |
| Reximix.Marks | src/pages/Reximix.tsx:216-229 | The breakdown has one mark per question. |
| Reximix.MarksPrefix | src/pages/Reximix.tsx:225-226 | The check marks among the first n equal the score of the first n answers. |
| Reximix.BreakdownMatchesScore | src/pages/Reximix.tsx:216-229 | The number of check marks equals the tally; an unanswered index gets a cross. |
| Reximix.Session.constructor | src/pages/Reximix.tsx:15-23 | The initial slots: not started, 1800 s on the clock. |
| Reximix.Session.StartQuiz | src/pages/Reximix.tsx:61-71 | A fresh quiz of SliceEnd(20, pool size) shuffled questions: index 0, score 0, no answers, 1800 s, started, not completed, result hidden. The selection is kept. |
| Reximix.Session.HandleAnswerSelect | src/pages/Reximix.tsx:73-75 | The selection becomes the answer. |
| Reximix.Session.HandleNextQuestion | src/pages/Reximix.tsx:77-92 | Appends the selection and adds 1 to the score exactly when it is correct. It then advances and clears the selection, or on the last question completes and shows the result. The invariant score = tally and the answer count = index while playing are kept. |
| Reximix.Session.Tick | src/pages/Reximix.tsx:44-59 | Acts only while started and not completed. It takes 1 off, or at <= 1 sets 0, completes and shows the result, so the clock never goes below 0. |
| Reximix.Session.ResetQuiz | src/pages/Reximix.tsx:94-103 | Back to not started with no questions, index 0, empty selection, score 0, no answers, not completed and result hidden. The clock is untouched. |
| Reximix.Session.MarksAddUpToScore | src/pages/Reximix.tsx:216-229 | In every reachable state the check marks add up to `score`. |
| TranslationTables.DeclarationKeys | src/utils/translationUtils.ts:7-106 | Every declared key is a non-empty word of lower-case ASCII letters. |
| TranslationUtils.Fold | src/utils/translationUtils.ts:113 | The `i` flag's ASCII folding keeps a character's word or non-word class. |
| TranslationUtils.ReplaceFrom | src/utils/translationUtils.ts:113-114 | The left-to-right scan of a global `replace`: at a match, the value is emitted and the scan resumes after the match; otherwise one character is copied. The lemmas below state its meaning. |
| TranslationUtils.ReplaceAll | src/utils/translationUtils.ts:113-114 | `s.replace(regex, v)` with the `g` and `i` flags, from position 0. ReplaceAllNoMatch, ReplaceAllWord, ReplaceAllSplit and ReplaceAllPhrase state what it does. |
| TranslationUtils.ReplaceAllNoMatch | src/utils/translationUtils.ts:114 | A text without a match comes back unchanged. |
| TranslationUtils.ReplaceFromShift | src/utils/translationUtils.ts:113-114 | After a prefix ending in a non-word character, the rest is rewritten as if it stood alone. |
| TranslationUtils.ReplaceAllSplit | src/utils/translationUtils.ts:113-114 | A `\bkey\b` replacement rewrites both sides of a non-word character independently. |
| TranslationUtils.ReplaceAllWord | src/utils/translationUtils.ts:113-114 | A single word becomes the value exactly when it equals the key ignoring case; otherwise it is unchanged. |
| TranslationUtils.ReplaceAllPhrase | src/utils/translationUtils.ts:118-129 | A `/phrase/gi` replacement rewrites the first occurrence wherever it stands and goes on after it. |
| TranslationUtils.KeyIndex | src/utils/translationUtils.ts:7-106 | The first position holding the key, or the length when there is none. |
| TranslationUtils.KeyIndexFirst | src/utils/translationUtils.ts:7-106 | No earlier entry holds the key. |
| TranslationUtils.Assign | src/utils/translationUtils.ts:7-106 | Assigning a property: an existing key keeps its place and takes the new value, and a new key goes to the end. |
| TranslationUtils.ObjectEntries | src/utils/translationUtils.ts:6-106 | The object the literal builds, one `Assign` per declaration. ObjectEntriesSpec states what `Object.entries` then lists. |
| TranslationUtils.Dictionary | src/utils/translationUtils.ts:112 | `Object.entries(translations)`. DictionaryKeys and ResistanceIsFalmii state its keys, order and values. |
| TranslationUtils.ObjectEntriesSpec | src/utils/translationUtils.ts:112 | `Object.entries` of the literal lists every declared key once and no other. Keys come in order of first declaration, each with its last declared value. |
| TranslationUtils.ListedInDeclarationOrder | src/utils/translationUtils.ts:112 | A key declared before another is visited before it, with its last value. |
| TranslationUtils.FirstDeclarations | src/utils/translationUtils.ts:30-31 | "resistance" is first declared at position 21, "circuit" at 22. |
| TranslationUtils.LastDeclaration | src/utils/translationUtils.ts:102 | The last value declared for "resistance" is "falmii". |
| TranslationUtils.ResistanceIsFalmii | src/utils/translationUtils.ts:30-102 | The dictionary visits "resistance" before "circuit" and with the value "falmii", not "mormii". |
| TranslationUtils.ApplyWords | src/utils/translationUtils.ts:112-115 | The `forEach` over the entries, one whole-word replace each, in order. ApplyWordsNoMatch, ApplyWordsSplit, ApplyWordsConcat, ApplyWordsWordUnchanged and ApplyWordsWordTranslated state its meaning. |
| TranslationUtils.ApplyWordsConcat | src/utils/translationUtils.ts:112-115 | Running the pass over the entries a + b is running it over a, then over b. |
| TranslationUtils.ApplyWordsWordUnchanged | src/utils/translationUtils.ts:112-115 | A lower-case word that is no key of the entries comes out of the pass unchanged. |
| TranslationUtils.ApplyWordsWordTranslated | src/utils/translationUtils.ts:112-115 | A lower-case word that is the key of entry t becomes that entry's value after the whole pass. This holds when no earlier entry has the word as key and no later entry has the value as key. |
| TranslationUtils.EntriesTranslateWord | src/utils/translationUtils.ts:6-115 | For any literal with lower-case word keys, the pass over its entries turns a declared key into the value of its last declaration. The value must be a lower-case word not declared as a key. |
| TranslationUtils.FalmiiUndeclared | src/utils/translationUtils.ts:6-106 | "falmii" is not a key of the literal. |
| TranslationUtils.ResistanceTranslated | src/utils/translationUtils.ts:30-115 | The dictionary pass turns the word "resistance" into "falmii", the value of its second declaration. |
| TranslationUtils.FalmiiHasNoPhrase | src/utils/translationUtils.ts:118-129 | None of the eleven phrases occurs anywhere in "falmii". |
| TranslationUtils.ResistanceTranslatesToFalmii | src/utils/translationUtils.ts:2-131 | In Oromo, the explanation "resistance" is translated to "falmii". |
| TranslationUtils.ApplyPhrases | src/utils/translationUtils.ts:118-129 | The chain of eleven `replace` calls, applied in order with the rules of `Phrases`. ApplyPhrasesNoMatch and PhraseInsideWord state its meaning. |
| TranslationUtils.Translate | src/utils/translationUtils.ts:2-131 | English is returned as is; Oromo goes through the dictionary pass and then the phrase chain. TranslateExplanation is proved equal to it, and TranslateUnchanged states when it is the identity. |
| TranslationUtils.TranslateExplanation | src/utils/translationUtils.ts:3-132 | The result is the dictionary pass in entry order followed by the eleven phrase rules in order. English comes back unchanged. |
| TranslationUtils.TranslateOptions | src/utils/translationUtils.ts:135-141 | The options come back as given in both languages. |
| TranslationUtils.TranslateQuestion | src/utils/translationUtils.ts:144-150 | The question comes back as given in both languages. |
| TranslationUtils.ApplyWordsNoMatch | src/utils/translationUtils.ts:112-115 | A text with no key as a whole word passes the dictionary unchanged. |
| TranslationUtils.ApplyPhrasesNoMatch | src/utils/translationUtils.ts:118-129 | A text with none of the phrases passes the chain unchanged. |
| TranslationUtils.TranslateUnchanged | src/utils/translationUtils.ts:109-131 | In Oromo, a text with no declared key as a whole word, in any case, and none of the phrases comes back unchanged. |
| TranslationUtils.ApplyWordsSplit | src/utils/translationUtils.ts:112-115 | For lower-case word keys, the dictionary pass translates each side of a non-word character on its own. |
| TranslationUtils.DictionaryKeys | src/utils/translationUtils.ts:7-106 | Every key the `forEach` visits is a lower-case word. |
| TranslationUtils.WordPassSplit | src/utils/translationUtils.ts:112-115 | The real dictionary pass translates words independently of their neighbours. |
| TranslationUtils.PhraseInsideWord | src/utils/translationUtils.ts:127 | "Demeans" becomes "Dejechuudha": phrases match inside longer words. |
| TranslationUtils.KeyIgnoresCase | src/utils/translationUtils.ts:9 | "Force" becomes "humna". |

## Left out

- Rendering, styling, icons and the UI-only maps `getDifficultyColor` and `getAchievementText` are presentation and are not modelled.
- The 2 s points animation and the 3 s achievement auto-hide are not modelled: they change display flags through `setTimeout`. The slot `showPointsAnimation` is left out, and `showAchievement` is never cleared in the model.
- `setTimeout` / `setInterval` scheduling and cleanup are not modelled. A pending tick is one `Tick()` call, issued only where the effect would have scheduled one.
- The progress and result percentages and `getScoreColor` are floating-point display values and are not modelled.
- CalculatePoints: `Math.floor(timeBonus * 0.1)` is written as `timeBonus / 10`. The two are equal for the whole numbers 0..89 that `timeLeft % 90` yields. Floating-point rounding of `0.1` does not matter on that range.
- Randomness: the comparator `Math.random() - 0.5` is replaced by an arbitrary permutation `perm`. Its bias is not modelled.
- `getQuestionsForQuiz`, `getChaptersBySubject`, the geography and history data modules and `useTranslation` are not part of this model. The question list, chapter name, chapters and language are inputs.
- `console.log`, `onBack` and `navigate` have no observable effect on the state and are left out.
- QuizInterface.Session.constructor: re-running the initialisation effect when the `subject`, `chapterId` or `difficulty` props change is not modelled. A mount takes its props once.
- Reximix.Session.HandleNextQuestion: when the pool is empty the question screen cannot render, because reading `currentQuestion.difficulty` at src/pages/Reximix.tsx:281 throws a TypeError, so no Next button is ever shown. The model therefore requires a question on screen. The Next button's `disabled={!selectedAnswer}` is not required: the handler records whatever is selected.
- The Exit button at src/pages/Reximix.tsx:256-257 is written `() =` on one line and `resetQuiz()` on the next. It is modelled as its evident intent, a call of `ResetQuiz`.
- TimeFormat.Decimal: this is `toString` only for the whole numbers the clocks hold: at most 1800 s in the mixed page and 90 s per question in the standard one. JavaScript prints 1e21 and above in exponent notation and loses exactness above 2^53, and that is not modelled.
- Strings are sequences of `char`. JavaScript's UTF-16 code units are not modelled; all dictionary keys, phrases and values are ASCII.
- ReplaceAll: the `$` substitution patterns of `replace` are not modelled. No replacement string in the table contains `$`.
- Fold: the `i` flag is ASCII case folding only, which is what it does for these all-ASCII patterns. Unicode case folding is left out. `\b` uses the non-`u` word class `[A-Za-z0-9_]`.
- The files src/pages/Index.tsx, src/pages/SignUp.tsx and src/App.tsx hold a static page, a form and the routing, and are not modelled.
