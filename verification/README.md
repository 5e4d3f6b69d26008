# dgame allocation core in Dafny

dgame runs "dictator games" against language models. A model receives a
prompt saying how much it may split between itself and a partner. It answers
in free text that should end with a JSON object `{"alloc0": .., "alloc1": ..}`.
This project models the code that turns such an answer into a result record:

- the candidate scan over the answer;
- the decoding of the last candidate;
- the integer coercion of the two halves;
- the inference of a missing half;
- the range and sum checks, and the error codes they produce;
- the refusal check, which asks a second model whether an answer without
  JSON is a refusal;
- `validate_allocation`;
- `run_game` and `run_batch`, in both the synchronous and the asynchronous
  (`AsyncDictatorGame`) versions;
- prompt construction for `SimpleDGame`, `CityBudgetDGame` and
  `DataCenterDGame`;
- the standalone `RefusalDetector`.

Modules:

- `Text`: Python's `str.find`, `str.rfind` and `str.replace`, `str(int)` and
  the `"{:,}"` thousands format over `seq<char>`.
- `Json`: decoded JSON values and Python's `int()` and truthiness on them.
  Two library calls are not specified: `json.loads`, which must yield an
  object, and `int()` of a string. They are carried as function-valued
  fields of a `Runtime`, together with a third field that says, for a text
  `json.loads` does not decode, whether its exception is something other
  than `JSONDecodeError`. Every property holds for every choice of them.
- `Oracle`: a model is an oracle from request to reply. A reply is either a
  generated text with token counts or `Raised`, which stands for any
  exception in the call. This module also holds the refusal request and the
  verdict read from the slice between the last `{` and the last `}`.
- `Scan`: the naive `{`…`}` candidate scan. It comes with a declarative
  description (`IsScanOf`) that the scan meets and that has only one
  solution.
- `Games`: `DictatorGame` with `parse_allocation`, `validate_allocation`,
  `_check_if_refusal`, `run_game` and `run_batch`, plus the `SimpleDGame` and
  `CityBudgetDGame` prompts.
- `AsyncGames`: the asynchronous copies, written as loops over mutable
  locals. The awaited `generate_response_async` is the same oracle as
  `generate_response`. Under that reading, each is proved to compute exactly
  what its synchronous counterpart computes as written, exceptions included.
- `Utils`: `RefusalDetector`. It calls `generate` on an interface of
  `dgame/models.py`, which returns a dict, and reads its `text` entry. The
  games call `generate_response` on the player instead, which returns a
  `(text, usage)` pair. The two methods are separate oracles here.
- `DataCenter`: the `DataCenterDGame` prompts.

Three notes on behaviour.

- `parse_allocation` is called by `run_game` with the player as its own
  refusal checker. A caller that omits the argument passes `None`. In that
  case the attribute lookup fails inside the `try` and the verdict is
  `False`, so the result is `NO_JSON`. The game's own `_refusal_checker` is
  never consulted by the parser.
- `parse_allocation` lets two exceptions out (see Findings). `Games.Parse`,
  `Games.RunGame` and `Games.RunBatch` are the corrected definitions, and
  the properties of the game and the batch are stated about them.
  `Games.ParseAsWritten`, `Games.RunGameAsWritten`,
  `Games.RunBatchAsWritten` and every method of `AsyncGames` follow the code
  as written. They are proved to agree with the corrected definitions
  whenever they return.
- The test of a truncated object, `tests/test_games.py:80-88`, expects
  `REFUSAL`. The code gives that only when the checker's reply holds a
  truthy `is_refusal`. With the default `None` checker it gives `NO_JSON`.
  The model follows the code (`Games.NoCandidateOutcome`).

## Model

| member | source | states |
|---|---|---|
| `Text.FindFromIsFirst` | dgame/games.py:100-103 | `find` returns the first occurrence at or after the start, and -1 only when there is none |
| `Text.RFindIsLast` | dgame/games.py:253-254 | `rfind` returns the last occurrence, and -1 only when the character is absent |
| `Text.ReplaceWithoutOccurrence` | dgame/games.py:298 | a prompt without the pattern is left unchanged by `replace` |
| `Text.ReplaceLeavesNoOccurrence` | dgame/games.py:338-340 | replacing a pattern with a non-empty text sharing no character with it leaves no occurrence, even where the replacement meets its neighbours |
| `Text.ReplaceCleanPrefix` | dgame/games.py:298 | `replace` keeps a prefix that holds no first character of the pattern and acts on the rest alone |
| `Text.ReplaceAtStart` | dgame/games.py:298 | a pattern at the very start is replaced, and the rest is handled the same way |
| `Text.ReplacePassesThrough` | experiments/data_center.py:41-44 | a placeholder that differs from the pattern somewhere, and holds no first character of the pattern after its own first, is kept whole |
| `Text.ReplaceAfterCleanPrefix` | dgame/games.py:298 | the pattern after a clean prefix becomes the replacement, and the rest is handled the same way |
| `Text.ReplaceSkipsOther` | experiments/data_center.py:41-44 | another placeholder after a clean prefix is kept whole, and the rest is handled the same way |
| `Text.GroupThousandsMatchesDecimal` | dgame/games.py:337 | the `"{:,}"` rendering of the total, with its commas removed, is `str(total)`; it uses only digits, commas and a minus sign |
| `Text.GroupedCommaPositions` | dgame/games.py:337 | in the `"{:,}"` rendering of a natural number, a character is a comma exactly when it is not the first one and a multiple of four characters from the end; so one to three digits lead and every later group holds three |
| `Text.GroupThousandsLayout` | dgame/games.py:337 | a negative total renders as a minus sign before the rendering of its magnitude; a natural one has its commas exactly in front of each group of three digits from the right |
| `Text.DecimalIsNumeric` | dgame/games.py:298 | `str(total)` is non-empty and made of digits, with a minus sign in front exactly when the total is negative and nowhere else |
| `Text.DecimalIsCanonical` | dgame/games.py:298 | after the sign, the digits of `str(total)` read back as the total's magnitude and start with `0` only for zero, so no two ints share a `str` |
| `Text.DigitsRoundTrip` | dgame/games.py:298 | the decimal digits of a natural number read back as that number |
| `Text.GroupThousandsExamples` | experiments/data_center.py:40 | the grouping gives `1,000,000`, `5,000`, `10,000`, `-1,000` and `999` |
| `Json.PyInt` | dgame/games.py:125 | Python's `int()` on a decoded value: bools become 0 or 1, floats are truncated toward zero, an infinite float raises `OverflowError`, and NaN, null and lists are rejected |
| `Json.TruncationExamples` | dgame/games.py:125 | 60.5, 39.5, -0.5 and -10.9 become 60, 39, 0 and -10 |
| `Json.IntOf` | dgame/games.py:71-77 | the value an `isinstance(int)` value has in arithmetic, which is what `int()` makes of it |
| `Oracle.RefusalRequest` | dgame/games.py:236-250 | the refusal check sends the fixed system prompt and a user prompt that ends with the text, with `max_tokens` 100 |
| `Oracle.Consult` | dgame/games.py:245-261 | one request per check; an exception from the call yields `False` |
| `Oracle.MissingBraceIsNotRefusal` | dgame/games.py:253-256 | a reply lacking `{` or `}` is not a refusal |
| `Oracle.VerdictFromLastBraces` | dgame/games.py:252-259 | the verdict is read from the slice between the last `{` and the last `}` inclusive; with the braces inverted the slice is empty |
| `Oracle.InvertedBracesIsNotRefusal` | dgame/games.py:258-261 | an empty slice does not decode, so the verdict is `False` |
| `Oracle.RefusalNeedsEvidence` | dgame/games.py:252-261 | a truthy verdict needs both braces in order, a decoded object, and a truthy `is_refusal` in it |
| `Oracle.WholeObjectVerdict` | dgame/games.py:252-259 | a reply that is one object with no other brace is decoded whole |
| `Oracle.ObservedVerdicts` | tests/test_utils.py:22-61 | replies `{"is_refusal": true}`, `{"is_refusal": false}` and `Invalid JSON` give `True`, `False` and `False` |
| `Scan.NextSpan` | dgame/games.py:100-106 | a round of the scan yields a `{` at or after the start, followed by a `}` |
| `Scan.NextSpanIsFirst` | dgame/games.py:99-104 | a round takes the first `{` from the start and the first `}` after it, and finds nothing exactly when no `{` from the start on is followed by a `}` |
| `Scan.ScanBounds` | dgame/games.py:99-107 | every candidate span lies inside the text, after where the scan started, with its `{` before its `}` |
| `Scan.ScanIsScanOf` | dgame/games.py:96-107 | the scan loop produces spans where each opens at the first `{` after the previous one and closes at the first `}` after that, and it stops only when no `{` is followed by a `}` |
| `Scan.SpansInOrder` | dgame/games.py:99-107 | the candidates do not overlap and come in left-to-right order: each opens after the previous one closed |
| `Scan.ScanOfIsUnique` | dgame/games.py:96-107 | that description has exactly one solution, so it fully determines the candidates |
| `Scan.NoCandidatesIffNoPair` | dgame/games.py:109 | there is no candidate exactly when no `{` is followed by a `}` |
| `Scan.NoCloseNoCandidates` | dgame/games.py:103-105 | a text with no `}` has no candidate |
| `Scan.CandidateShape` | dgame/games.py:106 | every candidate starts with `{` and ends with its only `}` |
| `Scan.FinalAnswerIsLastCandidate` | dgame/games.py:115-117 | reasoning before the final answer, each of its `{` closed, leaves the last candidate unchanged |
| `Scan.SingleCandidate` | dgame/games.py:96-107 | a text that is one object without inner braces is its own single candidate |
| `Games.CheckRefusal` | dgame/games.py:224-261 | a checker is asked exactly once with the refusal request; a missing checker or a raising call gives `False` |
| `Games.CoerceKey` | dgame/games.py:124-125 | one iteration converts the key's value in place, or leaves the object as it was when `int()` fails; it tells an overflow apart from a rejection |
| `Games.CoerceKeys` | dgame/games.py:123-125 | the loop keeps every key and leaves keys it does not visit untouched |
| `Games.CoerceSpec` | dgame/games.py:122-127 | both halves convert, or the loop stops at the first failure; `alloc0` stays converted when only `alloc1` fails; other keys are untouched; an overflow is reached exactly when a visited half is infinite |
| `Games.Judge` | dgame/games.py:137-145 | `NEGATIVE` exactly when a half is negative, success exactly when both are non-negative and sum to the total, `SUM_MISMATCH` otherwise; the allocation is kept |
| `Games.Settle` | dgame/games.py:129-145 | a single present half is completed to the total, so the result is never `SUM_MISMATCH`; with neither half the result is `MISSING_ALLOC` with an empty allocation; the decoded keys are kept |
| `Games.Decide` | dgame/games.py:116-145 | after decoding, the result is never `REFUSAL`, `NO_JSON` or `INVALID_JSON`, and no request is sent |
| `Games.Parse` | dgame/games.py:80-145 | the refusal check is asked exactly when there is no candidate and a checker is given, and `REFUSAL`/`NO_JSON` happen exactly when there is no candidate |
| `Games.DecideAsWritten` | dgame/games.py:121-145 | after decoding, the parser as written raises exactly when `int()` overflows on `alloc0`, or on `alloc1` once `alloc0` converted; the exception is `OverflowError`; otherwise it returns what `Games.Decide` returns |
| `Games.ParseAsWritten` | dgame/games.py:80-145 | whenever the parser as written returns, it returns what `Games.Parse` returns; it never raises on a reply without a candidate; a raise is the decoder's error exactly when the last candidate does not decode |
| `Games.AsWrittenDiffersOnlyWhenRaising` | dgame/games.py:115-127 | the parser as written lets the decoder's error out exactly when it is not a `JSONDecodeError`, lets `OverflowError` out exactly when a visited half is an infinite float, and agrees with `Games.Parse` on every other input; there `Games.Parse` gives `INVALID_JSON` and `INVALID_VALUES` |
| `Games.OverflowEscapes` | dgame/games.py:126-127 | the reply `{"alloc0": 1e400}` makes the parser as written raise `OverflowError`, while the corrected parser returns `INVALID_VALUES` |
| `Games.DigitLimitEscapes` | dgame/games.py:116-119 | a reply whose `alloc0` is an integer literal of 4301 digits makes the parser as written raise the decoder's `ValueError`, while the corrected parser returns `INVALID_JSON` |
| `Games.NoCandidateOutcome` | dgame/games.py:109-113 | without a candidate the allocation is empty and the checker's verdict decides between `REFUSAL` and `NO_JSON`; without a checker it is `NO_JSON` |
| `Games.TruncatedObjectHasNoCandidate` | tests/test_games.py:80-88 | a truncated object without `}` goes to the refusal check |
| `Games.LastCandidateDecides` | dgame/games.py:115-119 | only the last candidate is decoded; if it fails to decode, the result is `INVALID_JSON` with an empty allocation, whatever came before |
| `Games.ConversionFailureKeepsObject` | dgame/games.py:122-127 | a failed conversion gives `INVALID_VALUES` and returns the decoded object with its keys, `alloc0` converted when it came first and succeeded |
| `Games.InferenceCompletesTheSum` | dgame/games.py:129-135 | with both halves convertible: a single half is completed so the sum matches, no half gives `MISSING_ALLOC`, and other keys are kept |
| `Games.EmptyAllocationIffDiscarded` | dgame/games.py:109-145 | the allocation comes back empty exactly on `REFUSAL`, `NO_JSON`, `INVALID_JSON` and `MISSING_ALLOC` |
| `Games.JudgedHasBothHalves` | dgame/games.py:137-145 | `NEGATIVE`, `SUM_MISMATCH` and success come with both halves as integers |
| `Games.PreambleDoesNotMatter` | dgame/games.py:96-119 | prepending text whose braces are all closed, before an answer that holds a candidate, does not change the parse |
| `Games.Validate` | dgame/games.py:61-78 | accepts exactly two integer halves (bools included) that are non-negative and sum to the total; a missing `alloc0` is a `KeyError` |
| `Games.ValidationOrder` | dgame/games.py:71-78 | types are checked first, then signs, then the sum, each with its own message |
| `Games.ValidateAgreesWithParse` | dgame/games.py:61-145 | the parser succeeds exactly when the validator accepts its allocation; `NEGATIVE` and `SUM_MISMATCH` match the validator's messages |
| `Games.FailedValueIsNotInt` | dgame/games.py:71-72 | an allocation left by a failed conversion is never valid, whatever the total |
| `Games.ParseExamples` | tests/test_games.py:90-111 | -10/110 is `NEGATIVE`, 70/40 is `SUM_MISMATCH`, a lone 60 is completed to 60/40, and 60.5/39.5 truncates to 60/39, a `SUM_MISMATCH` |
| `Games.ValidateExamples` | tests/test_games.py:34-60 | 60/40 is valid, floats are not integers, -10/110 is negative, 70/40 mismatches, and `True`/99 counts as 1/99 |
| `Games.AmountLeavesNoPlaceholder` | dgame/games.py:298 | substituting a rendered amount for `{TOTAL_AMOUNT}` leaves no placeholder behind |
| `Games.SimplePrompts` | dgame/games.py:296-299 | the loaded system prompt is kept and no `{TOTAL_AMOUNT}` remains in the user prompt |
| `Games.PromptWithoutPlaceholderIsKept` | dgame/games.py:296-299 | a user prompt without the placeholder is sent as loaded |
| `Games.SimpleStatesTotal` | dgame/games.py:296-299 | the user prompt states `str(total)` where `{TOTAL_AMOUNT}` stood, keeps the text before it, and treats the rest the same way |
| `Games.CityBudgetPrompts` | dgame/games.py:333-341 | the system prompt is kept and no `{TOTAL_AMOUNT}` remains after the partner and the grouped total are substituted |
| `Games.CityBudgetNamesPartner` | dgame/games.py:337-340 | the partner's name stands where `{PARTNER_NAME}` stood, untouched by the later substitution of the total |
| `Games.CityBudgetStatesTotal` | dgame/games.py:337-340 | the comma-grouped total stands where `{TOTAL_AMOUNT}` stood |
| `Games.BaseRecord` | dgame/games.py:172-183 | the record has exactly the nine metadata keys |
| `Games.MakeRecord` | dgame/games.py:172-187 | the record has the metadata keys plus the allocation's keys; every parsed key overrides; an empty allocation leaves both halves `None` |
| `Games.RunGame` | dgame/games.py:147-189 | a game fails exactly when the player's call raises; otherwise it yields a record with every metadata key |
| `Games.RunGameAsWritten` | dgame/games.py:147-189 | a game as written fails exactly when the player's call raises or the parser lets an exception out of the reply; otherwise it yields the corrected game's record |
| `Games.RecordHalves` | dgame/games.py:169-189 | a discarded allocation leaves both halves `None`; a judged one stores integers; a success stores a split the validator accepts |
| `Games.PlayerChecksItsOwnRefusal` | dgame/games.py:169 | the player is its own refusal checker: an answer without a candidate triggers one more request to it, and its verdict sets `REFUSAL` or `NO_JSON` |
| `Games.Game` | dgame/games.py:215-216 | a batch game fails exactly when that game's call raises |
| `Games.Tag` | dgame/games.py:217-219 | a record gains `batch_id`, and `experiment_id` only when one is given and non-empty; all other keys are kept |
| `Games.Batch` | dgame/games.py:214-222 | a successful batch has one tagged record per game, in order |
| `Games.BatchFailsIffSomeGameFails` | dgame/games.py:214-222 | a batch fails exactly when one of its games does |
| `Games.BatchRecords` | dgame/games.py:211-222 | every record carries the batch id, and the experiment id exactly when given or already present; its other keys are its game's |
| `Games.RunBatch` | dgame/games.py:191-222 | `run_batch(n)` returns `n` records, none when `n` is not positive |
| `Games.GameFails` | dgame/games.py:216 | game `i` fails exactly when its call to the player raises |
| `Games.RunBatchFailsIffSomeCallRaises` | dgame/games.py:191-222 | a batch of `n` fails exactly when one of its `n` calls to the player raises |
| `Games.RunBatchAsWritten` | dgame/games.py:191-222 | `run_batch(n)` as written returns `n` records, none when `n` is not positive |
| `Games.BatchAgrees` | dgame/games.py:214-222 | two game sequences that agree wherever the first returns give the same batch whenever the first batch returns |
| `Games.RunBatchAsWrittenFails` | dgame/games.py:191-222 | a batch as written fails exactly when, in one of its `n` games, the call raises or the parser lets an exception out |
| `Games.AsWrittenBatchIsBatch` | dgame/games.py:191-222 | whenever the batch as written returns, it returns the corrected batch |
| `AsyncGames.CollectCandidates` | dgame/async_games.py:153-165 | the async scan loop collects exactly the candidates of the synchronous scan |
| `AsyncGames.CollectStep` | dgame/async_games.py:156-164 | one round of the async scan loop appends the next span's text and keeps the collected candidates in step with the synchronous scan |
| `AsyncGames.CandidatesOfSpans` | dgame/async_games.py:163 | the texts of the spans, in order, are the candidates |
| `AsyncGames.CheckRefusalAsync` | dgame/async_games.py:102-137 | the async refusal check sends the same request and reaches the same verdict as the synchronous one, with `generate_response_async` read as the checker's `respond` |
| `AsyncGames.ParseAllocationAsync` | dgame/async_games.py:139-202 | the async parser has the outcome of `Games.ParseAsWritten`, exceptions included; when it returns, the same allocation, error and refusal requests as `Games.Parse` |
| `AsyncGames.CoerceAsync` | dgame/async_games.py:179-184 | the async coercion loop leaves the object the synchronous loop leaves, and reports how it ended: both halves converted, a caught failure, or an uncaught `OverflowError` |
| `AsyncGames.SettleAsync` | dgame/async_games.py:186-202 | the async inference and checks agree with `Games.Settle` |
| `AsyncGames.RunGameAsync` | dgame/async_games.py:20-62 | the async game has the outcome of `Games.RunGameAsWritten`; when it returns, the corrected game's record; `generate_response_async` is read as the player's `respond` |
| `AsyncGames.PlayGame` | dgame/async_games.py:88 | the `i`-th task is the batch's `i`-th game as written |
| `AsyncGames.PrefixAt` | dgame/async_games.py:86-89 | task `j` holds game `j` |
| `AsyncGames.CreateTasks` | dgame/async_games.py:85-89 | one task per game, in creation order |
| `AsyncGames.Gather` | dgame/async_games.py:92 | `gather` fails exactly when some task failed; otherwise it returns every result in creation order |
| `AsyncGames.TagAll` | dgame/async_games.py:94-98 | every gathered result is tagged as the synchronous batch tags it |
| `AsyncGames.GatheredIsBatch` | dgame/async_games.py:85-98 | the gathered tasks fail exactly when the batch does |
| `AsyncGames.RunBatchAsync` | dgame/async_games.py:64-100 | the async batch returns exactly what `Games.RunBatchAsWritten` returns, and when it returns, what `Games.RunBatch` returns |
| `Utils.NewRefusalDetector` | dgame/utils.py:13-20 | the detector uses the supplied interface, or the default checker when none is supplied |
| `Utils.GenerationVerdict` | dgame/utils.py:43-61 | a raising `generate`, a missing `text` entry or a `text` that is not a string gives `False` |
| `Utils.IsRefusal` | dgame/utils.py:22-61 | one `generate` request with the fixed system prompt, `max_tokens` 100 and the text at the end of the user prompt; a raising call, a missing `text` entry and a non-string `text` give `False` |
| `Utils.DetectorAgreesWithParser` | dgame/utils.py:43-61 | the detector's `generate` and a game checker's `generate_response` lead to the same request and the same verdict whenever they yield the same reply text |
| `Utils.MissingBraceIsFalse` | dgame/utils.py:53-56 | a reply lacking a brace is not a refusal |
| `Utils.VerdictFromSlice` | dgame/utils.py:52-61 | inverted braces or an undecodable slice give `False`; otherwise the verdict is the slice's `is_refusal` value, or `False` without that key |
| `Utils.ObservedOutcomes` | tests/test_utils.py:22-61 | the detector answers `True`, `False` and `False` for the three replies the tests mock |
| `DataCenter.GetPrompts` | experiments/data_center.py:36-45 | there is no system prompt, and no `{TOTAL_AMOUNT}` remains in the user prompt |
| `DataCenter.StatesPartner` | experiments/data_center.py:41-44 | the partner's name stands where `{PARTNER_NAME}` stood, untouched by the later substitutions |
| `DataCenter.StatesCompany` | experiments/data_center.py:41-44 | the partner's company stands where `{PARTNER_COMPANY}` stood |
| `DataCenter.StatesTotal` | experiments/data_center.py:40-44 | the comma-grouped total stands where `{TOTAL_AMOUNT}` stood |
| `DataCenter.ReplaceWhole` | experiments/data_center.py:41-44 | a template that is exactly a placeholder becomes the substituted value |
| `DataCenter.AbsentUnlessAtStart` | experiments/data_center.py:42-44 | one placeholder does not occur inside another |
| `DataCenter.KeptWithout` | experiments/data_center.py:42-44 | a text holding another placeholder is left alone by a substitution |
| `DataCenter.AmountIsGrouped` | experiments/data_center.py:40-44 | the total's placeholder becomes the comma-grouped total, whose digits are `str(total)` |
| `DataCenter.NameBeforeCompany` | experiments/data_center.py:41-43 | the partner's name is substituted first, so a name reading `{PARTNER_COMPANY}` is then filled in with the company |
| `DataCenter.CompanyAfterName` | experiments/data_center.py:41-43 | a company reading `{PARTNER_NAME}` is left as it is |
| `DataCenter.CompanySurvivesName` | experiments/data_center.py:41-42 | the substitution of the name leaves `{PARTNER_COMPANY}` whole |
| `DataCenter.NameSurvivesTotal` | experiments/data_center.py:41-44 | the substitution of the total leaves `{PARTNER_NAME}` whole |

## Left out

- Network transport: `ModelInterface`/`AnthropicInterface` in `dgame/models.py` and the player's `generate_response`. A model is an oracle from request to reply, and `Raised` stands for every exception it can throw. The detector's `generate` is a second oracle, `Utils.Interface`.
- `generate_response_async` (called at dgame/async_games.py:38 and :123) has no oracle of its own: the async game and refusal check call the same `respond` oracle as `generate_response`. A model whose async method answers differently from its sync one is not covered, so the async properties hold only for models whose two methods agree.
- `uuid.uuid4()` and `datetime.now()`: the game id, timestamp and batch stamp are parameters (`Games.Meta` and the `stamp` argument).
- The default refusal checkers that `dgame/games.py` and `dgame/utils.py` build at import time. They need the network, so the fallback is a parameter of `Utils.NewRefusalDetector`.
- Real concurrency in the async batch: tasks run one after the other in creation order. `gather` returns results in that order whatever the scheduling, so the outcome is the same.
- The JSON grammar, its limits and `int()` on strings: they are abstract `Runtime` fields. A `loads` result that is not a JSON object is treated as a decode failure, and nested objects cannot occur because a candidate holds only one `}`.
- Loading prompts from files (`_load_prompts`, `_load_content`): the template text is a parameter.
- The experiment drivers and persistence (`dgame/experiment.py`, `dgame/results.py`, `run_data_center_experiments` and the scripts).
- `self._refusal_client` in `dgame/async_games.py:32` is stored but never read, so it has no counterpart here.
- The test suite's `is_valid` result dictionaries and some of its class names belong to an older interface that the code no longer has. The model follows the code.
- `dgame/games.py:10-11` imports `ModelRunner` and `AnthropicRunner`, and `dgame/utils.py:3` and `tests/conftest.py:9` import `LLMInterface`; `dgame/models.py` defines none of them (it defines `ModelInterface` and `AnthropicInterface`). The model treats every player and game checker as one abstract model with `generate_response`, and the detector's model as one with `generate`.
- Games.RunGame: follows the corrected parser, so it does not fail when the parser as written raises; `Games.RunGameAsWritten` is the game as written.
- Games.Game: the `i`-th game of the corrected batch; the game as written is `Games.GamesAsWrittenOf`.
- Games.GameFails: a corrected game fails only when its call raises; `Games.RunBatchAsWrittenFails` covers the parser's exceptions.
- Games.RunBatch: follows the corrected parser; `Games.RunBatchAsWritten` is the batch as written.
- Games.RunBatchFailsIffSomeCallRaises: about the corrected batch; `Games.RunBatchAsWrittenFails` states when the batch as written fails.

## Findings

| source | as written | input that shows it | evidently intended | confidence | as-written member | corrected member |
|---|---|---|---|---|---|---|
| dgame/games.py:122-127 | the coercion catches only `ValueError` and `TypeError`, but `int()` of an infinite float raises `OverflowError`, which escapes the parser and the whole game (the same code is at dgame/async_games.py:180-184) | the reply `{"alloc0": 1e400}`, which Python's decoder reads as `inf` | `INVALID_VALUES`, with the decoded object kept, as for any other unconvertible half | not executed | `Games.ParseAsWritten` (with `Games.OverflowEscapes`) | `Games.Parse` (with `Games.AsWrittenDiffersOnlyWhenRaising`) |
| dgame/games.py:116-119 | the decoding catches only `JSONDecodeError`, but `json.loads` raises a plain `ValueError` for an integer literal over 4300 digits (on Python 3.11 and later, and on the 3.7–3.10 security releases that added the limit) and a `RecursionError` for deeply nested arrays; both escape the parser and the whole game (the same code is at dgame/async_games.py:173-176) | the reply `{"alloc0": 1000...0}` with 4300 zeros | `INVALID_JSON` with an empty allocation, as for any other answer the decoder refuses | not executed | `Games.ParseAsWritten` (with `Games.DigitLimitEscapes`) | `Games.Parse` (with `Games.AsWrittenDiffersOnlyWhenRaising`) |
