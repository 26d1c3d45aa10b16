# HealthQuest symptom encoding and ranking, in Dafny

This project models the prediction core of the HealthQuest backend
(`backend/model.py`). The backend guesses a disease from a list of
`(symptom, severity)` pairs. At start-up it builds these:

- three lookup tables: symptom severity weights, disease descriptions and disease precautions;
- the vocabulary: the sorted set of symptoms seen in the training table's `Symptom…` columns;
- one training vector per training row, with each slot holding a weight.

`predict_disease` encodes the user's symptoms into a vector of the same shape. It asks a
decision tree for class probabilities, and returns the `top_n` most probable
diseases from the most probable down. `get_disease_info` attaches a
description and a precaution list, with literal defaults.

The modules follow the program's parts:

| module | file | what it holds |
|---|---|---|
| `Optional` | optional.dfy | `Option`, for cells that are empty and for `float()` that fails |
| `Text` | text.dfy | Python's `str.strip()`, `str.lower()` and string `<` |
| `Tables` | tables.dfy | the three table-building loops and `get_disease_info` |
| `Vocabulary` | vocabulary.dfy | `symptom_columns`, the `symptom_set` loop and `sorted` |
| `Encoding` | encoding.dfy | `create_feature_vector` and the encoding loop of `predict_disease` |
| `Ranking` | ranking.dfy | `argsort(...)[-top_n:][::-1]` and the loop that builds the result |
| `Pipeline` | pipeline.dfy | the start-up build as a whole, and `predict_disease` end to end |

Each loop of the source is a `method` with a `while` loop, proved against a
specification:

- **Table builders.** Each builder is proved against `LastWriteWins`: every written key is present, holding the value of its last write.
- **Symptom set.** The set-building loop is proved against `Observed`.
- **Training-row encoder.** It is proved against `TrainingVector`.
- **User-symptom encoder.** It is proved against the function `Encode`. `Encode` is a zero vector followed by one `Write` per observation. The `inner scan`, the `matched` flag and the `break` are kept.

The properties of those specifications are lemmas.

Two behaviours of the code are stated as lemmas:

- **Order matters.** The inference encoding depends on the order of the user's symptoms: a later symptom that lands in the same slot overwrites the earlier one (`features[i] = ...`).
  - `Encoding.LastWriteWinsOrderMatters` shows two orders of one input giving different vectors.
  - `Encoding.SwapDistinctSlots` states the order independence that does hold: neighbours may be swapped when they land in different slots.
- **Case.** Training lookups are case-sensitive (`symptom_list.index`). Inference lookups compare lower-cased forms and stop at the first hit.
  - So of two vocabulary entries that differ only in case, inference can never set the later one (`Encoding.ShadowedSlotStaysZero`).

## Model

| member | source | states |
|---|---|---|
| Tables.BuildSeverityMapping | backend/model.py:19-26 | after the loop each key is `Symptom.lower().strip()` of some row and holds the weight of the last row with that key (parsed, or 1.0 when parsing fails); every key is already lower-cased and stripped |
| Tables.SeverityKeyNormal | backend/model.py:21 | a severity key is its own strip and its own lower-case |
| Tables.BaseWeightFromRows | backend/model.py:19-26 | `severity_mapping.get(s, 1)` is 1.0 when no row normalises to `s`, and otherwise the parsed weight (1.0 if unparsable) of the last row that does |
| Tables.LastWriteWinsNext | backend/model.py:26 | one more `d[k] = v` keeps the last-write-wins relation between the dictionary and the rows written so far |
| Tables.BuildDescriptions | backend/model.py:31-35 | `description_dict` has exactly the diseases of the rows as keys, each with the description of its last row |
| Tables.PresentMembers | backend/model.py:43 | the precaution list holds exactly the values of the non-empty non-`Disease` cells |
| Tables.PresentConcat | backend/model.py:43 | the precaution filter keeps column order: it distributes over concatenation of cells |
| Tables.BuildPrecautions | backend/model.py:40-44 | `precaution_dict` has exactly the diseases of the rows as keys, each with the non-empty cells of its last row, in column order |
| Tables.UnknownDiseaseDefaults | backend/model.py:130-133 | each lookup defaults on its own: a disease without description rows gets "No description available.", and one without precaution rows gets ["No precautions available."] |
| Tables.KnownDiseaseInfo | backend/model.py:130-133 | a disease with rows gets the description and the precaution cells of its last row in each table |
| Vocabulary.SymptomColumns | backend/model.py:51 | exactly the columns whose lower-cased name starts with "symptom", in column order, without repeats |
| Vocabulary.CollectSymptoms | backend/model.py:54-58 | the set holds a string iff it is the strip of a non-empty cell of some symptom column |
| Vocabulary.SortedList | backend/model.py:61 | `sorted(list(s))` is strictly ascending in Python's string order, holds exactly the elements of `s` and has length `|s|` |
| Vocabulary.AscendingDistinct | backend/model.py:61 | the sorted vocabulary has no duplicates |
| Text.BelowTotal | backend/model.py:61 | two different strings are ordered one way or the other, so `sorted` has a unique result |
| Text.BelowTransitive | backend/model.py:61 | the string order is transitive |
| Text.StripSpec | backend/model.py:58 | `strip()` returns an infix that starts and ends with no whitespace, with only whitespace cut away on either side |
| Text.StripIdempotent | backend/model.py:72 | stripping a stripped string changes nothing |
| Text.LowerStripCommute | backend/model.py:21 | `lower().strip()` (the severity keys) equals `strip().lower()` (the inference lookups) |
| Text.NormalizeIdempotent | backend/model.py:102 | `strip().lower()` of a normalised symptom is that symptom |
| Encoding.IndexOf | backend/model.py:75 | `list.index` gives the first position holding exactly the value, and fails (`None`) iff the value is absent |
| Encoding.IndexOfAscending | backend/model.py:75 | in the sorted vocabulary `index(x)` is slot `k` iff slot `k` holds `x` |
| Encoding.EncodeTrainingRow | backend/model.py:66-79 | the vector has vocabulary length; a slot named by a symptom column holds the base weight of the entry's lower-case form; every other slot is 0; values outside the vocabulary are skipped |
| Encoding.TrainingSlotExact | backend/model.py:66-79 | slot `k` of a training vector is the base weight when some column's stripped value equals `vocab[k]` exactly (case-sensitive), and 0 when none does |
| Encoding.FirstMatch | backend/model.py:104-105 | the scan stops at the lowest slot whose lower-cased entry equals the cleaned symptom, and finds nothing iff no entry does |
| Encoding.EncodeSymptoms | backend/model.py:99-111 | the loop with its scan, `matched` flag and `break` computes `Encode` of the user's symptoms |
| Encoding.UntouchedSlotZero | backend/model.py:99 | a slot no symptom is recognised into stays 0; the empty list gives the zero vector |
| Encoding.RecognisedWritesFirstMatch | backend/model.py:104-109 | a recognised symptom writes `severity * base_weight` into the first matching slot and changes no other slot |
| Encoding.SlotHoldsLastWrite | backend/model.py:107 | a slot holds the contribution of the last symptom recognised into it |
| Encoding.UnrecognisedAppended | backend/model.py:110-111 | an unrecognised symptom leaves the vector unchanged |
| Encoding.UnrecognisedIgnored | backend/model.py:103-111 | the vector equals the one built with an unrecognised symptom left out, wherever it occurs |
| Encoding.EncodeCaseInsensitive | backend/model.py:102-105 | inputs that agree after `strip().lower()` and on severities give identical vectors |
| Encoding.SwapDistinctSlots | backend/model.py:101-109 | swapping two neighbouring symptoms that land in different slots, or whose first is unrecognised, does not change the vector |
| Encoding.LastWriteWinsOrderMatters | backend/model.py:101-109 | for `["fever"]`, `[("fever", 1), ("Fever", 2)]` encodes to `[2]` and the reverse order to `[1]` |
| Encoding.ShadowedSlotStaysZero | backend/model.py:104-109 | a vocabulary slot whose lower-case form equals that of an earlier slot is 0 in every inference vector |
| Ranking.TopIndicesIsSlice | backend/model.py:117 | the closed form of `top_indices` is `argsort(p)[-top_n:][::-1]` |
| Ranking.TopIndicesSpec | backend/model.py:117 | under any argsort, `top_indices` has `min(top_n, n)` distinct in-range indices, with probabilities non-increasing and each at least that of every index left out |
| Ranking.LeftOutBelow | backend/model.py:117 | an index left out of `top_indices` is no more probable than any index kept |
| Ranking.PredictionsRanked | backend/model.py:119-125 | each prediction pairs `classes_[idx]` with `probabilities[idx]`, most probable first, each at least as probable as every class left out |
| Ranking.PredictionsDistinct | backend/model.py:119-125 | with a duplicate-free `classes_`, distinct top indices give predictions naming distinct diseases |
| Ranking.Rank | backend/model.py:119-127 | the loop appends one prediction per top index, in order, and the indices are well ranked |
| Pipeline.BuildTrainingMatrix | backend/model.py:82 | `X` has one row per data row, each the training vector of that row |
| Pipeline.Initialize | backend/model.py:19-82 | the start-up state: all three tables, the symptom columns, an ascending vocabulary of exactly the observed symptoms, and the training matrix |
| Pipeline.VectorLengths | backend/model.py:67 | every training vector and every inference vector has one slot per vocabulary entry |
| Pipeline.PredictDiseaseDefault | backend/model.py:94 | called without `top_n`, `predict_disease` ranks with `top_n = 5`: `min(5, |classes|)` well-ranked predictions naming distinct diseases |
| Pipeline.PredictDisease | backend/model.py:94-127 | the result is the predictions for `argsort(proba(Encode(symptoms)))[-top_n:][::-1]`: `min(top_n, |classes|)` distinct class indices from the most probable down, naming distinct diseases since `classes_` is `np.unique(y)` |

## Left out

- Reading the CSV files, `applymap(strip)` and `replace("", nan)` (backend/model.py:10-16, 29-39). Tables arrive as rows of cells, with an empty cell as `None`. The loader has already stripped the cells.
- The disease labels `y` and `DecisionTreeClassifier.fit` (backend/model.py:83-89). Training is a foreign library.
- `predict_proba` (backend/model.py:114). It is a function inside `Pipeline.Classifier`. Its only contract is one probability per class. The contract on `classes_` is that no class appears twice, as in `np.unique(y)`.
- `np.argsort`. It is a function parameter whose contract is `Ranking.IsArgsort`: a permutation of the indices in non-decreasing order of probability.
- Ranking.IsArgsort: how ties are ordered is left open, because numpy's default sort is not stable.
- `float()` (backend/model.py:23). It is a parameter `parse` returning an `Option`; `None` stands for `ValueError`.
- Ranking.Rank: requires `top_n >= 1`. In Python, `[-0:]` keeps every class, and negative `top_n` are not modelled.
- Text.Lower: folds ASCII letters only. Python's `str.lower()` also folds non-ASCII letters, which the Unicode tables this model lacks would be needed for.
- Text.IsSpace: the whitespace set of `str.strip()` is written out by code point for Python 3's `str.isspace`.
- SeverityRow.weight: a missing weight cell is NaN in the source, and `float()` accepts NaN. So the source stores NaN, not 1.0, and that NaN reaches every slot of that symptom. Not modelled: the weight cell is a string.
- All arithmetic is exact `real` arithmetic. Float rounding in `user_severity * base_weight` (backend/model.py:107) is not modelled. NaN and infinite severities are not modelled either.
- A missing (`NaN`) `Disease`, `Description` or `Symptom` cell in the lookup tables. Those cells are modelled as strings.
- The precaution comprehension skips the column named `Disease`. In the model that column is already split off into `PrecautionRow.disease`.
- The integer zeros and the integer default `1` of the source. All weights are `real`, and Python's mixing of `int` and `float` does not change any value.
- The `print` of the vocabulary and of unrecognised symptoms (backend/model.py:62-63, 111). It is output only.
- The `__main__` demo (backend/model.py:135-143). It is output only.
- backend/app.py (Flask routing, JSON and HTTP errors, CORS) is not part of this model.
- frontend/src/App.js (user interface state and `fetch`) is not part of this model.
