# Slovozviaz in Dafny

Slovozviaz is a Ukrainian word-association game. A secret word is picked for
each day. Every word of the vocabulary is ranked by how similar its embedding
is to the secret word's, and the player guesses words and sees their ranks
until they find rank 1. This project models the game's logic and its data
scripts in Dafny, and proves what they promise:

- **The game page** (`static/js/main.js`, `ui.js`, `utils.js`):
  - the page state as a class, with the submit and Hint handlers as methods that keep it valid;
  - the hint search (`getNextHintRank`), its descent by halving and its ascent;
  - the display sort and the last-guess panel;
  - the bar class, width and colour.
- **The create-game page** (`static/js/create_game.js`): word normalisation, game-id validation and the submit outcome.
- **The server helpers** (`app.py`):
  - the daily word for a date;
  - dates in archive file names, with Python's `date` arithmetic and `strptime` written out;
  - reading an archive JSON value;
  - the game number.
- **The data scripts**:
  - the migration loop of `migrate_json_to_db.py` and its counters;
  - the definition clean-up of `generate_definitions.py` and `filter.py`;
  - the log parser of `filtration.py`;
  - the word-list filter of `filter_ukrainian_words.py`;
  - the checks of `word_check.py` and `load_words.py`;
  - the vector loading and ranking of `generate_rankings.py`.

Files are sequences of lines, and a dictionary is a `map`. Printed output is
returned as a value. Each source file is modelled by the modules listed below:

- `game.dfy`, `guesses.dfy`, `hint_search.dfy`: the game page.
- `display.dfy`: rendering in ui.js. `utils.dfy`: utils.js.
- `create_game.dfy`: the create-game page.
- `app.dfy`, `dates.dfy`: the server helpers.
- `migrate.dfy`, `definitions.dfy`, `filter_defs.dfy`, `filtration.dfy`, `word_lists.dfy`, `word_check.dfy`, `load_words.dfy`, `rankings.dfy`: the scripts.
- `text.dfy`, `collections.dfy`, `wrappers.dfy`: shared helpers for whitespace, case, strip/trim/split, filtering, sorting and `Option`/`Result`.

The two scripts that pick a daily word disagree after the end of the list:

- `guess_secret_word_for_date` in app.py clamps to the last word.
- `choose_secret_word` in migrate_json_to_db.py wraps around. Its comment says it uses the same logic as app.py.

`Migrate.ClampAndWrapDiffer` states exactly when the two agree, and
`Migrate.ClampAndWrapExample` gives the smallest case where they differ.

## Model

| member | source | states |
|---|---|---|
| App.BaseDateFacts | app.py:63 | The base date 2025-06-02 is a real date, with day ordinal 739404. |
| App.DaysSinceBase | app.py:84 | `(d - BASE_DATE).days` is 0 on the base date, and a positive count means another day. |
| App.GuessSecretWordForDate | app.py:80-89 | "невідомо" for an empty list. Otherwise the word at the day's offset from the base date, clamped: the first word before the base date, the last word after the list ends, and always a word of the list. |
| App.DailyWordsInOrder | app.py:84-86 | The base date gets the first word and each next day gets the next word, while the list lasts. |
| App.Basename | app.py:71 | The base name is a suffix of the path and holds no `/`. |
| App.BasenameOfJoin | app.py:71 | The base name of `dir + "/" + name` is `name` when `name` has no `/`. |
| App.SearchDate | app.py:68-72 | Returns the leftmost position where `20\d{2}-\d{2}-\d{2}` matches, or `None` when no position matches. |
| App.DateInName | app.py:72-78 | `strptime` of the first date-shaped run of a base name, and `None` when the name has no such run. |
| App.ParseDateFromFilename | app.py:70-78 | When the base name has a first date-shaped run, the result is `strptime` of that run, which is `None` or a valid date. When the base name has no run, the result is `None`. |
| App.ArchiveNameRoundTrip | app.py:70-78 | Every 20xx date written as `<dir>/<isoformat>.json` reads back as that date. |
| App.MonthThirteenRejected | app.py:75-78 | `strptime` rejects month 13, so the parse gives `None`. |
| App.LeadingRunDecides | app.py:70-78 | A name that starts with a date-shaped run is decided by that run. |
| App.FirstDateRunDecides | app.py:72-78 | Only the first run is tried. An invalid first date hides a valid second one. |
| App.CoerceRanking | app.py:101-107 | Gives a list itself, or the list under `"ranking"` of an object. Gives `None` for every other value. |
| App.JsonGameDate | app.py:111-115 | A date read from the JSON comes from a string `game_date` field of an object and is a valid date. |
| App.ExtractGameDate | app.py:109-117 | The JSON's parseable `game_date` wins. Otherwise the date comes from the file name. A result is always valid. |
| App.JsonSecretWord | app.py:121-124 | A word read from the JSON comes from a string `secret_word` field of an object. It is non-blank and has no surrounding whitespace. |
| App.ExtractSecretWord | app.py:119-129 | A non-blank `secret_word` is taken stripped. Otherwise the word is the date's daily word, or "невідомо" without a date. |
| App.SecretWordNeverBlank | app.py:119-129 | The result is never blank when no daily word is blank. A word taken from the JSON has no surrounding whitespace. |
| App.GameNumber | app.py:243-246 | The base date is game 1. The number is at least 1 exactly on the base date and after it. |
| App.GameNumberCounts | app.py:243-246 | The base date is game 1, and each day adds one. |
| Dates.DaysInMonth | app.py:76 | Every month has 28 to 31 days. |
| Dates.Ordinal | app.py:84 | `toordinal()` of a valid date is at least 1. |
| Dates.NextDay | app.py:84 | The next day is later in calendar order: the same month one day on, or a later month or year. |
| Dates.MatchMonth | app.py:113 | `%m` reads one or two characters as a month from 1 to 12. |
| Dates.MatchDay | app.py:113 | `%d` reads one or two characters as a day from 1 to 31. |
| Dates.OrdinalNextDay | app.py:84 | The next calendar day is valid and one day further in the `(d - BASE_DATE).days` arithmetic. |
| Dates.DaysBeforeYearStep | app.py:84 | A year adds 366 days when it is a leap year and 365 otherwise. |
| Dates.IsoFormat | app.py:260 | `isoformat()` is ten characters with dashes at positions 4 and 7 and digits elsewhere. |
| Dates.ParseIsoDate | app.py:113 | Whatever `strptime("%Y-%m-%d")` accepts is a valid date. |
| Dates.ParseIsoFormat | app.py:113 | `strptime` reads what `isoformat` writes: a round trip for every valid date. |
| Dates.IsoFormatCentury | app.py:68 | The ISO form of a 20xx date starts with "20", as `DATE_RE` needs. |
| Migrate.ChooseSecretWord | migrate_json_to_db.py:11-22 | Error for an empty list and for a day before the base date. Otherwise the word at the day offset modulo the list length, so it wraps around. |
| Migrate.ChooseAgreesInRange | migrate_json_to_db.py:17-22 | Inside the list it gives the same word as app.py's choice. |
| Migrate.ClampAndWrapDiffer | migrate_json_to_db.py:18-22 | Past the end of a list of distinct words, it agrees with app.py exactly on the days that wrap onto the last word. |
| Migrate.ClampAndWrapExample | migrate_json_to_db.py:18-19 | With two words, two days after the base date, app.py says "b" and the migration says "a". |
| Migrate.LastIndexOf | migrate_json_to_db.py:25 | Gives the last position of the character, or `None` when it does not occur. |
| Migrate.Stem | migrate_json_to_db.py:25 | `splitext(...)[0]` is the whole name, or the prefix before a dot. |
| Migrate.StemOfJson | migrate_json_to_db.py:25 | `base + ".json"` has stem `base` when `base` has no dot. |
| Migrate.StemOfIsoName | migrate_json_to_db.py:25 | The stem of `<dir>/<isoformat>.json` is the ISO date. |
| Migrate.SplitOn | migrate_json_to_db.py:26 | `split("-")` gives at least one piece, and no piece holds the separator. |
| Migrate.JoinSplit | migrate_json_to_db.py:26 | Joining the pieces of a split gives the string back. |
| Migrate.SplitJoin | migrate_json_to_db.py:26 | Splitting separator-free pieces joined by the separator gives the pieces back. |
| Migrate.SplitIsoFormat | migrate_json_to_db.py:26 | An ISO date splits into its three zero-padded fields. |
| Migrate.PyInt | migrate_json_to_db.py:26 | `int()` succeeds only on a stripped string that starts with a digit or a sign. |
| Migrate.PyIntOfPadded | migrate_json_to_db.py:26 | `int()` of a zero-padded field such as "06" is its number. |
| Migrate.ParseDayFromName | migrate_json_to_db.py:24-27 | A day is given only for a name with exactly three dash-separated parts that form a valid date. |
| Migrate.DayFromIsoName | migrate_json_to_db.py:24-27 | Every archive file name `<dir>/<isoformat>.json` reads back as its date. |
| Migrate.ProcessDay | migrate_json_to_db.py:52-98 | One loop iteration: skip, error, plan, add or replace, exactly as the step function says. |
| Migrate.ProcessFile | migrate_json_to_db.py:51-98 | The loop body for one file, starting with the parse of its name. |
| Migrate.Run | migrate_json_to_db.py:45-109 | The loop over the sorted files gives the counters and rows of `Migration`. |
| Migrate.StepOn | migrate_json_to_db.py:52-98 | One file, once its name is parsed, adds exactly one to the skipped, error and planned counts together. |
| Migrate.Step | migrate_json_to_db.py:51-98 | One file adds exactly one to the skipped, error and planned counts together. |
| Migrate.Migration | migrate_json_to_db.py:45-98 | After the loop, the skipped, error and planned counts add up to the number of files. |
| Migrate.StepAccounting | migrate_json_to_db.py:52-98 | One more file keeps the accounting invariant. |
| Migrate.MigrationAccounting | migrate_json_to_db.py:45-117 | When every database write succeeds: every file is counted exactly once, as skipped, error or planned. A dry run writes nothing. A real run writes every planned file. Without `--replace` no existing row changes. Every written row holds its day's wrapped word. |
| Migrate.BadNameSkipped | migrate_json_to_db.py:52-57 | A file whose name is not a date only increments `skipped`. |
| Definitions.ReadWordList | generate_definitions.py:61-68 | The `seen_words` loop gives the stripped non-blank lines with each word kept once, in first-occurrence order. |
| Collections.KeepFirst | generate_definitions.py:62-68 | Keeps exactly the words of the input, with no repeats. |
| Collections.KeepFirstOfDistinct | generate_definitions.py:62-68 | A list without repeats is unchanged. |
| Collections.KeepFirstPrefix | generate_definitions.py:62-68 | More input never reorders the words already kept. |
| Definitions.WordStart | generate_definitions.py:76 | The greedy `^\s*` backs off to the largest start, up to the given position, where the word matches. It gives `None` when the word matches at no start up to there. |
| Definitions.LeadingWordMatch | generate_definitions.py:76-77 | The pattern fails exactly when the word, in any case, follows no prefix of the leading whitespace. |
| Definitions.StripLeadingWord | generate_definitions.py:77 | `sub(..., count=1)` leaves a suffix of the text. It leaves the text unchanged when the pattern does not match. |
| Definitions.PatternTailOf | generate_definitions.py:76 | `\s*(—\|-\|:)?\s*` takes the gap, one separator and the gap after it. |
| Definitions.WordStartAfterSpace | generate_definitions.py:76 | The word right after the leading whitespace is where the match starts. |
| Definitions.RemovesLeadingWord | generate_definitions.py:76-77 | Whitespace, the word in any case, a gap, an optional separator and a gap are removed, and the rest is kept. |
| Definitions.RemovedOnlyOnce | generate_definitions.py:77 | Only the first repetition of the word goes. |
| Definitions.Unquote | generate_definitions.py:78-81 | `s[1:-1]` is taken only when `s` starts and ends with the quote. A lone quote gives "". |
| Definitions.RemoveWordRepetition | generate_definitions.py:75-82 | The cleaned definition has no surrounding whitespace. |
| Definitions.QuotedDefinitionUnwrapped | generate_definitions.py:75-82 | `<Word> — "<text>"` is cleaned to the bare text. |
| Definitions.CleanAnswer | generate_definitions.py:130-138 | The stored answer is never empty. An answer that upper-cases to "NA", or that is empty after cleaning, is stored as "NA". Any other answer, when its cleaned form is non-empty, is stored as that cleaned form. |
| Definitions.RepeatedWordIsNotAvailable | generate_definitions.py:130-138 | An answer that only repeats the word is stored as "NA". |
| Definitions.ToProcess | generate_definitions.py:192 | A word is processed exactly when it has no definition or its definition starts with "NA_". |
| Definitions.NotAvailableIsFinal | generate_definitions.py:192 | A stored "NA" is final. A stored error marker is asked again. |
| Definitions.DefinitionStore.Save | generate_definitions.py:84-86 | The dictionary gains or overwrites that one entry. |
| Definitions.SaveSettlesWord | generate_definitions.py:84-86 | After saving, the word is still to process only if the definition is an error marker. No other word's status changes. |
| FilterDefinitions.Cleaned | filter.py:11-17 | The cleaned dictionary has the same words as the input. |
| FilterDefinitions.CleanDefinitions | filter.py:11-17 | The loop over the entries builds exactly the cleaned dictionary. |
| FilterDefinitions.CleanedEntries | filter.py:15-17 | Each cleaned definition is a suffix of the original. It is unchanged when the pattern does not match. |
| FilterDefinitions.QuotesAndTrailingSpaceKept | filter.py:15-17 | Unlike generate_definitions.py, quotes and trailing whitespace stay. |
| Filtration.QuoteStart | filtration.py:11 | `📌\s*'` finds the opening quote after the pin. |
| Filtration.WordEnd | filtration.py:11 | `([^']+)':` finds a non-empty quote-free group followed by `':`. |
| Filtration.DefinitionGroup | filtration.py:11 | Group 2, stripped, has no surrounding whitespace. |
| Filtration.ParseLogLine | filtration.py:11-22 | A line matches only when it starts with the pin. The definition it yields has no surrounding whitespace. |
| Filtration.ParseLogLineParts | filtration.py:11-22 | A matching line's entry is the stripped group 1 and group 2 found by the three stages. |
| Filtration.ParsedWordClean | filtration.py:21 | The word holds no apostrophe and no surrounding whitespace. |
| Filtration.PrintedLine | generate_definitions.py:238 | The log line `📌 '<word>': <definition>` has the expected length. |
| Filtration.ParseLogLineOfPrinted | filtration.py:11-22 | Every line generate_definitions.py prints for a stripped word and definition parses back to that entry. |
| Filtration.DefinitionGroupNonEmpty | filtration.py:11 | On a line that does not end in whitespace, `(.+)` is never empty after stripping. |
| Filtration.StrippedLineHasDefinition | filtration.py:18-22 | A stripped line that matches always yields a non-empty definition. |
| Filtration.ParsedLog | filtration.py:16-19 | One parse result per line of the log. |
| Filtration.Collect | filtration.py:20-23 | The dictionary has at most one word per entry. |
| Filtration.CollectPrefix | filtration.py:20-23 | One more entry adds or overwrites its word. |
| Filtration.ReadLog | filtration.py:13-23 | The loop gives the dictionary of the parsed lines. |
| Filtration.CollectKeys | filtration.py:20-23 | A word is in the dictionary exactly when some entry names it. |
| Filtration.LastEntryWins | filtration.py:23 | A word's definition comes from an entry that names it, the last one. |
| Filtration.LogWordsClean | filtration.py:13-23 | Every word read from the log is free of apostrophes and surrounding whitespace. |
| WordLists.MatchesWordPattern | filter_ukrainian_words.py:9-14 | A match is non-empty and made of allowed characters, apart from a possible final newline. Every non-empty word of allowed characters matches. |
| WordLists.IsValidWord | filter_ukrainian_words.py:11-21 | A valid word matches the pattern and has at most one capital. |
| WordLists.UpperCount | filter_ukrainian_words.py:17 | The count is at most the length, and it is 0 exactly when no character is a capital. |
| WordLists.ValidStrippedWord | filter_ukrainian_words.py:11-21 | A stripped word is valid exactly when it is non-empty, uses only Ukrainian letters, `'` and `-`, and has at most one capital. |
| WordLists.TrailingNewlineAccepted | filter_ukrainian_words.py:9-14 | `$` also matches before a final newline, so a valid word followed by "\n" passes. |
| WordLists.UpperCountAtLeastTwo | filter_ukrainian_words.py:17 | Two capitals at different positions count at least two. |
| WordLists.AbbreviationInvalid | filter_ukrainian_words.py:16-19 | A word with two capitals is rejected. |
| WordLists.EmptyWordInvalid | filter_ukrainian_words.py:9-14 | The empty word is rejected. |
| WordLists.ExistingWords | filter_ukrainian_words.py:25-28 | The existing set never holds "". It is empty when the file is missing. |
| Collections.StrippedLines | filter_ukrainian_words.py:31 | At most one entry per line. Every entry is non-empty and has no surrounding whitespace. |
| Collections.StrippedLinesMembers | filter_ukrainian_words.py:31 | A word is listed exactly when it is non-empty and some line strips to it. |
| Collections.Filter | filter_ukrainian_words.py:34 | The result has exactly the elements that pass, and is no longer than the input. |
| Collections.FilterCount | filter_ukrainian_words.py:34 | Each kept element is kept as often as it occurs. |
| WordLists.NewWords | filter_ukrainian_words.py:34 | At most one new word per input line. Every new word is non-empty, valid and not in the output file. |
| WordLists.NewWordsMembers | filter_ukrainian_words.py:34 | A word is new exactly when it is valid, not existing, and some input line strips to it. |
| WordLists.NewWordsRepeat | filter_ukrainian_words.py:34 | A new word is appended once per input line that holds it. |
| WordLists.WordListFile.OpenForAppend | filter_ukrainian_words.py:37 | `open(..., "a")` creates a missing file and keeps an existing one. |
| WordLists.WordListFile.WriteLine | filter_ukrainian_words.py:39 | Appends one line. |
| WordLists.AppendNewWords | filter_ukrainian_words.py:23-41 | The file becomes its old lines plus the new words, in input order. The summary counts are the new words, the checked lines, and the existing count plus the new count. |
| WordLists.SecondRunAddsNothing | filter_ukrainian_words.py:23-41 | Running again on the same input appends nothing. |
| Collections.NormalizedLines | word_check.py:11 | At most one entry per line, and no entry is empty. |
| Collections.NormalizedLinesMembers | word_check.py:11 | A word is listed exactly when some non-blank line strips and lower-cases to it. |
| WordCheck.Repeated | word_check.py:14-19 | A word is repeated exactly when two positions of the list hold it. |
| WordCheck.FindDuplicates | word_check.py:14-19 | The `seen`/`duplicates` loop finds exactly the words that occur at least twice. |
| Collections.SortedSet | word_check.py:43 | `sorted()` of a set holds exactly its elements, strictly increasing in code-point order. |
| Collections.StrictlySortedUnique | word_check.py:43 | A strictly sorted list is determined by its elements. |
| WordCheck.WordlistSet | word_check.py:34 | Every line, stripped and lower-cased, is in the set. The set holds "" exactly when some line is blank. |
| WordCheck.PresenceOf | word_check.py:30-44 | The list is unreadable exactly when it cannot be opened. All words are present exactly when the daily set is inside the word-list set. Otherwise the missing words, sorted, are exactly those absent from the word-list set. |
| WordCheck.CheckWordsPresence | word_check.py:1-47 | An unreadable daily file is reported before anything else. Otherwise the report gives the sorted duplicates and the presence verdict. |
| WordCheck.MissingMeansNoLine | word_check.py:34-37 | A daily word is missing exactly when no word-list line strips and lower-cases to it. |
| WordLoader.LoadWords | load_words.py:1-7 | The loaded set never holds "". |
| WordLoader.LoadWordsMembers | load_words.py:5-7 | A word is loaded exactly when some non-blank line strips and lower-cases to it. |
| WordLoader.Compare | load_words.py:9-21 | All words are present exactly when the daily set is inside the full set. Otherwise the missing words are printed non-empty, sorted, and exactly the difference. |
| WordLoader.AgreesWithWordCheck | load_words.py:14 | On the same files, word_check.py reaches the same verdict with the same missing words. |
| Rankings.RequiredSet | generate_rankings.py:59 | The required set is the given words without "". |
| Text.Split | generate_rankings.py:70 | `line.rstrip().split()` gives non-empty tokens with no whitespace in them. |
| Text.SplitSkipsSpace | generate_rankings.py:70 | Leading whitespace does not change the split. |
| Text.SplitToken | generate_rankings.py:70 | A single run of non-whitespace splits to itself. |
| Text.SplitTokenThen | generate_rankings.py:70 | A run of non-whitespace followed by whitespace is the first piece, and the rest of the line gives the other pieces. |
| Text.SplitJoinSpaced | generate_rankings.py:70 | Splitting tokens joined by single spaces gives the tokens back, in order. |
| Rankings.VectorLineStored | generate_rankings.py:70-90 | A line `word v1 v2 ...` is read as the word and the vector `[v1, v2, ...]`. It is stored when the word is required and not yet found, every component converts, and the dimension fits. |
| Rankings.Judge | generate_rankings.py:70-90 | A line is stored only if its first token is required and not yet found, and its other tokens all convert. Their count must be positive and equal the first vector's dimension. |
| Rankings.LoadRequiredVectors | generate_rankings.py:58-94 | The reading loop with its `continue`s and `break` gives the dictionary `Scan` describes. |
| Rankings.ScanKeys | generate_rankings.py:74-76 | Only required words are stored. |
| Rankings.Scan | generate_rankings.py:66-92 | A word, once found, keeps its vector: the first accepted line for a word wins, and later lines never replace it. |
| Rankings.ScanSources | generate_rankings.py:69-90 | Every stored vector comes from a line that starts with its word and whose other tokens all convert. |
| Rankings.ScanUniform | generate_rankings.py:83-88 | All stored vectors have one dimension, and it is not zero. |
| Rankings.BreakChangesNothing | generate_rankings.py:91-92 | The `break` once every required word is found changes nothing: reading the whole file gives the same dictionary. |
| Rankings.RequiredWords | generate_rankings.py:103-105 | The required words are the dictionary words and the daily words. |
| Rankings.Assemble | generate_rankings.py:107-112 | Error exactly when no dictionary word has a vector. Otherwise the missing words are sorted and are exactly the required words without a vector, and the available words are the dictionary words with a vector, in order. |
| Rankings.LoadEmbeddingResources | generate_rankings.py:97-134 | The resources are those assembled from the vectors the loading loop reads. |
| Rankings.AvailableWords | generate_rankings.py:110-114 | A word is available exactly when it is in the dictionary and has a vector. All vectors share one dimension, so the matrix can be stacked. |
| Rankings.EmptyWordReportedMissing | generate_rankings.py:103-108 | An empty dictionary word is required but never loaded, so it is always reported missing. |
| Rankings.RankWords | generate_rankings.py:137-157 | Error exactly when the target has no vector or its norm is zero. Otherwise the entry at position i is the available word at `order[i]`, with rank i + 1, and there is one entry per available word. |
| Rankings.RankingCoversAvailable | generate_rankings.py:147-156 | The ranking lists exactly the available words. |
| Guesses.NextBest | static/js/main.js:160-163 | The best rank never grows, and after a valid entry it is at most that entry's rank. |
| Guesses.BestRankAfterPush | static/js/main.js:153-163 | After pushing an entry and updating, the best rank is still the minimum over the valid entries. |
| Guesses.GuessedAfterPush | static/js/main.js:35 | A pushed entry adds only its own rank to the guessed ranks. |
| Guesses.PermutationKeepsFacts | static/js/ui.js:129-134 | Reordering the list keeps its well-formedness, its best rank and its guessed ranks. |
| HintSearch.FindByRank | static/js/main.js:243 | `find` gives an entry of that rank from the list, and nothing exactly when no entry has that rank. |
| HintSearch.Chain | static/js/main.js:41-47 | The descent's candidates lie between 2 and the start. |
| HintSearch.ChainDecreasing | static/js/main.js:41-47 | The candidates strictly decrease. |
| HintSearch.Halving | static/js/main.js:40-47 | A candidate of the descent is between 2 and the start, and not guessed. |
| HintSearch.HalvingIsLargestFree | static/js/main.js:40-47 | The descent returns the largest unguessed candidate. It returns nothing exactly when every candidate is guessed. |
| HintSearch.Ascending | static/js/main.js:66-74 | A candidate of the ascent is between the start and `MAX_RANK`, and not guessed. |
| HintSearch.AscendingIsSmallestFree | static/js/main.js:66-74 | The ascent returns the smallest unguessed rank up to `MAX_RANK`. It returns nothing exactly when all are guessed. |
| HintSearch.NextHint | static/js/main.js:21-75 | The direction flag is never lowered. Once some guess is valid, a hint is never the best rank and never a guessed rank. |
| HintSearch.NextHintFirst | static/js/main.js:23-27 | Before any valid guess the hint is 500 exactly when some entry has rank 500. |
| HintSearch.NextHintAfterWin | static/js/main.js:30-32 | After rank 1 there is no hint. |
| HintSearch.NextHintDescending | static/js/main.js:38-52 | Going down from b > 2, the hint is the largest free halving, or 2 if that is free. It is in [2, b) and unguessed. |
| HintSearch.NextHintTurnsUp | static/js/main.js:50-61 | Once the descent is exhausted, or at b = 2, the flag goes up and the ascent from b+1 decides. |
| HintSearch.NextHintAscending | static/js/main.js:64-74 | Going up, the hint is the smallest unguessed rank in (b, MAX_RANK]. |
| HintSearch.NextHintFlagMonotone | static/js/main.js:38-62 | The direction flag is only ever raised, and only from a best rank of at least 2. |
| HintSearch.NextHintIsFresh | static/js/main.js:21-75 | A hint never reveals a rank already on the list. |
| Game.EntryFor | static/js/main.js:153-158 | An unknown word gets an error entry with rank Infinity. A known word gets its finite rank. |
| Game.GameState.constructor | static/js/main.js:107-123 | The initial state: no guesses, best Infinity, flag down, and `MAX_RANK` equal to the fetched list's length. |
| Game.GameState.GetNextHintRank | static/js/main.js:21-75 | The two loops return the hint and set the flag as `NextHint` says. |
| Game.GameState.Render | static/js/ui.js:125-154 | The list is sorted for display and the panel shows the last word's valid entry. The state stays valid. |
| Game.GameState.Submit | static/js/main.js:127-205 | Empty input or a failed request changes nothing. Otherwise the count grows by one and the entry is added to the sorted list. The best rank and the panel are updated and the state stays valid. |
| Game.GameState.Hint | static/js/main.js:221-273 | With an empty list nothing changes. Otherwise the chosen rank's entry is revealed: it is never already guessed, it joins the sorted list and updates the best rank. With no usable hint, or no word of that rank, nothing changes but the flag. |
| Game.GameState.ClosestWords | static/js/main.js:276-297 | The first 500 ranked words, or fewer, in order. |
| Display.ProgressBarStyle | static/js/ui.js:11-51 | An invalid rank gets the error class at 5%. Rank 1 gets exact at 100%. Any other rank gets a band class with a width in [10, 98]. |
| Display.BandThresholds | static/js/ui.js:30-33 | The bands are ≤50, ≤150, ≤500, ≤1000, and above 1000. |
| Display.ClassMonotone | static/js/ui.js:23-33 | A better rank never gets a farther class. |
| Display.Insert | static/js/ui.js:129-134 | Insertion adds exactly the one element. |
| Display.InsertKeepsSorted | static/js/ui.js:129-134 | Insertion keeps the display order. |
| Display.SortForDisplay | static/js/ui.js:129-134 | The sort gives a permutation in display order. |
| Display.SortedForDisplayMeans | static/js/ui.js:128-134 | Errors come first, then valid entries by non-decreasing rank. |
| Display.FirstShownIndex | static/js/ui.js:145 | `find` gives the first valid entry of the last word, or none. |
| Display.LastGuessPanel | static/js/ui.js:145-154 | The panel is hidden exactly when no valid entry has the last word. Otherwise it shows such an entry. |
| Utils.Round | static/js/utils.js:4-11 | `Math.round` lies within a half of its argument. |
| Utils.RoundMonotone | static/js/utils.js:4-11 | Rounding keeps order. |
| Utils.FillPercent | static/js/utils.js:1-13 | The fill is between 0 and 100: full below rank 1, empty above `maxRank`. |
| Utils.FillAnchors | static/js/utils.js:4-11 | Rank 1 is full and rank 500 is half. `maxRank` is empty, or half when it is 500. |
| Utils.SecondSegmentDivisorPositive | static/js/utils.js:9-11 | The second segment is reached only with `maxRank > 500`, where the fill is at most 50. |
| Utils.FillMonotone | static/js/utils.js:1-13 | A larger rank never fills more. |
| Utils.BarColorOf | static/js/utils.js:15-19 | Green up to 300, orange up to 750, red above. |
| Utils.BarColorMonotone | static/js/utils.js:15-19 | A larger rank never gets a warmer colour. |
| CreateGame.NormalizeWord | static/js/create_game.js:1-3 | The normalised word is never longer than the input. |
| CreateGame.NormalizeMissing | static/js/create_game.js:2 | Both null and "" normalise to "". |
| CreateGame.NormalizeTrimmed | static/js/create_game.js:2 | The result has no surrounding whitespace and no upper-case letter. |
| CreateGame.NormalizeIdempotent | static/js/create_game.js:1-3 | Normalising twice is normalising once. |
| CreateGame.AcceptedGameId | static/js/create_game.js:147-151 | An id is accepted exactly when its normalised form is 64 lower-case hex digits. |
| CreateGame.GameIdIgnoresCaseAndSpace | static/js/create_game.js:147-151 | Surrounding whitespace and upper-case hex digits do not make an id invalid. |
| CreateGame.RenderTopWords | static/js/create_game.js:33-54 | The rows are the first 500 items of the ranking, in order. There are none when the ranking is not an array. |
| CreateGame.RequestedWord | static/js/create_game.js:120-125 | No request is made exactly when the normalised input is empty. |
| CreateGame.SubmitOutcome | static/js/create_game.js:115-168 | Empty input asks for a word. A thrown request shows the retry error. A created game has a valid id and comes from an ok reply with a ranking array. A server message shows only for a failed reply. For a non-empty word and a reply: a failed reply shows the server's non-empty `error` or the default message. An ok reply without a payload or without a ranking array gives the bad-data message. Otherwise an id that is not 64 hex digits gives the bad-id message, and a valid one creates the game with that id and ranking. |
| CreateGame.ServerMessageShown | static/js/create_game.js:136-140 | A failed reply shows the server's own non-empty message. |

## Left out

- The DOM, the `fetch` calls, alerts, focus and scrolling are not modelled. The handlers take the input text and the server's reply as parameters.
- The debug logging is not modelled.
- Clipboard copying (create_game.js lines 5-31 and 98-113) is not modelled because it is only DOM and browser I/O.
- `formatSimilarityPercent` is not modelled because it is floating-point formatting.
- Reading and writing files, and the JSON encoding of what is written, are not modelled. A file is its list of lines, and "missing" or "unreadable" is a parameter.
- The Flask routes other than `/api/daily-index` are not modelled, nor is the JSON-to-SQLite import of app.py. They are database and HTTP plumbing.
- `Migrate.MigrationAccounting`: holds only when every database write succeeds, since the model has no failing write. In the script a write that raises (lines 86-106), and so every write under `--commit-every 0` (a division by zero at line 100), is counted as planned, as added or replaced, and also as an error. Its rollback can also drop rows of the uncommitted batch that were already counted as added.
- `Migrate.Run`: the database is a map from date to secret word. Commits, `--commit-every` batching, rollback after a database exception, and the ranking JSON payload are not modelled.
- generate_definitions.py's calls to the OpenAI API, retries, sleeps, thread pool and lock are not modelled. The model answer is a parameter of `CleanAnswer`. The error markers are strings starting with "NA_".
- `Display.ProgressBarStyle`: the width's logarithmic term is a parameter, so the exact width is not computed. Floating point and NaN are not modelled.
- `Utils.FillPercent` is computed on exact reals, not IEEE doubles.
- `Rankings.RankWords`: the cosine similarities and the `argsort` order are inputs. The order is any permutation of the indices, and the `similarity` field is dropped.
- `Rankings.Judge`: whether a token converts to `float32` is the parameter `isNumber`. The `errors="ignore"` decoding and the `.bz2` reader are not modelled.
- `Rankings.Judge`: the `vec.size == 0` test is omitted, because a line reaches it only with at least two tokens.
- The embedding matrix and its norms are not modelled.
- `Text.Lower`: lower and upper case are mapped only for ASCII, Latin-1 and Cyrillic U+0400-U+045F plus Ґ/ґ. Other code points are left unchanged, and the extra folds of `re.IGNORECASE` are not modelled.
- `App.ParseDateFromFilename`: `\d` and `strptime` fields are ASCII digits only.
- `Migrate.PyInt`: Unicode digits are not accepted.
- `App.CoerceRanking`: JSON objects are maps, so their key order is not modelled.
- `WordCheck.CheckWordsPresence`: only the missing-file errors are modelled. Other exceptions are not.
- `WordLists.AppendNewWords`: writes one line per word. An existing file whose last line has no newline would glue the first new word onto it; this is not modelled.
- generate_rankings.py outside lines 58-157 is not modelled: model path resolution, the definitions lookup and writing the ranking files.
