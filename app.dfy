/**
 * The pure helpers of app.py: which daily word belongs to a date, how a JSON
 * archive file is read into a ranking, a game date and a secret word, and the
 * day number the `/api/daily-index` route reports. The daily word list and
 * "today" are parameters.
 */
module App {
  import opened Wrappers
  import opened Text
  import opened Dates

  /** The first day of the game: 2025-06-02. */
  const BaseDate: Date := Date(2025, 6, 2)

  /** The word reported when none can be chosen. */
  const UnknownWord: string := "невідомо"

  lemma BaseDateFacts()
    ensures ValidDate(BaseDate) && Ordinal(BaseDate) == 739404
  {
  }

  /** `(d - BASE_DATE).days` */
  function DaysSinceBase(d: Date): (n: int)
    requires ValidDate(d)
    ensures d == BaseDate ==> n == 0
    ensures n > 0 ==> d != BaseDate
  {
    DaysBetween(d, BaseDate)
  }

  /** `guess_secret_word_for_date(d)`: the word at the day's index, clamped
      into the list; "невідомо" for an empty list. */
  function GuessSecretWordForDate(dailyWords: seq<string>, d: Date): (w: string)
    requires ValidDate(d)
    ensures dailyWords == [] ==> w == UnknownWord
    ensures dailyWords != [] ==> w in dailyWords
    ensures 0 <= DaysSinceBase(d) < |dailyWords| ==> w == dailyWords[DaysSinceBase(d)]
    ensures dailyWords != [] && DaysSinceBase(d) < 0 ==> w == dailyWords[0]
    ensures dailyWords != [] && DaysSinceBase(d) >= |dailyWords| ==> w == dailyWords[|dailyWords| - 1]
  {
    if dailyWords == [] then UnknownWord
    else
      var idx := DaysSinceBase(d);
      if 0 <= idx < |dailyWords| then dailyWords[idx]
      else
        var clamped := if idx < 0 then 0 else |dailyWords| - 1;
        dailyWords[clamped]
  }

  /** The base date gets the first word, and each following day the next one,
      as long as the list lasts. */
  lemma DailyWordsInOrder(dailyWords: seq<string>, d: Date)
    requires dailyWords != []
    requires ValidDate(d) && d.year < 9999
    requires 0 <= DaysSinceBase(d) && DaysSinceBase(d) + 1 < |dailyWords|
    ensures GuessSecretWordForDate(dailyWords, BaseDate) == dailyWords[0]
    ensures GuessSecretWordForDate(dailyWords, NextDay(d)) == dailyWords[DaysSinceBase(d) + 1]
  {
    OrdinalNextDay(d);
  }

  // ---------------------------------------------------------------------------
  // Dates in file names

  /** `os.path.basename`: what follows the last `/`. */
  function Basename(path: string): (name: string)
    ensures '/' !in name && |name| <= |path|
    ensures name == path[|path| - |name|..]
  {
    if path == [] || path[|path| - 1] == '/' then []
    else Basename(path[..|path| - 1]) + [path[|path| - 1]]
  }

  /** `20\d{2}-\d{2}-\d{2}` matches the ten characters of `s` from `i`. */
  predicate DatePatternAt(s: string, i: nat) {
    i + 10 <= |s| && s[i] == '2' && s[i + 1] == '0' && IsAsciiDigit(s[i + 2]) && IsAsciiDigit(s[i + 3])
    && s[i + 4] == '-' && IsAsciiDigit(s[i + 5]) && IsAsciiDigit(s[i + 6])
    && s[i + 7] == '-' && IsAsciiDigit(s[i + 8]) && IsAsciiDigit(s[i + 9])
  }

  /** `DATE_RE.search` from position `from`: the leftmost match. */
  function SearchDate(s: string, from: nat): (i: Option<nat>)
    ensures i.Some? ==> from <= i.value && DatePatternAt(s, i.value)
                        && forall k :: from <= k < i.value ==> !DatePatternAt(s, k)
    ensures i.None? ==> forall k :: from <= k ==> !DatePatternAt(s, k)
    decreases |s| - from
  {
    if from + 10 > |s| then None
    else if DatePatternAt(s, from) then Some(from)
    else SearchDate(s, from + 1)
  }

  /** `i` is where `DATE_RE.search` matches `s`: a date-shaped run starts
      there and at no earlier position. */
  predicate FirstDateRun(s: string, i: nat) {
    DatePatternAt(s, i) && forall k :: 0 <= k < i ==> !DatePatternAt(s, k)
  }

  /** The leftmost run is unique. */
  lemma FirstDateRunUnique(s: string, i: nat, j: nat)
    requires FirstDateRun(s, i) && FirstDateRun(s, j)
    ensures i == j
  {
  }

  /** The date of a base name: `strptime` of its first date-shaped run, `None`
      when there is none or it is not a real date. */
  function DateInName(name: string): (r: Option<Date>)
    ensures r.Some? ==> ValidDate(r.value)
    ensures r.Some? ==> exists i: nat :: FirstDateRun(name, i) && ParseIsoDate(name[i..i + 10]) == r
    ensures forall i: nat :: FirstDateRun(name, i) ==> r == ParseIsoDate(name[i..i + 10])
    ensures (forall i: nat :: !DatePatternAt(name, i)) ==> r.None?
  {
    match SearchDate(name, 0)
    case None => None
    case Some(i) =>
      assert FirstDateRun(name, i);
      assert forall j: nat :: FirstDateRun(name, j) ==> j == i by {
        forall j: nat | FirstDateRun(name, j) ensures j == i {
          FirstDateRunUnique(name, i, j);
        }
      }
      ParseIsoDate(name[i..i + 10])
  }

  /** `parse_date_from_filename`: the date in the base name. */
  function ParseDateFromFilename(path: string): (r: Option<Date>)
    ensures r.Some? ==> ValidDate(r.value)
    ensures r.Some? ==> exists i: nat :: FirstDateRun(Basename(path), i) && ParseIsoDate(Basename(path)[i..i + 10]) == r
    ensures forall i: nat :: FirstDateRun(Basename(path), i) ==> r == ParseIsoDate(Basename(path)[i..i + 10])
    ensures (forall i: nat :: !DatePatternAt(Basename(path), i)) ==> r.None?
  {
    DateInName(Basename(path))
  }

  lemma {:induction false} BasenameWithoutSlash(path: string)
    requires '/' !in path
    ensures Basename(path) == path
  {
    if path != [] {
      BasenameWithoutSlash(path[..|path| - 1]);
    }
  }

  /** The base name is what follows the directory part. */
  lemma {:induction false} BasenameOfJoin(dir: string, name: string)
    requires '/' !in name
    ensures Basename(dir + "/" + name) == name
  {
    if name == [] {
      assert (dir + "/" + name)[|dir|] == '/';
    } else {
      var last := name[|name| - 1];
      assert dir + "/" + name == (dir + "/" + name[..|name| - 1]) + [last];
      BasenameOfJoin(dir, name[..|name| - 1]);
    }
  }

  /** An archive file named `<dir>/<isoformat of its date>.json` yields its date. */
  lemma ArchiveNameRoundTrip(dir: string, d: Date)
    requires ValidDate(d) && 2000 <= d.year <= 2099
    ensures ParseDateFromFilename(dir + "/" + IsoFormat(d) + ".json") == Some(d)
  {
    var iso := IsoFormat(d);
    var name := iso + ".json";
    assert forall i :: 0 <= i < |name| ==> name[i] != '/' by {
      forall i | 0 <= i < |name| ensures name[i] != '/' {
        if i < 10 {
          assert name[i] == iso[i];
        }
      }
    }
    assert dir + "/" + iso + ".json" == dir + "/" + name;
    BasenameOfJoin(dir, name);
    IsoFormatCentury(d);
    assert name[..10] == iso;
    assert DatePatternAt(name, 0);
    assert SearchDate(name, 0) == Some(0);
    ParseIsoFormat(d);
  }

  lemma MonthThirteenRejected()
    ensures ParseIsoDate("2025-13-01") == None
  {
    assert "2025-13-01"[5..] == "13-01";
    assert MatchMonth("13-01") == Some((1, 1));
    assert "2025-13-01"[6..] == "3-01";
  }

  /** A name without a directory part that starts with a date-shaped run is
      decided by that run alone. */
  lemma LeadingRunDecides(name: string)
    requires '/' !in name && DatePatternAt(name, 0)
    ensures ParseDateFromFilename(name) == ParseIsoDate(name[..10])
  {
    BasenameWithoutSlash(name);
  }

  /** Only the first date-shaped run is tried: an impossible first date hides a
      valid second one. */
  lemma FirstDateRunDecides()
    ensures ParseDateFromFilename("2025-13-01_2025-06-02.json") == None
  {
    var a := "2025-13-01_2025-06-02.json";
    assert a[..10] == "2025-13-01";
    LeadingRunDecides(a);
    MonthThirteenRejected();
  }

  // ---------------------------------------------------------------------------
  // Reading an archive JSON file

  /** A parsed JSON value. */
  datatype Json =
    | JNull
    | JBool(b: bool)
    | JNumber(n: real)
    | JString(s: string)
    | JArray(items: seq<Json>)
    | JObject(fields: map<string, Json>)

  /** `coerce_ranking`: the list itself, or the list under "ranking". */
  function CoerceRanking(value: Json): (r: Option<seq<Json>>)
    ensures value.JArray? ==> r == Some(value.items)
    ensures value.JObject? ==>
              (r.Some? <==> "ranking" in value.fields && value.fields["ranking"].JArray?)
              && (r.Some? ==> r.value == value.fields["ranking"].items)
    ensures !value.JArray? && !value.JObject? ==> r.None?
  {
    match value
    case JArray(items) => Some(items)
    case JObject(fields) =>
      if "ranking" in fields && fields["ranking"].JArray? then Some(fields["ranking"].items) else None
    case _ => None
  }

  /** The date stored in the object, when it is a string strptime accepts. */
  function JsonGameDate(value: Json): (r: Option<Date>)
    ensures r.Some? ==> ValidDate(r.value)
    ensures r.Some? ==> value.JObject? && "game_date" in value.fields && value.fields["game_date"].JString?
  {
    if value.JObject? && "game_date" in value.fields && value.fields["game_date"].JString?
    then ParseIsoDate(value.fields["game_date"].s)
    else None
  }

  /** `extract_game_date`: the JSON's own date wins, the file name is the fallback. */
  function ExtractGameDate(value: Json, path: string): (r: Option<Date>)
    ensures r.Some? ==> ValidDate(r.value)
    ensures JsonGameDate(value).Some? ==> r == JsonGameDate(value)
    ensures JsonGameDate(value).None? ==> r == ParseDateFromFilename(path)
  {
    match JsonGameDate(value)
    case Some(d) => Some(d)
    case None => ParseDateFromFilename(path)
  }

  /** The stripped `secret_word` of the object when it is a non-blank string. */
  function JsonSecretWord(value: Json): (r: Option<string>)
    ensures r.Some? ==> r.value != "" && PyStrip(r.value) == r.value
    ensures r.Some? ==> value.JObject? && "secret_word" in value.fields && value.fields["secret_word"].JString?
  {
    if value.JObject? && "secret_word" in value.fields && value.fields["secret_word"].JString?
       && PyStrip(value.fields["secret_word"].s) != ""
    then Some(PyStrip(value.fields["secret_word"].s))
    else None
  }

  /** `extract_secret_word`: the JSON's word, else the word of the game date,
      else "невідомо". */
  function ExtractSecretWord(value: Json, gameDate: Option<Date>, dailyWords: seq<string>): (w: string)
    requires gameDate.Some? ==> ValidDate(gameDate.value)
    ensures JsonSecretWord(value).Some? ==> w == JsonSecretWord(value).value
    ensures JsonSecretWord(value).None? && gameDate.Some? ==> w == GuessSecretWordForDate(dailyWords, gameDate.value)
    ensures JsonSecretWord(value).None? && gameDate.None? ==> w == UnknownWord
  {
    match JsonSecretWord(value)
    case Some(sw) => sw
    case None =>
      match gameDate
      case Some(d) => GuessSecretWordForDate(dailyWords, d)
      case None => UnknownWord
  }

  /** Whatever the file holds, the secret word is never blank as long as the
      daily words are not; an explicit word comes back without surrounding
      whitespace. */
  lemma SecretWordNeverBlank(value: Json, gameDate: Option<Date>, dailyWords: seq<string>)
    requires gameDate.Some? ==> ValidDate(gameDate.value)
    requires forall k :: 0 <= k < |dailyWords| ==> dailyWords[k] != ""
    ensures ExtractSecretWord(value, gameDate, dailyWords) != ""
    ensures JsonSecretWord(value).Some? ==>
              var w := ExtractSecretWord(value, gameDate, dailyWords);
              !IsPySpace(w[0]) && !IsPySpace(w[|w| - 1])
  {
  }

  // ---------------------------------------------------------------------------
  // /api/daily-index

  /** `game_number`: day 1 is the base date. */
  function GameNumber(today: Date): (n: int)
    requires ValidDate(today)
    ensures today == BaseDate ==> n == 1
    ensures n >= 1 <==> Ordinal(today) >= Ordinal(BaseDate)
  {
    DaysSinceBase(today) + 1
  }

  /** The base date is game 1 and each day adds one. */
  lemma GameNumberCounts(today: Date)
    requires ValidDate(today) && today.year < 9999
    ensures GameNumber(BaseDate) == 1
    ensures GameNumber(NextDay(today)) == GameNumber(today) + 1
  {
    OrdinalNextDay(today);
  }
}
