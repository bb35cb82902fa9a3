/**
 * migrate_json_to_db.py: the secret word it assigns to a day (wrapping around
 * the daily word list), how it reads a day from a file name, and the main loop
 * with its counters. The database is modelled as the map from game date to
 * secret word it holds; whether a file's JSON could be read is a parameter.
 */
module Migrate {
  import opened Wrappers
  import opened Text
  import opened Dates
  import opened App

  // ---------------------------------------------------------------------------
  // choose_secret_word

  datatype ChooseError = NoDailyWords | BeforeBaseDate

  /** `choose_secret_word(day)`: raises for an empty list or a day before the
      base date, otherwise wraps the day's index around the list. */
  function ChooseSecretWord(dailyWords: seq<string>, day: Date): (r: Result<string, ChooseError>)
    requires ValidDate(day)
    ensures dailyWords == [] ==> r == Err(NoDailyWords)
    ensures dailyWords != [] && DaysSinceBase(day) < 0 ==> r == Err(BeforeBaseDate)
    ensures r.Ok? <==> dailyWords != [] && DaysSinceBase(day) >= 0
    ensures r.Ok? ==> r.value == dailyWords[DaysSinceBase(day) % |dailyWords|]
  {
    if dailyWords == [] then Err(NoDailyWords)
    else
      var delta := DaysSinceBase(day);
      if delta < 0 then Err(BeforeBaseDate)
      else
        var idx := if delta >= |dailyWords| && |dailyWords| > 0 then delta % |dailyWords| else delta;
        ModOfSmaller(delta, |dailyWords|);
        Ok(dailyWords[idx])
  }

  lemma ModOfSmaller(a: int, n: int)
    requires n > 0
    ensures 0 <= a % n < n
    ensures 0 <= a < n ==> a % n == a
  {
    if 0 <= a < n {
      assert a == n * 0 + a;
    }
  }

  /** Within the list the two scripts agree: the wrapped index and the clamped
      index of app.py are the same day's word. */
  lemma ChooseAgreesInRange(dailyWords: seq<string>, day: Date)
    requires ValidDate(day) && 0 <= DaysSinceBase(day) < |dailyWords|
    ensures ChooseSecretWord(dailyWords, day) == Ok(GuessSecretWordForDate(dailyWords, day))
  {
  }

  /** Past the end of a list of distinct words they disagree: app.py keeps the
      last word, this script starts over, except on the days that wrap onto the
      last word. */
  lemma ClampAndWrapDiffer(dailyWords: seq<string>, day: Date)
    requires ValidDate(day)
    requires forall i, j :: 0 <= i < j < |dailyWords| ==> dailyWords[i] != dailyWords[j]
    requires 0 < |dailyWords| <= DaysSinceBase(day)
    ensures ChooseSecretWord(dailyWords, day).Ok?
    ensures (ChooseSecretWord(dailyWords, day).value == GuessSecretWordForDate(dailyWords, day))
            <==> DaysSinceBase(day) % |dailyWords| == |dailyWords| - 1
  {
  }

  /** The smallest case: two words, two days after the base date. */
  lemma ClampAndWrapExample()
    ensures var day := NextDay(NextDay(BaseDate));
            ValidDate(day)
            && GuessSecretWordForDate(["a", "b"], day) == "b"
            && ChooseSecretWord(["a", "b"], day) == Ok("a")
  {
    OrdinalNextDay(BaseDate);
    OrdinalNextDay(NextDay(BaseDate));
  }

  // ---------------------------------------------------------------------------
  // parse_day_from_name

  /** The position of the last `c` in `s`. */
  function LastIndexOf(s: string, c: char): (k: Option<nat>)
    ensures k.Some? ==> k.value < |s| && s[k.value] == c && forall j :: k.value < j < |s| ==> s[j] != c
    ensures k.None? ==> c !in s
  {
    if s == [] then None
    else if s[|s| - 1] == c then Some(|s| - 1)
    else LastIndexOf(s[..|s| - 1], c)
  }

  /** `os.path.splitext(name)[0]` for a name without `/`: the part before the
      last dot, unless only dots precede it (".json" has no extension). */
  function Stem(name: string): (stem: string)
    ensures stem == name || (|stem| < |name| && name[|stem|] == '.' && stem == name[..|stem|])
  {
    match LastIndexOf(name, '.')
    case None => name
    case Some(k) =>
      if exists j :: 0 <= j < k && name[j] != '.' then name[..k] else name
  }

  /** `s.split(sep)`: the pieces between the separators, empty ones included. */
  function SplitOn(s: string, sep: char): (parts: seq<string>)
    ensures |parts| >= 1
    ensures forall k :: 0 <= k < |parts| ==> sep !in parts[k]
    decreases |s|
  {
    if sep !in s then [s]
    else
      var i := FirstIndexOf(s, sep);
      [s[..i]] + SplitOn(s[i + 1..], sep)
  }

  function FirstIndexOf(s: string, c: char): (i: nat)
    requires c in s
    ensures i < |s| && s[i] == c && c !in s[..i]
  {
    if s[0] == c then 0 else 1 + FirstIndexOf(s[1..], c)
  }

  /** `sep.join(parts)` */
  function Join(parts: seq<string>, sep: char): string
    requires |parts| >= 1
  {
    if |parts| == 1 then parts[0] else parts[0] + [sep] + Join(parts[1..], sep)
  }

  /** Splitting loses nothing: joining the pieces gives the string back. */
  lemma {:induction false} JoinSplit(s: string, sep: char)
    ensures Join(SplitOn(s, sep), sep) == s
    decreases |s|
  {
    if sep in s {
      var i := FirstIndexOf(s, sep);
      var rest := SplitOn(s[i + 1..], sep);
      JoinSplit(s[i + 1..], sep);
      JoinCons(s[..i], rest, sep);
      assert s == s[..i] + [sep] + s[i + 1..];
    }
  }

  lemma JoinCons(first: string, rest: seq<string>, sep: char)
    requires |rest| >= 1
    ensures Join([first] + rest, sep) == first + [sep] + Join(rest, sep)
  {
    assert ([first] + rest)[1..] == rest;
  }

  /** Splitting pieces that hold no separator, joined by it, gives them back. */
  lemma {:induction false} SplitJoin(parts: seq<string>, sep: char)
    requires |parts| >= 1 && forall k :: 0 <= k < |parts| ==> sep !in parts[k]
    ensures SplitOn(Join(parts, sep), sep) == parts
    decreases |parts|
  {
    if |parts| > 1 {
      var p := parts[0];
      var tail := Join(parts[1..], sep);
      assert Join(parts, sep) == p + [sep] + tail;
      SplitJoin(parts[1..], sep);
      SplitAtFirst(p, tail, sep);
      assert parts == [p] + parts[1..];
    } else {
      assert sep !in parts[0];
    }
  }

  /** A piece without the separator, the separator and a tail split as the
      piece followed by the tail's pieces. */
  lemma SplitAtFirst(p: string, tail: string, sep: char)
    requires sep !in p
    ensures SplitOn(p + [sep] + tail, sep) == [p] + SplitOn(tail, sep)
  {
    var s := p + [sep] + tail;
    assert s[|p|] == sep;
    var i := FirstIndexOf(s, sep);
    assert i == |p| by {
      assert s[..|p|] == p;
    }
    assert s[..i] == p;
    assert s[i + 1..] == tail;
  }

  /** The value of a string of ASCII digits. */
  function DigitsValue(s: string): (n: nat)
    requires forall i :: 0 <= i < |s| ==> IsAsciiDigit(s[i])
  {
    if s == [] then 0 else 10 * DigitsValue(s[..|s| - 1]) + DigitValue(s[|s| - 1])
  }

  /** The digits of `s` with the underscores left out. */
  function WithoutUnderscores(s: string): (t: string)
    ensures '_' !in t && |t| <= |s|
  {
    if s == [] then [] else if s[0] == '_' then WithoutUnderscores(s[1..]) else [s[0]] + WithoutUnderscores(s[1..])
  }

  /** Digits, single underscores allowed between two digits. */
  predicate IsDigitRun(s: string) {
    s != [] && IsAsciiDigit(s[0]) && IsAsciiDigit(s[|s| - 1])
    && (forall i :: 0 <= i < |s| ==> IsAsciiDigit(s[i]) || s[i] == '_')
    && (forall i :: 0 <= i < |s| - 1 ==> !(s[i] == '_' && s[i + 1] == '_'))
  }

  lemma UnderscoresGone(s: string)
    requires forall i :: 0 <= i < |s| ==> IsAsciiDigit(s[i]) || s[i] == '_'
    ensures forall i :: 0 <= i < |WithoutUnderscores(s)| ==> IsAsciiDigit(WithoutUnderscores(s)[i])
  {
    if s != [] {
      UnderscoresGone(s[1..]);
    }
  }

  /** `int(s)` in base 10: surrounding whitespace, an optional sign, then a digit run. */
  function PyInt(s: string): (r: Option<int>)
    ensures r.Some? ==> var t := PyStrip(s); t != [] && (IsAsciiDigit(t[0]) || t[0] == '-' || t[0] == '+')
  {
    SignedDigits(PyStrip(s))
  }

  /** An optional sign and a digit run, with nothing around them. */
  function SignedDigits(t: string): (r: Option<int>)
    ensures r.Some? ==> t != [] && (IsAsciiDigit(t[0]) || t[0] == '-' || t[0] == '+')
  {
    var neg := |t| > 0 && t[0] == '-';
    var body := if |t| > 0 && (t[0] == '-' || t[0] == '+') then t[1..] else t;
    if !IsDigitRun(body) then None
    else
      UnderscoresGone(body);
      var n: int := DigitsValue(WithoutUnderscores(body));
      Some(if neg then -n else n)
  }

  function Pow10(w: nat): (p: nat)
    ensures p >= 1
  {
    if w == 0 then 1 else 10 * Pow10(w - 1)
  }

  /** A zero-padded number reads back as itself. */
  lemma {:induction false} PaddedValue(n: nat, w: nat)
    requires n < Pow10(w)
    ensures DigitsValue(Padded(n, w)) == n
  {
    if w > 0 {
      PaddedValue(n / 10, w - 1);
      assert Padded(n, w)[..w - 1] == Padded(n / 10, w - 1);
    }
  }

  lemma {:induction false} NoUnderscoreInDigits(s: string)
    requires forall i :: 0 <= i < |s| ==> IsAsciiDigit(s[i])
    ensures WithoutUnderscores(s) == s
  {
    if s != [] {
      NoUnderscoreInDigits(s[1..]);
    }
  }

  /** A plain run of digits reads as its value. */
  lemma SignedDigitsOfDigits(s: string)
    requires s != [] && forall i :: 0 <= i < |s| ==> IsAsciiDigit(s[i])
    ensures SignedDigits(s) == Some(DigitsValue(s))
  {
    assert s[0] != '-' && s[0] != '+';
    assert IsDigitRun(s);
    NoUnderscoreInDigits(s);
  }

  /** `int` of a zero-padded field, such as the "06" of a date, is its number. */
  lemma PyIntOfPadded(n: nat, w: nat)
    requires 1 <= w && n < Pow10(w)
    ensures PyInt(Padded(n, w)) == Some(n)
  {
    var s := Padded(n, w);
    assert PyStrip(s) == s by {
      assert !IsPySpace(s[0]) && !IsPySpace(s[|s| - 1]);
      TrimOfTrimmed(s, IsPySpace);
    }
    SignedDigitsOfDigits(s);
    PaddedValue(n, w);
  }

  /** `parse_day_from_name(path)`: `None` where it raises. */
  function ParseDayFromName(path: string): (r: Option<Date>)
    ensures r.Some? ==> ValidDate(r.value)
    ensures r.Some? ==> |SplitOn(Stem(Basename(path)), '-')| == 3
  {
    var parts := SplitOn(Stem(Basename(path)), '-');
    if |parts| != 3 then None
    else
      match (PyInt(parts[0]), PyInt(parts[1]), PyInt(parts[2]))
      case (Some(y), Some(m), Some(d)) =>
        if ValidDate(Date(y, m, d)) then Some(Date(y, m, d)) else None
      case _ => None
  }

  /** A tail without `c` does not move the last `c`. */
  lemma {:induction false} LastIndexOfSkip(s: string, t: string, c: char)
    requires c !in t
    ensures LastIndexOf(s + t, c) == LastIndexOf(s, c)
    decreases |t|
  {
    if t != [] {
      var u := s + t;
      assert u[..|u| - 1] == s + t[..|t| - 1];
      assert u[|u| - 1] == t[|t| - 1];
      LastIndexOfSkip(s, t[..|t| - 1], c);
    } else {
      assert s + t == s;
    }
  }

  /** `splitext` of `base + ".json"` for a base without dots. */
  lemma StemOfJson(base: string)
    requires base != [] && '.' !in base
    ensures Stem(base + ".json") == base
  {
    var name := base + ".json";
    assert name == (base + ".") + "json";
    LastIndexOfSkip(base + ".", "json", '.');
    assert LastIndexOf(base + ".", '.') == Some(|base|);
    assert name[0] == base[0];
    assert name[..|base|] == base;
  }

  /** The stem of an archive file name is the ISO date. */
  lemma StemOfIsoName(dir: string, d: Date)
    requires ValidDate(d)
    ensures Stem(Basename(dir + "/" + IsoFormat(d) + ".json")) == IsoFormat(d)
  {
    var iso := IsoFormat(d);
    var name := iso + ".json";
    assert forall i :: 0 <= i < |name| ==> name[i] != '/' by {
      forall i | 0 <= i < |name| ensures name[i] != '/' {
        if i < 10 {
          assert name[i] == iso[i];
        }
      }
    }
    assert dir + "/" + iso + ".json" == dir + "/" + name;
    BasenameOfJoin(dir, name);
    assert '.' !in iso by {
      assert forall i :: 0 <= i < |iso| ==> iso[i] != '.';
    }
    StemOfJson(iso);
  }

  /** The ISO date splits at its dashes into the three padded numbers. */
  lemma SplitIsoFormat(d: Date)
    requires ValidDate(d)
    ensures SplitOn(IsoFormat(d), '-') == [Padded(d.year, 4), Padded(d.month, 2), Padded(d.day, 2)]
  {
    var parts := [Padded(d.year, 4), Padded(d.month, 2), Padded(d.day, 2)];
    assert Join(parts[2..], '-') == Padded(d.day, 2);
    assert Join(parts[1..], '-') == Padded(d.month, 2) + "-" + Padded(d.day, 2);
    assert IsoFormat(d) == Join(parts, '-');
    SplitJoin(parts, '-');
  }

  /** The file names the archive is written under read back as their dates. */
  lemma DayFromIsoName(dir: string, d: Date)
    requires ValidDate(d)
    ensures ParseDayFromName(dir + "/" + IsoFormat(d) + ".json") == Some(d)
  {
    StemOfIsoName(dir, d);
    SplitIsoFormat(d);
    PyIntOfPadded(d.year, 4);
    PyIntOfPadded(d.month, 2);
    PyIntOfPadded(d.day, 2);
  }

  // ---------------------------------------------------------------------------
  // main

  /** One file of the folder: its path and whether `json.load` succeeded. */
  datatype SourceFile = SourceFile(path: string, readable: bool)

  datatype Counters = Counters(added: nat, replaced: nat, skipped: nat, errors: nat, planned: nat)

  /** The database rows the script sees: game date to secret word. */
  type Rows = map<Date, string>

  /** One iteration of the loop over the files. */
  function Step(c: Counters, rows: Rows, f: SourceFile, dailyWords: seq<string>,
                replace: bool, dryRun: bool): (r: (Counters, Rows))
    ensures r.0.skipped + r.0.errors + r.0.planned == c.skipped + c.errors + c.planned + 1
  {
    StepOn(c, rows, ParseDayFromName(f.path), f.readable, dailyWords, replace, dryRun)
  }

  /** The iteration once the file name has been read as `parsed`. */
  function StepOn(c: Counters, rows: Rows, parsed: Option<Date>, readable: bool, dailyWords: seq<string>,
                  replace: bool, dryRun: bool): (r: (Counters, Rows))
    requires parsed.Some? ==> ValidDate(parsed.value)
    ensures r.0.skipped + r.0.errors + r.0.planned == c.skipped + c.errors + c.planned + 1
  {
    match parsed
    case None => (c.(skipped := c.skipped + 1), rows)
    case Some(day) =>
      if day in rows && !replace then (c.(skipped := c.skipped + 1), rows)
      else if !readable then (c.(errors := c.errors + 1), rows)
      else
        match ChooseSecretWord(dailyWords, day)
        case Err(_) => (c.(errors := c.errors + 1), rows)
        case Ok(secret) =>
          var c' := c.(planned := c.planned + 1);
          if dryRun then (c', rows)
          else if day in rows then (c'.(replaced := c.replaced + 1), rows[day := secret])
          else (c'.(added := c.added + 1), rows[day := secret])
  }

  /** The counters and rows after the loop has seen `files`, in order. */
  function Migration(files: seq<SourceFile>, rows: Rows, dailyWords: seq<string>,
                     replace: bool, dryRun: bool): (r: (Counters, Rows))
    ensures r.0.skipped + r.0.errors + r.0.planned == |files|
  {
    if files == [] then (Counters(0, 0, 0, 0, 0), rows)
    else
      var (c, r) := Migration(files[..|files| - 1], rows, dailyWords, replace, dryRun);
      Step(c, r, files[|files| - 1], dailyWords, replace, dryRun)
  }

  /** The body of `main`'s loop for one file. */
  method ProcessFile(counters: Counters, rows: Rows, f: SourceFile, dailyWords: seq<string>,
                     replace: bool, dryRun: bool)
    returns (c: Counters, after: Rows)
    ensures (c, after) == Step(counters, rows, f, dailyWords, replace, dryRun)
  {
    var day := ParseDayFromName(f.path);
    c, after := ProcessDay(counters, rows, day, f.readable, dailyWords, replace, dryRun);
  }

  /** The same, once the file name has been read as `day`. */
  method ProcessDay(counters: Counters, rows: Rows, day: Option<Date>, readable: bool, dailyWords: seq<string>,
                    replace: bool, dryRun: bool)
    returns (c: Counters, after: Rows)
    requires day.Some? ==> ValidDate(day.value)
    ensures (c, after) == StepOn(counters, rows, day, readable, dailyWords, replace, dryRun)
  {
    c, after := counters, rows;
    if day.None? {
      c := c.(skipped := c.skipped + 1);
      return;
    }
    var existing := day.value in rows;
    if existing && !replace {
      c := c.(skipped := c.skipped + 1);
      return;
    }
    if !readable {
      c := c.(errors := c.errors + 1);
      return;
    }
    var secret := ChooseSecretWord(dailyWords, day.value);
    if secret.Err? {
      c := c.(errors := c.errors + 1);
      return;
    }
    c := c.(planned := c.planned + 1);
    if dryRun {
      return;
    }
    if existing {
      c := c.(replaced := c.replaced + 1);
    } else {
      c := c.(added := c.added + 1);
    }
    after := rows[day.value := secret.value];
  }

  /** `main`'s loop over the sorted files. */
  method Run(files: seq<SourceFile>, rows: Rows, dailyWords: seq<string>, replace: bool, dryRun: bool)
    returns (counters: Counters, after: Rows)
    ensures (counters, after) == Migration(files, rows, dailyWords, replace, dryRun)
  {
    counters := Counters(0, 0, 0, 0, 0);
    after := rows;
    for i := 0 to |files|
      invariant (counters, after) == Migration(files[..i], rows, dailyWords, replace, dryRun)
    {
      assert files[..i + 1][..i] == files[..i];
      ghost var before := (counters, after);
      counters, after := ProcessFile(counters, after, files[i], dailyWords, replace, dryRun);
      assert Migration(files[..i + 1], rows, dailyWords, replace, dryRun)
          == Step(before.0, before.1, files[i], dailyWords, replace, dryRun);
    }
    assert files[..|files|] == files;
  }

  /** What the counters and rows look like after `n` files, when every
      database write succeeds (the model has no failing write): every file is
      counted exactly once, as skipped, failed or planned; a real run writes
      every planned file, a dry run writes nothing; without `--replace` no
      existing row changes; and every row written holds the wrapped word of its
      day. */
  ghost predicate Accounted(n: nat, rows: Rows, c: Counters, after: Rows, dailyWords: seq<string>,
                            replace: bool, dryRun: bool)
  {
    c.skipped + c.errors + c.planned == n
    && (dryRun ==> c.added == 0 && c.replaced == 0 && after == rows)
    && (!dryRun ==> c.added + c.replaced == c.planned)
    && rows.Keys <= after.Keys
    && (!replace ==> forall day :: day in rows ==> after[day] == rows[day])
    && (forall day :: day in after && (day !in rows || after[day] != rows[day]) ==>
          ValidDate(day) && ChooseSecretWord(dailyWords, day) == Ok(after[day]))
  }

  /** One more file keeps the accounting. */
  lemma StepAccounting(n: nat, rows: Rows, c: Counters, before: Rows, parsed: Option<Date>, readable: bool,
                       dailyWords: seq<string>, replace: bool, dryRun: bool)
    requires parsed.Some? ==> ValidDate(parsed.value)
    requires Accounted(n, rows, c, before, dailyWords, replace, dryRun)
    ensures var (c', after) := StepOn(c, before, parsed, readable, dailyWords, replace, dryRun);
            Accounted(n + 1, rows, c', after, dailyWords, replace, dryRun)
  {
  }

  lemma {:induction false} MigrationAccounting(files: seq<SourceFile>, rows: Rows, dailyWords: seq<string>,
                                               replace: bool, dryRun: bool)
    ensures var (c, after) := Migration(files, rows, dailyWords, replace, dryRun);
            Accounted(|files|, rows, c, after, dailyWords, replace, dryRun)
    decreases |files|
  {
    if files != [] {
      var init := files[..|files| - 1];
      var f := files[|files| - 1];
      MigrationAccounting(init, rows, dailyWords, replace, dryRun);
      var (c, before) := Migration(init, rows, dailyWords, replace, dryRun);
      StepAccounting(|init|, rows, c, before, ParseDayFromName(f.path), f.readable, dailyWords, replace, dryRun);
    }
  }

  /** A file whose name is not a date is skipped and changes nothing else. */
  lemma BadNameSkipped(c: Counters, rows: Rows, f: SourceFile, dailyWords: seq<string>, replace: bool, dryRun: bool)
    requires ParseDayFromName(f.path).None?
    ensures Step(c, rows, f, dailyWords, replace, dryRun) == (c.(skipped := c.skipped + 1), rows)
  {
  }
}
