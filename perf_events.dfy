/**
  The performance sampler's parsing side: the `perf script` output is read
  with `csv.DictReader` in a space-delimited dialect, and `VAL` is summed
  per `EVENT`. The sampler's thread and subprocesses are not modelled; the
  script output is an input here.
*/
module PerfEvents {
  import opened Wrappers

  // ---------------------------------------------------------------------
  // The command line of the recording (only its sleep length is logic)

  const Events: seq<string> := ["cpu-clock", "cpu-migrations", "context-switches", "page-faults", "task-clock"]

  function DigitChar(d: nat): char
    requires d < 10
  {
    "0123456789"[d]
  }

  /** Python's `str(n)` for a non-negative integer. */
  function Decimal(n: nat): (s: string)
    ensures |s| > 0 && forall i :: 0 <= i < |s| ==> IsDigit(s[i])
  {
    if n < 10 then [DigitChar(n)] else Decimal(n / 10) + [DigitChar(n % 10)]
  }

  /** Python's `f"{n}"` for any integer. */
  function IntToString(n: int): string {
    if n < 0 then "-" + Decimal(-n) else Decimal(n)
  }

  /** The recording the sampler starts: system-wide counters while `sleep` runs for `timeout + 1` seconds. */
  function RecordCommand(timeout: int): (cmd: seq<string>)
    ensures |cmd| == 17 && cmd[13] == "-a"
    ensures forall i :: 0 <= i < |Events| ==> cmd[3 + 2 * i] == "-e" && cmd[4 + 2 * i] == Events[i]
  {
    ["perf_4.19", "stat", "record",
     "-e", Events[0], "-e", Events[1], "-e", Events[2], "-e", Events[3], "-e", Events[4],
     "-a", "--", "sleep", IntToString(timeout + 1)]
  }

  // ---------------------------------------------------------------------
  // `int(s)` on a field

  predicate IsDigit(c: char) { '0' <= c <= '9' }

  /** The ASCII characters `str.strip` and `int` treat as whitespace. */
  predicate IsSpace(c: char) {
    c == ' ' || ('\t' <= c <= '\r') || ('\U{1C}' <= c <= '\U{1F}')
  }

  function TrimStart(s: string): (t: string)
    ensures |t| <= |s| && t == s[|s| - |t|..]
    ensures t != [] ==> !IsSpace(t[0])
  {
    if s != [] && IsSpace(s[0]) then TrimStart(s[1..]) else s
  }

  function TrimEnd(s: string): (t: string)
    ensures |t| <= |s| && t == s[..|t|]
    ensures t != [] ==> !IsSpace(t[|t| - 1])
  {
    if s != [] && IsSpace(s[|s| - 1]) then TrimEnd(s[..|s| - 1]) else s
  }

  /** Digits, with single underscores allowed between two digits. */
  predicate DigitGroups(t: string) {
    && |t| > 0
    && (forall i :: 0 <= i < |t| ==> IsDigit(t[i]) || t[i] == '_')
    && (forall i :: 0 <= i < |t| && t[i] == '_' ==> 0 < i < |t| - 1 && IsDigit(t[i - 1]) && IsDigit(t[i + 1]))
  }

  function WithoutUnderscores(t: string): (u: string)
    ensures |u| <= |t|
  {
    if t == [] then [] else (if t[0] == '_' then [] else [t[0]]) + WithoutUnderscores(t[1..])
  }

  function DigitValue(c: char): nat
    requires IsDigit(c)
  {
    c as nat - '0' as nat
  }

  /** The value of a string of decimal digits, most significant first. */
  function DigitsValue(ds: string): nat
    requires forall i :: 0 <= i < |ds| ==> IsDigit(ds[i])
  {
    if ds == [] then 0 else DigitsValue(ds[..|ds| - 1]) * 10 + DigitValue(ds[|ds| - 1])
  }

  lemma WithoutUnderscoresDigits(t: string)
    requires forall i :: 0 <= i < |t| ==> IsDigit(t[i]) || t[i] == '_'
    ensures forall i :: 0 <= i < |WithoutUnderscores(t)| ==> IsDigit(WithoutUnderscores(t)[i])
  {
    if t != [] {
      WithoutUnderscoresDigits(t[1..]);
    }
  }

  function UnsignedValue(t: string): Option<nat> {
    if DigitGroups(t) then
      WithoutUnderscoresDigits(t);
      Some(DigitsValue(WithoutUnderscores(t)))
    else None
  }

  /**
    Python's `int(s)` on a field: surrounding whitespace is ignored, one
    optional sign, then decimal digits; None where `int` raises ValueError.
  */
  function ParseInt(s: string): (r: Option<int>)
    ensures TrimEnd(TrimStart(s)) == [] ==> r.None?
    ensures r.Some? ==> exists i :: 0 <= i < |s| && IsDigit(s[i])
    ensures r.Some? && r.value < 0 ==> exists i :: 0 <= i < |s| && s[i] == '-'
  {
    var t := TrimEnd(TrimStart(s));
    if t != [] && (t[0] == '-' || t[0] == '+') then
      match UnsignedValue(t[1..])
      case None => None
      case Some(v) =>
        TrimmedAt(s, 0);
        TrimmedAt(s, 1);
        assert IsDigit(t[1..][0]);
        Some(if t[0] == '-' then -(v as int) else v as int)
    else
      match UnsignedValue(t)
      case None => None
      case Some(v) =>
        TrimmedAt(s, 0);
        assert IsDigit(t[0]);
        Some(v)
  }

  /** The trimmed field is a slice of the field. */
  lemma TrimmedAt(s: string, j: nat)
    requires j < |TrimEnd(TrimStart(s))|
    ensures var k := |s| - |TrimStart(s)|;
      k + j < |s| && s[k + j] == TrimEnd(TrimStart(s))[j]
  {
  }

  lemma DigitsValueDecimal(n: nat)
    ensures DigitsValue(Decimal(n)) == n
  {
    if n >= 10 {
      DigitsValueDecimal(n / 10);
      var s := Decimal(n / 10) + [DigitChar(n % 10)];
      assert s[..|s| - 1] == Decimal(n / 10);
    }
  }

  lemma WithoutUnderscoresOfDigits(t: string)
    requires forall i :: 0 <= i < |t| ==> IsDigit(t[i])
    ensures WithoutUnderscores(t) == t
  {
    if t != [] {
      WithoutUnderscoresOfDigits(t[1..]);
    }
  }

  lemma TrimDigits(t: string)
    requires |t| > 0 && !IsSpace(t[0]) && !IsSpace(t[|t| - 1])
    ensures TrimEnd(TrimStart(t)) == t
  {
  }

  lemma UnsignedDecimal(m: nat)
    ensures UnsignedValue(Decimal(m)) == Some(m)
  {
    var d := Decimal(m);
    WithoutUnderscoresOfDigits(d);
    DigitsValueDecimal(m);
    assert DigitGroups(d);
  }

  /** `int(str(n)) == n`: a rendered integer parses back to itself. */
  lemma ParseIntToString(n: int)
    ensures ParseInt(IntToString(n)) == Some(n)
  {
    var m: nat := if n < 0 then -n else n;
    UnsignedDecimal(m);
    var s := IntToString(n);
    TrimDigits(s);
    if n < 0 {
      assert s[1..] == Decimal(m);
    } else {
      assert s == Decimal(m);
    }
  }

  /** The recorded sleep lasts one second longer than the session's timeout. */
  lemma SleepOutlastsTimeout(timeout: int)
    ensures var cmd := RecordCommand(timeout);
      cmd[|cmd| - 2] == "sleep" && ParseInt(cmd[|cmd| - 1]) == Some(timeout + 1)
  {
    var cmd := RecordCommand(timeout);
    assert cmd[15] == "sleep" && cmd[16] == IntToString(timeout + 1);
    ParseIntToString(timeout + 1);
  }

  // ---------------------------------------------------------------------
  // The dialect: lines, then fields

  const Delimiter: char := ' '

  /** Where the first line of `s` ends: the first newline, or the end. */
  function LineLength(s: string): (k: nat)
    ensures k <= |s| && (k < |s| ==> s[k] == '\n')
    ensures forall i :: 0 <= i < k ==> s[i] != '\n'
  {
    if s == [] || s[0] == '\n' then 0 else 1 + LineLength(s[1..])
  }

  /**
    The lines `io.StringIO` yields, without their newline: a final piece
    after the last newline counts only when it is not empty.
  */
  function Lines(text: string): (ls: seq<string>)
    ensures forall i, j :: 0 <= i < |ls| && 0 <= j < |ls[i]| ==> ls[i][j] != '\n'
    decreases |text|
  {
    if text == [] then []
    else
      var k := LineLength(text);
      [text[..k]] + (if k < |text| then Lines(text[k + 1..]) else [])
  }

  /**
    The reader on the rest of a line: `inField` is false at the start of a
    field, where a space is skipped (skipinitialspace); inside a field a
    space ends the field. There is no quoting. The end of the line ends the
    last field, which is empty when the line ended in a space.
  */
  function Scan(rest: string, inField: bool, field: string): (fs: seq<string>)
    ensures |fs| > 0
    decreases |rest|
  {
    if rest == [] then [field]
    else if rest[0] == Delimiter then
      if inField then [field] + Scan(rest[1..], false, "") else Scan(rest[1..], false, "")
    else Scan(rest[1..], true, field + [rest[0]])
  }

  /** The fields of one line; an empty line is the empty row. */
  function Fields(line: string): (fs: seq<string>)
    ensures fs == [] <==> line == []
    ensures forall i :: 0 <= i < |fs| ==> SpaceFree(fs[i])
  {
    if line == [] then [] else ScanSpaceFree(line, false, ""); Scan(line, false, "")
  }

  predicate SpaceFree(s: string) {
    forall i :: 0 <= i < |s| ==> s[i] != Delimiter
  }

  /** No field ever holds the delimiter. */
  lemma {:induction false} ScanSpaceFree(rest: string, inField: bool, field: string)
    requires SpaceFree(field)
    ensures forall i :: 0 <= i < |Scan(rest, inField, field)| ==> SpaceFree(Scan(rest, inField, field)[i])
    decreases |rest|
  {
    if rest != [] {
      if rest[0] == Delimiter {
        ScanSpaceFree(rest[1..], false, "");
      } else {
        ScanSpaceFree(rest[1..], true, field + [rest[0]]);
      }
    }
  }

  function Spaces(k: nat): (s: string)
    ensures |s| == k && forall i :: 0 <= i < k ==> s[i] == Delimiter
  {
    if k == 0 then [] else [Delimiter] + Spaces(k - 1)
  }

  /** Spaces at the start of a field are skipped. */
  lemma {:induction false} SkipInitialSpaces(k: nat, rest: string)
    ensures Scan(Spaces(k) + rest, false, "") == Scan(rest, false, "")
  {
    if k > 0 {
      assert (Spaces(k) + rest)[0] == Delimiter;
      assert (Spaces(k) + rest)[1..] == Spaces(k - 1) + rest;
      SkipInitialSpaces(k - 1, rest);
    } else {
      assert Spaces(k) + rest == rest;
    }
  }

  /** A run of one or more spaces after a field ends it exactly once. */
  lemma SpaceRunSeparates(field: string, k: nat, rest: string)
    requires k > 0
    ensures Scan(Spaces(k) + rest, true, field) == [field] + Scan(rest, false, "")
  {
    assert (Spaces(k) + rest)[0] == Delimiter;
    assert (Spaces(k) + rest)[1..] == Spaces(k - 1) + rest;
    SkipInitialSpaces(k - 1, rest);
  }

  /** `" ".join(fs)`. */
  function JoinSpaces(fs: seq<string>): string
    requires fs != []
  {
    if |fs| == 1 then fs[0] else fs[0] + [Delimiter] + JoinSpaces(fs[1..])
  }

  /** A non-empty space-free word is read into the current field whole. */
  lemma {:induction false} ScanWord(w: string, rest: string, inField: bool, field: string)
    requires w != [] && SpaceFree(w)
    ensures Scan(w + rest, inField, field) == Scan(rest, true, field + w)
    decreases |w|
  {
    assert (w + rest)[0] == w[0];
    assert (w + rest)[1..] == w[1..] + rest;
    if |w| == 1 {
      assert w[1..] + rest == rest;
      assert field + [w[0]] == field + w;
    } else {
      ScanWord(w[1..], rest, true, field + [w[0]]);
      assert field + [w[0]] + w[1..] == field + w;
    }
  }

  /** Round trip: fields joined by single spaces are read back as the same fields. */
  lemma {:induction false} FieldsOfJoined(fs: seq<string>)
    requires fs != [] && forall i :: 0 <= i < |fs| ==> fs[i] != [] && SpaceFree(fs[i])
    ensures Fields(JoinSpaces(fs)) == fs
  {
    if |fs| == 1 {
      assert fs[0] + [] == fs[0];
      ScanWord(fs[0], [], false, "");
      assert "" + fs[0] == fs[0];
      assert Scan([], true, fs[0]) == [fs[0]];
      assert fs == [fs[0]];
    } else {
      var rest := JoinSpaces(fs[1..]);
      assert JoinSpaces(fs) == fs[0] + ([Delimiter] + rest);
      ScanWord(fs[0], [Delimiter] + rest, false, "");
      assert "" + fs[0] == fs[0];
      assert ([Delimiter] + rest)[1..] == rest;
      FieldsOfJoined(fs[1..]);
      assert fs == [fs[0]] + fs[1..];
    }
  }

  /** The rows the csv reader produces. */
  function Table(text: string): (rows: seq<seq<string>>)
    ensures |rows| == |Lines(text)|
  {
    var ls := Lines(text);
    seq(|ls|, i requires 0 <= i < |ls| => Fields(ls[i]))
  }

  /** The rows `DictReader` maps after its header: empty rows are skipped. */
  function DataRows(rows: seq<seq<string>>): (data: seq<seq<string>>)
    ensures |data| <= |rows|
    ensures forall i :: 0 <= i < |data| ==> data[i] != []
  {
    if rows == [] then []
    else DataRows(rows[..|rows| - 1]) + (if rows[|rows| - 1] == [] then [] else [rows[|rows| - 1]])
  }

  // ---------------------------------------------------------------------
  // Rows as dicts, and the per-event sums

  /** `dict(zip(names, row))`: a later column with the same name wins. */
  function Zip(names: seq<string>, row: seq<string>): (m: map<string, Option<string>>)
    ensures forall k :: k in m ==> k in names && m[k].Some?
    ensures forall i :: 0 <= i < |names| && i < |row| ==> names[i] in m
    decreases |names|
  {
    if names == [] || row == [] then map[]
    else map[names[0] := Some(row[0])] + Zip(names[1..], row[1..])
  }

  /**
    The dict `DictReader` yields for `row` under the header `names`: a
    column beyond the end of the row maps to the rest value None. (Surplus
    fields go under the key None, which no column lookup can reach.)
  */
  function DictRow(names: seq<string>, row: seq<string>): map<string, Option<string>> {
    Zip(names, row) + RestValues(if |row| < |names| then names[|row|..] else [])
  }

  /** The rest value None for each column the row does not reach. */
  function RestValues(missing: seq<string>): (m: map<string, Option<string>>)
    ensures forall k :: k in m <==> k in missing
    ensures forall k :: k in m ==> m[k] == None
  {
    map k | k in missing :: None
  }

  predicate Distinct(names: seq<string>) {
    forall i, j :: 0 <= i < j < |names| ==> names[i] != names[j]
  }

  /** The keys of the zipped dict are the column names the row reaches. */
  lemma {:induction false} ZipKeys(names: seq<string>, row: seq<string>)
    ensures forall k :: k in Zip(names, row) <==> k in names[..if |row| < |names| then |row| else |names|]
    decreases |names|
  {
    if names != [] && row != [] {
      ZipKeys(names[1..], row[1..]);
      var n := if |row| < |names| then |row| else |names|;
      assert names[..n] == [names[0]] + names[1..][..n - 1];
    }
  }

  /** With distinct names, each name the row reaches maps to its own field. */
  lemma {:induction false} ZipValues(names: seq<string>, row: seq<string>)
    requires Distinct(names)
    ensures forall i :: 0 <= i < |names| && i < |row| ==> Zip(names, row)[names[i]] == Some(row[i])
    decreases |names|
  {
    if names != [] && row != [] {
      ZipValues(names[1..], row[1..]);
      forall i | 0 <= i < |names| && i < |row|
        ensures Zip(names, row)[names[i]] == Some(row[i])
      {
        if i > 0 {
          assert names[1..][i - 1] == names[i];
        }
      }
    }
  }

  /** With a header of distinct names, each column name maps to its field, or None beyond the row's end. */
  lemma DictRowColumns(names: seq<string>, row: seq<string>)
    requires Distinct(names)
    ensures forall k :: k in DictRow(names, row) <==> k in names
    ensures forall i :: 0 <= i < |names| ==>
      DictRow(names, row)[names[i]] == if i < |row| then Some(row[i]) else None
  {
    ZipKeys(names, row);
    ZipValues(names, row);
    forall i | 0 <= i < |names|
      ensures names[i] in DictRow(names, row)
      ensures DictRow(names, row)[names[i]] == if i < |row| then Some(row[i]) else None
    {
      DictRowColumn(names, row, i);
    }
  }

  lemma DictRowColumn(names: seq<string>, row: seq<string>, i: nat)
    requires Distinct(names) && i < |names|
    requires forall i :: 0 <= i < |names| && i < |row| ==> names[i] in Zip(names, row) && Zip(names, row)[names[i]] == Some(row[i])
    ensures names[i] in DictRow(names, row)
    ensures DictRow(names, row)[names[i]] == if i < |row| then Some(row[i]) else None
  {
    if i >= |row| {
      assert names[|row|..][i - |row|] == names[i];
    } else if |row| < |names| {
      assert names[i] !in names[|row|..];
    }
  }

  /** Why `parse` raised. */
  datatype PerfError =
    | KeyError(key: string)       // the header has no such column
    | TypeError                   // `int(None)`: the row is shorter than the header
    | ValueError(literal: string) // `int(s)` on a field that is not an integer

  /** One row's contribution: its `EVENT` (None beyond the row's end) and `int(VAL)`. */
  datatype Sample = Sample(event: Option<string>, value: int)

  /** `perf[row['EVENT']] += int(row['VAL'])` for one row, or the exception it raises. */
  function SampleOf(names: seq<string>, row: seq<string>): (r: Result<Sample, PerfError>)
    ensures r.Success? ==> "EVENT" in names && "VAL" in names
    ensures r.Failure? && r.error.KeyError? ==> r.error.key !in names
    ensures r == Failure(TypeError) ==> |row| < |names|
  {
    var d := DictRow(names, row);
    if "EVENT" !in d then Failure(KeyError("EVENT"))
    else if "VAL" !in d then Failure(KeyError("VAL"))
    else
      match d["VAL"]
      case None => Failure(TypeError)
      case Some(v) =>
        match ParseInt(v)
        case None => Failure(ValueError(v))
        case Some(n) => Success(Sample(d["EVENT"], n))
  }

  /** With a header that names EVENT and VAL once each, a row contributes its own two fields. */
  lemma SampleOfColumns(names: seq<string>, row: seq<string>, e: nat, v: nat)
    requires Distinct(names) && e < |names| && v < |names| && names[e] == "EVENT" && names[v] == "VAL"
    requires e < |row| && v < |row|
    ensures ParseInt(row[v]).Some? ==> SampleOf(names, row) == Success(Sample(Some(row[e]), ParseInt(row[v]).value))
    ensures ParseInt(row[v]).None? ==> SampleOf(names, row) == Failure(ValueError(row[v]))
  {
    DictRowColumns(names, row);
  }

  /** `SampleOf` under a fixed header, as a function value. */
  function SampleFn(names: seq<string>): seq<string> -> Result<Sample, PerfError> {
    row => SampleOf(names, row)
  }

  /** The results of `f` on `xs` in order, or the first failure. */
  function Collect<A, B, E>(f: A -> Result<B, E>, xs: seq<A>): (r: Result<seq<B>, E>)
    ensures r.Success? <==> forall i :: 0 <= i < |xs| ==> f(xs[i]).Success?
    ensures r.Success? ==> (|r.value| == |xs| &&
      forall i :: 0 <= i < |xs| ==> r.value[i] == f(xs[i]).value)
  {
    if xs == [] then Success([])
    else
      var prev := Collect(f, xs[..|xs| - 1]);
      if prev.Failure? then prev
      else
        match f(xs[|xs| - 1])
        case Failure(e) => Failure(e)
        case Success(y) => Success(prev.value + [y])
  }

  /** The failure of the first failing element is the one that escapes. */
  lemma {:induction false} CollectFailure<A, B, E>(f: A -> Result<B, E>, xs: seq<A>, i: nat)
    requires i < |xs| && f(xs[i]).Failure?
    requires forall j :: 0 <= j < i ==> f(xs[j]).Success?
    ensures Collect(f, xs) == Failure(f(xs[i]).error)
    decreases |xs|
  {
    var init := xs[..|xs| - 1];
    if i == |xs| - 1 {
      assert forall j :: 0 <= j < |init| ==> init[j] == xs[j];
    } else {
      assert init[i] == xs[i];
      assert forall j :: 0 <= j < i ==> init[j] == xs[j];
      CollectFailure(f, init, i);
    }
  }

  /** A row that fails after successful rows makes the whole pass fail with its exception. */
  lemma CollectFailureAfter<A, B, E>(f: A -> Result<B, E>, xs: seq<A>, i: nat)
    requires i < |xs| && Collect(f, xs[..i]).Success? && f(xs[i]).Failure?
    ensures Collect(f, xs) == Failure(f(xs[i]).error)
  {
    forall j | 0 <= j < i
      ensures f(xs[j]).Success?
    {
      assert xs[..i][j] == xs[j];
    }
    CollectFailure(f, xs, i);
  }

  lemma CollectSnoc<A, B, E>(f: A -> Result<B, E>, xs: seq<A>, x: A)
    requires Collect(f, xs).Success? && f(x).Success?
    ensures Collect(f, xs + [x]) == Success(Collect(f, xs).value + [f(x).value])
  {
    assert (xs + [x])[..|xs|] == xs;
  }

  /** Everything `parse` reads from the script output `text`. */
  function Samples(text: string): (r: Result<seq<Sample>, PerfError>)
    ensures r.Failure? ==> |Lines(text)| > 1
    ensures r.Success? && r.value != [] ==> |r.value| < |Lines(text)|
  {
    var rows := Table(text);
    if rows == [] then Success([]) else Collect(SampleFn(rows[0]), DataRows(rows[1..]))
  }

  /** The sum of the values recorded for `event`. */
  function Total(ss: seq<Sample>, event: Option<string>): int {
    if ss == [] then 0
    else Total(ss[..|ss| - 1], event) + (if ss[|ss| - 1].event == event then ss[|ss| - 1].value else 0)
  }

  function EventsOf(ss: seq<Sample>): set<Option<string>> {
    set i | 0 <= i < |ss| :: ss[i].event
  }

  /** The totals `parse` returns: `perf[e]` for every event that occurs. */
  type PerfMap = map<Option<string>, int>

  /** `m` holds exactly the events of `ss`, each with the sum of its values. */
  predicate SumsOf(m: PerfMap, ss: seq<Sample>) {
    m.Keys == EventsOf(ss) && forall e :: e in m ==> m[e] == Total(ss, e)
  }

  /** `m` is what `parse` makes of the script output `text`. */
  predicate Summarises(m: PerfMap, text: string) {
    Samples(text).Success? && SumsOf(m, Samples(text).value)
  }

  /**
    `PerfEvents.parse` after `perf script`: each data row adds `int(VAL)` to
    the entry of its `EVENT`. The result holds exactly the events that occur,
    each with the sum of its values; any row's exception escapes.
  */
  method Parse(text: string) returns (r: Result<PerfMap, PerfError>)
    ensures r.Success? <==> Samples(text).Success?
    ensures r.Failure? ==> r.error == Samples(text).error
    ensures r.Success? ==> Summarises(r.value, text)
  {
    var rows := Table(text);
    if rows == [] {
      return Success(map[]);
    }
    r := Accumulate(SampleFn(rows[0]), DataRows(rows[1..]));
  }

  /** The loop of `parse`: `sampleOf` reads one data row, and the totals grow row by row. */
  method Accumulate(sampleOf: seq<string> -> Result<Sample, PerfError>, data: seq<seq<string>>)
    returns (r: Result<PerfMap, PerfError>)
    ensures r.Success? <==> Collect(sampleOf, data).Success?
    ensures r.Failure? ==> r.error == Collect(sampleOf, data).error
    ensures r.Success? ==> SumsOf(r.value, Collect(sampleOf, data).value)
  {
    var perf: PerfMap := map[];
    ghost var done: seq<Sample> := [];
    var i := 0;
    while i < |data|
      invariant 0 <= i <= |data|
      invariant Collect(sampleOf, data[..i]) == Success(done)
      invariant SumsOf(perf, done)
    {
      var sample := sampleOf(data[i]);
      if sample.Failure? {
        CollectFailureAfter(sampleOf, data, i);
        return Failure(sample.error);
      }
      var event := sample.value.event;
      SumsSnoc(perf, done, sample.value);
      perf := perf[event := (if event in perf then perf[event] else 0) + sample.value.value];
      assert data[..i + 1] == data[..i] + [data[i]];
      CollectSnoc(sampleOf, data[..i], data[i]);
      done := done + [sample.value];
      i := i + 1;
    }
    assert data[..i] == data;
    r := Success(perf);
  }

  /** One more sample adds its value to its event's total, creating the entry when the event is new. */
  lemma SumsSnoc(m: PerfMap, ss: seq<Sample>, s: Sample)
    requires SumsOf(m, ss)
    ensures SumsOf(m[s.event := (if s.event in m then m[s.event] else 0) + s.value], ss + [s])
  {
    if s.event !in m {
      TotalAbsent(ss, s.event);
    }
    EventsSnoc(ss, s);
    TotalSnoc(ss, s);
  }

  lemma EventsSnoc(ss: seq<Sample>, s: Sample)
    ensures EventsOf(ss + [s]) == EventsOf(ss) + {s.event}
  {
    var all := ss + [s];
    forall e | e in EventsOf(ss)
      ensures e in EventsOf(all)
    {
      var i :| 0 <= i < |ss| && ss[i].event == e;
      assert all[i] == ss[i];
    }
    assert all[|ss|] == s;
  }

  /** An event that never occurs totals zero. */
  lemma {:induction false} TotalAbsent(ss: seq<Sample>, e: Option<string>)
    requires e !in EventsOf(ss)
    ensures Total(ss, e) == 0
  {
    if ss != [] {
      var init := ss[..|ss| - 1];
      assert ss == init + [ss[|ss| - 1]];
      EventsSnoc(init, ss[|ss| - 1]);
      TotalAbsent(init, e);
    }
  }

  lemma TotalSnoc(ss: seq<Sample>, s: Sample)
    ensures forall e :: Total(ss + [s], e) == Total(ss, e) + (if s.event == e then s.value else 0)
  {
    assert (ss + [s])[..|ss|] == ss;
  }

  /** An input without data rows (empty, or a header alone) yields no samples, so an empty mapping. */
  lemma NoDataRows(text: string)
    requires |Lines(text)| <= 1
    ensures Samples(text) == Success([])
  {
    var rows := Table(text);
    if rows != [] {
      assert rows[1..] == [];
    }
  }

  lemma {:induction false} TotalAppend(a: seq<Sample>, b: seq<Sample>, e: Option<string>)
    ensures Total(a + b, e) == Total(a, e) + Total(b, e)
    decreases |b|
  {
    if b == [] {
      assert a + b == a;
    } else {
      var b' := b[..|b| - 1];
      assert (a + b)[..|a + b| - 1] == a + b';
      TotalAppend(a, b', e);
    }
  }

  function Contribution(s: Sample, event: Option<string>): int {
    if s.event == event then s.value else 0
  }

  /** Taking out the element at `j` takes out its contribution. */
  lemma TotalRemove(b: seq<Sample>, j: nat, e: Option<string>)
    requires j < |b|
    ensures Total(b, e) == Total(b[..j] + b[j + 1..], e) + Contribution(b[j], e)
  {
    assert b == b[..j] + ([b[j]] + b[j + 1..]);
    TotalAppend(b[..j], [b[j]] + b[j + 1..], e);
    TotalAppend([b[j]], b[j + 1..], e);
    TotalAppend(b[..j], b[j + 1..], e);
    assert [b[j]][..0] == [];
  }

  lemma MultisetRemove<T>(b: seq<T>, j: nat)
    requires j < |b|
    ensures multiset(b) == multiset(b[..j] + b[j + 1..]) + multiset{b[j]}
  {
    assert b == b[..j] + [b[j]] + b[j + 1..];
  }

  lemma MultisetCancel<T>(a: multiset<T>, b: multiset<T>, x: T)
    requires a + multiset{x} == b + multiset{x}
    ensures a == b
  {
    forall y
      ensures a[y] == b[y]
    {
      assert (a + multiset{x})[y] == (b + multiset{x})[y];
    }
  }

  /** Reordering the rows changes no event's total. */
  lemma {:induction false} TotalsIgnoreOrder(a: seq<Sample>, b: seq<Sample>, e: Option<string>)
    requires multiset(a) == multiset(b)
    ensures Total(a, e) == Total(b, e)
    decreases |a|
  {
    if a == [] {
      assert |b| == |multiset(b)| == 0;
    } else {
      var x := a[|a| - 1];
      var a' := a[..|a| - 1];
      assert a == a' + [x];
      assert x in multiset(b);
      var j :| 0 <= j < |b| && b[j] == x;
      var b' := b[..j] + b[j + 1..];
      MultisetRemove(b, j);
      MultisetCancel(multiset(a'), multiset(b'), x);
      TotalsIgnoreOrder(a', b', e);
      TotalRemove(b, j, e);
      TotalSnoc(a', x);
    }
  }

  lemma EventsOfMultiset(a: seq<Sample>, b: seq<Sample>)
    requires multiset(a) == multiset(b)
    ensures EventsOf(a) == EventsOf(b)
  {
    forall e | e in EventsOf(a)
      ensures e in EventsOf(b)
    {
      var i :| 0 <= i < |a| && a[i].event == e;
      assert a[i] in multiset(b);
    }
    forall e | e in EventsOf(b)
      ensures e in EventsOf(a)
    {
      var i :| 0 <= i < |b| && b[i].event == e;
      assert b[i] in multiset(a);
    }
  }

  /** Reordering samples keeps the same sums. */
  lemma SumsIgnoreOrder(m: PerfMap, a: seq<Sample>, b: seq<Sample>)
    requires multiset(a) == multiset(b) && SumsOf(m, a)
    ensures SumsOf(m, b)
  {
    EventsOfMultiset(a, b);
    forall e | e in m
      ensures m[e] == Total(b, e)
    {
      TotalsIgnoreOrder(a, b, e);
    }
  }

  lemma {:induction false} CollectAppend<A, B, E>(f: A -> Result<B, E>, xs: seq<A>, ys: seq<A>)
    requires Collect(f, xs + ys).Success?
    ensures Collect(f, xs).Success? && Collect(f, ys).Success?
    ensures Collect(f, xs + ys).value == Collect(f, xs).value + Collect(f, ys).value
  {
    var all := xs + ys;
    assert forall i :: 0 <= i < |xs| ==> all[i] == xs[i];
    assert forall i :: 0 <= i < |ys| ==> all[|xs| + i] == ys[i];
  }

  lemma CollectSucceedsReordered<A, B, E>(f: A -> Result<B, E>, xs: seq<A>, ys: seq<A>)
    requires multiset(xs) == multiset(ys) && Collect(f, xs).Success?
    ensures Collect(f, ys).Success?
  {
    forall j | 0 <= j < |ys|
      ensures f(ys[j]).Success?
    {
      assert ys[j] in multiset(xs);
    }
  }

  lemma CollectOne<A, B, E>(f: A -> Result<B, E>, x: A)
    requires f(x).Success?
    ensures Collect(f, [x]) == Success([f(x).value])
  {
    var xs := [x];
    assert xs[..|xs| - 1] == [];
    assert xs[|xs| - 1] == x;
    assert Collect(f, xs[..|xs| - 1]) == Success([]);
    var none: seq<B> := [];
    assert none + [f(x).value] == [f(x).value];
  }

  lemma SpliceAt<T>(ys: seq<T>, j: nat)
    requires j < |ys|
    ensures ys == ys[..j] + ([ys[j]] + ys[j + 1..])
  {
  }

  lemma MultisetSplice<T>(a: seq<T>, b1: seq<T>, b2: seq<T>, v: T)
    requires multiset(a) == multiset(b1 + b2)
    ensures multiset(a + [v]) == multiset(b1 + ([v] + b2))
  {
  }

  /** Reordering the elements neither changes whether all succeed nor, if they do, the multiset of results. */
  lemma {:induction false} CollectReordered<A, B, E>(f: A -> Result<B, E>, xs: seq<A>, ys: seq<A>)
    requires multiset(xs) == multiset(ys) && Collect(f, xs).Success?
    ensures Collect(f, ys).Success?
    ensures multiset(Collect(f, xs).value) == multiset(Collect(f, ys).value)
    decreases |xs|
  {
    CollectSucceedsReordered(f, xs, ys);
    if xs == [] {
      assert |ys| == |multiset(ys)| == 0;
    } else {
      var x := xs[|xs| - 1];
      var xs' := xs[..|xs| - 1];
      assert xs == xs' + [x];
      assert x in multiset(ys);
      var j :| 0 <= j < |ys| && ys[j] == x;
      var ys' := ys[..j] + ys[j + 1..];
      MultisetRemove(ys, j);
      MultisetCancel(multiset(xs'), multiset(ys'), x);
      var front, back := ys[..j], ys[j + 1..];
      CollectAppend(f, xs', [x]);
      CollectOne(f, x);
      CollectReordered(f, xs', ys');
      CollectSucceedsReordered(f, xs, ys);
      SpliceAt(ys, j);
      CollectAppend(f, front, [x] + back);
      CollectAppend(f, [x], back);
      CollectAppend(f, front, back);
      ghost var vx', vfront, vback, v := Collect(f, xs').value, Collect(f, front).value, Collect(f, back).value, f(x).value;
      assert Collect(f, xs).value == vx' + [v];
      assert Collect(f, ys').value == vfront + vback;
      assert Collect(f, ys).value == vfront + ([v] + vback);
      MultisetSplice(vx', vfront, vback, v);
    }
  }

  /** The sums do not depend on the order of the data rows. */
  lemma RowOrderIrrelevant(names: seq<string>, rows1: seq<seq<string>>, rows2: seq<seq<string>>, m: PerfMap)
    requires multiset(rows1) == multiset(rows2)
    requires Collect(SampleFn(names), rows1).Success? && SumsOf(m, Collect(SampleFn(names), rows1).value)
    ensures Collect(SampleFn(names), rows2).Success? && SumsOf(m, Collect(SampleFn(names), rows2).value)
  {
    CollectReordered(SampleFn(names), rows1, rows2);
    SumsIgnoreOrder(m, Collect(SampleFn(names), rows1).value, Collect(SampleFn(names), rows2).value);
  }
}
