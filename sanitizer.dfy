/**
  The result sanitiser of the experiment wrapper, `get_extended_har`: it
  turns what a session container wrote to stdout and stderr into the pair
  `(json_har, har_error)` stored in the database. The response bodies
  (`response.content.text`) of all HAR entries are deleted, and escaped NUL
  characters are cut out of the re-serialised document, because PostgreSQL
  rejects them.

  `json.loads` and `json.dumps` are parameters; UTF-8 decoding is reduced to
  whether the bytes decode (`Some`) or not (`None`).
*/
module Sanitizer {
  import opened Wrappers
  import opened Json
  import PerfEvents

  /** The container's output streams after `.decode('utf-8')`; `None` when the bytes are not UTF-8. */
  datatype ContainerOutput = ContainerOutput(stdout: Option<string>, stderr: Option<string>)

  /** The pair returned to `run_configuration`; `JNull` stands for Python's `None` in the first place. */
  datatype Extended = Extended(har: Json, error: Option<string>)

  // ----- response bodies -----

  /** `entry['response']['content']`, when both lookups succeed. */
  function Content(entry: Json): Option<Json> {
    match Subscript(entry, "response")
    case Failure(_) => None
    case Success(response) =>
      match Subscript(response, "content")
      case Failure(_) => None
      case Success(content) => Some(content)
  }

  /** Whether the entry still carries a response body. */
  predicate HasText(entry: Json) {
    var c := Content(entry);
    c.Some? && c.value.JObj? && "text" in c.value.fields
  }

  /** One iteration of the entry loop: delete `text` from the response content if it is there. */
  function StripEntry(entry: Json): (r: Result<Json, PyException>)
    ensures Content(entry).None? ==> r.Failure?
    ensures r.Success? ==> !HasText(r.value)
  {
    match Subscript(entry, "response")
    case Failure(e) => Failure(e)
    case Success(response) =>
      match Subscript(response, "content")
      case Failure(e) => Failure(e)
      case Success(content) =>
        match Contains(content, "text")
        case Failure(e) => Failure(e)
        case Success(has) =>
          if !has then Success(entry)
          else
            match DelItem(content, "text")
            case Failure(e) => Failure(e)
            case Success(content') =>
              Success(JObj(entry.fields["response" := JObj(response.fields["content" := content'])]))
  }

  /**
    A cleaned entry has no body left; an entry without one is kept as it is,
    and from an entry with one only the `text` key of the response content
    goes: every other key at every level stays.
  */
  lemma StripEntryMeaning(entry: Json)
    requires StripEntry(entry).Success?
    ensures !HasText(StripEntry(entry).value)
    ensures !HasText(entry) ==> StripEntry(entry).value == entry
    ensures HasText(entry) ==>
      var r := StripEntry(entry).value;
      var response := entry.fields["response"];
      && r.JObj? && r.fields.Keys == entry.fields.Keys
      && r.fields - {"response"} == entry.fields - {"response"}
      && r.fields["response"].JObj?
      && r.fields["response"].fields - {"content"} == response.fields - {"content"}
      && Content(r) == Some(JObj(Content(entry).value.fields - {"text"}))
  {
  }

  /** Cleaning an entry twice is cleaning it once. */
  lemma StripEntryIdempotent(entry: Json)
    requires StripEntry(entry).Success?
    ensures StripEntry(StripEntry(entry).value) == StripEntry(entry)
  {
    StripEntryMeaning(entry);
    var r := StripEntry(entry).value;
    if HasText(entry) {
      assert Content(r).Some? && Content(r).value.JObj?;
      assert Contains(Content(r).value, "text") == Success(false);
    } else {
      assert r == entry;
    }
  }

  /**
    The loop `for entry in json_har['har']['entries']` over the whole
    container. Iterating a dict or a string yields strings, and the first
    `entry['response']` on a string raises; when empty, nothing happens.
  */
  function CleanEntries(entries: Json): Result<Json, PyException> {
    match entries
    case JArr(items) =>
      (match PerfEvents.Collect(StripEntry, items)
       case Failure(e) => Failure(e)
       case Success(items') => Success(JArr(items')))
    case JObj(fields) =>
      if fields == map[] then Success(entries) else Failure(TypeError("string indices must be integers"))
    case JStr(s) =>
      if s == "" then Success(entries) else Failure(TypeError("string indices must be integers"))
    case _ => Failure(TypeError("'" + TypeName(entries) + "' object is not iterable"))
  }

  /** `json_har['har']['entries']`, when both lookups succeed. */
  function Entries(doc: Json): Option<Json> {
    match Subscript(doc, "har")
    case Failure(_) => None
    case Success(har) =>
      match Subscript(har, "entries")
      case Failure(_) => None
      case Success(entries) => Some(entries)
  }

  /** The document after the entry loop: the same document with the entries cleaned. */
  function Cleaned(doc: Json): (r: Result<Json, PyException>)
    ensures Entries(doc).None? ==> r.Failure?
    ensures r.Success? ==> r.value.JObj? && r.value.fields.Keys == doc.fields.Keys
  {
    match Subscript(doc, "har")
    case Failure(e) => Failure(e)
    case Success(har) =>
      match Subscript(har, "entries")
      case Failure(e) => Failure(e)
      case Success(entries) =>
        match CleanEntries(entries)
        case Failure(e) => Failure(e)
        case Success(entries') => Success(JObj(doc.fields["har" := JObj(har.fields["entries" := entries'])]))
  }

  /** Whether no entry in a list of entries still carries a body. */
  predicate NoBodies(entries: Json) {
    entries.JArr? ==> forall i :: 0 <= i < |entries.items| ==> !HasText(entries.items[i])
  }

  /**
    After a successful loop no entry has a body left, each entry is its
    cleaned self, and nothing outside `har.entries` changed.
  */
  lemma CleanedMeaning(doc: Json)
    requires Cleaned(doc).Success?
    ensures Entries(doc).Some? && Entries(Cleaned(doc).value).Some?
    ensures var before := Entries(doc).value;
      var after := Entries(Cleaned(doc).value).value;
      && NoBodies(after)
      && (before.JArr? <==> after.JArr?)
      && (before.JArr? ==> (|after.items| == |before.items| &&
            forall i :: 0 <= i < |before.items| ==> Success(after.items[i]) == StripEntry(before.items[i])))
      && (!before.JArr? ==> after == before)
    ensures var r := Cleaned(doc).value;
      && r.JObj? && r.fields - {"har"} == doc.fields - {"har"}
      && r.fields["har"].JObj? && r.fields["har"].fields - {"entries"} == doc.fields["har"].fields - {"entries"}
  {
    var before := Entries(doc).value;
    var after := Entries(Cleaned(doc).value).value;
    if before.JArr? {
      forall i | 0 <= i < |after.items|
        ensures !HasText(after.items[i])
      {
        StripEntryMeaning(before.items[i]);
      }
    }
  }

  /** Running the entry loop on its own result changes nothing more. */
  lemma CleanedIdempotent(doc: Json)
    requires Cleaned(doc).Success?
    ensures Cleaned(Cleaned(doc).value) == Cleaned(doc)
  {
    CleanedMeaning(doc);
    var r := Cleaned(doc).value;
    var har := r.fields["har"];
    var after := har.fields["entries"];
    if after.JArr? {
      var items := after.items;
      forall i | 0 <= i < |items|
        ensures StripEntry(items[i]) == Success(items[i])
      {
        StripEntryMeaning(items[i]);
      }
      assert PerfEvents.Collect(StripEntry, items).value == items;
      assert har.fields["entries" := after] == har.fields;
      assert r.fields["har" := har] == r.fields;
    } else {
      assert har.fields["entries" := after] == har.fields;
      assert r.fields["har" := har] == r.fields;
    }
  }

  /** The entry loop, deleting bodies one entry after the other. */
  method StripBodies(entries: seq<Json>) returns (r: Result<seq<Json>, PyException>)
    ensures r == PerfEvents.Collect(StripEntry, entries)
  {
    var done: seq<Json> := [];
    var i := 0;
    while i < |entries|
      invariant 0 <= i <= |entries|
      invariant PerfEvents.Collect(StripEntry, entries[..i]) == Success(done)
    {
      match StripEntry(entries[i])
      case Failure(e) =>
        PerfEvents.CollectFailureAfter(StripEntry, entries, i);
        return Failure(e);
      case Success(entry) =>
        PerfEvents.CollectSnoc(StripEntry, entries[..i], entries[i]);
        assert entries[..i + 1] == entries[..i] + [entries[i]];
        done := done + [entry];
        i := i + 1;
    }
    assert entries[..i] == entries;
    r := Success(done);
  }

  // ----- escaped NUL characters -----

  /** An escaped NUL in JSON text: a backslash and `u0000`. */
  const NullEscape: string := "\\u0000"

  const NullTail: string := "u0000"

  /** The number of backslashes `s` starts with. */
  function RunLength(s: string): (k: nat)
    ensures k <= |s| && (k < |s| ==> s[k] != '\\')
    ensures forall i :: 0 <= i < k ==> s[i] == '\\'
  {
    if s == [] || s[0] != '\\' then 0 else 1 + RunLength(s[1..])
  }

  /**
    `re.sub(r"(\\)+u0000", "", s)`: scanning from the left, every maximal
    run of backslashes followed by `u0000` is deleted with the `u0000`;
    every other character is kept.
  */
  function Strip(s: string): (t: string)
    ensures |t| <= |s|
    decreases |s|
  {
    if s == [] then []
    else if s[0] != '\\' then [s[0]] + Strip(s[1..])
    else
      var k := RunLength(s);
      if k + 5 <= |s| && s[k..k + 5] == NullTail then Strip(s[k + 5..])
      else s[..k] + Strip(s[k..])
  }

  /** An occurrence in a suffix is an occurrence in the whole text, shifted by the suffix's offset. */
  lemma OccursAtShift(p: string, s: string, d: nat, i: int)
    requires d <= |s|
    ensures OccursAt(p, s[d..], i) <==> i >= 0 && OccursAt(p, s, i + d)
  {
    if 0 <= i && i + |p| <= |s| - d {
      assert s[d..][i..i + |p|] == s[i + d..i + d + |p|];
    }
  }

  /**
    Stripping changes the text exactly when it holds an escaped NUL. The
    `"\\u0000" in har_reassembled` test before it still matters: without it
    the text would always be parsed again, giving `loads(dumps(cleaned))`
    rather than `cleaned`, and the two agree only where `loads` undoes
    `dumps`, which the model leaves abstract.
  */
  lemma {:induction false} StripChanges(s: string)
    ensures Strip(s) == s <==> !Occurs(NullEscape, s)
    ensures Occurs(NullEscape, s) ==> |Strip(s)| < |s|
    decreases |s|
  {
    if s == [] {
      assert !Occurs(NullEscape, s);
    } else if s[0] != '\\' {
      StripChanges(s[1..]);
      FirstKept(s);
    } else {
      var k := RunLength(s);
      if k + 5 <= |s| && s[k..k + 5] == NullTail {
        EscapeAfterRun(s, k);
      } else {
        StripChanges(s[k..]);
        RunKept(s, k);
      }
    }
  }

  /**
    `re.sub` makes a single pass, so stripping can itself bring an escaped
    NUL together out of pieces that were apart: the text after stripping
    need not be free of them.
  */
  lemma StripCanLeaveEscape()
    ensures var s := "\\u00" + NullEscape + "00";
      Occurs(NullEscape, s) && Strip(s) == NullEscape && Occurs(NullEscape, Strip(s))
  {
    var s := "\\u00" + NullEscape + "00";
    StripWitness(s);
    assert OccursAt(NullEscape, s, 4);
    assert OccursAt(NullEscape, NullEscape, 0);
  }

  /** Stripping the witness, one step of `Strip` at a time. */
  lemma StripWitness(s: string)
    requires s == "\\u00" + NullEscape + "00"
    ensures Strip(s) == NullEscape
  {
    var rest := NullEscape + "00";
    assert Strip(s) == ['\\'] + Strip("u00" + rest) by {
      assert s == ['\\'] + ("u00" + rest);
      StripKeepsLoneBackslash("u00" + rest);
    }
    assert Strip("u00" + rest) == "u00" + "00" by {
      StripPlain("u00", rest);
      StripEscapeThenZeros();
    }
    assert ['\\'] + ("u00" + "00") == NullEscape;
  }

  /** After the escaped NUL is deleted, the two zeros are kept. */
  lemma StripEscapeThenZeros()
    ensures Strip(NullEscape + "00") == "00"
  {
    StripEscape("00");
    StripPlain("00", []);
    assert "00" + [] == "00";
  }

  /** A single backslash followed by `u00` and a backslash is no escaped NUL, so it is kept. */
  lemma StripKeepsLoneBackslash(t: string)
    requires |t| >= 4 && t[0] == 'u' && t[3] == '\\'
    ensures Strip(['\\'] + t) == ['\\'] + Strip(t)
  {
    var s := ['\\'] + t;
    assert s[1..] == t;
    assert RunLength(t) == 0;
    assert RunLength(s) == 1;
    assert |s| >= 6 ==> s[1..6][3] != NullTail[3];
    assert s[..1] == ['\\'];
  }

  /** Text without backslashes passes through stripping unchanged. */
  lemma {:induction false} StripPlain(p: string, rest: string)
    requires forall i :: 0 <= i < |p| ==> p[i] != '\\'
    ensures Strip(p + rest) == p + Strip(rest)
  {
    if p == [] {
      assert p + rest == rest;
    } else {
      assert (p + rest)[1..] == p[1..] + rest;
      StripPlain(p[1..], rest);
      assert [p[0]] + p[1..] == p;
    }
  }

  /** An escaped NUL with a single backslash is deleted. */
  lemma StripEscape(rest: string)
    ensures Strip(NullEscape + rest) == Strip(rest)
  {
    var s := NullEscape + rest;
    assert s[1..] == NullTail + rest;
    assert RunLength(s[1..]) == 0;
    assert s[1..6] == NullTail && s[6..] == rest;
  }

  /** A text that starts with a run of backslashes followed by `u0000` holds an escaped NUL, and stripping shortens it. */
  lemma EscapeAfterRun(s: string, k: nat)
    requires s != [] && s[0] == '\\' && k == RunLength(s)
    requires k + 5 <= |s| && s[k..k + 5] == NullTail
    ensures Occurs(NullEscape, s) && |Strip(s)| < |s|
  {
    assert s[k - 1..k + 5] == NullEscape;
    assert OccursAt(NullEscape, s, k - 1);
  }

  /** A first character that is not a backslash is kept and starts no escaped NUL. */
  lemma FirstKept(s: string)
    requires s != [] && s[0] != '\\'
    requires Strip(s[1..]) == s[1..] <==> !Occurs(NullEscape, s[1..])
    requires Occurs(NullEscape, s[1..]) ==> |Strip(s[1..])| < |s[1..]|
    ensures Strip(s) == s <==> !Occurs(NullEscape, s)
    ensures Occurs(NullEscape, s) ==> |Strip(s)| < |s|
  {
    assert Strip(s) == s[..1] + Strip(s[1..]);
    assert NullEscape[0] == '\\';
    KeptPrefix(s, 1);
  }

  /** A run of backslashes not followed by `u0000` is kept and starts no escaped NUL. */
  lemma RunKept(s: string, k: nat)
    requires s != [] && s[0] == '\\' && k == RunLength(s)
    requires !(k + 5 <= |s| && s[k..k + 5] == NullTail)
    requires Strip(s[k..]) == s[k..] <==> !Occurs(NullEscape, s[k..])
    requires Occurs(NullEscape, s[k..]) ==> |Strip(s[k..])| < |s[k..]|
    ensures Strip(s) == s <==> !Occurs(NullEscape, s)
    ensures Occurs(NullEscape, s) ==> |Strip(s)| < |s|
  {
    forall i | 0 <= i < k
      ensures !OccursAt(NullEscape, s, i)
    {
      NotEscapeInRun(s, k, i);
    }
    KeptPrefix(s, k);
  }

  /**
    The inductive step of `StripChanges`: the first `k` characters are kept
    and start no escaped NUL, and the rest already satisfies the property.
  */
  lemma KeptPrefix(s: string, k: nat)
    requires 0 < k <= |s|
    requires Strip(s) == s[..k] + Strip(s[k..])
    requires forall i :: 0 <= i < k ==> !OccursAt(NullEscape, s, i)
    requires Strip(s[k..]) == s[k..] <==> !Occurs(NullEscape, s[k..])
    requires Occurs(NullEscape, s[k..]) ==> |Strip(s[k..])| < |s[k..]|
    ensures Strip(s) == s <==> !Occurs(NullEscape, s)
    ensures Occurs(NullEscape, s) ==> |Strip(s)| < |s|
  {
    if Occurs(NullEscape, s) {
      var i :| 0 <= i <= |s| && OccursAt(NullEscape, s, i);
      OccursAtShift(NullEscape, s, k, i - k);
      assert Occurs(NullEscape, s[k..]) by {
        assert 0 <= i - k <= |s[k..]| && OccursAt(NullEscape, s[k..], i - k);
      }
      assert |Strip(s)| == k + |Strip(s[k..])|;
    } else {
      KeptPrefixClean(s, k);
    }
  }

  /** Without an escaped NUL in the text, the kept prefix and the unchanged rest give back the text. */
  lemma KeptPrefixClean(s: string, k: nat)
    requires 0 < k <= |s|
    requires Strip(s) == s[..k] + Strip(s[k..])
    requires !Occurs(NullEscape, s[k..]) ==> Strip(s[k..]) == s[k..]
    requires !Occurs(NullEscape, s)
    ensures Strip(s) == s
  {
    forall j | 0 <= j <= |s[k..]|
      ensures !OccursAt(NullEscape, s[k..], j)
    {
      OccursAtShift(NullEscape, s, k, j);
    }
    assert s[..k] + s[k..] == s;
  }

  /** No escaped NUL starts inside a run of backslashes that is not followed by `u0000`. */
  lemma NotEscapeInRun(s: string, k: nat, i: nat)
    requires k == RunLength(s) && i < k
    requires !(k + 5 <= |s| && s[k..k + 5] == NullTail)
    ensures !OccursAt(NullEscape, s, i)
  {
    assert NullEscape[1] == 'u';
    if i + 1 < k {
      assert s[i + 1] == '\\';
    } else if i + 6 <= |s| {
      assert s[i + 1..i + 6] == s[k..k + 5];
      assert NullEscape[1..] == NullTail;
    }
  }

  /** `k` backslashes. */
  function Backslashes(k: nat): (s: string)
    ensures |s| == k && forall i :: 0 <= i < k ==> s[i] == '\\'
  {
    if k == 0 then [] else ['\\'] + Backslashes(k - 1)
  }

  /** A whole run is deleted, however many backslashes it has, together with its `u0000`. */
  lemma RemovesRun(k: nat, rest: string)
    requires k >= 1
    ensures Strip(Backslashes(k) + NullTail + rest) == Strip(rest)
  {
    var s := Backslashes(k) + NullTail + rest;
    RunLengthOf(Backslashes(k), NullTail + rest);
    assert s[k..k + 5] == NullTail;
    assert s[k + 5..] == rest;
  }

  lemma {:induction false} RunLengthOf(run: string, rest: string)
    requires forall i :: 0 <= i < |run| ==> run[i] == '\\'
    requires rest != [] && rest[0] != '\\'
    ensures RunLength(run + rest) == |run|
  {
    if run != [] {
      assert (run + rest)[1..] == run[1..] + rest;
      RunLengthOf(run[1..], rest);
    } else {
      assert run + rest == rest;
    }
  }

  // ----- the sanitiser -----

  /** The `try` block: parse, delete bodies, and strip escaped NULs when the re-serialised text has any. */
  function Sanitised(text: string, loads: string -> Result<Json, PyException>, dumps: Json -> string): (r: Result<Json, PyException>)
    ensures r.Success? ==> loads(text).Success? && Cleaned(loads(text).value).Success?
  {
    match loads(text)
    case Failure(e) => Failure(e)
    case Success(doc) =>
      match Cleaned(doc)
      case Failure(e) => Failure(e)
      case Success(cleaned) =>
        var reassembled := dumps(cleaned);
        if Occurs(NullEscape, reassembled) then loads(Strip(reassembled)) else Success(cleaned)
  }

  /** Whether the decoded stdout counts as empty: `not har or har == " "`. */
  predicate Blank(stdout: Option<string>) {
    stdout.None? || stdout.value == "" || stdout.value == " "
  }

  /**
    `get_extended_har` from the decoding of stdout on. A failure is an
    exception that escapes: only the decoding of stderr can raise one.
  */
  function ExtendedHar(out: ContainerOutput, loads: string -> Result<Json, PyException>, dumps: Json -> string): (r: Result<Extended, PyException>)
    ensures !Blank(out.stdout) ==> r.Success?
    ensures r.Failure? ==> r.error == UnicodeDecodeError
  {
    if Blank(out.stdout) then
      (if out.stderr.None? then Failure(UnicodeDecodeError) else Success(Extended(JNull, out.stderr)))
    else
      match Sanitised(out.stdout.value, loads, dumps)
      case Failure(e) => Success(Extended(JNull, Some(Str(e))))
      case Success(doc) => Success(Extended(doc, None))
  }

  /** The `try` block as the wrapper runs it: the loop cleans the entries list in place. */
  method Sanitise(text: string, loads: string -> Result<Json, PyException>, dumps: Json -> string)
    returns (r: Result<Json, PyException>)
    ensures r == Sanitised(text, loads, dumps)
  {
    var parsed := loads(text);
    if parsed.Failure? {
      return Failure(parsed.error);
    }
    var jsonHar := parsed.value;
    var har := Subscript(jsonHar, "har");
    if har.Failure? {
      return Failure(har.error);
    }
    var entries := Subscript(har.value, "entries");
    if entries.Failure? {
      return Failure(entries.error);
    }
    var cleaned: Json;
    if entries.value.JArr? {
      var items := StripBodies(entries.value.items);
      if items.Failure? {
        return Failure(items.error);
      }
      cleaned := JArr(items.value);
    } else {
      var other := CleanEntries(entries.value);
      if other.Failure? {
        return Failure(other.error);
      }
      cleaned := other.value;
    }
    jsonHar := JObj(jsonHar.fields["har" := JObj(har.value.fields["entries" := cleaned])]);
    var reassembled := dumps(jsonHar);
    if Occurs(NullEscape, reassembled) {
      var stripped := Strip(reassembled);
      r := loads(stripped);
    } else {
      r := Success(jsonHar);
    }
  }

  /** `get_extended_har` after the container has run. */
  method GetExtendedHar(out: ContainerOutput, loads: string -> Result<Json, PyException>, dumps: Json -> string)
    returns (r: Result<Extended, PyException>)
    ensures r == ExtendedHar(out, loads, dumps)
  {
    var har: Option<string>;
    var harError: Option<string>;
    if out.stdout.Some? {
      har := out.stdout;
      harError := None;
    } else {
      if out.stderr.None? {
        return Failure(UnicodeDecodeError);
      }
      harError := out.stderr;
      har := None;
    }
    if har.None? || har.value == "" || har.value == " " {
      if out.stderr.None? {
        return Failure(UnicodeDecodeError);
      }
      harError := out.stderr;
      return Success(Extended(JNull, harError));
    }
    var jsonHar := Sanitise(har.value, loads, dumps);
    if jsonHar.Failure? {
      harError := Some(Str(jsonHar.error));
      r := Success(Extended(JNull, harError));
    } else {
      r := Success(Extended(jsonHar.value, harError));
    }
  }

  /** Empty or single-space output gives no HAR and the container's stderr as the error. */
  lemma BlankOutput(out: ContainerOutput, loads: string -> Result<Json, PyException>, dumps: Json -> string)
    requires Blank(out.stdout) && out.stderr.Some?
    ensures ExtendedHar(out, loads, dumps) == Success(Extended(JNull, out.stderr))
  {
  }

  /**
    Errors are returned, not raised: the only exception that escapes is an
    undecodable stderr when stdout is unusable. Whenever an error is
    returned the HAR is `None`, and with a usable stdout the error is
    exactly the message of the exception the parsing or stripping raised.
  */
  lemma ErrorsReturned(out: ContainerOutput, loads: string -> Result<Json, PyException>, dumps: Json -> string)
    ensures var r := ExtendedHar(out, loads, dumps);
      r.Failure? <==> Blank(out.stdout) && out.stderr.None?
    ensures var r := ExtendedHar(out, loads, dumps);
      r.Failure? ==> r.error == UnicodeDecodeError
    ensures var r := ExtendedHar(out, loads, dumps);
      r.Success? && r.value.error.Some? ==> r.value.har == JNull
    ensures var r := ExtendedHar(out, loads, dumps);
      !Blank(out.stdout) ==>
        (r.value.error.Some? <==> Sanitised(out.stdout.value, loads, dumps).Failure?) &&
        (r.value.error.Some? ==> r.value.error.value == Str(Sanitised(out.stdout.value, loads, dumps).error))
  {
  }

  /**
    When the re-serialised document holds no escaped NUL, the stored HAR is
    the parsed document with its bodies deleted, a dict, so exactly one of
    the pair is `None`.
  */
  lemma NoNullKeepsDocument(text: string, loads: string -> Result<Json, PyException>, dumps: Json -> string)
    requires loads(text).Success? && Cleaned(loads(text).value).Success?
    requires !Occurs(NullEscape, dumps(Cleaned(loads(text).value).value))
    ensures Sanitised(text, loads, dumps) == Cleaned(loads(text).value)
    ensures Sanitised(text, loads, dumps).value.JObj?
    ensures Sanitised(text, loads, dumps).value != JNull
  {
    CleanedMeaning(loads(text).value);
  }
}
