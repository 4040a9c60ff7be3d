/**
  Extension resolution in the session runners: the `--extensions` argument
  is split on commas, and each name is installed only when exactly one file
  of the extension directory matches `<name>*<suffix>` (`.xpi` for Firefox,
  `.crx` for Chrome).
*/
module Extensions {
  import opened Wrappers

  /** The directory the runners search; an installed path is this, a slash, and the file name. */
  const ExtensionsDir: string := "/home/seluser/measure/extensions"

  const Comma: char := ','

  /** Where the first piece of `s` ends: the first `sep`, or the end. */
  function PieceLength(s: string, sep: char): (k: nat)
    ensures k <= |s| && (k < |s| ==> s[k] == sep)
    ensures forall i :: 0 <= i < k ==> s[i] != sep
  {
    if s == [] || s[0] == sep then 0 else 1 + PieceLength(s[1..], sep)
  }

  /** Python's `s.split(sep)`: the pieces between separators, empty pieces included. */
  function Split(s: string, sep: char): (parts: seq<string>)
    ensures |parts| > 0
    ensures forall i :: 0 <= i < |parts| ==> sep !in parts[i]
    decreases |s|
  {
    var k := PieceLength(s, sep);
    if k == |s| then [s] else [s[..k]] + Split(s[k + 1..], sep)
  }

  /** Python's `sep.join(parts)`. */
  function Join(parts: seq<string>, sep: char): string
    requires |parts| > 0
  {
    if |parts| == 1 then parts[0] else parts[0] + [sep] + Join(parts[1..], sep)
  }

  /** Joining the pieces gives back the argument. */
  lemma {:induction false} JoinSplit(s: string, sep: char)
    ensures Join(Split(s, sep), sep) == s
    decreases |s|
  {
    var k := PieceLength(s, sep);
    if k < |s| {
      JoinSplit(s[k + 1..], sep);
      assert s == s[..k] + [sep] + s[k + 1..];
    }
  }

  lemma PieceLengthOf(p: string, sep: char, rest: string)
    requires sep !in p
    ensures PieceLength(p + [sep] + rest, sep) == |p|
    ensures PieceLength(p, sep) == |p|
  {
    var s := p + [sep] + rest;
    assert forall i :: 0 <= i < |p| ==> p[i] in p;
    assert forall i :: 0 <= i < |p| ==> s[i] == p[i];
    assert s[|p|] == sep;
  }

  /** Splitting pieces that hold no separator gives back the pieces. */
  lemma {:induction false} SplitJoin(parts: seq<string>, sep: char)
    requires |parts| > 0 && forall i :: 0 <= i < |parts| ==> sep !in parts[i]
    ensures Split(Join(parts, sep), sep) == parts
  {
    if |parts| == 1 {
      PieceLengthOf(parts[0], sep, []);
    } else {
      SplitCons(parts[0], sep, Join(parts[1..], sep));
      SplitJoin(parts[1..], sep);
      assert parts == [parts[0]] + parts[1..];
    }
  }

  /** A piece without the separator, then the separator: the piece comes first. */
  lemma SplitCons(p: string, sep: char, rest: string)
    requires sep !in p
    ensures Split(p + [sep] + rest, sep) == [p] + Split(rest, sep)
  {
    var s := p + [sep] + rest;
    PieceLengthOf(p, sep, rest);
    assert s[..|p|] == p;
    assert s[|p| + 1..] == rest;
  }

  /** Whether the file name `file` matches the pattern `<name>*<suffix>`. */
  predicate Matches(file: string, name: string, suffix: string) {
    && |file| >= |name| + |suffix|
    && file[..|name|] == name
    && file[|file| - |suffix|..] == suffix
  }

  /** `extensions_path.glob(name + "*" + suffix)` over the directory listing `dir`. */
  function Glob(dir: seq<string>, name: string, suffix: string): (ms: seq<string>)
    ensures |ms| <= |dir|
  {
    if dir == [] then []
    else (if Matches(dir[0], name, suffix) then [dir[0]] else []) + Glob(dir[1..], name, suffix)
  }

  /** The glob finds exactly the files of the listing that match the pattern. */
  lemma {:induction false} GlobMatches(dir: seq<string>, name: string, suffix: string, f: string)
    ensures f in Glob(dir, name, suffix) <==> f in dir && Matches(f, name, suffix)
  {
    if dir != [] {
      GlobMatches(dir[1..], name, suffix, f);
      assert dir == [dir[0]] + dir[1..];
    }
  }

  /** The file to install for one requested name: the single match, if there is exactly one. */
  function Pick(dir: seq<string>, name: string, suffix: string): (r: Option<string>)
    ensures r.Some? <==> |Glob(dir, name, suffix)| == 1
  {
    var ms := Glob(dir, name, suffix);
    if |ms| == 1 then Some(ms[0]) else None
  }

  /** What is picked is a file of the listing that matches the pattern. */
  lemma PickMatches(dir: seq<string>, name: string, suffix: string)
    ensures Pick(dir, name, suffix).Some? ==>
      Pick(dir, name, suffix).value in dir && Matches(Pick(dir, name, suffix).value, name, suffix)
  {
    if Pick(dir, name, suffix).Some? {
      GlobMatches(dir, name, suffix, Glob(dir, name, suffix)[0]);
    }
  }

  /** The path the runner hands to the browser, `str(matches[0])`. */
  function PathOf(file: string): string {
    ExtensionsDir + "/" + file
  }

  /** The paths installed for the requested names, in the order of the names. */
  function Installed(dir: seq<string>, names: seq<string>, suffix: string): (paths: seq<string>)
    ensures |paths| <= |names|
  {
    if names == [] then []
    else
      var init := Installed(dir, names[..|names| - 1], suffix);
      match Pick(dir, names[|names| - 1], suffix)
      case None => init
      case Some(f) => init + [PathOf(f)]
  }

  /** One more name installs its single match, if it has one. */
  lemma InstalledNext(dir: seq<string>, names: seq<string>, i: nat, suffix: string)
    requires i < |names|
    ensures Installed(dir, names[..i + 1], suffix) == Installed(dir, names[..i], suffix) +
      (if |Glob(dir, names[i], suffix)| == 1 then [PathOf(Glob(dir, names[i], suffix)[0])] else [])
  {
    assert names[..i + 1][..i] == names[..i];
  }

  /** What the runner installs besides the HAR exporter: nothing when `--extensions` is absent or empty. */
  function Resolve(dir: seq<string>, requested: Option<string>, suffix: string): (paths: seq<string>)
    ensures requested.None? || requested.value == "" ==> paths == []
    ensures requested.Some? ==> |paths| <= |Split(requested.value, Comma)|
  {
    if requested.None? || requested.value == "" then []
    else Installed(dir, Split(requested.value, Comma), suffix)
  }

  /** Every installed path is a matching file of the listing, under the extensions directory. */
  lemma InstalledFromListing(dir: seq<string>, names: seq<string>, suffix: string)
    ensures forall p :: p in Installed(dir, names, suffix) ==>
      exists i, f :: 0 <= i < |names| && f in dir && Matches(f, names[i], suffix) && p == PathOf(f)
  {
    forall p | p in Installed(dir, names, suffix)
      ensures exists i, f :: 0 <= i < |names| && f in dir && Matches(f, names[i], suffix) && p == PathOf(f)
    {
      InstalledMembers(dir, names, suffix, p);
      var i, f :| 0 <= i < |names| && Pick(dir, names[i], suffix) == Some(f) && p == PathOf(f);
      PickMatches(dir, names[i], suffix);
    }
  }

  /** Resolving two lists one after the other installs in list order. */
  lemma {:induction false} InstalledAppend(dir: seq<string>, a: seq<string>, b: seq<string>, suffix: string)
    ensures Installed(dir, a + b, suffix) == Installed(dir, a, suffix) + Installed(dir, b, suffix)
    decreases |b|
  {
    if b == [] {
      assert a + b == a;
    } else {
      var b' := b[..|b| - 1];
      assert (a + b)[..|a + b| - 1] == a + b';
      assert (a + b)[|a + b| - 1] == b[|b| - 1];
      InstalledAppend(dir, a, b', suffix);
    }
  }

  /**
    A path is installed exactly when it is the single match of some
    requested name; a name with no match or several matches adds nothing.
  */
  lemma {:induction false} InstalledMembers(dir: seq<string>, names: seq<string>, suffix: string, p: string)
    ensures p in Installed(dir, names, suffix) <==>
      exists i, f :: 0 <= i < |names| && Pick(dir, names[i], suffix) == Some(f) && p == PathOf(f)
  {
    if names != [] {
      var init := names[..|names| - 1];
      InstalledMembers(dir, init, suffix, p);
      assert forall i :: 0 <= i < |init| ==> init[i] == names[i];
      var last := names[|names| - 1];
      if Pick(dir, last, suffix).Some? && p == PathOf(Pick(dir, last, suffix).value) {
        assert Pick(dir, names[|names| - 1], suffix) == Some(Pick(dir, last, suffix).value);
      }
    }
  }

  /** A single name is installed only when exactly one file matches it. */
  lemma InstalledOne(dir: seq<string>, name: string, suffix: string)
    ensures |Glob(dir, name, suffix)| == 1 ==> Installed(dir, [name], suffix) == [PathOf(Glob(dir, name, suffix)[0])]
    ensures |Glob(dir, name, suffix)| != 1 ==> Installed(dir, [name], suffix) == []
  {
    assert [name][..0] == [];
  }

  /** Without `--extensions`, or with it empty, only the exporter is installed. */
  lemma NoneRequested(dir: seq<string>, suffix: string)
    ensures Resolve(dir, None, suffix) == [] && Resolve(dir, Some(""), suffix) == []
  {
  }
}
