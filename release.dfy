/** Version arithmetic of the release script `packaging/release.py`.
    The package's current `__version__`, the output of `git describe` and the
    lines of the package's `__init__.py` are parameters; running git, uploading
    and rewriting the file in place are not modelled. */
module Release {
  import opened PyText

  // ---------------------------------------------------------------------------
  // Reading the current version

  /** Collecting the results of `int()` over a list, in order: ValueError as
      soon as one of them failed. */
  function CollectInts(parsed: seq<Option<int>>): (r: Result<seq<int>>)
    ensures r.Ok? <==> forall i :: 0 <= i < |parsed| ==> parsed[i].Some?
    ensures r.Ok? ==> |r.value| == |parsed|
    ensures r.Ok? ==> forall i :: 0 <= i < |parsed| ==> r.value[i] == parsed[i].value
    ensures r.Err? ==> r.error == ValueError
  {
    if parsed == [] then Ok([])
    else
      var rest := CollectInts(parsed[1..]);
      assert forall i :: 1 <= i < |parsed| ==> parsed[i] == parsed[1..][i - 1];
      if parsed[0].None? then Err(ValueError)
      else if rest.Err? then
        assert exists j :: 0 <= j < |parsed[1..]| && parsed[1..][j].None?;
        Err(ValueError)
      else
        Ok([parsed[0].value] + rest.value)
  }

  /** `[int(i) for i in chunks]`: ValueError as soon as one chunk is not an integer. */
  function ParseChunks(chunks: seq<string>): (r: Result<seq<int>>)
    ensures r.Ok? <==> forall i :: 0 <= i < |chunks| ==> ParseInt(chunks[i]).Some?
    ensures r.Ok? ==> |r.value| == |chunks|
    ensures r.Ok? ==> forall i :: 0 <= i < |chunks| ==> r.value[i] == ParseInt(chunks[i]).value
    ensures r.Err? ==> r.error == ValueError
  {
    var parsed := seq(|chunks|, i requires 0 <= i < |chunks| => ParseInt(chunks[i]));
    assert forall i :: 0 <= i < |chunks| ==> parsed[i] == ParseInt(chunks[i]);
    CollectInts(parsed)
  }

  /** `get_last_release_version`: the dot-separated parts of the version, as integers. */
  function LastReleaseVersion(version: string): (r: Result<seq<int>>)
    ensures var chunks := Split(version, '.');
            (r.Ok? <==> forall i :: 0 <= i < |chunks| ==> ParseInt(chunks[i]).Some?) &&
            (r.Ok? ==> |r.value| == |chunks| &&
                       forall i :: 0 <= i < |chunks| ==> r.value[i] == ParseInt(chunks[i]).value)
    ensures r.Err? ==> r.error == ValueError
  {
    var chunks := Split(version, '.');
    assert chunks == Split(version, '.');
    ParseChunks(chunks)
  }

  datatype Version = Version(major: int, minor: int, micro: int)

  /** `major, minor, micro = get_last_release_version()`: unpacking into three
      names raises ValueError unless there are exactly three parts. */
  function ReleaseParts(version: string): (r: Result<Version>)
    ensures r.Ok? <==> LastReleaseVersion(version).Ok? && |Split(version, '.')| == 3
    ensures r.Ok? ==> [r.value.major, r.value.minor, r.value.micro] == LastReleaseVersion(version).value
    ensures r.Err? ==> r.error == ValueError
  {
    match LastReleaseVersion(version)
    case Err(e) => Err(e)
    case Ok(parts) =>
      if |parts| == 3 then Ok(Version(parts[0], parts[1], parts[2])) else Err(ValueError)
  }

  // ---------------------------------------------------------------------------
  // Dev number from `git describe`

  /** `get_dev_number` on the label printed by `git describe`: the commit count
      between the two dashes of `tag-count-sha`, and 0 for any other shape. */
  function DevNumber(describe: string): (r: Result<int>)
    ensures |Split(describe, '-')| != 3 ==> r == Ok(0)
    ensures |Split(describe, '-')| == 3 ==>
              (r.Ok? <==> ParseInt(Split(describe, '-')[1]).Some?) &&
              (r.Ok? ==> r.value == ParseInt(Split(describe, '-')[1]).value)
    ensures r.Err? ==> r.error == ValueError
  {
    var chunks := Split(describe, '-');
    if |chunks| == 3 then
      match ParseInt(chunks[1])
      case None => Err(ValueError)
      case Some(n) => Ok(n)
    else Ok(0)
  }

  /** `get_dev_suffix`: "dev" followed by the dev number. */
  function DevSuffix(describe: string): (r: Result<string>)
    ensures r.Ok? <==> DevNumber(describe).Ok?
    ensures r.Ok? ==> |r.value| > 3 && r.value[..3] == "dev" && '.' !in r.value
    ensures r.Ok? ==> r.value == "dev" + IntToString(DevNumber(describe).value)
  {
    match DevNumber(describe)
    case Err(e) => Err(e)
    case Ok(n) => Ok("dev" + IntToString(n))
  }

  /** A label `tag-count-sha` (tag and sha free of dashes) yields the count. */
  lemma DevNumberOfDescribe(tag: string, count: nat, sha: string)
    requires '-' !in tag && '-' !in sha
    ensures DevNumber(tag + "-" + NatToString(count) + "-" + sha) == Ok(count)
  {
    var parts := [tag, NatToString(count), sha];
    assert Join(parts, '-') == tag + "-" + NatToString(count) + "-" + sha by {
      assert Join(parts[1..], '-') == NatToString(count) + "-" + sha;
    }
    SplitJoin(parts, '-');
    ParseIntToString(count);
  }

  /** Run on a tag, `git describe` prints the bare tag: the dev number is 0. */
  lemma DevNumberOnTag(tag: string)
    requires '-' !in tag
    ensures DevNumber(tag) == Ok(0)
  {
    SplitNoSeparator(tag, '-');
  }

  // ---------------------------------------------------------------------------
  // New versions

  /** `get_dev_version`: "major.(minor+1).devN"; micro is dropped. */
  function DevVersion(version: string, describe: string): (r: Result<string>)
    ensures r.Ok? <==> ReleaseParts(version).Ok? && DevNumber(describe).Ok?
    ensures r.Err? ==> r.error == ValueError
  {
    match ReleaseParts(version)
    case Err(e) => Err(e)
    case Ok(v) =>
      match DevSuffix(describe)
      case Err(e) => Err(e)
      case Ok(suffix) => Ok(Join([IntToString(v.major), IntToString(v.minor + 1), suffix], '.'))
  }

  /** `get_release_version`: "major.minor.(micro+1)". */
  function ReleaseVersion(version: string): (r: Result<string>)
    ensures r.Ok? <==> ReleaseParts(version).Ok?
    ensures r.Err? ==> r.error == ValueError
  {
    match ReleaseParts(version)
    case Err(e) => Err(e)
    case Ok(v) => Ok(Join([IntToString(v.major), IntToString(v.minor), IntToString(v.micro + 1)], '.'))
  }

  lemma IntToStringHasNoDot(i: int)
    ensures '.' !in IntToString(i) && '-' !in IntToString(i)[1..]
  {
  }

  lemma ParseChunksAllInts(chunks: seq<string>, values: seq<int>)
    requires |chunks| == |values|
    requires forall i :: 0 <= i < |chunks| ==> ParseInt(chunks[i]) == Some(values[i])
    ensures ParseChunks(chunks) == Ok(values)
  {
    var r := ParseChunks(chunks);
    assert r.Ok?;
    assert r.value == values;
  }

  lemma PartsHaveNoDot(parts: seq<string>, a: int, b: int, c: int)
    requires parts == [IntToString(a), IntToString(b), IntToString(c)]
    ensures forall i :: 0 <= i < |parts| ==> '.' !in parts[i]
  {
    IntToStringHasNoDot(a);
    IntToStringHasNoDot(b);
    IntToStringHasNoDot(c);
  }

  lemma PartsParse(parts: seq<string>, a: int, b: int, c: int)
    requires parts == [IntToString(a), IntToString(b), IntToString(c)]
    ensures forall i :: 0 <= i < |parts| ==> ParseInt(parts[i]) == Some([a, b, c][i])
  {
    ParseIntToString(a);
    ParseIntToString(b);
    ParseIntToString(c);
  }

  /** Three integers joined with dots parse back to themselves. */
  lemma ParseJoinedParts(a: int, b: int, c: int)
    ensures LastReleaseVersion(Join([IntToString(a), IntToString(b), IntToString(c)], '.')) == Ok([a, b, c])
  {
    var parts := [IntToString(a), IntToString(b), IntToString(c)];
    var joined := Join(parts, '.');
    PartsHaveNoDot(parts, a, b, c);
    SplitJoin(parts, '.');
    assert LastReleaseVersion(joined) == ParseChunks(parts);
    PartsParse(parts, a, b, c);
    ParseChunksAllInts(parts, [a, b, c]);
  }

  /** Round trip: the official release version parses back, with the same
      rule, to [major, minor, micro + 1]; only micro changes. */
  lemma ReleaseVersionRoundTrip(version: string)
    requires ReleaseParts(version).Ok?
    ensures ReleaseVersion(version).Ok?
    ensures var v := ReleaseParts(version).value;
            LastReleaseVersion(ReleaseVersion(version).value) == Ok([v.major, v.minor, v.micro + 1]) &&
            ReleaseParts(ReleaseVersion(version).value) == Ok(Version(v.major, v.minor, v.micro + 1))
  {
    var v := ReleaseParts(version).value;
    var out := Join([IntToString(v.major), IntToString(v.minor), IntToString(v.micro + 1)], '.');
    assert ReleaseVersion(version) == Ok(out);
    ParseJoinedParts(v.major, v.minor, v.micro + 1);
  }

  /** The official version has three dot-separated parts: `str(major)`,
      `str(minor)` and `str(micro + 1)`. */
  lemma ReleaseVersionShape(version: string)
    requires ReleaseParts(version).Ok?
    ensures var v := ReleaseParts(version).value;
            Split(ReleaseVersion(version).value, '.') ==
              [IntToString(v.major), IntToString(v.minor), IntToString(v.micro + 1)]
  {
    var v := ReleaseParts(version).value;
    var parts := [IntToString(v.major), IntToString(v.minor), IntToString(v.micro + 1)];
    assert ReleaseVersion(version) == Ok(Join(parts, '.'));
    PartsHaveNoDot(parts, v.major, v.minor, v.micro + 1);
    SplitJoin(parts, '.');
  }

  lemma DevPartsHaveNoDot(parts: seq<string>, a: int, b: int, n: int)
    requires parts == [IntToString(a), IntToString(b), "dev" + IntToString(n)]
    ensures forall i :: 0 <= i < |parts| ==> '.' !in parts[i]
  {
    IntToStringHasNoDot(a);
    IntToStringHasNoDot(b);
    IntToStringHasNoDot(n);
  }

  /** The three parts of the dev version built from `v` and dev number `n`. */
  function DevParts(v: Version, n: int): seq<string> {
    [IntToString(v.major), IntToString(v.minor + 1), "dev" + IntToString(n)]
  }

  /** The dev version is "major.(minor+1).devN" joined with dots. */
  lemma DevVersionParts(version: string, describe: string)
    requires ReleaseParts(version).Ok? && DevNumber(describe).Ok?
    ensures DevVersion(version, describe) == Ok(Join(DevParts(ReleaseParts(version).value, DevNumber(describe).value), '.'))
  {
    var v := ReleaseParts(version).value;
    var n := DevNumber(describe).value;
    assert ReleaseParts(version) == Ok(v);
    assert DevSuffix(describe) == Ok("dev" + IntToString(n));
    assert DevVersion(version, describe) == Ok(Join([IntToString(v.major), IntToString(v.minor + 1), "dev" + IntToString(n)], '.'));
  }

  /** "a.b.devN" splits back into its three parts, and the last one is no integer. */
  lemma DevJoinShape(v: Version, n: int)
    ensures Split(Join(DevParts(v, n), '.'), '.') == DevParts(v, n)
    ensures LastReleaseVersion(Join(DevParts(v, n), '.')).Err?
  {
    var parts := DevParts(v, n);
    DevPartsHaveNoDot(parts, v.major, v.minor + 1, n);
    SplitJoin(parts, '.');
    ParseIntRejects(parts[2], 0);
  }

  /** The dev version has three dot-separated parts: major, minor + 1 and the
      dev suffix; the suffix being no integer, the dev version cannot be read
      back as a release version. */
  lemma DevVersionShape(version: string, describe: string)
    requires ReleaseParts(version).Ok? && DevNumber(describe).Ok?
    ensures var v := ReleaseParts(version).value;
            Split(DevVersion(version, describe).value, '.') ==
              [IntToString(v.major), IntToString(v.minor + 1), "dev" + IntToString(DevNumber(describe).value)]
    ensures LastReleaseVersion(DevVersion(version, describe).value).Err?
  {
    var v := ReleaseParts(version).value;
    var n := DevNumber(describe).value;
    DevVersionParts(version, describe);
    DevJoinShape(v, n);
  }

  // ---------------------------------------------------------------------------
  // The version line of `set_version`

  /** Number of leading decimal digits. */
  function LeadingDigits(s: string): (n: nat)
    ensures n <= |s|
    ensures forall i :: 0 <= i < n ==> IsDigit(s[i])
    ensures n < |s| ==> !IsDigit(s[n])
  {
    if s != [] && IsDigit(s[0]) then 1 + LeadingDigits(s[1..]) else 0
  }

  /** `\d+` followed by the character `next`: the rest of the text after it. */
  function DigitsThen(s: string, next: char): Option<string> {
    var n := LeadingDigits(s);
    if 1 <= n < |s| && s[n] == next then Some(s[n + 1..]) else None
  }

  /** `\d+\.\d+\.\d+'` at the start of `s`. */
  predicate NumberTriple(s: string) {
    match DigitsThen(s, '.')
    case None => false
    case Some(c) =>
      match DigitsThen(c, '.')
      case None => false
      case Some(d) => DigitsThen(d, '\'').Some?
  }

  /** `\s*'` then a number triple. */
  predicate AfterEquals(s: string) {
    var b := TrimLeft(s);
    b != [] && b[0] == '\'' && NumberTriple(b[1..])
  }

  /** `\s*=` then the rest of the pattern. */
  predicate AfterName(s: string) {
    var a := TrimLeft(s);
    a != [] && a[0] == '=' && AfterEquals(a[1..])
  }

  /** `re.match(r"VERSION\s*=\s*'\d+\.\d+\.\d+'", line)`: the pattern matched
      at the start of the line; what follows the closing quote is not looked
      at. Greedy `\s*` and `\d+` never need to give characters back here,
      since the character after each is a non-space or a non-digit. */
  predicate MatchesVersionLine(line: string) {
    |line| >= 7 && line[..7] == "VERSION" && AfterName(line[7..])
  }

  /** The line `set_version` writes in place of a matching line. */
  function VersionLine(version: string): string {
    "VERSION = '" + version + "'"
  }

  lemma {:induction false} LeadingDigitsOfNumber(digits: string, rest: string)
    requires AllDigits(digits)
    requires rest == [] || !IsDigit(rest[0])
    ensures LeadingDigits(digits + rest) == |digits|
  {
    if digits != [] {
      assert (digits + rest)[1..] == digits[1..] + rest;
      LeadingDigitsOfNumber(digits[1..], rest);
    }
  }

  lemma DigitsThenRun(digits: string, next: char, rest: string)
    requires digits != [] && AllDigits(digits) && !IsDigit(next)
    ensures DigitsThen(digits + ([next] + rest), next) == Some(rest)
  {
    var s := digits + ([next] + rest);
    LeadingDigitsOfNumber(digits, [next] + rest);
    assert s[|digits|] == next;
    assert s[|digits| + 1..] == rest;
  }

  lemma DigitsThenNumber(n: nat, next: char, rest: string)
    requires !IsDigit(next)
    ensures DigitsThen(NatToString(n) + [next] + rest, next) == Some(rest)
  {
    var d := NatToString(n);
    assert d + [next] + rest == d + ([next] + rest);
    DigitsThenRun(d, next, rest);
  }

  lemma TrimLeftOneSpace(c: char, s: string)
    requires IsSpace(c) && s != [] && !IsSpace(s[0])
    ensures TrimLeft([c] + s) == s
  {
    assert ([c] + s)[1..] == s;
  }

  /** The text after "VERSION" in a version line: " = '" + number text. */
  lemma VersionLineSplits(version: string, tail: string)
    ensures MatchesVersionLine(VersionLine(version) + tail) <==>
            AfterName([' '] + (['='] + ([' '] + (['\''] + (version + "'" + tail)))))
  {
    var line := VersionLine(version) + tail;
    var rest := [' '] + (['='] + ([' '] + (['\''] + (version + "'" + tail))));
    assert line == "VERSION" + rest;
    assert line[..7] == "VERSION";
    assert line[7..] == rest;
  }

  /** " = '" followed by `number` matches exactly when `number` is a triple. */
  lemma AfterNameOfVersionLine(number: string)
    ensures AfterName([' '] + (['='] + ([' '] + (['\''] + number)))) <==> NumberTriple(number)
  {
    var eq := ['='] + ([' '] + (['\''] + number));
    TrimLeftOneSpace(' ', eq);
    assert eq[1..] == [' '] + (['\''] + number);
    TrimLeftOneSpace(' ', ['\''] + number);
    assert (['\''] + number)[1..] == number;
  }

  lemma JoinThree(x: string, y: string, z: string, sep: char)
    ensures Join([x, y, z], sep) == x + [sep] + (y + [sep] + z)
  {
    assert Join([x, y, z][1..], sep) == y + [sep] + z;
  }

  /** A line "VERSION = '" + v + "'" ... matches exactly when v + "'" ... starts
      with a number triple. */
  lemma VersionLineMatchesIff(v: string, tail: string)
    ensures MatchesVersionLine(VersionLine(v) + tail) <==> NumberTriple(v + "'" + tail)
  {
    VersionLineSplits(v, tail);
    AfterNameOfVersionLine(v + "'" + tail);
  }

  lemma {:induction false} NumberTripleOf(a: nat, b: nat, c: nat, tail: string)
    ensures NumberTriple(NatToString(a) + ['.'] + (NatToString(b) + ['.'] + (NatToString(c) + ['\''] + tail)))
  {
    var afterB := NatToString(c) + ['\''] + tail;
    var afterA := NatToString(b) + ['.'] + afterB;
    DigitsThenNumber(a, '.', afterA);
    DigitsThenNumber(b, '.', afterB);
    DigitsThenNumber(c, '\'', tail);
  }

  lemma {:induction false} ReleaseNumberTriple(a: nat, b: nat, c: nat, tail: string)
    ensures NumberTriple(Join([NatToString(a), NatToString(b), NatToString(c)], '.') + "'" + tail)
  {
    var sa, sb, sc := NatToString(a), NatToString(b), NatToString(c);
    JoinThree(sa, sb, sc, '.');
    var triple := sa + ['.'] + (sb + ['.'] + (sc + ['\''] + tail));
    assert Join([sa, sb, sc], '.') + "'" + tail == triple;
    NumberTripleOf(a, b, c, tail);
  }

  /** The line written for an official release version "a.b.c" (non-negative
      parts) is itself recognised by the rule, whatever follows it. */
  lemma {:induction false} ReleaseLineMatches(a: nat, b: nat, c: nat, tail: string)
    ensures MatchesVersionLine(VersionLine(Join([NatToString(a), NatToString(b), NatToString(c)], '.')) + tail)
  {
    ReleaseNumberTriple(a, b, c, tail);
    VersionLineMatchesIff(Join([NatToString(a), NatToString(b), NatToString(c)], '.'), tail);
  }

  /** The line written for a dev version "a.b.devN" is not recognised by the
      rule: once a dev release has rewritten the file, a later `set_version`
      leaves that line as it is. */
  lemma {:induction false} DevLineNotMatched(a: nat, b: nat, n: int, tail: string)
    ensures !MatchesVersionLine(VersionLine(Join([NatToString(a), NatToString(b), "dev" + IntToString(n)], '.')) + tail)
  {
    var sa, sb, sd := NatToString(a), NatToString(b), "dev" + IntToString(n);
    var v := Join([sa, sb, sd], '.');
    JoinThree(sa, sb, sd, '.');
    var afterB := sd + "'" + tail;
    assert v + "'" + tail == sa + ['.'] + (sb + ['.'] + afterB);
    DigitsThenNumber(a, '.', sb + ['.'] + afterB);
    DigitsThenNumber(b, '.', afterB);
    assert LeadingDigits(afterB) == 0;
    VersionLineMatchesIff(v, tail);
  }

  // ---------------------------------------------------------------------------
  // Rewriting the file: `set_version`

  /** The file's text: its lines, as `fileinput` yields them (each keeps its
      line terminator), put back together. */
  function Concat(lines: seq<string>): string {
    if lines == [] then "" else Concat(lines[..|lines| - 1]) + lines[|lines| - 1]
  }

  /** What `set_version` prints for one line: the version line, or `print line`,
      which writes the line followed by a newline of its own. */
  function EmitAsWritten(line: string, version: string): string {
    if MatchesVersionLine(line) then VersionLine(version) + "\n" else line + "\n"
  }

  /** The text `set_version` leaves in the file, as written. */
  function RewrittenAsWritten(lines: seq<string>, version: string): string {
    if lines == [] then ""
    else RewrittenAsWritten(lines[..|lines| - 1], version) + EmitAsWritten(lines[|lines| - 1], version)
  }

  /** The loop of `set_version` as written: each line is printed into the
      rewritten file in turn. */
  method SetVersionAsWritten(lines: seq<string>, version: string) returns (text: string)
    ensures text == RewrittenAsWritten(lines, version)
  {
    text := "";
    var i := 0;
    while i < |lines|
      invariant 0 <= i <= |lines|
      invariant text == RewrittenAsWritten(lines[..i], version)
    {
      assert lines[..i + 1][..i] == lines[..i];
      text := text + EmitAsWritten(lines[i], version);
      i := i + 1;
    }
    assert lines[..|lines|] == lines;
  }

  /** As written, every line the rule does not match gains one newline: a
      file of n such lines grows by n characters (a blank line after each). */
  lemma {:induction false} AsWrittenAddsNewlines(lines: seq<string>, version: string)
    requires forall i :: 0 <= i < |lines| ==> !MatchesVersionLine(lines[i])
    ensures |RewrittenAsWritten(lines, version)| == |Concat(lines)| + |lines|
  {
    if lines != [] {
      var init := lines[..|lines| - 1];
      assert forall i :: 0 <= i < |init| ==> init[i] == lines[i];
      AsWrittenAddsNewlines(init, version);
    }
  }

  /** A one-line file "import os\n" comes back as "import os\n\n". */
  lemma AsWrittenDoublesLineEnd()
    ensures RewrittenAsWritten(["import os\n"], "0.1.2") == "import os\n\n"
  {
    assert !MatchesVersionLine("import os\n") by {
      assert "import os\n"[..7][0] == 'i';
    }
    assert ["import os\n"][..0] == [];
  }

  /** The evidently intended rule: a matching line is replaced by the version
      line (with its newline), every other line is copied unchanged. */
  function RewriteLine(line: string, version: string): string {
    if MatchesVersionLine(line) then VersionLine(version) + "\n" else line
  }

  function RewriteLines(lines: seq<string>, version: string): (out: seq<string>)
    ensures |out| == |lines|
  {
    seq(|lines|, i requires 0 <= i < |lines| => RewriteLine(lines[i], version))
  }

  /** `set_version` with the line rule corrected. */
  method SetVersion(lines: seq<string>, version: string) returns (out: seq<string>)
    ensures |out| == |lines|
    ensures forall i :: 0 <= i < |lines| ==>
              out[i] == (if MatchesVersionLine(lines[i]) then VersionLine(version) + "\n" else lines[i])
  {
    out := [];
    var i := 0;
    while i < |lines|
      invariant 0 <= i <= |lines|
      invariant |out| == i
      invariant forall k :: 0 <= k < i ==> out[k] == RewriteLine(lines[k], version)
    {
      out := out + [RewriteLine(lines[i], version)];
      i := i + 1;
    }
  }

  /** With the corrected rule a file without a version line is left unchanged. */
  lemma {:induction false} RewriteWithoutMatchKeepsFile(lines: seq<string>, version: string)
    requires forall i :: 0 <= i < |lines| ==> !MatchesVersionLine(lines[i])
    ensures Concat(RewriteLines(lines, version)) == Concat(lines)
  {
    if lines != [] {
      var init := lines[..|lines| - 1];
      RewriteWithoutMatchKeepsFile(init, version);
      assert RewriteLines(lines, version)[..|lines| - 1] == RewriteLines(init, version);
    }
  }

  /** With the corrected rule, setting any version twice is the same as
      setting it once: a replaced line is left alone by the second pass
      whether or not the pattern recognises it. */
  lemma RewriteIdempotent(lines: seq<string>, version: string)
    ensures RewriteLines(RewriteLines(lines, version), version) == RewriteLines(lines, version)
  {
    var once := RewriteLines(lines, version);
    forall i | 0 <= i < |lines|
      ensures RewriteLine(once[i], version) == once[i]
    {
    }
  }

  // ---------------------------------------------------------------------------
  // Entry point

  datatype ReleaseKind = Official | Devel

  /** The flag check of the entry point: exactly one of `--devel` and
      `--official` must be given, otherwise ValueError. */
  function ChooseRelease(devel: bool, official: bool): (r: Result<ReleaseKind>)
    ensures r.Err? <==> devel == official
    ensures r.Err? ==> r.error == ValueError
    ensures r.Ok? ==> (r.value == Official <==> official)
  {
    if !devel && !official then Err(ValueError)
    else if devel && official then Err(ValueError)
    else if official then Ok(Official)
    else Ok(Devel)
  }

  /** What a run sets out to do: the kind of release, the version it creates
      and whether it rewrites `__init__.py` (not in a dry run). */
  datatype Plan = Plan(kind: ReleaseKind, version: string, rewritesInit: bool)

  /** The entry point followed into `release_official_version` or
      `release_dev_version`, up to the point where they call out to git. */
  function EntryPoint(devel: bool, official: bool, dryRun: bool, current: string, describe: string): (r: Result<Plan>)
    ensures r.Ok? <==> devel != official &&
                       (if official then ReleaseParts(current).Ok?
                        else ReleaseParts(current).Ok? && DevNumber(describe).Ok?)
    ensures r.Ok? ==> r.value.kind == (if official then Official else Devel)
    ensures r.Ok? ==> r.value.rewritesInit == !dryRun
    ensures r.Ok? && official ==> r.value.version == ReleaseVersion(current).value
    ensures r.Ok? && devel ==> r.value.version == DevVersion(current, describe).value
  {
    match ChooseRelease(devel, official)
    case Err(e) => Err(e)
    case Ok(Official) =>
      (match ReleaseVersion(current)
       case Err(e) => Err(e)
       case Ok(v) => Ok(Plan(Official, v, !dryRun)))
    case Ok(Devel) =>
      (match DevVersion(current, describe)
       case Err(e) => Err(e)
       case Ok(v) => Ok(Plan(Devel, v, !dryRun)))
  }
}
