/**
 The inventory reader: turning the decoded output of `wsl --list --all`
 into the list of distributions a user may manage.

 The output is stripped and split into lines. Lines up to and including the
 first separator line (dashes and whitespace) are a header; each later line
 is cleaned (whitespace and the `*` default marker stripped, a trailing
 `(Default)` annotation removed) and kept unless it is one of Docker
 Desktop's own distributions. Without a separator line, every line after the
 first is treated that way.
 */
module DistroList {
  import opened Wrappers
  import opened PyText
  import opened Seqs

  /** One listed distribution (the source's `{'name': name}`). */
  datatype Distro = Distro(name: string)

  datatype DecodeError = UndecodableOutput

  /** The separator pattern `^(-+\s*)+$`: a dash followed by any mix of
      dashes and whitespace. */
  predicate SeparatorPattern(s: string)
  {
    |s| > 0 && s[0] == '-' && DashesAndSpaces(s[1..])
  }

  /** `(-|\s)*`, which is what the repetitions after the first dash come to. */
  predicate DashesAndSpaces(s: string)
  {
    s == [] || ((s[0] == '-' || IsSpace(s[0])) && DashesAndSpaces(s[1..]))
  }

  /** A line is a separator when its stripped form matches the pattern. */
  predicate IsSeparatorLine(line: string)
  {
    SeparatorPattern(Strip(line))
  }

  const DefaultTag: string := "(Default)"

  predicate EndsWithDefaultTag(s: string)
  {
    |s| >= |DefaultTag| && s[|s| - |DefaultTag|..] == DefaultTag
  }

  /** `re.sub(r'\s*\(Default\)$', '', s)`: a trailing tag goes, together
      with the whitespace in front of it. */
  function RemoveDefaultSuffix(s: string): string
  {
    if EndsWithDefaultTag(s) then RStrip(s[..|s| - |DefaultTag|], IsSpace) else s
  }

  /** The leftmost match of the pattern starts at the beginning of the
      whitespace run before the tag, so the tag goes together with all the
      whitespace in front of it, and what is left does not end in
      whitespace; a string that does not end with the tag is left alone. */
  lemma {:induction false} RemoveDefaultSuffixShape(s: string)
    ensures var r := RemoveDefaultSuffix(s);
            |r| <= |s| && r == s[..|r|] &&
            (EndsWithDefaultTag(s) ==>
               |r| <= |s| - |DefaultTag| &&
               AllSpace(s[|r|..|s| - |DefaultTag|]) &&
               (r != [] ==> !IsSpace(r[|r| - 1]))) &&
            (!EndsWithDefaultTag(s) ==> r == s)
  {
    if EndsWithDefaultTag(s) {
      var t := s[..|s| - |DefaultTag|];
      RStripShape(t, IsSpace);
      var r := RStrip(t, IsSpace);
      assert r == s[..|r|];
      var gap := s[|r|..|s| - |DefaultTag|];
      assert forall i :: 0 <= i < |gap| ==> gap[i] == t[|r| + i];
    }
  }

  /** `line.strip().strip('*').strip()` */
  function CleanName(line: string): string
  {
    Strip(StripStars(Strip(line)))
  }

  /** The two names, compared lower-cased, that are never offered. */
  predicate IsDockerName(name: string)
  {
    Lower(name) == "docker-desktop" || Lower(name) == "docker-desktop-data"
  }

  /** What one candidate line contributes: nothing when it is blank after
      cleaning or names a Docker distribution, otherwise one entry. */
  function Entry(line: string): Option<Distro>
  {
    var name := CleanName(line);
    if name == "" then None
    else
      var bare := RemoveDefaultSuffix(name);
      if IsDockerName(bare) then None else Some(Distro(bare))
  }

  /** The entries of a run of candidate lines, in line order. */
  function Entries(lines: seq<string>): seq<Distro>
  {
    FilterMap(lines, Entry)
  }

  /** The index of the first separator line, if any. */
  function FirstSeparator(lines: seq<string>): Option<nat>
  {
    FirstIndex(lines, IsSeparatorLine)
  }

  /** The first loop strips each line before cleaning it, which cleaning
      does anyway. */
  lemma {:induction false} EntryOfStripped(line: string)
    ensures Entry(Strip(line)) == Entry(line)
  {
    StripIdempotent(line, IsSpace);
  }

  /** The parse of an already split listing. */
  function ParseLines(lines: seq<string>): seq<Distro>
  {
    match FirstSeparator(lines)
    case Some(k) => Entries(lines[k + 1..])
    case None => if lines == [] then [] else Entries(lines[1..])
  }

  /** The parse of a decoded listing: the specification of `ListDistrosFromText`. */
  function ParseListing(output: string): seq<Distro>
  {
    ParseLines(Lines(output))
  }

  /** The decoding step: the output is read as UTF-16LE and, when that
      fails, as UTF-8; when both fail the error escapes. The two decodings
      are given as their results (`None` for a decoding error). */
  function Decode(asUtf16: Option<string>, asUtf8: Option<string>): (r: Result<string, DecodeError>)
    ensures r.Success? <==> asUtf16.Some? || asUtf8.Some?
    ensures asUtf16.Some? ==> r == Success(asUtf16.value)
    ensures asUtf16.None? && asUtf8.Some? ==> r == Success(asUtf8.value)
  {
    if asUtf16.Some? then Success(asUtf16.value)
    else if asUtf8.Some? then Success(asUtf8.value)
    else Failure(UndecodableOutput)
  }

  /** The line loops of `list_distros` on the decoded output. */
  method ListDistrosFromText(output: string) returns (distros: seq<Distro>)
    ensures distros == ParseListing(output)
  {
    var lines := Lines(output);
    var separatorFound;
    distros, separatorFound := EntriesAfterSeparator(lines);
    if !separatorFound {
      distros := EntriesAfterFirst(lines);
    }
  }

  /** The first loop: a flag records whether the separator has been
      passed; every stripped line after it is a candidate. */
  method EntriesAfterSeparator(lines: seq<string>) returns (distros: seq<Distro>, separatorFound: bool)
    ensures separatorFound <==> FirstSeparator(lines).Some?
    ensures separatorFound ==> distros == ParseLines(lines)
    ensures !separatorFound ==> distros == []
  {
    ghost var sep;
    distros, separatorFound, sep := ScanLines(lines);
    ScanAll(lines);
  }

  /** The loop itself, proved against `Scan`. */
  method ScanLines(lines: seq<string>) returns (distros: seq<Distro>, separatorFound: bool, ghost sep: nat)
    ensures (separatorFound, sep, distros) == Scan(lines, |lines|, IsSeparatorLine, Entry)
  {
    distros := [];
    separatorFound := false;
    sep := 0;
    var i := 0;
    while i < |lines|
      invariant 0 <= i <= |lines|
      invariant (separatorFound, sep, distros) == Scan(lines, i, IsSeparatorLine, Entry)
    {
      distros, separatorFound, sep := ScanLine(lines, i, distros, separatorFound, sep);
      i := i + 1;
    }
  }

  /** One pass of the loop body, on line `i`. */
  method ScanLine(lines: seq<string>, i: nat, distros: seq<Distro>, separatorFound: bool, ghost sep: nat)
    returns (distros': seq<Distro>, separatorFound': bool, ghost sep': nat)
    requires i < |lines|
    requires (separatorFound, sep, distros) == Scan(lines, i, IsSeparatorLine, Entry)
    ensures (separatorFound', sep', distros') == Scan(lines, i + 1, IsSeparatorLine, Entry)
  {
    distros', separatorFound', sep' := distros, separatorFound, sep;
    var line := Strip(lines[i]);
    if !separatorFound {
      if SeparatorPattern(line) {
        separatorFound' := true;
        sep' := i;
      }
    } else {
      distros' := AppendEntry(distros, line);
      EntryOfStripped(lines[i]);
    }
  }

  /** The state of the first loop after `i` lines: whether a separator was
      seen, where, and the entries collected since. The separator test and
      the entry of a line are parameters, so that the lemmas below hold for
      any of them. */
  ghost function Scan(lines: seq<string>, i: nat, isSeparator: string -> bool,
                      entry: string -> Option<Distro>): (bool, nat, seq<Distro>)
    requires i <= |lines|
  {
    if i == 0 then (false, 0, [])
    else
      var (found, sep, distros) := Scan(lines, i - 1, isSeparator, entry);
      if !found then (if isSeparator(lines[i - 1]) then (true, i - 1, []) else (false, 0, []))
      else (true, sep, distros + AsSeq(entry(lines[i - 1])))
  }

  /** After `i` lines the scan has seen the first separator among them, if
      any. */
  lemma {:induction false} ScanSeparator(lines: seq<string>, i: nat, isSeparator: string -> bool,
                                         entry: string -> Option<Distro>)
    requires i <= |lines|
    ensures var (found, sep, distros) := Scan(lines, i, isSeparator, entry);
            (found ==> sep < i && isSeparator(lines[sep]) &&
                       forall j :: 0 <= j < sep ==> !isSeparator(lines[j])) &&
            (!found ==> distros == [] && forall j :: 0 <= j < i ==> !isSeparator(lines[j]))
  {
    if i > 0 {
      ScanSeparator(lines, i - 1, isSeparator, entry);
    }
  }

  /** After `i` lines the scan holds the entries of the lines after the
      separator it has seen. */
  lemma {:induction false} ScanEntries(lines: seq<string>, i: nat, isSeparator: string -> bool,
                                       entry: string -> Option<Distro>, collect: seq<string> -> seq<Distro>)
    requires i <= |lines|
    requires collect([]) == []
    requires forall run: seq<string>, line: string {:trigger collect(run + [line])} ::
               collect(run + [line]) == collect(run) + AsSeq(entry(line))
    ensures Scan(lines, i, isSeparator, entry).0 ==>
              Scan(lines, i, isSeparator, entry).1 < i &&
              Scan(lines, i, isSeparator, entry).2 == collect(lines[Scan(lines, i, isSeparator, entry).1 + 1..i])
  {
    if i > 0 {
      ScanEntries(lines, i - 1, isSeparator, entry, collect);
      var before := Scan(lines, i - 1, isSeparator, entry);
      if before.0 {
        var run := lines[before.1 + 1..i - 1];
        assert before.2 == collect(run);
        assert collect(lines[before.1 + 1..i]) == collect(run) + AsSeq(entry(lines[i - 1])) by {
          SliceSnoc(lines, before.1 + 1, i - 1);
          assert lines[before.1 + 1..i] == run + [lines[i - 1]];
        }
      } else {
        assert lines[i..i] == [];
      }
    }
  }

  /** What the first loop computes over all the lines. */
  lemma {:induction false} ScanAll(lines: seq<string>)
    ensures var (found, sep, distros) := Scan(lines, |lines|, IsSeparatorLine, Entry);
            (found <==> FirstSeparator(lines).Some?) &&
            (found ==> distros == ParseLines(lines)) &&
            (!found ==> distros == [])
  {
    ScanSeparator(lines, |lines|, IsSeparatorLine, Entry);
    ScanEntriesAll(lines);
    var (found, sep, distros) := Scan(lines, |lines|, IsSeparatorLine, Entry);
    if found {
      ParsePastSeparator(lines, sep);
    }
  }

  /** Over all the lines, the scan has collected the entries of every line
      after the separator it found. */
  lemma {:induction false} ScanEntriesAll(lines: seq<string>)
    ensures var (found, sep, distros) := Scan(lines, |lines|, IsSeparatorLine, Entry);
            found ==> sep < |lines| && distros == Entries(lines[sep + 1..])
  {
    forall run: seq<string>, line: string ensures Entries(run + [line]) == Entries(run) + AsSeq(Entry(line)) {
      FilterMapSnoc(run, line, Entry);
    }
    ScanEntries(lines, |lines|, IsSeparatorLine, Entry, run => Entries(run));
    var (found, sep, distros) := Scan(lines, |lines|, IsSeparatorLine, Entry);
    if found {
      assert lines[sep + 1..] == lines[sep + 1..|lines|];
    }
  }

  /** The fallback loop, run when no separator was found: every line after
      the first is a candidate. */
  method EntriesAfterFirst(lines: seq<string>) returns (distros: seq<Distro>)
    ensures distros == if lines == [] then [] else Entries(lines[1..])
  {
    distros := [];
    if lines == [] {
      return;
    }
    var i := 1;
    while i < |lines|
      invariant 1 <= i <= |lines|
      invariant distros == Entries(lines[1..i])
    {
      EntriesSnoc(lines, 1, i);
      distros := AppendEntry(distros, lines[i]);
      i := i + 1;
    }
    assert lines[1..] == lines[1..|lines|];
  }

  /** The parse of lines whose first separator is at `k`. */
  lemma {:induction false} ParsePastSeparator(lines: seq<string>, k: nat)
    requires k < |lines| && IsSeparatorLine(lines[k])
    requires forall j :: 0 <= j < k ==> !IsSeparatorLine(lines[j])
    ensures FirstSeparator(lines) == Some(k) && ParseLines(lines) == Entries(lines[k + 1..])
  {
  }

  /** The body shared by both loops: a candidate line that is non-blank
      after cleaning and not a Docker distribution is appended. */
  method AppendEntry(distros: seq<Distro>, line: string) returns (r: seq<Distro>)
    ensures r == distros + AsSeq(Entry(line))
  {
    var name := CleanName(line);
    r := distros;
    if name != "" {
      name := RemoveDefaultSuffix(name);
      if !IsDockerName(name) {
        r := r + [Distro(name)];
      }
    }
  }

  /** One more candidate line adds what `Entry` yields for it. */
  lemma {:induction false} EntriesSnoc(lines: seq<string>, lo: nat, i: nat)
    requires lo <= i < |lines|
    ensures Entries(lines[lo..i + 1]) == Entries(lines[lo..i]) + AsSeq(Entry(lines[i]))
  {
    FilterMapSliceSnoc(lines, lo, i, Entry);
  }

  /** `list_distros` from the captured output, given how it decodes: the
      entries of whichever decoding succeeded first, or the decoding error. */
  method ListDistros(asUtf16: Option<string>, asUtf8: Option<string>)
    returns (r: Result<seq<Distro>, DecodeError>)
    ensures r.Failure? <==> asUtf16.None? && asUtf8.None?
    ensures asUtf16.Some? ==> r == Success(ParseListing(asUtf16.value))
    ensures asUtf16.None? && asUtf8.Some? ==> r == Success(ParseListing(asUtf8.value))
  {
    var decoded := Decode(asUtf16, asUtf8);
    if decoded.Failure? {
      return Failure(decoded.error);
    }
    var distros := ListDistrosFromText(decoded.value);
    return Success(distros);
  }

  // ---------------------------------------------------------------------
  // Properties of the parse

  /** The entries of concatenated line runs are the concatenated entries:
      the parse keeps line order and treats each line on its own. */
  lemma {:induction false} EntriesAppend(a: seq<string>, b: seq<string>)
    ensures Entries(a + b) == Entries(a) + Entries(b)
  {
    FilterMapAppend(a, b, Entry);
  }

  /** The entries are exactly the entries of the kept lines, one per kept
      line, in ascending line order; a line is kept exactly when `Entry`
      yields something for it. */
  lemma {:induction false} EntriesAreKeptLines(lines: seq<string>)
    ensures |Entries(lines)| == |KeptIndices(lines, Entry)| <= |lines|
    ensures forall j :: 0 <= j < |KeptIndices(lines, Entry)| ==>
              KeptIndices(lines, Entry)[j] < |lines| &&
              Entry(lines[KeptIndices(lines, Entry)[j]]) == Some(Entries(lines)[j])
    ensures forall j, k :: 0 <= j < k < |KeptIndices(lines, Entry)| ==>
              KeptIndices(lines, Entry)[j] < KeptIndices(lines, Entry)[k]
    ensures forall i :: 0 <= i < |lines| ==>
              (i in KeptIndices(lines, Entry) <==> Entry(lines[i]).Some?)
  {
    FilterMapLength(lines, Entry);
    FilterMapAt(lines, Entry);
    KeptIndicesAscend(lines, Entry);
    KeptIndicesMembers(lines, Entry);
  }

  /** An entry never names a Docker Desktop distribution. */
  lemma {:induction false} EntryNotDocker(line: string)
    ensures Entry(line).Some? ==>
              Lower(Entry(line).value.name) != "docker-desktop" &&
              Lower(Entry(line).value.name) != "docker-desktop-data"
  {
  }

  /** No entry is a Docker Desktop distribution, whatever its case. */
  lemma {:induction false} NoDockerEntries(lines: seq<string>)
    ensures forall d :: d in Entries(lines) ==>
              Lower(d.name) != "docker-desktop" && Lower(d.name) != "docker-desktop-data"
  {
    EntriesAreKeptLines(lines);
    forall d | d in Entries(lines)
      ensures Lower(d.name) != "docker-desktop" && Lower(d.name) != "docker-desktop-data"
    {
      var j :| 0 <= j < |Entries(lines)| && Entries(lines)[j] == d;
      EntryNotDocker(lines[KeptIndices(lines, Entry)[j]]);
    }
  }

  /** A distribution is listed exactly when some candidate line yields it. */
  lemma {:induction false} EntriesMembership(lines: seq<string>, d: Distro)
    ensures d in Entries(lines) <==> exists i :: 0 <= i < |lines| && Entry(lines[i]) == Some(d)
  {
    EntriesAreKeptLines(lines);
    var ks := KeptIndices(lines, Entry);
    if d in Entries(lines) {
      var j :| 0 <= j < |Entries(lines)| && Entries(lines)[j] == d;
      assert Entry(lines[ks[j]]) == Some(d);
    }
    if i :| 0 <= i < |lines| && Entry(lines[i]) == Some(d) {
      assert i in ks;
      var j :| 0 <= j < |ks| && ks[j] == i;
      assert Entries(lines)[j] == d;
    }
  }

  /** With a separator line after a separator-free header, neither the
      header nor the separator contributes: only the lines after it do. */
  lemma {:induction false} SeparatorHidesHeader(header: seq<string>, separator: string, body: seq<string>)
    requires forall j :: 0 <= j < |header| ==> !IsSeparatorLine(header[j])
    requires IsSeparatorLine(separator)
    ensures ParseLines(header + [separator] + body) == Entries(body)
  {
    var lines := header + [separator] + body;
    assert lines[|header|] == separator;
    assert forall j :: 0 <= j < |header| ==> lines[j] == header[j];
    assert lines[|header| + 1..] == body;
  }

  /** Without any separator line, the first line never contributes and
      every later line is a candidate. */
  lemma {:induction false} NoSeparatorSkipsFirst(first: string, rest: seq<string>)
    requires !IsSeparatorLine(first)
    requires forall j :: 0 <= j < |rest| ==> !IsSeparatorLine(rest[j])
    ensures ParseLines([first] + rest) == Entries(rest)
  {
    var lines := [first] + rest;
    assert forall j :: 1 <= j < |lines| ==> lines[j] == rest[j - 1];
    assert lines[1..] == rest;
  }

  /** Where the stretch that cleaning keeps starts in the line. */
  function CleanStart(line: string): nat
  {
    StripStart(line, IsSpace) + StripStart(Strip(line), IsStar) + StripStart(StripStars(Strip(line)), IsSpace)
  }

  predicate IsSpaceOrStar(c: char)
  {
    IsSpace(c) || IsStar(c)
  }

  /** Cleaning keeps one stretch of the line: everything cut off on either
      side is whitespace or `*`, and the kept stretch neither starts nor
      ends with whitespace. */
  lemma {:induction false} CleanNameShape(line: string)
    ensures KeptStretch(line, CleanStart(line), CleanName(line), IsSpaceOrStar)
    ensures CleanName(line) != [] ==>
              !IsSpace(CleanName(line)[0]) && !IsSpace(CleanName(line)[|CleanName(line)| - 1])
  {
    StripThriceKept(line, IsSpace, IsStar, IsSpace, IsSpaceOrStar);
    StripByShape(StripStars(Strip(line)), IsSpace);
  }

  /** A default-marked line loses both the marker and the annotation. */
  lemma {:induction false} DefaultMarkedLine()
    ensures Entry("* Ubuntu (Default)") == Some(Distro("Ubuntu"))
  {
    CleanMarkedLine();
    DropDefaultTag();
    assert !IsDockerName("Ubuntu") by {
      assert Lower("Ubuntu")[0] == 'u';
    }
  }

  lemma {:induction false} CleanMarkedLine()
    ensures CleanName("* Ubuntu (Default)") == "Ubuntu (Default)"
  {
    var name := "Ubuntu (Default)";
    assert "* " + name == "* Ubuntu (Default)";
    MarkedName(name);
  }

  /** The default marker and the one space after it are cut off a name
      that neither starts nor ends with whitespace or `*`. */
  lemma {:induction false} MarkedName(name: string)
    requires name != [] && !IsSpaceOrStar(name[0]) && !IsSpaceOrStar(name[|name| - 1])
    ensures CleanName("* " + name) == name
  {
    var spaced := " " + name;
    var line := "*" + spaced;
    assert "* " + name == line;
    assert Strip(line) == line by {
      StripByKeeps(line, IsSpace);
    }
    assert StripStars(line) == spaced by {
      assert line == "*" + spaced + "";
      StripByUnique("*", spaced, "", IsStar);
    }
    assert Strip(spaced) == name by {
      assert spaced == " " + name + "";
      StripByUnique(" ", name, "", IsSpace);
    }
  }

  lemma {:induction false} DropDefaultTag()
    ensures RemoveDefaultSuffix("Ubuntu (Default)") == "Ubuntu"
  {
    var name := "Ubuntu (Default)";
    assert name[|name| - |DefaultTag|..] == DefaultTag;
    assert name[..|name| - |DefaultTag|] == "Ubuntu" + " ";
    RStripSuffix("Ubuntu", " ", IsSpace);
  }

  /** A name of letters and dashes that does not end with `(Default)` is
      taken as it is. */
  lemma {:induction false} PlainLine(line: string)
    requires line != [] && !EndsWithDefaultTag(line)
    requires forall i :: 0 <= i < |line| ==> 'a' <= line[i] <= 'z' || 'A' <= line[i] <= 'Z' || line[i] == '-'
    ensures CleanName(line) == line && RemoveDefaultSuffix(line) == line
  {
    StripByKeeps(line, IsSpace);
    StripByKeeps(line, IsStar);
  }

  lemma {:induction false} HeaderLines()
    ensures !IsSeparatorLine("NAME") && IsSeparatorLine("----")
  {
    StripByKeeps("NAME", IsSpace);
    StripByKeeps("----", IsSpace);
  }

  lemma {:induction false} DebianLine()
    ensures Entry("Debian") == Some(Distro("Debian"))
  {
    PlainLine("Debian");
    assert Lower("Debian")[1] == 'e';
  }

  /** A lower-case dashed name that does not end with `(Default)` is its own
      entry name, lower-cased or not. */
  lemma {:induction false} LowerDashedLine(line: string)
    requires line != [] && !EndsWithDefaultTag(line)
    requires forall i :: 0 <= i < |line| ==> 'a' <= line[i] <= 'z' || line[i] == '-'
    ensures CleanName(line) == line && RemoveDefaultSuffix(line) == line && Lower(line) == line
  {
    PlainLine(line);
    LowerKeeps(line);
  }

  lemma {:induction false} DockerLine(line: string)
    requires line == "docker-desktop"
    ensures Entry(line) == None
  {
    assert forall i :: 0 <= i < |line| ==> 'a' <= line[i] <= 'z' || line[i] == '-';
    assert !EndsWithDefaultTag(line) by {
      assert line[5..][0] == 'r' != DefaultTag[0];
    }
    LowerDashedLine(line);
  }

  lemma {:induction false} DockerDataLine(line: string)
    requires line == "docker-desktop-data"
    ensures Entry(line) == None
  {
    assert forall i :: 0 <= i < |line| ==> 'a' <= line[i] <= 'z' || line[i] == '-';
    assert !EndsWithDefaultTag(line) by {
      assert line[10..][0] == 'k' != DefaultTag[0];
    }
    LowerDashedLine(line);
  }

  /** The entries of two lines. */
  lemma {:induction false} EntriesPair(a: string, b: string)
    ensures Entries([a, b]) == AsSeq(Entry(a)) + AsSeq(Entry(b))
  {
    FilterMapSnoc([], a, Entry);
    FilterMapSnoc([a], b, Entry);
    assert [] + [a] == [a] && [a] + [b] == [a, b];
  }

  lemma {:induction false} ExampleKept(marked: string, plain: string)
    requires marked == "* Ubuntu (Default)" && plain == "Debian"
    ensures Entries([marked, plain]) == [Distro("Ubuntu"), Distro("Debian")]
  {
    DefaultMarkedLine();
    DebianLine();
    EntriesPair(marked, plain);
  }

  lemma {:induction false} ExampleDropped(docker: string, dockerData: string)
    requires docker == "docker-desktop" && dockerData == "docker-desktop-data"
    ensures Entries([docker, dockerData]) == []
  {
    DockerLine(docker);
    DockerDataLine(dockerData);
    EntriesPair(docker, dockerData);
  }

  /** The lines after the separator in the documented example. */
  lemma {:induction false} ExampleEntries(marked: string, plain: string, docker: string, dockerData: string)
    requires marked == "* Ubuntu (Default)" && plain == "Debian"
    requires docker == "docker-desktop" && dockerData == "docker-desktop-data"
    ensures Entries([marked, plain, docker, dockerData]) == [Distro("Ubuntu"), Distro("Debian")]
  {
    ExampleKept(marked, plain);
    ExampleDropped(docker, dockerData);
    EntriesAppend([marked, plain], [docker, dockerData]);
    assert [marked, plain] + [docker, dockerData] == [marked, plain, docker, dockerData];
  }

  /** The documented example: a header, a separator, the default
      distribution, a second one and Docker Desktop's two give the two
      distributions, in order. */
  lemma {:induction false} ExampleListing()
    ensures ParseLines(["NAME", "----", "* Ubuntu (Default)", "Debian", "docker-desktop",
                        "docker-desktop-data"]) == [Distro("Ubuntu"), Distro("Debian")]
  {
    var body := ["* Ubuntu (Default)", "Debian", "docker-desktop", "docker-desktop-data"];
    assert ["NAME"] + ["----"] + body == ["NAME", "----", "* Ubuntu (Default)", "Debian", "docker-desktop",
                                          "docker-desktop-data"];
    HeaderLines();
    SeparatorHidesHeader(["NAME"], "----", body);
    ExampleEntries(body[0], body[1], body[2], body[3]);
  }
}
