/**
 The running-state lookup: reading the decoded output of `wsl -l -v` and
 telling whether one distribution is running.

 The header line is skipped. Every later line is matched, from its start,
 against the row pattern `\s*(\*?)\s*(.+?)\s{2,}(\w+)\s+(\d+)`; the first
 line whose stripped name group equals the queried name decides, by whether
 its state group, lower-cased, is `running`. No deciding line means "not
 running".

 The pattern is modelled by hand rather than by a regular-expression
 engine: the tail `\s{2,}(\w+)\s+(\d+)` leaves the engine no choices, and
 the engine's backtracking order for the rest (the greedy optional prefix,
 then the lazy name) is written out as two searches.
 */
module DistroState {
  import opened Wrappers
  import opened PyText
  import opened Seqs

  /** `\w`, on ASCII. */
  predicate IsWordChar(c: char)
  {
    'a' <= c <= 'z' || 'A' <= c <= 'Z' || '0' <= c <= '9' || c == '_'
  }

  /** `\d`, on ASCII. */
  predicate IsDigit(c: char)
  {
    '0' <= c <= '9'
  }

  /** The length of the longest run of characters satisfying `p` that starts
      at `i`: what a greedy `p+` or `p*` consumes there. */
  function Run(row: string, i: nat, p: char -> bool): (n: nat)
    ensures i <= |row| ==> i + n <= |row|
    decreases |row| - i
  {
    if i < |row| && p(row[i]) then 1 + Run(row, i + 1, p) else 0
  }

  /** Every character of the run is in the class and the one after it is not. */
  lemma {:induction false} RunShape(row: string, i: nat, p: char -> bool)
    requires i <= |row|
    ensures forall k :: i <= k < i + Run(row, i, p) ==> p(row[k])
    ensures i + Run(row, i, p) == |row| || !p(row[i + Run(row, i, p)])
    decreases |row| - i
  {
    if i < |row| && p(row[i]) {
      RunShape(row, i + 1, p);
    }
  }

  /** The tail `\s{2,}(\w+)\s+(\d+)` matches at `q`. */
  predicate TailAt(row: string, q: nat)
  {
    q <= |row| &&
    var w := Run(row, q, IsSpace);
    var k := Run(row, q + w, IsWordChar);
    w >= 2 && k >= 1 &&
    var v := Run(row, q + w + k, IsSpace);
    v >= 1 && q + w + k + v < |row| && IsDigit(row[q + w + k + v])
  }

  /** The state group of the tail matching at `q`. */
  function StateAt(row: string, q: nat): string
    requires TailAt(row, q)
  {
    var w := Run(row, q, IsSpace);
    var k := Run(row, q + w, IsWordChar);
    row[q + w..q + w + k]
  }

  /** Where the name group starts on the first attempt: after the greedy
      `\s*`, the optional `*` and the second greedy `\s*`. */
  function PrefixEnd(row: string): (p: nat)
    ensures p <= |row|
  {
    var a := Run(row, 0, IsSpace);
    if a < |row| && row[a] == '*' then a + 1 + Run(row, a + 1, IsSpace) else a
  }

  /** The positions where the tail matches. */
  function Tails(row: string): nat -> bool
  {
    (q: nat) => TailAt(row, q)
  }

  /** The lazy `.+?`: the smallest position in `from..hi` satisfying `tail`. */
  function FirstTail(from: nat, hi: nat, tail: nat -> bool): (r: Option<nat>)
    ensures r.Some? ==> from <= r.value <= hi && tail(r.value)
    ensures r.Some? ==> forall q :: from <= q < r.value ==> !tail(q)
    ensures r.None? ==> forall q :: from <= q <= hi ==> !tail(q)
    decreases hi + 1 - from
  {
    if from > hi then None
    else if tail(from) then Some(from)
    else FirstTail(from + 1, hi, tail)
  }

  /** Backtracking into the prefix: name starts `p`, `p - 1`, ..., `0` are
      tried in turn, each with its smallest tail after it. The name start
      found is the latest one with any tail after it. */
  function MatchFrom(p: nat, hi: nat, tail: nat -> bool): (r: Option<(nat, nat)>)
    ensures r.Some? ==> r.value.0 <= p && FirstTail(r.value.0 + 1, hi, tail) == Some(r.value.1)
    ensures r.Some? ==> forall q :: r.value.0 + 1 < q <= hi && r.value.0 < p ==> !tail(q)
    ensures r.None? ==> forall q :: 1 <= q <= hi ==> !tail(q)
    decreases p
  {
    match FirstTail(p + 1, hi, tail)
    case Some(q) => Some((p, q))
    case None => if p == 0 then None else MatchFrom(p - 1, hi, tail)
  }

  /** The span of the name group when the row matches. */
  function MatchSpan(row: string): Option<(nat, nat)>
  {
    MatchFrom(PrefixEnd(row), |row|, Tails(row))
  }

  /** Groups 2 (name) and 3 (state) of a match. */
  datatype RowMatch = RowMatch(name: string, state: string)

  /** `re.match(pattern, row)`, reduced to the two groups the caller reads. */
  function MatchRow(row: string): Option<RowMatch>
  {
    match MatchSpan(row)
    case None => None
    case Some((p, q)) => Some(RowMatch(row[p..q], StateAt(row, q)))
  }

  // ---------------------------------------------------------------------
  // The pattern, stated declaratively

  /** `\s*\*?\s*` matches all of `s`: whitespace and at most one `*`. */
  ghost predicate PrefixShape(s: string)
  {
    (forall i :: 0 <= i < |s| ==> IsSpace(s[i]) || s[i] == '*') &&
    (forall i, j :: 0 <= i < |s| && 0 <= j < |s| && s[i] == '*' && s[j] == '*' ==> i == j)
  }

  /** One way the whole pattern can match `row`: the name group is
      `row[p..q]` (no line feed, as `.` demands), followed by `w` whitespace
      characters, the state group, `v` whitespace characters and a digit. */
  ghost predicate IsRegexMatch(row: string, p: nat, q: nat, w: nat, state: string, v: nat)
  {
    p < q && q + w + |state| + v < |row| &&
    PrefixShape(row[..p]) &&
    (forall i :: p <= i < q ==> row[i] != '\n') &&
    w >= 2 && (forall i :: q <= i < q + w ==> IsSpace(row[i])) &&
    |state| >= 1 && row[q + w..q + w + |state|] == state &&
    (forall i :: 0 <= i < |state| ==> IsWordChar(state[i])) &&
    v >= 1 && (forall i :: q + w + |state| <= i < q + w + |state| + v ==> IsSpace(row[i])) &&
    IsDigit(row[q + w + |state| + v])
  }

  /** A run whose end is not in the class has the length `Run` reports. */
  lemma {:induction false} RunExact(row: string, i: nat, n: nat, p: char -> bool)
    requires i + n <= |row|
    requires forall k :: i <= k < i + n ==> p(row[k])
    requires i + n == |row| || !p(row[i + n])
    ensures Run(row, i, p) == n
    decreases n
  {
    if n > 0 {
      RunExact(row, i + 1, n - 1, p);
    }
  }

  /** The prefix can end exactly at the positions up to `PrefixEnd`. */
  lemma {:induction false} PrefixShapeBound(row: string, p: nat)
    requires p <= |row|
    ensures PrefixShape(row[..p]) <==> p <= PrefixEnd(row)
  {
    var a := Run(row, 0, IsSpace);
    var p0 := PrefixEnd(row);
    var s := row[..p];
    RunShape(row, 0, IsSpace);
    if a < |row| && row[a] == '*' {
      RunShape(row, a + 1, IsSpace);
    }
    if p <= p0 {
      if a < |row| && row[a] == '*' {
        var b := Run(row, a + 1, IsSpace);
        assert forall i :: 0 <= i < |s| && i != a ==> IsSpace(s[i]);
      } else {
        assert forall i :: 0 <= i < |s| ==> IsSpace(s[i]);
      }
    } else {
      assert s[p0] == row[p0];
      if a < |row| && row[a] == '*' {
        assert s[a] == '*';
        assert !IsSpace(row[p0]);
        assert !PrefixShape(s);
      } else {
        assert !IsSpace(row[a]) && row[a] != '*';
        assert !PrefixShape(s);
      }
    }
  }

  /** Word characters and whitespace never overlap. */
  lemma WordIsNotSpace(c: char)
    ensures IsWordChar(c) ==> !IsSpace(c)
    ensures IsDigit(c) ==> !IsSpace(c)
  {
  }

  /** Any declarative match has its tail where `TailAt` finds one, with the
      same state group, and its prefix ends no later than `PrefixEnd`. */
  lemma {:induction false} RegexMatchIsTail(row: string, p: nat, q: nat, w: nat, state: string, v: nat)
    requires IsRegexMatch(row, p, q, w, state, v)
    ensures TailAt(row, q) && StateAt(row, q) == state
    ensures p <= PrefixEnd(row)
  {
    RegexMatchParts(row, p, q, w, state, v);
    var k := |state|;
    WordIsNotSpace(row[q + w]);
    RunExact(row, q, w, IsSpace);
    RunExact(row, q + w, k, IsWordChar);
    WordIsNotSpace(row[q + w + k + v]);
    RunExact(row, q + w + k, v, IsSpace);
    PrefixShapeBound(row, p);
  }

  /** The parts of a declarative match, stated on the row's positions. */
  lemma {:induction false} RegexMatchParts(row: string, p: nat, q: nat, w: nat, state: string, v: nat)
    requires IsRegexMatch(row, p, q, w, state, v)
    ensures p < q && w >= 2 && |state| >= 1 && v >= 1 && q + w + |state| + v < |row|
    ensures forall i :: q <= i < q + w ==> IsSpace(row[i])
    ensures forall i :: q + w <= i < q + w + |state| ==> IsWordChar(row[i])
    ensures forall i :: q + w + |state| <= i < q + w + |state| + v ==> IsSpace(row[i])
    ensures IsDigit(row[q + w + |state| + v])
    ensures row[q + w..q + w + |state|] == state
  {
    forall i | q + w <= i < q + w + |state| ensures IsWordChar(row[i]) {
      assert row[i] == state[i - (q + w)];
    }
  }

  /** A tail after an admissible prefix end gives a declarative match. */
  lemma {:induction false} TailIsRegexMatch(row: string, p: nat, q: nat)
    requires '\n' !in row
    requires p < q && TailAt(row, q) && p <= PrefixEnd(row)
    ensures exists w: nat, v: nat :: IsRegexMatch(row, p, q, w, StateAt(row, q), v)
  {
    PrefixShapeBound(row, p);
    var w := Run(row, q, IsSpace);
    var k := Run(row, q + w, IsWordChar);
    var v := Run(row, q + w + k, IsSpace);
    TailRuns(row, q, w, k, v, IsSpace, IsWordChar);
    assert StateAt(row, q) == row[q + w..q + w + k];
    RunsAreRegexMatch(row, p, q, w, k, v);
  }

  /** The regular expression's parts, for runs whose lengths are given. */
  lemma {:induction false} RunsAreRegexMatch(row: string, p: nat, q: nat, w: nat, k: nat, v: nat)
    requires p < q && w >= 2 && k >= 1 && v >= 1 && q + w + k + v < |row|
    requires '\n' !in row && PrefixShape(row[..p])
    requires forall i :: q <= i < q + w ==> IsSpace(row[i])
    requires forall i :: q + w <= i < q + w + k ==> IsWordChar(row[i])
    requires forall i :: q + w + k <= i < q + w + k + v ==> IsSpace(row[i])
    requires IsDigit(row[q + w + k + v])
    ensures IsRegexMatch(row, p, q, w, row[q + w..q + w + k], v)
  {
    var s := row[q + w..q + w + k];
    assert forall i :: 0 <= i < |s| ==> IsWordChar(s[i]) by {
      forall i | 0 <= i < |s| ensures IsWordChar(s[i]) {
        assert s[i] == row[q + w + i];
      }
    }
    assert forall i :: p <= i < q ==> row[i] != '\n' by {
      forall i | p <= i < q ensures row[i] != '\n' {
        assert row[i] in row;
      }
    }
  }

  /** The three runs of a tail, for any classes of spaces and word
      characters: each character of a run is in its class. */
  lemma {:induction false} TailRuns(row: string, q: nat, w: nat, k: nat, v: nat,
                                    space: char -> bool, word: char -> bool)
    requires q <= |row|
    requires w == Run(row, q, space) && k == Run(row, q + w, word) && v == Run(row, q + w + k, space)
    ensures q + w + k + v <= |row|
    ensures forall i :: q <= i < q + w ==> space(row[i])
    ensures forall i :: q + w <= i < q + w + k ==> word(row[i])
    ensures forall i :: q + w + k <= i < q + w + k + v ==> space(row[i])
  {
    RunShape(row, q, space);
    RunShape(row, q + w, word);
    RunShape(row, q + w + k, space);
  }

  /** The span `MatchSpan` finds has a tail at its end and starts no later
      than the prefix ends. */
  lemma {:induction false} MatchSpanFound(row: string)
    requires MatchSpan(row).Some?
    ensures var (p, q) := MatchSpan(row).value;
            p < q && TailAt(row, q) && p <= PrefixEnd(row)
  {
    var (p, q) := MatchSpan(row).value;
    assert Tails(row)(q);
  }

  /** `MatchSpan` is the match Python's backtracking engine reports: a row
      that matches the pattern in any way is found, with the latest name
      start the prefix allows and, for that start, the earliest name end;
      the state group is then forced. */
  lemma {:induction false} MatchSpanOptimal(row: string, p: nat, q: nat, w: nat, state: string, v: nat)
    requires IsRegexMatch(row, p, q, w, state, v)
    ensures MatchSpan(row).Some?
    ensures p <= MatchSpan(row).value.0
    ensures p == MatchSpan(row).value.0 ==> MatchSpan(row).value.1 <= q
    ensures MatchSpan(row).value == (p, q) ==> state == StateAt(row, q)
  {
    RegexMatchIsTail(row, p, q, w, state, v);
    assert Tails(row)(q);
  }

  // ---------------------------------------------------------------------
  // The lookup

  /** The state a row reports for `query`: the row matches and its stripped
      name group equals `query` exactly. */
  function RowState(row: string, query: string): Option<string>
  {
    match MatchRow(row)
    case None => None
    case Some(m) => if Strip(m.name) == query then Some(Strip(m.state)) else None
  }

  /** The rows that report a state for `query`. */
  function Reports(query: string): string -> bool
  {
    row => RowState(row, query).Some?
  }

  /** Whether split rows say `query` is running: the first row after the
      header that reports a state for it decides. */
  function RunningInRows(rows: seq<string>, query: string): bool
  {
    if rows == [] then false
    else
      match FirstIndex(rows[1..], Reports(query))
      case Some(k) => Lower(RowState(rows[k + 1], query).value) == "running"
      case None => false
  }

  /** The specification of `IsDistroRunning`. */
  function IsRunningIn(output: string, query: string): bool
  {
    RunningInRows(Lines(output), query)
  }

  /** `is_distro_running`: a loop over the rows after the header that
      returns at the first row naming the distribution. */
  method IsDistroRunning(output: string, distroName: string) returns (running: bool)
    ensures running == IsRunningIn(output, distroName)
  {
    var lines := Lines(output);
    var rows := lines[1..];
    var i := 0;
    while i < |rows|
      invariant i <= |rows|
      invariant FirstIndex(rows[..i], Reports(distroName)) == None
    {
      FirstIndexExtend(rows, i, Reports(distroName));
      var state := RowReport(rows[i], distroName);
      if state.Some? {
        assert rows[i] == lines[i + 1];
        return Lower(state.value) == "running";
      }
      i := i + 1;
    }
    assert rows[..i] == rows;
    return false;
  }

  /** One pass of the loop in `is_distro_running`: match the row, strip the
      name and state groups and compare the name with the query. */
  method RowReport(row: string, distroName: string) returns (state: Option<string>)
    ensures state == RowState(row, distroName)
  {
    var m := MatchRow(row);
    if m.Some? {
      var name := Strip(m.value.name);
      if name == distroName {
        return Some(Strip(m.value.state));
      }
    }
    return None;
  }

  // ---------------------------------------------------------------------
  // Properties of the lookup

  /** The answer is `true` exactly when some row after the header reports
      `running` (in any case) for the distribution and no row between the
      header and it reports anything for the distribution. */
  lemma {:induction false} RunningIffFirstReportRuns(rows: seq<string>, query: string)
    ensures RunningInRows(rows, query) <==>
              exists i :: 1 <= i < |rows| && RowState(rows[i], query).Some? &&
                Lower(RowState(rows[i], query).value) == "running" &&
                forall j :: 1 <= j < i ==> RowState(rows[j], query).None?
  {
    if rows != [] {
      FirstAfterHeaderDecides(rows, Reports(query), row => RowState(row, query), state => Lower(state) == "running");
    }
  }

  /** The same over any rows and any reading of a row: the first row after
      the header that reports something decides. */
  lemma {:induction false} FirstAfterHeaderDecides<T>(rows: seq<string>, reports: string -> bool,
                                                      state: string -> Option<T>, decides: T -> bool)
    requires rows != []
    requires forall row :: reports(row) == state(row).Some?
    ensures (match FirstIndex(rows[1..], reports)
             case Some(k) => decides(state(rows[k + 1]).value)
             case None => false) <==>
            exists i :: 1 <= i < |rows| && state(rows[i]).Some? && decides(state(rows[i]).value) &&
              forall j :: 1 <= j < i ==> state(rows[j]).None?
  {
    var tail := rows[1..];
    match FirstIndex(tail, reports)
    case Some(k) =>
      assert rows[k + 1] == tail[k];
      forall j | 1 <= j < k + 1 ensures state(rows[j]).None? {
        assert rows[j] == tail[j - 1];
      }
      if i :| 1 <= i < |rows| && state(rows[i]).Some? && decides(state(rows[i]).value) &&
              forall j :: 1 <= j < i ==> state(rows[j]).None? {
        assert i == k + 1;
      }
    case None =>
      forall i | 1 <= i < |rows| ensures state(rows[i]).None? {
        assert rows[i] == tail[i - 1];
      }
  }

  /** No row after the header reporting a state for the distribution means
      "not running": the lookup never fails. */
  lemma {:induction false} NoReportNotRunning(rows: seq<string>, query: string)
    requires forall j :: 1 <= j < |rows| ==> RowState(rows[j], query).None?
    ensures !RunningInRows(rows, query)
  {
    if rows != [] {
      var tail := rows[1..];
      assert forall j :: 0 <= j < |tail| ==> tail[j] == rows[j + 1];
    }
  }

  /** The header line is never inspected: whatever it says, even when it
      looks like a row naming the distribution, the answer is the same. */
  lemma {:induction false} HeaderNeverInspected(header1: string, header2: string, rest: seq<string>, query: string)
    ensures RunningInRows([header1] + rest, query) == RunningInRows([header2] + rest, query)
  {
    var a, b := [header1] + rest, [header2] + rest;
    assert a[1..] == rest == b[1..];
  }

  // ---------------------------------------------------------------------
  // The documented example

  /** The facts about the documented row that decide its match. */
  lemma {:induction false} ExampleRowFacts(row: string)
    requires row == "* Ubuntu    Running    2"
    ensures '\n' !in row && PrefixEnd(row) == 2
    ensures forall k :: 2 < k < 8 ==> !IsSpace(row[k])
    ensures row[2..8] == "Ubuntu"
  {
    ExampleRowPrefix(row);
    assert row[2..8] == "Ubuntu" by {
      assert forall k :: 0 <= k < 6 ==> row[2..8][k] == "Ubuntu"[k];
    }
  }

  lemma {:induction false} ExampleRowRegex(row: string)
    requires row == "* Ubuntu    Running    2"
    ensures IsRegexMatch(row, 2, 8, 4, "Running", 4)
  {
    ExampleRowPrefix(row);
    assert row[12..19] == "Running";
    RunsAreRegexMatch(row, 2, 8, 4, 7, 4);
  }

  lemma {:induction false} ExampleRowPrefix(row: string)
    requires row == "* Ubuntu    Running    2"
    ensures PrefixShape(row[..2]) && PrefixEnd(row) == 2
  {
    assert row[..2] == "* ";
    PrefixEndAfterMarker(row);
  }

  /** The pattern matches the documented row with name `Ubuntu` and state
      `Running`. */
  lemma {:induction false} ExampleRowMatch(row: string)
    requires row == "* Ubuntu    Running    2"
    ensures MatchRow(row) == Some(RowMatch("Ubuntu", "Running"))
  {
    ExampleRowFacts(row);
    ExampleRowRegex(row);
    MatchedAt(row, 2, 8, 4, "Running", 4);
  }

  /** A row that matches with name start `p` at the end of its prefix and
      no whitespace between `p + 1` and `q` is matched with name
      `row[p..q]`. */
  lemma {:induction false} MatchedAt(row: string, p: nat, q: nat, w: nat, state: string, v: nat)
    requires '\n' !in row && IsRegexMatch(row, p, q, w, state, v) && PrefixEnd(row) == p
    requires forall k :: p < k < q ==> !IsSpace(row[k])
    ensures MatchRow(row) == Some(RowMatch(row[p..q], state))
  {
    MatchSpanOptimal(row, p, q, w, state, v);
    MatchSpanFound(row);
  }

  /** A row starting with the default marker and one space has its name
      start right after them. */
  lemma {:induction false} PrefixEndAfterMarker(row: string)
    requires |row| >= 3 && row[0] == '*' && row[1] == ' ' && !IsSpace(row[2])
    ensures PrefixEnd(row) == 2
  {
    RunExact(row, 0, 0, IsSpace);
    RunExact(row, 1, 1, IsSpace);
  }

  /** The row reports state `Running` for `Ubuntu`. */
  lemma {:induction false} ExampleRowState(row: string)
    requires row == "* Ubuntu    Running    2"
    ensures RowState(row, "Ubuntu") == Some("Running")
  {
    assert Strip("Ubuntu") == "Ubuntu" by {
      StripByKeeps("Ubuntu", IsSpace);
    }
    assert Strip("Running") == "Running" by {
      StripByKeeps("Running", IsSpace);
    }
    ExampleRowMatch(row);
  }

  lemma {:induction false} RunningLowered()
    ensures Lower("Running") == "running"
  {
    LowerChars("Running");
    assert forall i :: 0 <= i < 7 ==> Lower("Running")[i] == "running"[i];
  }

  /** The documented example: after any header, the row
      `* Ubuntu    Running    2` makes `Ubuntu` running. */
  lemma {:induction false} ExampleRunning(header: string, row: string)
    requires row == "* Ubuntu    Running    2"
    ensures RunningInRows([header, row], "Ubuntu")
  {
    ExampleRowState(row);
    var rows := [header, row];
    assert rows[1..] == [row];
    assert FirstIndex([row], Reports("Ubuntu")) == Some(0);
    RunningLowered();
  }
}
