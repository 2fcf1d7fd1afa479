/**
 The pieces of Python's string library that the WSL listing parsers rely on:
 `str.strip()` (with and without an argument), `str.split('\n')` and
 `str.lower()`, on strings modelled as sequences of characters.
 */
module PyText {

  /** Python's notion of whitespace (`str.isspace`), which is also what the
      `\s` class of a `str` regular expression matches. */
  predicate IsSpace(c: char)
  {
    ('\U{9}' <= c <= '\U{D}') || ('\U{1C}' <= c <= ' ') ||
    c == '\U{85}' || c == '\U{A0}' || c == '\U{1680}' ||
    ('\U{2000}' <= c <= '\U{200A}') || c == '\U{2028}' || c == '\U{2029}' ||
    c == '\U{202F}' || c == '\U{205F}' || c == '\U{3000}'
  }

  predicate IsStar(c: char) { c == '*' }

  predicate AllSpace(s: string)
  {
    forall i :: 0 <= i < |s| ==> IsSpace(s[i])
  }

  /** `s.lstrip(chars)`: drop the longest prefix made of dropped characters. */
  function LStrip(s: string, drop: char -> bool): string
  {
    if |s| > 0 && drop(s[0]) then LStrip(s[1..], drop) else s
  }

  /** `s.rstrip(chars)`: drop the longest suffix made of dropped characters. */
  function RStrip(s: string, drop: char -> bool): string
  {
    if |s| > 0 && drop(s[|s| - 1]) then RStrip(s[..|s| - 1], drop) else s
  }

  /** `s.strip(chars)` */
  function StripBy(s: string, drop: char -> bool): string
  {
    RStrip(LStrip(s, drop), drop)
  }

  /** What `LStrip` leaves is a suffix of the input; everything before it is
      dropped and its first character is not. */
  lemma {:induction false} LStripShape(s: string, drop: char -> bool)
    ensures |LStrip(s, drop)| <= |s| && LStrip(s, drop) == s[|s| - |LStrip(s, drop)|..]
    ensures forall i :: 0 <= i < |s| - |LStrip(s, drop)| ==> drop(s[i])
    ensures LStrip(s, drop) != [] ==> !drop(LStrip(s, drop)[0])
  {
    if |s| > 0 && drop(s[0]) {
      LStripShape(s[1..], drop);
    }
  }

  /** What `RStrip` leaves is a prefix of the input; everything after it is
      dropped and its last character is not. */
  lemma {:induction false} RStripShape(s: string, drop: char -> bool)
    ensures |RStrip(s, drop)| <= |s| && RStrip(s, drop) == s[..|RStrip(s, drop)|]
    ensures forall i :: |RStrip(s, drop)| <= i < |s| ==> drop(s[i])
    ensures RStrip(s, drop) != [] ==> !drop(RStrip(s, drop)[|RStrip(s, drop)| - 1])
  {
    if |s| > 0 && drop(s[|s| - 1]) {
      RStripShape(s[..|s| - 1], drop);
    }
  }

  /** `StripBy(s, drop)` is the slice of `s` from `StripStart(s, drop)` that
      remains once both runs of dropped characters are gone; its two ends
      are kept characters. */
  lemma {:induction false} StripByShape(s: string, drop: char -> bool)
    ensures StripStart(s, drop) + |StripBy(s, drop)| <= |s|
    ensures StripBy(s, drop) == s[StripStart(s, drop)..StripStart(s, drop) + |StripBy(s, drop)|]
    ensures forall i :: 0 <= i < StripStart(s, drop) ==> drop(s[i])
    ensures forall i :: StripStart(s, drop) + |StripBy(s, drop)| <= i < |s| ==> drop(s[i])
    ensures StripBy(s, drop) != [] ==> !drop(StripBy(s, drop)[0]) && !drop(StripBy(s, drop)[|StripBy(s, drop)| - 1])
  {
    var l := LStrip(s, drop);
    LStripShape(s, drop);
    RStripShape(l, drop);
  }

  /** Where the kept part of `StripBy(s, drop)` starts. */
  function StripStart(s: string, drop: char -> bool): nat
  {
    LStripShape(s, drop);
    |s| - |LStrip(s, drop)|
  }

  /** `inner` is the stretch of `outer` starting at `a`, and everything of
      `outer` around it is dropped. */
  predicate KeptStretch(outer: string, a: nat, inner: string, drop: char -> bool)
  {
    a + |inner| <= |outer| && outer[a..a + |inner|] == inner &&
    (forall i :: 0 <= i < a ==> drop(outer[i])) &&
    (forall i :: a + |inner| <= i < |outer| ==> drop(outer[i]))
  }

  lemma {:induction false} StripByKept(s: string, drop: char -> bool)
    ensures KeptStretch(s, StripStart(s, drop), StripBy(s, drop), drop)
  {
    StripByShape(s, drop);
  }

  /** Dropping more characters keeps a stretch a stretch. */
  lemma {:induction false} KeptWiden(outer: string, a: nat, inner: string, drop: char -> bool, wider: char -> bool)
    requires KeptStretch(outer, a, inner, drop)
    requires forall c :: drop(c) ==> wider(c)
    ensures KeptStretch(outer, a, inner, wider)
  {
  }

  /** A stretch of a stretch is a stretch of the whole. */
  lemma {:induction false} KeptCompose(x: string, a: nat, y: string, b: nat, z: string, drop: char -> bool)
    requires KeptStretch(x, a, y, drop) && KeptStretch(y, b, z, drop)
    ensures KeptStretch(x, a + b, z, drop)
  {
    assert forall k :: 0 <= k < |y| ==> y[k] == x[a + k];
    assert forall k :: 0 <= k < |z| ==> z[k] == y[b + k];
    forall i | 0 <= i < a + b ensures drop(x[i]) {
      if a <= i {
        assert x[i] == y[i - a];
      }
    }
    forall i | a + b + |z| <= i < |x| ensures drop(x[i]) {
      if i < a + |y| {
        assert x[i] == y[i - a];
      }
    }
  }

  /** `s.strip()` */
  function Strip(s: string): string
  {
    StripBy(s, IsSpace)
  }

  /** `s.strip('*')` */
  function StripStars(s: string): string
  {
    StripBy(s, IsStar)
  }

  /** Stripping a string whose ends are already kept changes nothing. */
  lemma {:induction false} StripByKeeps(s: string, drop: char -> bool)
    requires s != [] ==> !drop(s[0]) && !drop(s[|s| - 1])
    ensures StripBy(s, drop) == s
  {
    assert LStrip(s, drop) == s;
    assert RStrip(s, drop) == s;
  }

  /** Three strips in a row keep one stretch of the string, when each drops
      only characters `wider` drops. */
  lemma {:induction false} StripThriceKept(s: string, first: char -> bool, second: char -> bool,
                                           third: char -> bool, wider: char -> bool)
    requires forall c :: first(c) ==> wider(c)
    requires forall c :: second(c) ==> wider(c)
    requires forall c :: third(c) ==> wider(c)
    ensures var s1 := StripBy(s, first);
            var s2 := StripBy(s1, second);
            KeptStretch(s, StripStart(s, first) + StripStart(s1, second) + StripStart(s2, third),
                        StripBy(s2, third), wider)
  {
    var s1 := StripBy(s, first);
    var s2 := StripBy(s1, second);
    StripByKept(s, first);
    StripByKept(s1, second);
    StripByKept(s2, third);
    KeptWiden(s, StripStart(s, first), s1, first, wider);
    KeptWiden(s1, StripStart(s1, second), s2, second, wider);
    KeptWiden(s2, StripStart(s2, third), StripBy(s2, third), third, wider);
    KeptCompose(s, StripStart(s, first), s1, StripStart(s1, second), s2, wider);
    KeptCompose(s, StripStart(s, first) + StripStart(s1, second), s2,
                StripStart(s2, third), StripBy(s2, third), wider);
  }

  /** Stripping twice is stripping once. */
  lemma {:induction false} StripIdempotent(s: string, drop: char -> bool)
    ensures StripBy(StripBy(s, drop), drop) == StripBy(s, drop)
  {
    StripByShape(s, drop);
    StripByKeeps(StripBy(s, drop), drop);
  }

  /** A stripped string is exactly the input minus its dropped ends: any
      decomposition `pre + r + post` whose outer parts are dropped and whose
      middle has kept ends is the one `StripBy` finds. */
  lemma {:induction false} StripByUnique(pre: string, r: string, post: string, drop: char -> bool)
    requires forall i :: 0 <= i < |pre| ==> drop(pre[i])
    requires forall i :: 0 <= i < |post| ==> drop(post[i])
    requires r != [] && !drop(r[0]) && !drop(r[|r| - 1])
    ensures StripBy(pre + r + post, drop) == r
  {
    var s := pre + r + post;
    LStripPrefix(pre, r + post, drop);
    assert s == pre + (r + post);
    RStripSuffix(r, post, drop);
  }

  lemma {:induction false} LStripPrefix(pre: string, rest: string, drop: char -> bool)
    requires forall i :: 0 <= i < |pre| ==> drop(pre[i])
    requires rest != [] && !drop(rest[0])
    ensures LStrip(pre + rest, drop) == rest
  {
    if pre != [] {
      assert (pre + rest)[1..] == pre[1..] + rest;
      LStripPrefix(pre[1..], rest, drop);
    } else {
      assert pre + rest == rest;
    }
  }

  lemma {:induction false} RStripSuffix(rest: string, post: string, drop: char -> bool)
    requires forall i :: 0 <= i < |post| ==> drop(post[i])
    requires rest != [] && !drop(rest[|rest| - 1])
    ensures RStrip(rest + post, drop) == rest
  {
    if post != [] {
      var s := rest + post;
      assert s[..|s| - 1] == rest + post[..|post| - 1];
      RStripSuffix(rest, post[..|post| - 1], drop);
    } else {
      assert rest + post == rest;
    }
  }

  /** `s.split(sep)` with an explicit separator: the pieces between the
      separators, always at least one. */
  function Split(s: string, sep: char): (r: seq<string>)
    ensures |r| >= 1
    ensures forall k :: 0 <= k < |r| ==> sep !in r[k]
  {
    if |s| == 0 then [""]
    else
      var rest := Split(s[1..], sep);
      if s[0] == sep then [""] + rest
      else [[s[0]] + rest[0]] + rest[1..]
  }

  /** `text.strip().split('\n')`: how both listings are cut into lines. */
  function Lines(text: string): seq<string>
  {
    Split(Strip(text), '\n')
  }

  /** `sep.join(pieces)` */
  function Join(pieces: seq<string>, sep: char): string
    requires |pieces| >= 1
  {
    if |pieces| == 1 then pieces[0]
    else pieces[0] + [sep] + Join(pieces[1..], sep)
  }

  /** Splitting loses nothing: joining the pieces gives the text back. */
  lemma {:induction false} JoinSplit(s: string, sep: char)
    ensures Join(Split(s, sep), sep) == s
  {
    if |s| > 0 {
      var rest := Split(s[1..], sep);
      JoinSplit(s[1..], sep);
      if s[0] == sep {
        assert ([""] + rest)[1..] == rest;
        assert s == [sep] + s[1..];
      } else {
        var r := [[s[0]] + rest[0]] + rest[1..];
        if |rest| == 1 {
          assert s == [s[0]] + s[1..];
        } else {
          assert r[1..] == rest[1..];
          assert Join(rest, sep) == rest[0] + [sep] + Join(rest[1..], sep);
          assert s == [s[0]] + s[1..];
        }
      }
    }
  }

  /** The other direction: pieces free of the separator come back from a
      split of their join. */
  lemma {:induction false} SplitJoin(pieces: seq<string>, sep: char)
    requires |pieces| >= 1
    requires forall k :: 0 <= k < |pieces| ==> sep !in pieces[k]
    ensures Split(Join(pieces, sep), sep) == pieces
  {
    if |pieces| == 1 {
      SplitNoSep(pieces[0], sep);
    } else {
      SplitJoin(pieces[1..], sep);
      SplitPrefix(pieces[0], Join(pieces[1..], sep), sep);
      assert pieces == [pieces[0]] + pieces[1..];
    }
  }

  lemma {:induction false} SplitNoSep(s: string, sep: char)
    requires sep !in s
    ensures Split(s, sep) == [s]
  {
    if |s| > 0 {
      SplitNoSep(s[1..], sep);
      assert s == [s[0]] + s[1..];
    }
  }

  lemma {:induction false} SplitPrefix(w: string, t: string, sep: char)
    requires sep !in w
    ensures Split(w + [sep] + t, sep) == [w] + Split(t, sep)
  {
    var s := w + [sep] + t;
    if |w| == 0 {
      assert s[1..] == t;
    } else {
      assert s[1..] == w[1..] + [sep] + t;
      SplitPrefix(w[1..], t, sep);
      assert w == [w[0]] + w[1..];
    }
  }

  /** `c.lower()` where the answer is compared with an ASCII word: ASCII
      capitals and the Kelvin sign (whose lower-case form is `k`) become
      ASCII letters; every other character keeps a form outside ASCII's
      letters or is already lower-case. */
  function LowerChar(c: char): char
  {
    if 'A' <= c <= 'Z' then (c as int + 32) as char
    else if c == '\U{212A}' then 'k'
    else c
  }

  /** `s.lower()` */
  function Lower(s: string): string
  {
    if s == [] then [] else [LowerChar(s[0])] + Lower(s[1..])
  }

  /** Lower-casing works character by character. */
  lemma {:induction false} LowerChars(s: string)
    ensures |Lower(s)| == |s|
    ensures forall i :: 0 <= i < |s| ==> Lower(s)[i] == LowerChar(s[i])
  {
    if s != [] {
      LowerChars(s[1..]);
    }
  }

  /** Lower-casing changes no character that has no upper-case form in the
      model. */
  lemma {:induction false} LowerKeeps(s: string)
    requires forall i :: 0 <= i < |s| ==> !('A' <= s[i] <= 'Z') && s[i] != '\U{212A}'
    ensures Lower(s) == s
  {
    if s != [] {
      LowerKeeps(s[1..]);
    }
  }
}
