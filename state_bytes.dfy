/**
 How the running-state lookup reads the bytes `wsl -l -v` prints.

 The inventory reader decodes the same tool's output as UTF-16LE
 (main.py:206), but the running-state lookup has `subprocess.run` decode it
 as UTF-8 through a text-mode pipe, which also translates newlines
 (main.py:253). Read as UTF-8, UTF-16LE text of ASCII characters is the
 text with a NUL after every character, and it keeps those NULs through the
 translation; NUL is not whitespace, so
 no line has the two adjacent whitespace characters the row pattern needs
 before the state column, nothing matches, and every distribution is
 reported as not running.

 This module states both readings on ASCII listings: the UTF-8 reading as
 written, proved never to report a distribution running, and the UTF-16LE
 reading, proved to give back the listing text that the rest of the model
 works on.
 */
module StateBytes {
  import opened PyText
  import opened DistroState

  newtype byte = x: int | 0 <= x < 256

  predicate IsAsciiText(text: string)
  {
    forall i :: 0 <= i < |text| ==> (text[i] as int) < 128
  }

  predicate IsAsciiBytes(bytes: seq<byte>)
  {
    forall i :: 0 <= i < |bytes| ==> bytes[i] < 128
  }

  /** The UTF-16LE encoding of ASCII text: each character is its code and a
      zero byte. */
  function EncodeUtf16Le(text: string): (r: seq<byte>)
    requires IsAsciiText(text)
    ensures |r| == 2 * |text|
    ensures forall i :: 0 <= i < |text| ==> r[2 * i] == text[i] as int as byte
    ensures forall i :: 0 <= i < |r| ==> r[i] < 128 && (i % 2 == 1 ==> r[i] == 0)
  {
    if text == [] then []
    else
      var rest := EncodeUtf16Le(text[1..]);
      assert forall i :: 2 <= i < 2 + |rest| ==> (i - 2) % 2 == i % 2;
      [text[0] as int as byte, 0] + rest
  }

  /** UTF-8 decoding of ASCII bytes: each byte is one character. */
  function DecodeUtf8Ascii(bytes: seq<byte>): (r: string)
    requires IsAsciiBytes(bytes)
    ensures |r| == |bytes|
    ensures forall i :: 0 <= i < |bytes| ==> r[i] as int == bytes[i] as int
  {
    if bytes == [] then []
    else [bytes[0] as int as char] + DecodeUtf8Ascii(bytes[1..])
  }

  /** Whole code units whose high byte is zero: UTF-16LE of ASCII text. */
  predicate HighBytesZero(bytes: seq<byte>)
  {
    |bytes| % 2 == 0 && forall i :: 0 <= i < |bytes| && i % 2 == 1 ==> bytes[i] == 0
  }

  /** UTF-16LE decoding of byte pairs whose high byte is zero. */
  function DecodeUtf16LeAscii(bytes: seq<byte>): (r: string)
    requires HighBytesZero(bytes)
    ensures |r| == |bytes| / 2
    ensures forall i :: 0 <= i < |r| ==> r[i] as int == bytes[2 * i] as int
  {
    if bytes == [] then []
    else
      assert forall i :: 0 <= i < |bytes[2..]| ==> bytes[2..][i] == bytes[i + 2];
      [bytes[0] as int as char] + DecodeUtf16LeAscii(bytes[2..])
  }

  /** The newline translation of a text-mode pipe: `\r\n` and a lone `\r`
      both become `\n`. */
  function TranslateNewlines(s: string): (r: string)
    ensures |r| <= |s|
    ensures '\r' !in r
    ensures '\r' !in s ==> r == s
  {
    if s == [] then []
    else if s[0] == '\r' then
      if |s| >= 2 && s[1] == '\n' then "\n" + TranslateNewlines(s[2..]) else "\n" + TranslateNewlines(s[1..])
    else
      assert '\r' !in s ==> '\r' !in s[1..] by {
        assert forall c :: c in s[1..] ==> c in s;
      }
      [s[0]] + TranslateNewlines(s[1..])
  }

  /** `is_distro_running` as written: the listing bytes read as UTF-8 by a
      text-mode pipe, which also translates newlines. */
  predicate RunningAsWritten(bytes: seq<byte>, name: string)
    requires IsAsciiBytes(bytes)
  {
    IsRunningIn(TranslateNewlines(DecodeUtf8Ascii(bytes)), name)
  }

  /** `is_distro_running` reading the bytes as UTF-16LE, as the inventory
      reader does. */
  predicate RunningDecoded(bytes: seq<byte>, name: string)
    requires HighBytesZero(bytes)
  {
    IsRunningIn(DecodeUtf16LeAscii(bytes), name)
  }

  // ---------------------------------------------------------------------
  // No two adjacent whitespace characters

  predicate NoAdjacentSpace(s: string)
  {
    forall i :: 0 <= i < |s| - 1 ==> !(IsSpace(s[i]) && IsSpace(s[i + 1]))
  }

  /** A row without two adjacent whitespace characters never matches the
      row pattern, whose tail needs `\s{2,}`. */
  lemma {:induction false} NoAdjacentSpaceNoMatch(row: string)
    requires NoAdjacentSpace(row)
    ensures MatchRow(row).None?
  {
    if MatchSpan(row).Some? {
      var q := MatchSpan(row).value.1;
      assert TailAt(row, q);
      RunShape(row, q, IsSpace);
      assert false;
    }
  }

  lemma {:induction false} NoAdjacentSpaceSlice(s: string, a: nat, b: nat)
    requires NoAdjacentSpace(s) && a <= b <= |s|
    ensures NoAdjacentSpace(s[a..b])
  {
    assert forall i :: 0 <= i < b - a ==> s[a..b][i] == s[a + i];
  }

  /** The first piece of a split is a prefix of the text. */
  lemma {:induction false} SplitFirstIsPrefix(s: string, sep: char)
    ensures |Split(s, sep)[0]| <= |s| && Split(s, sep)[0] == s[..|Split(s, sep)[0]|]
  {
    if |s| > 0 && s[0] != sep {
      SplitFirstIsPrefix(s[1..], sep);
    }
  }

  /** Splitting keeps the property in every piece. */
  lemma {:induction false} SplitNoAdjacentSpace(s: string, sep: char)
    requires NoAdjacentSpace(s)
    ensures forall k :: 0 <= k < |Split(s, sep)| ==> NoAdjacentSpace(Split(s, sep)[k])
  {
    if |s| > 0 {
      NoAdjacentSpaceSlice(s, 1, |s|);
      SplitNoAdjacentSpace(s[1..], sep);
      SplitFirstIsPrefix(s, sep);
      NoAdjacentSpaceSlice(s, 0, |Split(s, sep)[0]|);
      var rest := Split(s[1..], sep);
      if s[0] == sep {
        assert forall k :: 1 <= k < |Split(s, sep)| ==> Split(s, sep)[k] == rest[k - 1];
      } else {
        assert forall k :: 1 <= k < |Split(s, sep)| ==> Split(s, sep)[k] == rest[k];
      }
    }
  }

  /** No two adjacent characters are both other than NUL. */
  predicate NulSeparated(s: string)
  {
    forall i :: 0 <= i < |s| - 1 ==> s[i] == '\0' || s[i + 1] == '\0'
  }

  /** In text where NULs separate the other characters, no `\r` is followed
      by `\n`, so the translation turns each `\r` into `\n` in place and
      the NULs stay where they were. */
  lemma {:induction false} TranslateNulSeparated(s: string)
    requires NulSeparated(s)
    ensures |TranslateNewlines(s)| == |s|
    ensures forall i :: 0 <= i < |s| ==>
              TranslateNewlines(s)[i] == if s[i] == '\r' then '\n' else s[i]
  {
    if s != [] {
      assert NulSeparated(s[1..]) by {
        assert forall i :: 0 <= i < |s| - 1 ==> s[1..][i] == s[i + 1];
      }
      TranslateNulSeparated(s[1..]);
      var rest := TranslateNewlines(s[1..]);
      assert TranslateNewlines(s) == [if s[0] == '\r' then '\n' else s[0]] + rest;
    }
  }

  /** UTF-16LE text read as UTF-8 has a NUL in every other position, and
      still does after the newline translation. */
  lemma {:induction false} MisreadHasNoAdjacentSpace(text: string)
    requires IsAsciiText(text)
    ensures IsAsciiBytes(EncodeUtf16Le(text))
    ensures NoAdjacentSpace(TranslateNewlines(DecodeUtf8Ascii(EncodeUtf16Le(text))))
  {
    var s := DecodeUtf8Ascii(EncodeUtf16Le(text));
    assert forall i :: 0 <= i < |s| && i % 2 == 1 ==> s[i] == '\0';
    assert NulSeparated(s) by {
      forall i | 0 <= i < |s| - 1 ensures s[i] == '\0' || s[i + 1] == '\0' {
        if i % 2 == 0 {
          assert (i + 1) % 2 == 1;
        }
      }
    }
    TranslateNulSeparated(s);
    var t := TranslateNewlines(s);
    forall i | 0 <= i < |t| - 1 ensures !(IsSpace(t[i]) && IsSpace(t[i + 1])) {
      assert s[i] == '\0' || s[i + 1] == '\0';
    }
  }

  // ---------------------------------------------------------------------
  // The two readings

  /** As written, the lookup reports no ASCII listing's distribution as
      running, whatever the listing says. */
  lemma {:induction false} MisreadNeverRunning(text: string, name: string)
    requires IsAsciiText(text)
    ensures IsAsciiBytes(EncodeUtf16Le(text))
    ensures !RunningAsWritten(EncodeUtf16Le(text), name)
  {
    MisreadHasNoAdjacentSpace(text);
    var s := TranslateNewlines(DecodeUtf8Ascii(EncodeUtf16Le(text)));
    StripByShape(s, IsSpace);
    NoAdjacentSpaceSlice(s, StripStart(s, IsSpace), StripStart(s, IsSpace) + |Strip(s)|);
    var rows := Lines(s);
    SplitNoAdjacentSpace(Strip(s), '\n');
    forall j | 1 <= j < |rows| ensures RowState(rows[j], name).None? {
      NoAdjacentSpaceNoMatch(rows[j]);
    }
    NoReportNotRunning(rows, name);
  }

  /** Decoding as UTF-16LE gives back the text. */
  lemma {:induction false} DecodeEncodeUtf16Le(text: string)
    requires IsAsciiText(text)
    ensures var bytes := EncodeUtf16Le(text);
            HighBytesZero(bytes) &&
            DecodeUtf16LeAscii(bytes) == text
  {
    var bytes := EncodeUtf16Le(text);
    var r := DecodeUtf16LeAscii(bytes);
    assert forall i :: 0 <= i < |r| ==> r[i] as int == text[i] as int;
  }

  /** Read as UTF-16LE, the lookup answers what it answers on the listing
      text itself; so the documented row, which the lookup reports running,
      is reported running from the tool's bytes too. */
  lemma {:induction false} DecodedReadsListing(text: string, name: string)
    requires IsAsciiText(text)
    ensures var bytes := EncodeUtf16Le(text);
            HighBytesZero(bytes) &&
            RunningDecoded(bytes, name) == IsRunningIn(text, name)
  {
    DecodeEncodeUtf16Le(text);
  }
}
