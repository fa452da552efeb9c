/** The parts of Python's `str` type that the FreeFem script helpers rely on:
    character classes, `upper()` on ASCII, `s.split(sep)`, `s.split()` and
    `sep.join(parts)`. Strings are sequences of Unicode scalar values, as in
    Python 3. */
module PyStr {

  // ---------------------------------------------------------------------
  // Character classes
  // ---------------------------------------------------------------------

  predicate IsAscii(c: char) { c as int < 128 }
  predicate IsAsciiLower(c: char) { 'a' <= c <= 'z' }
  predicate IsAsciiUpper(c: char) { 'A' <= c <= 'Z' }
  predicate IsDigit(c: char) { '0' <= c <= '9' }
  predicate IsAlnum(c: char) { IsAsciiLower(c) || IsAsciiUpper(c) || IsDigit(c) }

  /** The regular-expression class `\w` on ASCII text: letters, digits and `_`. */
  predicate IsWordChar(c: char) { IsAlnum(c) || c == '_' }

  /** The characters for which `str.isspace()` holds: the separators of `s.split()`. */
  const Whitespace: set<char> :=
    {' ', '\t', '\n', '\U{B}', '\U{C}', '\r', '\U{1C}', '\U{1D}', '\U{1E}', '\U{1F}',
     '\U{85}', '\U{A0}', '\U{1680}', '\U{2000}', '\U{2001}', '\U{2002}', '\U{2003}',
     '\U{2004}', '\U{2005}', '\U{2006}', '\U{2007}', '\U{2008}', '\U{2009}', '\U{200A}',
     '\U{2028}', '\U{2029}', '\U{202F}', '\U{205F}', '\U{3000}'}

  /** No character of `s` is in `cs`. */
  predicate NoneOf(s: string, cs: set<char>) {
    forall i :: 0 <= i < |s| ==> s[i] !in cs
  }

  /** Every character of `s` is an ASCII letter, digit or `_`. */
  predicate AllWordChars(s: string) {
    forall i :: 0 <= i < |s| ==> IsWordChar(s[i])
  }

  /** Every character of `s` is an ASCII letter or digit. */
  predicate AllAlnum(s: string) {
    forall i :: 0 <= i < |s| ==> IsAlnum(s[i])
  }

  /** Number of positions of `s` holding a character of `cs`. */
  function CountIn(s: string, cs: set<char>): nat {
    if |s| == 0 then 0 else (if s[0] in cs then 1 else 0) + CountIn(s[1..], cs)
  }

  // ---------------------------------------------------------------------
  // Upper case (ASCII letters only)
  // ---------------------------------------------------------------------

  /** `c.upper()` for a character whose upper case is one character. */
  function Upper(c: char): (u: char)
    ensures !IsAsciiLower(u)
    ensures IsAsciiLower(c) ==> IsAsciiUpper(u) && u as int + 32 == c as int
    ensures !IsAsciiLower(c) ==> u == c
  {
    if IsAsciiLower(c) then (c as int - 32) as char else c
  }

  /** `s.upper()`, one character at a time. */
  function UpperStr(s: string): (r: string)
    ensures |r| == |s|
    ensures forall i :: 0 <= i < |s| ==> r[i] == Upper(s[i])
  {
    seq(|s|, i requires 0 <= i < |s| => Upper(s[i]))
  }

  /** `[p.upper() for p in parts]` */
  function UpperAll(parts: seq<string>): (r: seq<string>)
    ensures |r| == |parts|
    ensures forall i :: 0 <= i < |parts| ==> r[i] == UpperStr(parts[i])
  {
    seq(|parts|, i requires 0 <= i < |parts| => UpperStr(parts[i]))
  }

  lemma UpperStrConcat(a: string, b: string)
    ensures UpperStr(a + b) == UpperStr(a) + UpperStr(b)
  {
    assert forall i :: 0 <= i < |a + b| ==> UpperStr(a + b)[i] == (UpperStr(a) + UpperStr(b))[i];
  }

  /** A string with no lower-case ASCII letter is its own upper case. */
  lemma UpperStrFixed(s: string)
    requires forall i :: 0 <= i < |s| ==> !IsAsciiLower(s[i])
    ensures UpperStr(s) == s
  {
  }

  // ---------------------------------------------------------------------
  // Splitting and joining
  // ---------------------------------------------------------------------

  /** Cuts `s` at every character of `seps`, keeping the (possibly empty)
      pieces between cuts in order. A string with `k` cut characters has
      `k + 1` pieces; no piece holds a cut character. */
  function SplitAny(s: string, seps: set<char>): (parts: seq<string>)
    ensures |parts| == CountIn(s, seps) + 1
    ensures forall i :: 0 <= i < |parts| ==> NoneOf(parts[i], seps)
    decreases |s|
  {
    if |s| == 0 then [""]
    else
      var rest := SplitAny(s[1..], seps);
      if s[0] in seps then [""] + rest
      else [[s[0]] + rest[0]] + rest[1..]
  }

  /** Every character of a piece comes from `s`. */
  lemma {:induction false} SplitAnyChars(s: string, seps: set<char>)
    ensures forall i, k :: 0 <= i < |SplitAny(s, seps)| && 0 <= k < |SplitAny(s, seps)[i]| ==>
      SplitAny(s, seps)[i][k] in s
    decreases |s|
  {
    if |s| > 0 {
      SplitAnyChars(s[1..], seps);
      var rest := SplitAny(s[1..], seps);
      var parts := SplitAny(s, seps);
      assert s == [s[0]] + s[1..];
      forall i, k | 0 <= i < |parts| && 0 <= k < |parts[i]|
        ensures parts[i][k] in s
      {
        if s[0] in seps {
          assert parts[i] == ([""] + rest)[i];
          if i > 0 {
            assert parts[i][k] == rest[i - 1][k];
          }
        } else if i == 0 {
          if k > 0 {
            assert parts[0][k] == rest[0][k - 1];
          }
        } else {
          assert parts[i] == rest[i];
        }
      }
    }
  }

  /** `s.split(sep)` for a one-character separator. */
  function Split(s: string, sep: char): seq<string> {
    SplitAny(s, {sep})
  }

  /** `[p for p in parts if p]` */
  function DropEmpty(parts: seq<string>): (r: seq<string>)
    ensures |r| <= |parts|
    ensures forall i :: 0 <= i < |r| ==> r[i] != "" && r[i] in parts
    ensures (forall i :: 0 <= i < |parts| ==> parts[i] != "") ==> r == parts
  {
    if |parts| == 0 then []
    else if parts[0] == "" then DropEmpty(parts[1..])
    else [parts[0]] + DropEmpty(parts[1..])
  }

  /** Dropping empty pieces keeps every remaining piece free of `cs`. */
  lemma {:induction false} DropEmptyNoneOf(parts: seq<string>, cs: set<char>)
    requires forall i :: 0 <= i < |parts| ==> NoneOf(parts[i], cs)
    ensures forall i :: 0 <= i < |DropEmpty(parts)| ==> NoneOf(DropEmpty(parts)[i], cs)
    decreases |parts|
  {
    if |parts| > 0 {
      DropEmptyNoneOf(parts[1..], cs);
    }
  }

  /** Word characters are not whitespace. */
  lemma WordCharNotWhitespace(c: char)
    requires IsWordChar(c)
    ensures c !in Whitespace
  {
  }

  /** Text of word characters holds no whitespace. */
  lemma NoWhitespaceInWordChars(s: string)
    requires AllWordChars(s)
    ensures NoneOf(s, Whitespace)
  {
    forall k | 0 <= k < |s|
      ensures s[k] !in Whitespace
    {
      WordCharNotWhitespace(s[k]);
    }
  }

  /** Upper case neither creates nor removes whitespace. */
  lemma UpperWhitespace(c: char)
    ensures (Upper(c) in Whitespace) == (c in Whitespace)
  {
    if IsAsciiLower(c) {
      assert 'A' <= Upper(c) <= 'Z';
    }
  }

  lemma UpperAllNoWhitespace(parts: seq<string>)
    requires forall i :: 0 <= i < |parts| ==> NoneOf(parts[i], Whitespace)
    ensures forall i :: 0 <= i < |parts| ==> NoneOf(UpperAll(parts)[i], Whitespace)
  {
    forall i, k | 0 <= i < |parts| && 0 <= k < |parts[i]|
      ensures UpperAll(parts)[i][k] !in Whitespace
    {
      UpperWhitespace(parts[i][k]);
    }
  }

  /** A string holds `c` exactly when splitting it at `c` gives more than one piece. */
  lemma {:induction false} SplitHasSep(s: string, c: char)
    ensures |Split(s, c)| > 1 <==> c in s
    decreases |s|
  {
    if |s| > 0 {
      SplitHasSep(s[1..], c);
      assert c in s <==> s[0] == c || c in s[1..];
    }
  }

  /** `s.split()`: the maximal runs of non-whitespace characters, in order. */
  function Words(s: string): seq<string> {
    DropEmpty(SplitAny(s, Whitespace))
  }

  /** Every word of `s.split()` is non-empty, free of whitespace and made of
      characters of `s`. */
  lemma WordsShape(s: string)
    ensures forall i :: 0 <= i < |Words(s)| ==> Words(s)[i] != "" && NoneOf(Words(s)[i], Whitespace)
    ensures forall i, k :: 0 <= i < |Words(s)| && 0 <= k < |Words(s)[i]| ==> Words(s)[i][k] in s
  {
    var split := SplitAny(s, Whitespace);
    SplitAnyChars(s, Whitespace);
    var ws := Words(s);
    forall i | 0 <= i < |ws|
      ensures NoneOf(ws[i], Whitespace)
      ensures forall k :: 0 <= k < |ws[i]| ==> ws[i][k] in s
    {
      var j :| 0 <= j < |split| && split[j] == ws[i];
    }
  }

  /** `sep.join(parts)` */
  function Join(parts: seq<string>, sep: string): string {
    if |parts| == 0 then ""
    else if |parts| == 1 then parts[0]
    else parts[0] + sep + Join(parts[1..], sep)
  }

  /** A join holds only characters of its pieces and of its separator. */
  lemma {:induction false} JoinChars(parts: seq<string>, sep: string, ok: char -> bool)
    requires forall k :: 0 <= k < |sep| ==> ok(sep[k])
    requires forall i, k :: 0 <= i < |parts| && 0 <= k < |parts[i]| ==> ok(parts[i][k])
    ensures forall k :: 0 <= k < |Join(parts, sep)| ==> ok(Join(parts, sep)[k])
    decreases |parts|
  {
    if |parts| > 1 {
      JoinChars(parts[1..], sep, ok);
      var a := parts[0] + sep;
      var t := Join(parts[1..], sep);
      assert forall k :: 0 <= k < |a + t| ==> (a + t)[k] == (if k < |a| then a[k] else t[k - |a|]);
      assert forall k :: 0 <= k < |a| ==> a[k] == (if k < |parts[0]| then parts[0][k] else sep[k - |parts[0]|]);
    } else if |parts| == 1 {
      assert forall k :: 0 <= k < |parts[0]| ==> ok(parts[0][k]);
    }
  }

  /** Joining the pieces of a split with the separator gives back the string. */
  lemma {:induction false} SplitThenJoin(s: string, sep: char)
    ensures Join(Split(s, sep), [sep]) == s
    decreases |s|
  {
    if |s| > 0 {
      var rest := Split(s[1..], sep);
      SplitThenJoin(s[1..], sep);
      if s[0] == sep {
        assert Split(s, sep) == [""] + rest;
        assert ([""] + rest)[1..] == rest;
      } else {
        var parts := Split(s, sep);
        assert parts == [[s[0]] + rest[0]] + rest[1..];
        if |rest| > 1 {
          assert parts[1..] == rest[1..];
          assert Join(rest, [sep]) == rest[0] + [sep] + Join(rest[1..], [sep]);
        }
        assert s == [s[0]] + s[1..];
      }
    }
  }

  /** A string without cut characters is one piece. */
  lemma SplitAnyWhole(p: string, seps: set<char>)
    requires NoneOf(p, seps)
    ensures SplitAny(p, seps) == [p]
    decreases |p|
  {
    if |p| > 0 {
      SplitAnyWhole(p[1..], seps);
      assert p == [p[0]] + p[1..];
    }
  }

  /** A cut character splits the pieces on its two sides apart. */
  lemma {:induction false} SplitAnyAround(a: string, c: char, b: string, seps: set<char>)
    requires c in seps
    ensures SplitAny(a + [c] + b, seps) == SplitAny(a, seps) + SplitAny(b, seps)
    decreases |a|
  {
    var s := a + [c] + b;
    if |a| == 0 {
      assert s == [c] + b;
      assert s[1..] == b;
    } else {
      assert s[0] == a[0];
      assert s[1..] == a[1..] + [c] + b;
      SplitAnyAround(a[1..], c, b, seps);
      var left := SplitAny(a[1..], seps);
      if a[0] !in seps {
        assert (left + SplitAny(b, seps))[0] == left[0];
        assert (left + SplitAny(b, seps))[1..] == left[1..] + SplitAny(b, seps);
      }
    }
  }

  /** Splitting a join gives back the joined pieces, when no piece holds a
      cut character and the join separator is one. */
  lemma {:induction false} JoinThenSplit(parts: seq<string>, sep: char, seps: set<char>)
    requires |parts| > 0
    requires sep in seps
    requires forall i :: 0 <= i < |parts| ==> NoneOf(parts[i], seps)
    ensures SplitAny(Join(parts, [sep]), seps) == parts
    decreases |parts|
  {
    SplitAnyWhole(parts[0], seps);
    if |parts| > 1 {
      JoinThenSplit(parts[1..], sep, seps);
      SplitAnyAround(parts[0], sep, Join(parts[1..], [sep]), seps);
      assert parts == [parts[0]] + parts[1..];
    }
  }

  /** `s.split()` of words joined by single spaces gives the non-empty words back. */
  lemma WordsOfJoin(parts: seq<string>)
    requires forall i :: 0 <= i < |parts| ==> NoneOf(parts[i], Whitespace)
    ensures Words(Join(parts, " ")) == DropEmpty(parts)
  {
    if |parts| > 0 {
      JoinThenSplit(parts, ' ', Whitespace);
    }
  }

  /** Upper case commutes with joining. */
  lemma {:induction false} UpperJoin(parts: seq<string>, sep: string)
    ensures UpperStr(Join(parts, sep)) == Join(UpperAll(parts), UpperStr(sep))
    decreases |parts|
  {
    if |parts| > 1 {
      UpperJoin(parts[1..], sep);
      assert UpperAll(parts)[1..] == UpperAll(parts[1..]);
      UpperStrConcat(parts[0] + sep, Join(parts[1..], sep));
      UpperStrConcat(parts[0], sep);
    }
  }

  // ---------------------------------------------------------------------
  // Whitespace normal form
  // ---------------------------------------------------------------------

  /** No space at either end and never two spaces in a row. */
  predicate SingleSpaced(s: string) {
    && (|s| > 0 ==> s[0] != ' ' && s[|s| - 1] != ' ')
    && forall i :: 0 <= i < |s| - 1 ==> !(s[i] == ' ' && s[i + 1] == ' ')
  }

  /** Non-empty space-free words joined by single spaces are single-spaced,
      and the only whitespace in the result is the joining spaces. */
  lemma {:induction false} JoinSingleSpaced(ws: seq<string>)
    requires forall i :: 0 <= i < |ws| ==> ws[i] != "" && NoneOf(ws[i], Whitespace)
    ensures SingleSpaced(Join(ws, " "))
    ensures forall k :: 0 <= k < |Join(ws, " ")| ==> (Join(ws, " ")[k] in Whitespace ==> Join(ws, " ")[k] == ' ')
    ensures |ws| > 0 ==> |Join(ws, " ")| > 0 && Join(ws, " ")[0] == ws[0][0]
    decreases |ws|
  {
    if |ws| > 1 {
      var w := ws[0];
      var t := Join(ws[1..], " ");
      JoinSingleSpaced(ws[1..]);
      var j := w + " " + t;
      assert Join(ws, " ") == j;
      assert forall k :: 0 <= k < |j| ==>
        j[k] == (if k < |w| then w[k] else if k == |w| then ' ' else t[k - |w| - 1]);
    }
  }

  /** Upper case keeps a string single-spaced and introduces no whitespace. */
  lemma UpperSingleSpaced(s: string)
    requires SingleSpaced(s)
    requires forall k :: 0 <= k < |s| ==> (s[k] in Whitespace ==> s[k] == ' ')
    ensures SingleSpaced(UpperStr(s))
    ensures forall k :: 0 <= k < |s| ==> (UpperStr(s)[k] in Whitespace ==> UpperStr(s)[k] == ' ')
  {
    forall k | 0 <= k < |s|
      ensures UpperStr(s)[k] in Whitespace ==> UpperStr(s)[k] == ' '
    {
      UpperWhitespace(s[k]);
    }
  }
}
