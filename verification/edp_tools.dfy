/** String builders for FreeFem `.edp` scripts: call expressions, identifier
    and header sanitising, comment banners and output flags. Every operation
    is a pure function of its arguments. */
module EdpTools {
  import opened PyStr

  // ---------------------------------------------------------------------
  // edp_function
  // ---------------------------------------------------------------------

  /** The items of an argument list, each with its leading space: every
      positional argument as written, then every keyword argument as
      `name = value`, each group in call order. Arguments arrive already
      rendered as text. */
  function CallItems(args: seq<string>, kwargs: seq<(string, string)>): (items: seq<string>)
    ensures |items| == |args| + |kwargs|
  {
    PositionalItems(args) + KeywordItems(kwargs)
  }

  /** The items the first loop of `edp_function` writes. */
  function PositionalItems(args: seq<string>): seq<string> {
    seq(|args|, i requires 0 <= i < |args| => " " + args[i])
  }

  /** The items the second loop of `edp_function` writes. */
  function KeywordItems(kwargs: seq<(string, string)>): seq<string> {
    seq(|kwargs|, i requires 0 <= i < |kwargs| => " " + kwargs[i].0 + " = " + kwargs[i].1)
  }

  /** The items, each followed by a comma: the text the two loops of
      `edp_function` append after the opening parenthesis. */
  function CommaTerminated(items: seq<string>): string {
    if |items| == 0 then ""
    else CommaTerminated(items[..|items| - 1]) + items[|items| - 1] + ","
  }

  /** Terminating two groups of items one after the other is terminating
      them all. */
  lemma {:induction false} CommaTerminatedConcat(a: seq<string>, b: seq<string>)
    ensures CommaTerminated(a + b) == CommaTerminated(a) + CommaTerminated(b)
    decreases |b|
  {
    if |b| == 0 {
      assert a + b == a;
    } else {
      var init := b[..|b| - 1];
      assert (a + b)[..|a + b| - 1] == a + init;
      assert (a + b)[|a + b| - 1] == b[|b| - 1];
      CommaTerminatedConcat(a, init);
    }
  }

  lemma JoinSnoc(items: seq<string>, x: string, sep: string)
    requires |items| > 0
    ensures Join(items + [x], sep) == Join(items, sep) + sep + x
    decreases |items|
  {
    if |items| > 1 {
      assert (items + [x])[1..] == items[1..] + [x];
      JoinSnoc(items[1..], x, sep);
    } else {
      assert (items + [x])[1..] == [x];
    }
  }

  /** Terminating every item with a comma is joining them with commas plus
      one final comma: the comma `edp_function` strips. */
  lemma {:induction false} CommaTerminatedIsJoin(items: seq<string>)
    requires |items| > 0
    ensures CommaTerminated(items) == Join(items, ",") + ","
    decreases |items|
  {
    var init := items[..|items| - 1];
    if |init| > 0 {
      CommaTerminatedIsJoin(init);
      JoinSnoc(init, items[|items| - 1], ",");
      assert init + [items[|items| - 1]] == items;
    }
  }

  /** Appending one more item and its comma extends the terminated prefix. */
  lemma CommaTerminatedStep(prefix: string, items: seq<string>, i: nat, piece: string)
    requires i < |items| && piece == items[i] + ","
    ensures prefix + CommaTerminated(items[..i]) + piece == prefix + CommaTerminated(items[..i + 1])
  {
    assert items[..i + 1][..i] == items[..i];
  }

  lemma PositionalItem(args: seq<string>, kwargs: seq<(string, string)>, i: nat)
    requires i < |args|
    ensures CallItems(args, kwargs)[i] == " " + args[i]
  {
  }

  lemma KeywordItem(args: seq<string>, kwargs: seq<(string, string)>, j: nat)
    requires j < |kwargs|
    ensures CallItems(args, kwargs)[|args| + j] == " " + kwargs[j].0 + " = " + kwargs[j].1
  {
  }

  /** The strip step of `edp_function`: after the loops the text `t` is
      the opening parenthesis and the comma-terminated items. It ends with a
      comma exactly when some item was written, and without that comma it
      is the items joined by commas. */
  lemma StripLastComma(open: string, items: seq<string>, t: string)
    requires |open| > 0 && open[|open| - 1] == '('
    requires t == open + CommaTerminated(items)
    ensures |t| > 0
    ensures (t[|t| - 1] == ',') == (|items| > 0)
    ensures |items| > 0 ==> t[..|t| - 1] == open + Join(items, ",")
    ensures |items| == 0 ==> t == open
  {
    if |items| > 0 {
      CommaTerminatedIsJoin(items);
      assert t == (open + Join(items, ",")) + ",";
    }
  }

  /** The first loop of `edp_function`: every positional argument is
      appended as a space, the argument and a comma. */
  method AppendPositional(open: string, args: seq<string>) returns (t: string)
    ensures t == open + CommaTerminated(PositionalItems(args))
  {
    ghost var items := PositionalItems(args);
    t := open;
    var i := 0;
    while i < |args|
      invariant 0 <= i <= |args|
      invariant t == open + CommaTerminated(items[..i])
    {
      CommaTerminatedStep(open, items, i, " " + args[i] + ",");
      t := t + (" " + args[i] + ",");
      i := i + 1;
    }
    assert items[..|args|] == items;
  }

  /** The second loop of `edp_function`: every keyword argument is appended
      as a space, `name = value` and a comma. */
  method AppendKeywords(open: string, kwargs: seq<(string, string)>) returns (t: string)
    ensures t == open + CommaTerminated(KeywordItems(kwargs))
  {
    ghost var items := KeywordItems(kwargs);
    t := open;
    var j := 0;
    while j < |kwargs|
      invariant 0 <= j <= |kwargs|
      invariant t == open + CommaTerminated(items[..j])
    {
      CommaTerminatedStep(open, items, j, " " + kwargs[j].0 + " = " + kwargs[j].1 + ",");
      t := t + (" " + kwargs[j].0 + " = " + kwargs[j].1 + ",");
      j := j + 1;
    }
    assert items[..|kwargs|] == items;
  }

  /** `edp_function(name, *args, **kwargs)`: a call expression. With no
      argument it is `name( )`; otherwise the items are joined with commas,
      so exactly the trailing comma of the last item is gone. */
  method EdpFunction(name: string, args: seq<string>, kwargs: seq<(string, string)>) returns (call: string)
    ensures |args| + |kwargs| == 0 ==> call == name + "( )"
    ensures |args| + |kwargs| > 0 ==> call == name + "(" + Join(CallItems(args, kwargs), ",") + " )"
  {
    var open := name + "(";
    ghost var items := CallItems(args, kwargs);
    call := AppendPositional(open, args);
    call := AppendKeywords(call, kwargs);
    assert call == open + CommaTerminated(items) by {
      CommaTerminatedConcat(PositionalItems(args), KeywordItems(kwargs));
    }
    StripLastComma(open, items, call);
    if call[|call| - 1] == ',' {
      call := call[..|call| - 1];
    }
    call := call + " )";
  }

  // ---------------------------------------------------------------------
  // capitalize_first_letter
  // ---------------------------------------------------------------------

  /** `capitalize_first_letter(s)`: the empty string is returned as it is;
      otherwise the first character is upper-cased and the rest kept. */
  function CapitalizeFirstLetter(s: string): (r: string)
    ensures |r| == |s|
    ensures |s| > 0 ==> !IsAsciiLower(r[0]) && r[1..] == s[1..]
    ensures |s| > 0 && !IsAsciiLower(s[0]) ==> r == s
    ensures |s| > 0 && IsAsciiLower(s[0]) ==> IsAsciiUpper(r[0]) && r[0] as int + 32 == s[0] as int
  {
    if |s| == 0 then s
    else
      assert s == [s[0]] + s[1..];
      [Upper(s[0])] + s[1..]
  }

  /** Capitalising twice is capitalising once. */
  lemma CapitalizeIdempotent(s: string)
    ensures CapitalizeFirstLetter(CapitalizeFirstLetter(s)) == CapitalizeFirstLetter(s)
  {
  }

  // ---------------------------------------------------------------------
  // FreeFemize: the sanitising steps
  // ---------------------------------------------------------------------

  /** `s.encode('ASCII', 'ignore').decode('utf8')`: the ASCII characters of
      `s`, in order. */
  function DropNonAscii(s: string): (r: string)
    ensures forall i :: 0 <= i < |r| ==> IsAscii(r[i])
    ensures |r| <= |s|
    decreases |s|
  {
    if |s| == 0 then ""
    else if IsAscii(s[0]) then [s[0]] + DropNonAscii(s[1..])
    else DropNonAscii(s[1..])
  }

  /** A non-ASCII character is dropped. */
  lemma DropNonAsciiOfNonAscii(c: char)
    requires !IsAscii(c)
    ensures DropNonAscii([c]) == ""
  {
  }

  /** Dropping distributes over concatenation. */
  lemma {:induction false} DropNonAsciiConcat(a: string, b: string)
    ensures DropNonAscii(a + b) == DropNonAscii(a) + DropNonAscii(b)
    decreases |a|
  {
    if |a| > 0 {
      assert (a + b)[0] == a[0];
      assert (a + b)[1..] == a[1..] + b;
      DropNonAsciiConcat(a[1..], b);
    } else {
      assert a + b == b;
    }
  }

  /** An ASCII string is kept whole. */
  lemma {:induction false} DropNonAsciiOfAscii(s: string)
    requires forall i :: 0 <= i < |s| ==> IsAscii(s[i])
    ensures DropNonAscii(s) == s
    decreases |s|
  {
    if |s| > 0 {
      DropNonAsciiOfAscii(s[1..]);
      assert s == [s[0]] + s[1..];
    }
  }

  /** Length of the longest prefix of `s` made of non-word characters. */
  function NonWordPrefix(s: string): (n: nat)
    ensures n <= |s|
    ensures forall i :: 0 <= i < n ==> !IsWordChar(s[i])
    ensures n < |s| ==> IsWordChar(s[n])
    decreases |s|
  {
    if |s| == 0 || IsWordChar(s[0]) then 0 else 1 + NonWordPrefix(s[1..])
  }

  /** The maximal non-word prefix is the only prefix that is all non-word
      characters and is followed by a word character or the end. */
  lemma {:induction false} NonWordPrefixExact(s: string, n: nat)
    requires n <= |s|
    requires forall i :: 0 <= i < n ==> !IsWordChar(s[i])
    requires n < |s| ==> IsWordChar(s[n])
    ensures NonWordPrefix(s) == n
    decreases n
  {
    if n > 0 {
      NonWordPrefixExact(s[1..], n - 1);
    }
  }

  /** `re.sub('\W+', '_', s)`: scanning from the left, every maximal run of
      non-word characters is replaced by a single `_`. */
  function SubNonWordRuns(s: string): (r: string)
    ensures AllWordChars(r)
    ensures |r| <= |s|
    decreases |s|
  {
    if |s| == 0 then ""
    else if IsWordChar(s[0]) then [s[0]] + SubNonWordRuns(s[1..])
    else "_" + SubNonWordRuns(s[NonWordPrefix(s)..])
  }

  /** Text made only of word characters is left as it is. */
  lemma {:induction false} SubOfWordChars(s: string)
    requires AllWordChars(s)
    ensures SubNonWordRuns(s) == s
    decreases |s|
  {
    if |s| > 0 {
      SubOfWordChars(s[1..]);
      assert s == [s[0]] + s[1..];
    }
  }

  /** The replacement step by step: word characters `w` are kept, the run
      `x` of non-word characters after them becomes exactly one `_`, and
      the replacement goes on where the next word character starts. */
  lemma {:induction false} SubRun(w: string, x: string, t: string)
    requires AllWordChars(w)
    requires |x| > 0 && forall i :: 0 <= i < |x| ==> !IsWordChar(x[i])
    requires |t| == 0 || IsWordChar(t[0])
    ensures SubNonWordRuns(w + x + t) == w + "_" + SubNonWordRuns(t)
    decreases |w|
  {
    var s := w + x + t;
    if |w| == 0 {
      assert s == x + t;
      NonWordPrefixExact(s, |x|);
      assert s[|x|..] == t;
    } else {
      assert s[0] == w[0];
      assert s[1..] == w[1..] + x + t;
      SubRun(w[1..], x, t);
    }
  }

  /** `[c for c in s if c.isascii() and c.isalnum()]`: the ASCII letters and
      digits of `s`, in order. */
  function Alnums(s: string): (r: string)
    ensures AllAlnum(r)
    decreases |s|
  {
    if |s| == 0 then ""
    else if IsAlnum(s[0]) then [s[0]] + Alnums(s[1..])
    else Alnums(s[1..])
  }

  lemma {:induction false} AlnumsSkip(s: string, n: nat)
    requires n <= |s|
    requires forall i :: 0 <= i < n ==> !IsAlnum(s[i])
    ensures Alnums(s[n..]) == Alnums(s)
    decreases n
  {
    if n > 0 {
      AlnumsSkip(s[1..], n - 1);
      assert s[1..][n - 1..] == s[n..];
    }
  }

  /** The replacement keeps every letter and digit, in order, and adds none. */
  lemma {:induction false} SubKeepsAlnums(s: string)
    ensures Alnums(SubNonWordRuns(s)) == Alnums(s)
    decreases |s|
  {
    if |s| > 0 {
      if IsWordChar(s[0]) {
        SubKeepsAlnums(s[1..]);
      } else {
        var n := NonWordPrefix(s);
        SubKeepsAlnums(s[n..]);
        AlnumsSkip(s, n);
      }
    }
  }

  lemma {:induction false} DropNonAsciiKeepsAlnums(s: string)
    ensures Alnums(DropNonAscii(s)) == Alnums(s)
    decreases |s|
  {
    if |s| > 0 {
      DropNonAsciiKeepsAlnums(s[1..]);
    }
  }

  /** Steps 2 and 3 of `FreeFemize` (the input is taken as already
      NFKD-normalised): non-ASCII characters are dropped, then each run of
      non-word characters becomes one `_`. Only letters, digits and `_`
      remain; the letters and digits are exactly those of the input, in
      order; text already made of word characters is kept whole. */
  function Sanitize(name: string): (r: string)
    ensures AllWordChars(r)
    ensures Alnums(r) == Alnums(name)
    ensures AllWordChars(name) ==> r == name
  {
    var ascii := DropNonAscii(name);
    DropNonAsciiKeepsAlnums(name);
    SubKeepsAlnums(ascii);
    if AllWordChars(name) then
      DropNonAsciiOfAscii(name);
      SubOfWordChars(name);
      SubNonWordRuns(ascii)
    else
      SubNonWordRuns(ascii)
  }

  /** Sanitising is idempotent. */
  lemma SanitizeIdempotent(name: string)
    ensures Sanitize(Sanitize(name)) == Sanitize(name)
  {
  }

  // ---------------------------------------------------------------------
  // FreeFemize: the 'variable' mode
  // ---------------------------------------------------------------------

  /** `map(capitalize_first_letter, parts)` */
  function CapitalizeAll(parts: seq<string>): (r: seq<string>)
    ensures |r| == |parts|
    ensures forall i :: 0 <= i < |parts| ==> r[i] == CapitalizeFirstLetter(parts[i])
  {
    seq(|parts|, i requires 0 <= i < |parts| => CapitalizeFirstLetter(parts[i]))
  }

  /** The 'variable' mode: a name without `_` is kept; otherwise its
      `_`-separated segments, the first one included, are capitalised and
      concatenated. */
  function VariableCase(name: string): string {
    var parts := Split(name, '_');
    if |parts| > 1 then Join(CapitalizeAll(parts), "") else name
  }

  /** `s` with every `_` removed. */
  function WithoutUnderscores(s: string): (r: string)
    ensures '_' !in r
    ensures |r| == |s| - CountIn(s, {'_'})
    ensures AllWordChars(s) ==> AllAlnum(r)
    decreases |s|
  {
    if |s| == 0 then ""
    else if s[0] == '_' then WithoutUnderscores(s[1..])
    else [s[0]] + WithoutUnderscores(s[1..])
  }

  /** `r` is `w` with some lower-case letters raised to upper case. */
  predicate CaseVariant(r: string, w: string) {
    |r| == |w| && forall i :: 0 <= i < |r| ==> r[i] == w[i] || r[i] == Upper(w[i])
  }

  lemma {:induction false} ConcatSplitIsWithout(s: string)
    ensures Join(Split(s, '_'), "") == WithoutUnderscores(s)
    decreases |s|
  {
    if |s| > 0 {
      ConcatSplitIsWithout(s[1..]);
      var rest := Split(s[1..], '_');
      if s[0] == '_' {
        assert ([""] + rest)[1..] == rest;
      } else {
        var parts := Split(s, '_');
        if |rest| > 1 {
          assert parts[1..] == rest[1..];
        }
      }
    }
  }

  lemma {:induction false} CapitalizedConcat(parts: seq<string>)
    ensures CaseVariant(Join(CapitalizeAll(parts), ""), Join(parts, ""))
    decreases |parts|
  {
    if |parts| > 1 {
      CapitalizedConcat(parts[1..]);
      assert CapitalizeAll(parts)[1..] == CapitalizeAll(parts[1..]);
      var c := CapitalizeFirstLetter(parts[0]);
      var a := Join(CapitalizeAll(parts[1..]), "");
      var b := Join(parts[1..], "");
      assert Join(CapitalizeAll(parts), "") == c + "" + a;
      assert Join(parts, "") == parts[0] + "" + b;
      assert forall i :: 0 <= i < |c + a| ==>
        (c + a)[i] == (if i < |c| then c[i] else a[i - |c|]);
    }
  }

  /** The 'variable' mode removes every `_`; otherwise it keeps every
      character in place, only raising some letters to upper case; a name
      without `_` is kept whole. */
  lemma VariableCaseShape(name: string)
    ensures '_' !in VariableCase(name)
    ensures CaseVariant(VariableCase(name), WithoutUnderscores(name))
    ensures '_' !in name ==> VariableCase(name) == name
  {
    var parts := Split(name, '_');
    ConcatSplitIsWithout(name);
    CapitalizedConcat(parts);
    SplitHasSep(name, '_');
    if |parts| <= 1 {
      WithoutNoUnderscore(name);
    }
  }

  lemma {:induction false} WithoutNoUnderscore(s: string)
    requires '_' !in s
    ensures WithoutUnderscores(s) == s
    decreases |s|
  {
    if |s| > 0 {
      WithoutNoUnderscore(s[1..]);
      assert s == [s[0]] + s[1..];
    }
  }

  /** Segment by segment: the first segment `a` of a name is capitalised
      and followed by the 'variable' form of the remainder, itself
      capitalised when it holds no further `_`. */
  lemma VariableCaseSegment(a: string, b: string)
    requires '_' !in a
    ensures VariableCase(a + "_" + b) ==
      CapitalizeFirstLetter(a) + (if '_' in b then VariableCase(b) else CapitalizeFirstLetter(b))
  {
    var pb := Split(b, '_');
    SplitUnderscoreAfter(a, b);
    CapitalizeAllCons(a, pb);
    JoinEmptyCons(CapitalizeFirstLetter(a), CapitalizeAll(pb));
    SplitHasSep(b, '_');
    if '_' !in b {
      CapitalizeOneSegment(b);
    }
  }

  lemma CapitalizeAllCons(x: string, ps: seq<string>)
    ensures CapitalizeAll([x] + ps) == [CapitalizeFirstLetter(x)] + CapitalizeAll(ps)
  {
    var l := CapitalizeAll([x] + ps);
    var r := [CapitalizeFirstLetter(x)] + CapitalizeAll(ps);
    forall i | 0 <= i < |l|
      ensures l[i] == r[i]
    {
      if i > 0 {
        assert ([x] + ps)[i] == ps[i - 1];
      }
    }
  }

  lemma JoinEmptyCons(x: string, ps: seq<string>)
    ensures Join([x] + ps, "") == x + Join(ps, "")
  {
    if |ps| == 0 {
      assert [x] + ps == [x];
    } else {
      assert ([x] + ps)[1..] == ps;
    }
  }

  /** A name without `_` is one segment. */
  lemma CapitalizeOneSegment(b: string)
    requires '_' !in b
    ensures Join(CapitalizeAll(Split(b, '_')), "") == CapitalizeFirstLetter(b)
  {
    assert NoneOf(b, {'_'});
    SplitAnyWhole(b, {'_'});
    assert CapitalizeAll([b]) == [CapitalizeFirstLetter(b)];
  }

  /** A name made of two or more `_`-free segments joined by `_` becomes
      the concatenation of the capitalised segments, empty ones included. */
  lemma VariableOfSegments(segs: seq<string>)
    requires |segs| > 1
    requires forall i :: 0 <= i < |segs| ==> NoneOf(segs[i], {'_'})
    ensures VariableCase(Join(segs, "_")) == Join(CapitalizeAll(segs), "")
  {
    JoinThenSplit(segs, '_', {'_'});
  }

  lemma SplitUnderscoreAfter(a: string, b: string)
    requires '_' !in a
    ensures Split(a + "_" + b, '_') == [a] + Split(b, '_')
  {
    assert NoneOf(a, {'_'});
    SplitAnyWhole(a, {'_'});
    SplitAnyAround(a, '_', b, {'_'});
  }

  // ---------------------------------------------------------------------
  // FreeFemize: the 'header' mode
  // ---------------------------------------------------------------------

  /** The 'header' mode: `' '.join(' '.join(name.split('_')).split()).upper()`. */
  function HeaderCase(name: string): string {
    UpperStr(Join(Words(Join(Split(name, '_'), " ")), " "))
  }

  /** Joining pieces free of `_` with spaces gives text free of `_`. */
  lemma {:induction false} JoinWithoutUnderscore(parts: seq<string>, sep: string)
    requires '_' !in sep
    requires forall i :: 0 <= i < |parts| ==> NoneOf(parts[i], {'_'})
    ensures '_' !in Join(parts, sep)
    decreases |parts|
  {
    if |parts| > 1 {
      JoinWithoutUnderscore(parts[1..], sep);
    }
    if |parts| > 0 {
      assert '_' !in parts[0];
    }
  }

  /** The text before upper-casing in the 'header' mode: the words of
      `name` with `_` read as a space, joined by single spaces. */
  lemma HeaderJoinedShape(name: string)
    ensures '_' !in Join(Words(Join(Split(name, '_'), " ")), " ")
    ensures SingleSpaced(Join(Words(Join(Split(name, '_'), " ")), " "))
    ensures forall k :: 0 <= k < |Join(Words(Join(Split(name, '_'), " ")), " ")| ==>
      (Join(Words(Join(Split(name, '_'), " ")), " ")[k] in Whitespace ==>
       Join(Words(Join(Split(name, '_'), " ")), " ")[k] == ' ')
  {
    var m := Join(Split(name, '_'), " ");
    JoinWithoutUnderscore(Split(name, '_'), " ");
    var ws := Words(m);
    WordsShape(m);
    forall i | 0 <= i < |ws|
      ensures NoneOf(ws[i], {'_'})
    {
      forall k | 0 <= k < |ws[i]|
        ensures ws[i][k] != '_'
      {
        assert ws[i][k] in m;
      }
    }
    JoinSingleSpaced(ws);
    JoinWithoutUnderscore(ws, " ");
  }

  /** On any text, the 'header' mode gives upper-case text without `_`,
      with no space at either end, never two spaces in a row, and no
      whitespace other than single spaces. */
  lemma HeaderCaseShape(name: string)
    ensures '_' !in HeaderCase(name)
    ensures forall i :: 0 <= i < |HeaderCase(name)| ==> !IsAsciiLower(HeaderCase(name)[i])
    ensures SingleSpaced(HeaderCase(name))
    ensures forall i :: 0 <= i < |HeaderCase(name)| ==>
      (HeaderCase(name)[i] in Whitespace ==> HeaderCase(name)[i] == ' ')
  {
    var joined := Join(Words(Join(Split(name, '_'), " ")), " ");
    HeaderJoinedShape(name);
    UpperSingleSpaced(joined);
    var r := HeaderCase(name);
    assert r == UpperStr(joined);
    forall i | 0 <= i < |r|
      ensures r[i] != '_'
    {
      assert r[i] == Upper(joined[i]);
    }
  }

  /** On text without whitespace (every sanitised name), the words of the
      'header' form are the non-empty `_`-segments of the name, upper-cased
      and in order, and the 'header' form is those words joined by single
      spaces. */
  lemma HeaderCaseWords(name: string)
    requires NoneOf(name, Whitespace)
    ensures Words(HeaderCase(name)) == UpperAll(DropEmpty(Split(name, '_')))
    ensures HeaderCase(name) == Join(UpperAll(DropEmpty(Split(name, '_'))), " ")
  {
    var parts := Split(name, '_');
    SegmentsNoWhitespace(name);
    WordsOfJoin(parts);
    var ws := DropEmpty(parts);
    DropEmptyNoneOf(parts, Whitespace);
    UpperJoin(ws, " ");
    assert UpperStr(" ") == " ";
    var up := UpperAll(ws);
    UpperAllNoWhitespace(ws);
    WordsOfJoin(up);
  }

  /** A name made of letter-and-digit segments joined by `_` (every
      sanitised name is one) becomes its non-empty segments upper-cased and
      joined by single spaces. */
  lemma HeaderOfSegments(segs: seq<string>)
    requires |segs| > 0
    requires forall i :: 0 <= i < |segs| ==> AllAlnum(segs[i])
    ensures HeaderCase(Join(segs, "_")) == Join(UpperAll(DropEmpty(segs)), " ")
  {
    AlnumSegmentsSplit(segs);
    AlnumSegmentsNoWhitespace(segs);
    HeaderCaseWords(Join(segs, "_"));
  }

  /** Letter-and-digit segments joined by `_` split back into themselves. */
  lemma AlnumSegmentsSplit(segs: seq<string>)
    requires |segs| > 0
    requires forall i :: 0 <= i < |segs| ==> AllAlnum(segs[i])
    ensures Split(Join(segs, "_"), '_') == segs
  {
    forall i | 0 <= i < |segs|
      ensures NoneOf(segs[i], {'_'})
    {
      assert AllAlnum(segs[i]);
    }
    JoinThenSplit(segs, '_', {'_'});
  }

  /** Letter-and-digit segments joined by `_` hold no whitespace. */
  lemma AlnumSegmentsNoWhitespace(segs: seq<string>)
    requires forall i :: 0 <= i < |segs| ==> AllAlnum(segs[i])
    ensures NoneOf(Join(segs, "_"), Whitespace)
  {
    JoinChars(segs, "_", c => IsWordChar(c));
    NoWhitespaceInWordChars(Join(segs, "_"));
  }

  lemma SegmentsNoWhitespace(name: string)
    requires NoneOf(name, Whitespace)
    ensures forall i :: 0 <= i < |Split(name, '_')| ==> NoneOf(Split(name, '_')[i], Whitespace)
  {
    var parts := Split(name, '_');
    SplitAnyChars(name, {'_'});
    forall i, k | 0 <= i < |parts| && 0 <= k < |parts[i]|
      ensures parts[i][k] !in Whitespace
    {
      assert parts[i][k] in name;
    }
  }

  // ---------------------------------------------------------------------
  // FreeFemize
  // ---------------------------------------------------------------------

  /** The mode `FreeFemize` uses when none is given. */
  const DefaultKind: string := "variable"

  /** A character a 'header' name may hold: an upper-case letter, a digit or a space. */
  predicate IsHeaderChar(c: char) { IsAsciiUpper(c) || IsDigit(c) || c == ' ' }

  /** `FreeFemize(name, kind)` on an NFKD-normalised name: the name is
      sanitised, then put in the form `kind` asks for; any other kind than
      'variable' and 'header' returns the sanitised name. */
  function FreeFemize(name: string, kind: string): string {
    var s := Sanitize(name);
    if kind == "variable" then VariableCase(s)
    else if kind == "header" then HeaderCase(s)
    else s
  }

  /** What each mode produces: a 'variable' name is letters and digits only;
      a 'header' is upper-case letters, digits and single spaces between
      them; any other mode gives word characters whose letters and digits
      are those of the input. */
  lemma FreeFemizeShape(name: string, kind: string)
    ensures kind == "variable" ==> AllAlnum(FreeFemize(name, kind))
    ensures kind == "header" ==>
      (forall i :: 0 <= i < |FreeFemize(name, kind)| ==> IsHeaderChar(FreeFemize(name, kind)[i]))
      && SingleSpaced(FreeFemize(name, kind))
    ensures kind != "variable" && kind != "header" ==>
      AllWordChars(FreeFemize(name, kind)) && Alnums(FreeFemize(name, kind)) == Alnums(name)
  {
    var s := Sanitize(name);
    var r := FreeFemize(name, kind);
    if kind == "variable" {
      VariableCaseShape(s);
      var w := WithoutUnderscores(s);
      forall i | 0 <= i < |r|
        ensures IsAlnum(r[i])
      {
        assert IsAlnum(w[i]);
      }
    } else if kind == "header" {
      HeaderCaseShape(s);
      HeaderCharsOfWordChars(s);
    }
  }

  /** The 'header' form of word characters holds only header characters. */
  lemma HeaderCharsOfWordChars(s: string)
    requires AllWordChars(s)
    ensures forall i :: 0 <= i < |HeaderCase(s)| ==> IsHeaderChar(HeaderCase(s)[i])
  {
    var m := Join(Split(s, '_'), " ");
    HeaderWordChars(s);
    var split := SplitAny(m, Whitespace);
    SplitAnyChars(m, Whitespace);
    var ws := Words(m);
    forall i, k | 0 <= i < |ws| && 0 <= k < |ws[i]|
      ensures IsWordChar(ws[i][k]) || ws[i][k] == ' '
    {
      var j :| 0 <= j < |split| && split[j] == ws[i];
      assert ws[i][k] in m;
    }
    JoinChars(ws, " ", c => IsWordChar(c) || c == ' ');
    var joined := Join(ws, " ");
    HeaderCaseShape(s);
    var r := HeaderCase(s);
    forall i | 0 <= i < |r|
      ensures IsHeaderChar(r[i])
    {
      assert r[i] == Upper(joined[i]);
    }
  }

  /** Every character of `' '.join(s.split('_'))` is a word character or a space. */
  lemma HeaderWordChars(s: string)
    requires AllWordChars(s)
    ensures forall k :: 0 <= k < |Join(Split(s, '_'), " ")| ==>
      IsWordChar(Join(Split(s, '_'), " ")[k]) || Join(Split(s, '_'), " ")[k] == ' '
  {
    var parts := Split(s, '_');
    SplitAnyChars(s, {'_'});
    forall i, k | 0 <= i < |parts| && 0 <= k < |parts[i]|
      ensures IsWordChar(parts[i][k]) || parts[i][k] == ' '
    {
      assert parts[i][k] in s;
    }
    JoinChars(parts, " ", c => IsWordChar(c) || c == ' ');
  }

  /** A word of a 'header' name: non-empty, upper-case letters and digits only. */
  predicate IsHeaderWord(w: string) {
    w != "" && forall k :: 0 <= k < |w| ==> IsAsciiUpper(w[k]) || IsDigit(w[k])
  }

  /** The upper-cased non-empty `_`-segments of word characters are header words. */
  lemma HeaderSegmentsAreWords(s: string)
    requires AllWordChars(s)
    ensures forall i :: 0 <= i < |UpperAll(DropEmpty(Split(s, '_')))| ==>
      IsHeaderWord(UpperAll(DropEmpty(Split(s, '_')))[i])
  {
    var parts := Split(s, '_');
    SplitAnyChars(s, {'_'});
    var ws := DropEmpty(parts);
    forall i | 0 <= i < |ws|
      ensures IsHeaderWord(UpperStr(ws[i]))
    {
      var j :| 0 <= j < |parts| && parts[j] == ws[i];
      forall k | 0 <= k < |ws[i]|
        ensures IsAlnum(ws[i][k])
      {
        assert parts[j][k] in s;
      }
    }
  }

  /** Header words joined by spaces are replaced word by word: every space
      is a run of one non-word character and becomes one `_`. */
  lemma {:induction false} SubOfSpacedWords(ws: seq<string>)
    requires forall i :: 0 <= i < |ws| ==> IsHeaderWord(ws[i])
    ensures SubNonWordRuns(Join(ws, " ")) == Join(ws, "_")
    decreases |ws|
  {
    if |ws| == 1 {
      SubOfWordChars(ws[0]);
    } else if |ws| > 1 {
      var rest := Join(ws[1..], " ");
      SubOfSpacedWords(ws[1..]);
      forall i | 0 <= i < |ws[1..]|
        ensures ws[1..][i] != "" && NoneOf(ws[1..][i], Whitespace)
      {
        var w := ws[1..][i];
        forall k | 0 <= k < |w|
          ensures w[k] !in Whitespace
        {
          assert IsAsciiUpper(w[k]) || IsDigit(w[k]);
        }
      }
      JoinSingleSpaced(ws[1..]);
      SubRun(ws[0], " ", rest);
    }
  }

  /** Upper-case words are their own upper case. */
  lemma UpperAllOfHeaderWords(ws: seq<string>)
    requires forall i :: 0 <= i < |ws| ==> IsHeaderWord(ws[i])
    ensures UpperAll(ws) == ws
  {
    forall i | 0 <= i < |ws|
      ensures UpperStr(ws[i]) == ws[i]
    {
      UpperStrFixed(ws[i]);
    }
  }

  /** The 'header' form of any name is header words joined by single spaces. */
  lemma HeaderFormIsSpacedWords(name: string)
    ensures var up := UpperAll(DropEmpty(Split(Sanitize(name), '_')));
      (forall i :: 0 <= i < |up| ==> IsHeaderWord(up[i]))
      && FreeFemize(name, "header") == Join(up, " ")
  {
    var s := Sanitize(name);
    NoWhitespaceInWordChars(s);
    HeaderCaseWords(s);
    HeaderSegmentsAreWords(s);
  }

  /** Sanitising header words joined by spaces joins them by `_` instead. */
  lemma SanitizeSpacedWords(ws: seq<string>)
    requires forall i :: 0 <= i < |ws| ==> IsHeaderWord(ws[i])
    ensures Sanitize(Join(ws, " ")) == Join(ws, "_")
  {
    var h := Join(ws, " ");
    JoinChars(ws, " ", c => IsAscii(c));
    DropNonAsciiOfAscii(h);
    SubOfSpacedWords(ws);
  }

  /** Header words joined by `_` hold no whitespace, and splitting them at
      `_` gives the words back. */
  lemma UnderscoredWords(ws: seq<string>)
    requires forall i :: 0 <= i < |ws| ==> IsHeaderWord(ws[i])
    ensures NoneOf(Join(ws, "_"), Whitespace)
    ensures Split(Join(ws, "_"), '_') == if |ws| == 0 then [""] else ws
  {
    var u := Join(ws, "_");
    JoinChars(ws, "_", c => IsWordChar(c));
    NoWhitespaceInWordChars(u);
    if |ws| > 0 {
      forall i | 0 <= i < |ws|
        ensures NoneOf(ws[i], {'_'})
      {
        assert IsHeaderWord(ws[i]);
      }
      JoinThenSplit(ws, '_', {'_'});
    }
  }

  /** Header words are non-empty, so dropping empty pieces keeps them all;
      the single empty piece of an empty split is dropped. */
  lemma DropEmptyOfHeaderWords(ws: seq<string>)
    requires forall i :: 0 <= i < |ws| ==> IsHeaderWord(ws[i])
    ensures DropEmpty(if |ws| == 0 then [""] else ws) == ws
  {
    if |ws| == 0 {
      assert DropEmpty([""]) == DropEmpty([]);
    }
  }

  /** The 'header' mode turns header words joined by `_` into the same
      words joined by single spaces. */
  lemma HeaderCaseOfUnderscoredWords(ws: seq<string>)
    requires forall i :: 0 <= i < |ws| ==> IsHeaderWord(ws[i])
    ensures HeaderCase(Join(ws, "_")) == Join(ws, " ")
  {
    var u := Join(ws, "_");
    UnderscoredWords(ws);
    DropEmptyOfHeaderWords(ws);
    HeaderCaseWords(u);
    UpperAllOfHeaderWords(ws);
  }

  /** Putting a 'header' name in 'header' form again changes nothing. */
  lemma FreeFemizeHeaderIdempotent(name: string)
    ensures FreeFemize(FreeFemize(name, "header"), "header") == FreeFemize(name, "header")
  {
    var up := UpperAll(DropEmpty(Split(Sanitize(name), '_')));
    HeaderFormIsSpacedWords(name);
    SanitizeSpacedWords(up);
    HeaderCaseOfUnderscoredWords(up);
  }

  /** Putting a 'variable' name in 'variable' form again changes nothing. */
  lemma FreeFemizeVariableIdempotent(name: string)
    ensures FreeFemize(FreeFemize(name, "variable"), "variable") == FreeFemize(name, "variable")
  {
    var v := FreeFemize(name, "variable");
    FreeFemizeShape(name, "variable");
    assert AllWordChars(v);
    assert '_' !in v by {
      forall k | 0 <= k < |v|
        ensures v[k] != '_'
      {
        assert IsAlnum(v[k]);
      }
    }
    VariableCaseShape(v);
  }

  // ---------------------------------------------------------------------
  // headerFrame and flagize
  // ---------------------------------------------------------------------

  /** The rule lines of a header banner: 29 slashes. */
  const BannerRule: string := "/////////////////////////////"

  /** `headerFrame(header)`: the header, verbatim, inside a comment banner
      of fixed text. */
  function HeaderFrame(header: string): (edp: string)
    ensures |edp| == |header| + 75
    ensures edp[40..40 + |header|] == header
  {
    "\n" + BannerRule + "\n"
    + "//\n"
    + ("//    " + header + "\n")
    + "//\n"
    + (BannerRule + "\n\n")
  }

  /** The banner around a header does not depend on the header: any two
      frames share their first 40 and their last 35 characters. */
  lemma FrameIndependent(h1: string, h2: string)
    ensures HeaderFrame(h1)[..40] == HeaderFrame(h2)[..40]
    ensures HeaderFrame(h1)[40 + |h1|..] == HeaderFrame(h2)[40 + |h2|..]
  {
    FrameParts(h1);
    FrameParts(h2);
  }

  lemma FrameParts(h: string)
    ensures HeaderFrame(h)[..40] == "\n" + BannerRule + "\n//\n//    "
    ensures HeaderFrame(h)[40 + |h|..] == "\n//\n" + BannerRule + "\n\n"
  {
    var pre := "\n" + BannerRule + "\n//\n//    ";
    var post := "\n//\n" + BannerRule + "\n\n";
    assert HeaderFrame(h) == pre + h + post;
    assert |pre| == 40;
  }

  /** The lines of a banner, for a header on one line. */
  function FrameLines(header: string): seq<string> {
    ["", BannerRule, "//", "//    " + header, "//", BannerRule, "", ""]
  }

  /** A one-line header gives a banner of eight lines: an empty line, a
      rule, an empty comment line, the header indented after `//`, an empty
      comment line, a rule and two empty lines. */
  lemma HeaderFrameLines(header: string)
    requires '\n' !in header
    ensures Split(HeaderFrame(header), '\n') == FrameLines(header)
  {
    var ls := FrameLines(header);
    FrameIsJoin(header);
    forall i | 0 <= i < |ls|
      ensures NoneOf(ls[i], {'\n'})
    {
    }
    JoinThenSplit(ls, '\n', {'\n'});
  }

  /** The banner is its lines joined by newlines. */
  lemma FrameIsJoin(header: string)
    ensures Join(FrameLines(header), "\n") == HeaderFrame(header)
  {
    var ls := FrameLines(header);
    var tail := "//\n" + BannerRule + "\n\n";
    FrameTailIsJoin(header);
    JoinFront(ls[3..], "\n");
    assert ls[3..][1..] == ls[4..];
    JoinFront(ls[2..], "\n");
    assert ls[2..][1..] == ls[3..];
    JoinFront(ls[1..], "\n");
    assert ls[1..][1..] == ls[2..];
    JoinFront(ls, "\n");
    FrameRegroup(header, tail);
  }

  lemma JoinFront(parts: seq<string>, sep: string)
    requires |parts| >= 2
    ensures Join(parts, sep) == parts[0] + sep + Join(parts[1..], sep)
  {
  }

  /** The joined lines, regrouped as `HeaderFrame` builds the banner. */
  lemma FrameRegroup(header: string, tail: string)
    requires tail == "//\n" + BannerRule + "\n\n"
    ensures "" + "\n" + (BannerRule + "\n" + ("//" + "\n" + ("//    " + header + "\n" + tail)))
      == HeaderFrame(header)
  {
  }

  lemma FrameTailIsJoin(header: string)
    ensures Join(FrameLines(header)[4..], "\n") == "//\n" + BannerRule + "\n\n"
  {
    var tail := FrameLines(header)[4..];
    assert tail == ["//", BannerRule, "", ""];
    assert tail[1..] == [BannerRule, "", ""];
    assert tail[1..][1..] == ["", ""];
    assert Join(["", ""], "\n") == "\n";
  }

  /** The marker that opens an output flag. */
  const FlagPrefix: string := "# FLAG > "

  /** `flagize(name)`: the flag marker followed by the 'header' form of the name. */
  function Flagize(name: string): string {
    FlagPrefix + FreeFemize(name, "header")
  }

  /** A flag is the marker followed by upper-case letters, digits and
      single spaces between them. */
  lemma FlagizeShape(name: string)
    ensures |Flagize(name)| >= |FlagPrefix| && Flagize(name)[..|FlagPrefix|] == FlagPrefix
    ensures forall i :: |FlagPrefix| <= i < |Flagize(name)| ==> IsHeaderChar(Flagize(name)[i])
    ensures SingleSpaced(Flagize(name)[|FlagPrefix|..])
  {
    var h := FreeFemize(name, "header");
    FreeFemizeShape(name, "header");
    assert Flagize(name)[|FlagPrefix|..] == h;
  }

  /** Flagging a name already in 'header' form gives the same flag. */
  lemma FlagizeOfHeader(name: string)
    ensures Flagize(FreeFemize(name, "header")) == Flagize(name)
  {
    FreeFemizeHeaderIdempotent(name);
  }
}
