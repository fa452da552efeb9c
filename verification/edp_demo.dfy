/** The calls of the library's demonstration block, with the text each one
    produces. Names are written NFKD-normalised, so accented letters appear
    as a base letter followed by a combining mark. The accented
    demonstrations take their input as a parameter fixed by the
    precondition and go through the general lemmas step by step; the
    others follow from the definitions directly. */
module EdpDemo {
  import opened PyStr
  import opened EdpTools

  /** `edp_function('adaptmesh', 'Th', err = 0.2)` */
  method AdaptMeshCall() returns (call: string)
    ensures call == "adaptmesh( Th, err = 0.2 )"
  {
    call := EdpFunction("adaptmesh", ["Th"], [("err", "0.2")]);
    var items := CallItems(["Th"], [("err", "0.2")]);
    assert items[0] == " Th";
    assert items[1] == " err = 0.2";
    assert items[1..] == [" err = 0.2"];
    assert Join(items, ",") == " Th, err = 0.2";
  }

  /** `FreeFemize('u')`: a plain name is kept. */
  lemma PlainVariable()
    ensures FreeFemize("u", DefaultKind) == "u"
  {
  }

  /** `FreeFemize('toto_ça$$$_vélo$_35')`: the accents go, each non-word run
      becomes one `_`, and the six segments, two of them empty, are
      capitalised and concatenated. */
  lemma AccentedVariable(name: string)
    requires name == "toto_c\U{327}a$$$_ve\U{301}lo$_35"
    ensures FreeFemize(name, DefaultKind) == "TotoCaVelo35"
  {
    SanitizedDemoName(name);
    VariableOfDemo("toto_ca__velo__35", ["toto", "ca", "", "velo", "", "35"]);
  }

  /** `flagize('début')` */
  lemma AccentedFlag(name: string)
    requires name == "de\U{301}but"
    ensures Flagize(name) == "# FLAG > DEBUT"
  {
    HeaderOfFlagName(name);
    assert FlagPrefix + "DEBUT" == "# FLAG > DEBUT";
  }

  /** `FreeFemize('début', type = 'header')` */
  lemma HeaderOfFlagName(name: string)
    requires name == "de\U{301}but"
    ensures FreeFemize(name, "header") == "DEBUT"
  {
    SanitizedFlagName(name);
    OneSegmentHeader("debut", "DEBUT");
  }

  /** `début` sanitised: the combining mark goes. */
  lemma SanitizedFlagName(name: string)
    requires name == "de\U{301}but"
    ensures Sanitize(name) == "debut"
  {
    DropOneMark(name, "de", '\U{301}', "but", "debut");
    SubOfWordChars("debut");
  }

  // ---------------------------------------------------------------------
  // Steps of the demonstrations
  // ---------------------------------------------------------------------

  /** Dropping one non-ASCII character drops nothing else. */
  lemma DropMark(name: string, a: string, m: char, b: string)
    requires name == a + [m] + b
    requires !IsAscii(m)
    ensures DropNonAscii(name) == DropNonAscii(a) + DropNonAscii(b)
  {
    DropNonAsciiConcat(a + [m], b);
    DropNonAsciiConcat(a, [m]);
    DropNonAsciiOfNonAscii(m);
  }

  /** Dropping one combining mark between two ASCII pieces, then the
      replacement step. */
  lemma DropOneMark(name: string, a: string, m: char, b: string, ab: string)
    requires name == a + [m] + b
    requires !IsAscii(m)
    requires forall i :: 0 <= i < |a| ==> IsAscii(a[i])
    requires forall i :: 0 <= i < |b| ==> IsAscii(b[i])
    requires ab == a + b
    ensures Sanitize(name) == SubNonWordRuns(ab)
  {
    DropMark(name, a, m, b);
    DropNonAsciiOfAscii(a);
    DropNonAsciiOfAscii(b);
  }

  /** The 'header' form of a name made of one segment is its upper case. */
  lemma OneSegmentHeader(s: string, up: string)
    requires s != "" && AllWordChars(s) && '_' !in s
    requires up == UpperStr(s)
    ensures HeaderCase(s) == up
  {
    NoWhitespaceInWordChars(s);
    HeaderCaseWords(s);
    assert NoneOf(s, {'_'});
    SplitAnyWhole(s, {'_'});
    assert DropEmpty([s]) == [s];
    assert UpperAll([s]) == [up];
  }

  // ---------------------------------------------------------------------
  // Steps of `FreeFemize('toto_ça$$$_vélo$_35')`
  // ---------------------------------------------------------------------

  predicate AsciiText(s: string) { forall i :: 0 <= i < |s| ==> IsAscii(s[i]) }

  predicate NonWordText(s: string) { |s| > 0 && forall i :: 0 <= i < |s| ==> !IsWordChar(s[i]) }

  /** The sanitised demonstration name. */
  lemma SanitizedDemoName(name: string)
    requires name == "toto_c\U{327}a$$$_ve\U{301}lo$_35"
    ensures Sanitize(name) == "toto_ca__velo__35"
  {
    AsciiDemoName(name);
    SubDemoName("toto_ca$$$_velo$_35");
  }

  /** The demonstration name without its two combining marks. */
  lemma AsciiDemoName(name: string)
    requires name == "toto_c\U{327}a$$$_ve\U{301}lo$_35"
    ensures DropNonAscii(name) == "toto_ca$$$_velo$_35"
  {
    assert name == "toto_c" + ['\U{327}'] + "a$$$_ve" + ['\U{301}'] + "lo$_35";
    assert AsciiText("toto_c") && AsciiText("a$$$_ve") && AsciiText("lo$_35");
    DropTwoMarks(name, "toto_c", '\U{327}', "a$$$_ve", '\U{301}', "lo$_35");
    UnmarkedPieces();
  }

  lemma UnmarkedPieces()
    ensures "toto_c" + "a$$$_ve" + "lo$_35" == "toto_ca$$$_velo$_35"
  {
  }

  /** The two non-word runs of the ASCII demonstration name. */
  lemma SubDemoName(s: string)
    requires s == "toto_ca$$$_velo$_35"
    ensures SubNonWordRuns(s) == "toto_ca__velo__35"
  {
    DemoPieces();
    assert s == "toto_ca" + "$$$" + ("_velo" + "$" + "_35");
    SubTwoRuns(s, "toto_ca", "$$$", "_velo", "$", "_35");
  }

  lemma DemoPieces()
    ensures AllWordChars("toto_ca") && AllWordChars("_velo") && AllWordChars("_35")
    ensures NonWordText("$$$") && NonWordText("$")
    ensures "toto_ca" + "_" + ("_velo" + "_" + "_35") == "toto_ca__velo__35"
  {
  }

  /** Dropping two marks between three ASCII pieces. */
  lemma DropTwoMarks(name: string, a: string, m1: char, b: string, m2: char, c: string)
    requires name == a + [m1] + b + [m2] + c
    requires !IsAscii(m1) && !IsAscii(m2)
    requires AsciiText(a) && AsciiText(b) && AsciiText(c)
    ensures DropNonAscii(name) == a + b + c
  {
    DropMark(name, a + [m1] + b, m2, c);
    DropMark(a + [m1] + b, a, m1, b);
    DropNonAsciiOfAscii(a);
    DropNonAsciiOfAscii(b);
    DropNonAsciiOfAscii(c);
  }

  /** Two non-word runs, each between word characters, become one `_` each. */
  lemma SubTwoRuns(s: string, w1: string, x1: string, w2: string, x2: string, t: string)
    requires s == w1 + x1 + (w2 + x2 + t)
    requires AllWordChars(w1) && AllWordChars(w2) && AllWordChars(t)
    requires NonWordText(x1) && NonWordText(x2)
    requires |w2| > 0 && |t| > 0
    ensures SubNonWordRuns(s) == w1 + "_" + (w2 + "_" + t)
  {
    SubRun(w1, x1, w2 + x2 + t);
    SubRun(w2, x2, t);
    SubOfWordChars(t);
  }

  /** The 'variable' form of the sanitised demonstration name. */
  lemma VariableOfDemo(s: string, segs: seq<string>)
    requires s == "toto_ca__velo__35"
    requires segs == ["toto", "ca", "", "velo", "", "35"]
    ensures VariableCase(s) == "TotoCaVelo35"
  {
    SegmentsOfDemo(segs);
    CapitalizedDemo(segs);
    forall i | 0 <= i < |segs|
      ensures NoneOf(segs[i], {'_'})
    {
    }
    VariableOfSegments(segs);
  }

  /** The six segments, joined by `_`, give the sanitised name. */
  lemma SegmentsOfDemo(segs: seq<string>)
    requires segs == ["toto", "ca", "", "velo", "", "35"]
    ensures Join(segs, "_") == "toto_ca__velo__35"
  {
    JoinFront(segs[4..], "_");
    assert segs[4..][1..] == ["35"];
    assert Join(segs[4..], "_") == "_35";
    JoinFront(segs[3..], "_");
    assert segs[3..][1..] == segs[4..];
    assert Join(segs[3..], "_") == "velo__35";
    JoinFront(segs[2..], "_");
    assert segs[2..][1..] == segs[3..];
    assert Join(segs[2..], "_") == "_velo__35";
    JoinFront(segs[1..], "_");
    assert segs[1..][1..] == segs[2..];
    assert Join(segs[1..], "_") == "ca__velo__35";
    JoinFront(segs, "_");
  }

  /** The capitalised segments, concatenated. */
  lemma CapitalizedDemo(segs: seq<string>)
    requires segs == ["toto", "ca", "", "velo", "", "35"]
    ensures Join(CapitalizeAll(segs), "") == "TotoCaVelo35"
  {
    var caps := CapitalizeAll(segs);
    CapitalizedSegments(segs);
    JoinFront(caps[4..], "");
    assert caps[4..][1..] == ["35"];
    JoinFront(caps[3..], "");
    assert caps[3..][1..] == caps[4..];
    JoinFront(caps[2..], "");
    assert caps[2..][1..] == caps[3..];
    JoinFront(caps[1..], "");
    assert caps[1..][1..] == caps[2..];
    JoinFront(caps, "");
  }

  lemma CapitalizedSegments(segs: seq<string>)
    requires segs == ["toto", "ca", "", "velo", "", "35"]
    ensures CapitalizeAll(segs) == ["Toto", "Ca", "", "Velo", "", "35"]
  {
    var caps := CapitalizeAll(segs);
    CapitalizedPieces();
    assert caps[0] == "Toto" && caps[1] == "Ca" && caps[2] == "";
    assert caps[3] == "Velo" && caps[4] == "" && caps[5] == "35";
  }

  lemma CapitalizedPieces()
    ensures CapitalizeFirstLetter("toto") == "Toto"
    ensures CapitalizeFirstLetter("ca") == "Ca"
    ensures CapitalizeFirstLetter("velo") == "Velo"
    ensures CapitalizeFirstLetter("35") == "35"
    ensures CapitalizeFirstLetter("") == ""
  {
  }
}
