# FreeFem `.edp` string tools in Dafny

This project models `pyFreeFem/FreeFemTools/edpTools.py`, the small library
that pyFreeFem uses to write text into FreeFem `.edp` scripts:

- `edp_function` builds a call expression `name( a, k = v )`;
- `capitalize_first_letter` upper-cases the first character of a string;
- `FreeFemize` turns an arbitrary name into a FreeFem identifier
  ('variable' mode, CamelCase), a header ('header' mode, upper case and
  single spaces) or just a sanitised name (any other mode);
- `headerFrame` wraps a header in a fixed `//` comment banner;
- `flagize` prefixes the header form of a name with `# FLAG > `.

Every operation is a pure function of its arguments. Strings are
`seq<char>`.

Files:

- `pystr.dfy` (module `PyStr`) holds the Python string primitives the
  library relies on. These are `s.split(sep)`, which keeps empty pieces,
  and `s.split()`, which splits at any `str.isspace` character and drops
  empty pieces. It also holds `sep.join(parts)` and ASCII `upper()`, with
  their round trips: a split joined back gives the text, and a join split
  again gives the pieces.
- `edp_tools.dfy` (module `EdpTools`) models the five operations and
  proves the properties below.
- `edp_demo.dfy` (module `EdpDemo`) restates four calls of the library's
  demonstration block (lines 59, 61, 62 and 64) as concrete facts.

`FreeFemize` is modelled as the composition of its steps:

- `DropNonAscii` models `encode('ASCII', 'ignore')`.
- `SubNonWordRuns` models `re.sub('\W+', '_', ·)`, leftmost and greedy.
- `Sanitize` is the two steps above, one after the other.
- `VariableCase` and `HeaderCase` model the two modes.

Two independent descriptions act as partners:

- `Alnums`, the letters and digits of a text, in order, is the partner of
  the sanitiser.
- `WithoutUnderscores`, the text with every `_` removed, is the partner of
  the 'variable' mode.

The header mode is checked against `Words`, Python's `s.split()`.

## Model

| member | source | states |
|---|---|---|
| EdpTools.EdpFunction | pyFreeFem/FreeFemTools/edpTools.py:4-19 | with no argument the call is `name( )`; otherwise it is `name(` followed by the items joined by `,` and then ` )`, so exactly the final trailing comma is removed |
| EdpTools.CallItems | pyFreeFem/FreeFemTools/edpTools.py:8-12 | there is one item per positional argument and one per keyword argument |
| EdpTools.PositionalItem | pyFreeFem/FreeFemTools/edpTools.py:8-9 | the i-th item is a space followed by the i-th positional argument |
| EdpTools.KeywordItem | pyFreeFem/FreeFemTools/edpTools.py:11-12 | the keyword items follow every positional item, in call order, each written `name = value` after a space |
| EdpTools.AppendPositional | pyFreeFem/FreeFemTools/edpTools.py:8-9 | the first loop appends, in order, a space, each positional argument and a comma |
| EdpTools.AppendKeywords | pyFreeFem/FreeFemTools/edpTools.py:11-12 | the second loop appends, in order, a space, `name = value` for each keyword argument and a comma |
| EdpTools.CommaTerminatedConcat | pyFreeFem/FreeFemTools/edpTools.py:8-12 | what the second loop appends after the first is the comma-terminated text of all the items |
| EdpTools.CommaTerminatedIsJoin | pyFreeFem/FreeFemTools/edpTools.py:8-12 | the text the two loops append is the comma-join of the items plus one trailing comma |
| EdpTools.StripLastComma | pyFreeFem/FreeFemTools/edpTools.py:14-15 | the last character is a comma exactly when there is at least one argument; removing it leaves the comma-join, and with no argument the text ends with the `(` |
| EdpTools.CapitalizeFirstLetter | pyFreeFem/FreeFemTools/edpTools.py:22-26 | the empty string is returned as it is; otherwise the length is kept and everything after the first character is unchanged; a lower-case ASCII first letter becomes its upper-case letter (32 code points lower), and any other first character is kept |
| EdpTools.CapitalizeIdempotent | pyFreeFem/FreeFemTools/edpTools.py:22-26 | capitalising twice is the same as capitalising once |
| EdpTools.DropNonAscii | pyFreeFem/FreeFemTools/edpTools.py:32 | the result is ASCII only and no longer than the input |
| EdpTools.DropNonAsciiOfNonAscii | pyFreeFem/FreeFemTools/edpTools.py:32 | a single non-ASCII character is dropped, leaving nothing; with the two lemmas below this fixes the result on every input |
| EdpTools.DropNonAsciiConcat | pyFreeFem/FreeFemTools/edpTools.py:32 | dropping non-ASCII characters distributes over concatenation |
| EdpTools.DropNonAsciiOfAscii | pyFreeFem/FreeFemTools/edpTools.py:32 | ASCII text is kept as it is |
| EdpTools.DropNonAsciiKeepsAlnums | pyFreeFem/FreeFemTools/edpTools.py:32 | every ASCII letter and digit survives, in order |
| EdpTools.NonWordPrefix | pyFreeFem/FreeFemTools/edpTools.py:34 | the run `\W+` matches at the front: it fits in the text, holds only non-word characters, and is followed by a word character or the end |
| EdpTools.NonWordPrefixExact | pyFreeFem/FreeFemTools/edpTools.py:34 | the run the replacement consumes is the unique maximal run of non-word characters at the front |
| EdpTools.SubNonWordRuns | pyFreeFem/FreeFemTools/edpTools.py:34 | after the replacement only letters, digits and `_` remain, and the text is no longer |
| EdpTools.SubOfWordChars | pyFreeFem/FreeFemTools/edpTools.py:34 | text made of word characters is left unchanged |
| EdpTools.SubRun | pyFreeFem/FreeFemTools/edpTools.py:34 | a maximal run of non-word characters between word characters becomes exactly one `_`, and the word characters before it are kept |
| EdpTools.SubKeepsAlnums | pyFreeFem/FreeFemTools/edpTools.py:34 | the replacement keeps every letter and digit, in order |
| EdpTools.Sanitize | pyFreeFem/FreeFemTools/edpTools.py:30-34 | a sanitised name has only letters, digits and `_`; its letters and digits are exactly the ASCII letters and digits of the input, in order; a name of word characters is kept |
| EdpTools.SanitizeIdempotent | pyFreeFem/FreeFemTools/edpTools.py:30-34 | sanitising a sanitised name changes nothing |
| EdpTools.CapitalizeAll | pyFreeFem/FreeFemTools/edpTools.py:39 | `map(capitalize_first_letter, ·)`: one result per piece, the i-th being the i-th piece capitalised |
| EdpTools.VariableCase | pyFreeFem/FreeFemTools/edpTools.py:36-39 | computes the 'variable' form; its properties are stated by VariableCaseShape, VariableCaseSegment and VariableOfSegments |
| EdpTools.VariableCaseShape | pyFreeFem/FreeFemTools/edpTools.py:36-39 | the 'variable' form holds no `_`; character by character, it is the name with its underscores removed, each character kept or upper-cased; a name without `_` is returned unchanged |
| EdpTools.VariableCaseSegment | pyFreeFem/FreeFemTools/edpTools.py:38-39 | the first `_`-segment is capitalised and followed by the 'variable' form of the rest, itself capitalised when it holds no further `_` |
| EdpTools.VariableOfSegments | pyFreeFem/FreeFemTools/edpTools.py:38-39 | two or more `_`-free segments joined by `_` become the concatenation of the capitalised segments, empty segments included |
| EdpTools.ConcatSplitIsWithout | pyFreeFem/FreeFemTools/edpTools.py:39 | concatenating the `_`-segments of a name is removing its underscores |
| EdpTools.HeaderCase | pyFreeFem/FreeFemTools/edpTools.py:41-42 | computes the 'header' form; its properties are stated by HeaderCaseShape, HeaderCaseWords and HeaderOfSegments |
| EdpTools.HeaderCaseShape | pyFreeFem/FreeFemTools/edpTools.py:41-42 | the 'header' form holds no `_` and no lower-case ASCII letter; it has no leading, trailing or doubled space; and its only whitespace is the space |
| EdpTools.HeaderCaseWords | pyFreeFem/FreeFemTools/edpTools.py:41-42 | for a name without whitespace, the words of the 'header' form are the non-empty `_`-segments, upper-cased and in order, and the form is those words joined by single spaces |
| EdpTools.HeaderOfSegments | pyFreeFem/FreeFemTools/edpTools.py:41-42 | letter-and-digit segments joined by `_` become their non-empty segments, upper-cased, joined by single spaces |
| EdpTools.FreeFemize | pyFreeFem/FreeFemTools/edpTools.py:28-44 | computes `FreeFemize`; the default mode is the constant `DefaultKind`, 'variable'; what each mode gives is stated by FreeFemizeShape, and the two idempotence lemmas below |
| EdpTools.FreeFemizeShape | pyFreeFem/FreeFemTools/edpTools.py:28-44 | 'variable' gives letters and digits only; 'header' gives upper-case letters, digits and single inner spaces; any other mode gives the sanitised name, which is word characters with the input's letters and digits |
| EdpTools.HeaderFormIsSpacedWords | pyFreeFem/FreeFemTools/edpTools.py:41-44 | the 'header' form of any name is a sequence of header words (upper-case letters and digits) joined by single spaces |
| EdpTools.FreeFemizeHeaderIdempotent | pyFreeFem/FreeFemTools/edpTools.py:28-44 | putting a 'header' name in 'header' form again changes nothing |
| EdpTools.FreeFemizeVariableIdempotent | pyFreeFem/FreeFemTools/edpTools.py:28-44 | putting a 'variable' name in 'variable' form again changes nothing |
| EdpTools.HeaderFrame | pyFreeFem/FreeFemTools/edpTools.py:46-52 | the banner is 75 characters longer than the header, which appears verbatim from index 40 |
| EdpTools.FrameIndependent | pyFreeFem/FreeFemTools/edpTools.py:46-52 | the 40 characters before the header and the 35 after it are the same for every header |
| EdpTools.HeaderFrameLines | pyFreeFem/FreeFemTools/edpTools.py:46-52 | a one-line header gives eight lines: empty, a 29-slash rule, `//`, `//    ` followed by the header, `//`, the rule, and two empty lines |
| EdpTools.Flagize | pyFreeFem/FreeFemTools/edpTools.py:54-55 | computes the flag; its properties are stated by FlagizeShape and FlagizeOfHeader |
| EdpTools.FlagizeShape | pyFreeFem/FreeFemTools/edpTools.py:54-55 | a flag starts with `# FLAG > ` and goes on with upper-case letters, digits and single inner spaces |
| EdpTools.FlagizeOfHeader | pyFreeFem/FreeFemTools/edpTools.py:54-55 | flagging a name already in 'header' form gives the same flag |
| PyStr.Split | pyFreeFem/FreeFemTools/edpTools.py:38-39 | computes `s.split(sep)`; its properties are stated by SplitThenJoin, JoinThenSplit and SplitHasSep |
| PyStr.SplitAnyChars | pyFreeFem/FreeFemTools/edpTools.py:38-42 | every character of a split piece is a character of the text split |
| PyStr.Join | pyFreeFem/FreeFemTools/edpTools.py:39-42 | computes `sep.join(parts)`; its properties are stated by SplitThenJoin, JoinThenSplit and UpperJoin |
| PyStr.Words | pyFreeFem/FreeFemTools/edpTools.py:42 | computes `s.split()`; its properties are stated by WordsShape and WordsOfJoin |
| PyStr.WordsShape | pyFreeFem/FreeFemTools/edpTools.py:42 | every word of `s.split()` is non-empty, holds no whitespace and is made of characters of `s` |
| PyStr.UpperStr | pyFreeFem/FreeFemTools/edpTools.py:42 | `s.upper()` keeps the length and upper-cases each character in place |
| PyStr.SplitThenJoin | pyFreeFem/FreeFemTools/edpTools.py:38-39 | joining the pieces of `s.split(sep)` with `sep` gives `s` back |
| PyStr.JoinThenSplit | pyFreeFem/FreeFemTools/edpTools.py:38-42 | splitting a join whose pieces hold no cut character gives the pieces back |
| PyStr.SplitHasSep | pyFreeFem/FreeFemTools/edpTools.py:38 | `s.split(c)` has more than one piece exactly when `c` occurs in `s` |
| PyStr.WordsOfJoin | pyFreeFem/FreeFemTools/edpTools.py:42 | `s.split()` of whitespace-free pieces joined by spaces is the non-empty pieces |
| PyStr.UpperJoin | pyFreeFem/FreeFemTools/edpTools.py:42 | upper-casing commutes with joining |
| EdpDemo.AdaptMeshCall | pyFreeFem/FreeFemTools/edpTools.py:59 | `edp_function('adaptmesh', 'Th', err = 0.2)` is `adaptmesh( Th, err = 0.2 )` |
| EdpDemo.PlainVariable | pyFreeFem/FreeFemTools/edpTools.py:61 | `FreeFemize('u')` is `u` |
| EdpDemo.AccentedVariable | pyFreeFem/FreeFemTools/edpTools.py:62 | `FreeFemize('toto_ça$$$_vélo$_35')` is `TotoCaVelo35` |
| EdpDemo.AccentedFlag | pyFreeFem/FreeFemTools/edpTools.py:64 | `flagize('début')` is `# FLAG > DEBUT` |

## Left out

- Unicode NFKD normalisation (line 30) depends on Unicode tables that are
  outside the model. Every name is taken as already NFKD-normalised. The
  demonstration input `début` is therefore written with a combining acute
  accent after the `e`.
- `str(arg)` on arbitrary Python objects (lines 9 and 12) is not modelled.
  This includes float formatting such as `0.2`. Arguments arrive as
  already-rendered text, and keyword arguments as an ordered sequence of
  (name, text) pairs, in call order.
- PyStr.Upper: maps only ASCII letters, unlike Python's full Unicode
  `upper()`. The result is the same everywhere `FreeFemize` upper-cases,
  because only ASCII text remains after line 32.
- EdpTools.CapitalizeFirstLetter: uses the same ASCII-only upper-casing. On
  a string starting with a non-ASCII letter it keeps that letter, where
  Python may change it. Inside `FreeFemize` its argument is always ASCII.
- The identity test `edp_str[-1] is ','` (line 14) is modelled as character
  equality. It only works in Python because CPython shares one-character
  string objects.
- The demonstration block (lines 57-64) prints its results. Printing is
  not modelled.
- The demonstration call on line 63,
  `headerFrame(FreeFemize('toto_ça$$$____vélo$_35', type = 'header'))`,
  is not stated as a concrete fact. Its steps are the ones line 62 already
  shows (dropping the accents, replacing each non-word run), followed by
  the 'header' form and the banner, which general lemmas state for every
  input: HeaderOfSegments gives the 'header' form of `_`-separated
  segments, and HeaderFrame places the header inside the banner.
- The mesh and matrix file codec, process execution and plotting are other
  parts of pyFreeFem. They are not part of this model.
