/** The parts of the C++ iostream library the solvers rely on, stated over the
    remaining text of a stream: whitespace skipping, formatted extraction of
    numbers, characters and words (`operator>>`), `std::getline`, and the
    decimal rendering used by `operator<<` on integers. */
module Text {

  /** `std::isspace` in the "C" locale. */
  predicate IsSpace(c: char) {
    c == ' ' || c == '\t' || c == '\n' || c == '\r' || c == '\U{000B}' || c == '\U{000C}'
  }

  predicate IsDigit(c: char) {
    '0' <= c <= '9'
  }

  predicate AllDigits(s: string) {
    forall k :: 0 <= k < |s| ==> IsDigit(s[k])
  }

  /** What a sentry does before a formatted extraction: drop leading whitespace. */
  function SkipWs(s: string): (t: string)
    ensures |t| <= |s| && t == s[|s| - |t|..]
    ensures t == [] || !IsSpace(t[0])
    ensures forall k :: 0 <= k < |s| - |t| ==> IsSpace(s[k])
  {
    if s == [] || !IsSpace(s[0]) then s else SkipWs(s[1..])
  }

  /** Length of the run of digits at the front of `s`. */
  function DigitRun(s: string): (n: nat)
    ensures n <= |s|
    ensures forall k :: 0 <= k < n ==> IsDigit(s[k])
    ensures n == |s| || !IsDigit(s[n])
  {
    if s == [] || !IsDigit(s[0]) then 0 else 1 + DigitRun(s[1..])
  }

  /** Length of the run of non-whitespace characters at the front of `s`. */
  function WordRun(s: string): (n: nat)
    ensures n <= |s|
    ensures forall k :: 0 <= k < n ==> !IsSpace(s[k])
    ensures n == |s| || IsSpace(s[n])
  {
    if s == [] || IsSpace(s[0]) then 0 else 1 + WordRun(s[1..])
  }

  /** Index of the first `c` in `s`, or `|s|` when there is none. */
  function IndexOf(s: string, c: char): (k: nat)
    ensures k <= |s|
    ensures forall j :: 0 <= j < k ==> s[j] != c
    ensures k == |s| || s[k] == c
  {
    if s == [] then 0 else if s[0] == c then 0 else 1 + IndexOf(s[1..], c)
  }

  function DigitValue(c: char): nat
    requires IsDigit(c)
  {
    (c as int) - ('0' as int)
  }

  function DigitChar(d: nat): char
    requires d < 10
  {
    (('0' as int) + d) as char
  }

  /** The value of a string of decimal digits, most significant first. */
  function DigitsValue(ds: string): nat
    requires AllDigits(ds)
  {
    if ds == [] then 0 else DigitsValue(ds[..|ds| - 1]) * 10 + DigitValue(ds[|ds| - 1])
  }

  /** Decimal rendering of a natural number, as `operator<<` writes it. */
  function NatToString(n: nat): string
  {
    if n < 10 then [DigitChar(n)] else NatToString(n / 10) + [DigitChar(n % 10)]
  }

  /** Decimal rendering of an integer: a '-' in front of a negative value. */
  function IntToString(i: int): string
  {
    if i < 0 then "-" + NatToString(-i) else NatToString(i)
  }

  /** A written integer starts with '-' or a digit and holds nothing else:
      no whitespace and no line break. */
  lemma IntToStringChars(i: int)
    ensures IntToString(i) != [] && !IsSpace(IntToString(i)[0])
    ensures forall k :: 0 <= k < |IntToString(i)| ==>
              IntToString(i)[k] == '-' || IsDigit(IntToString(i)[k])
    ensures '\n' !in IntToString(i)
  {
    NatToStringDigits(if i < 0 then -i else i);
  }

  lemma {:induction false} NatToStringDigits(n: nat)
    ensures |NatToString(n)| >= 1 && AllDigits(NatToString(n))
    ensures DigitsValue(NatToString(n)) == n
    ensures NatToString(n)[0] != '0' || n == 0
  {
    if n >= 10 {
      NatToStringDigits(n / 10);
      var s := NatToString(n / 10);
      assert NatToString(n) == s + [DigitChar(n % 10)];
      assert NatToString(n)[..|NatToString(n)| - 1] == s;
    }
  }

  /** The result of one formatted extraction: the value and the text left
      after it, or a failure that says whether the end of the stream was hit
      (the stream's eofbit). */
  datatype Extracted<T> = Got(value: T, rest: string) | Stuck(atEnd: bool)

  /** `is >> x` for a signed integer `x`: optional whitespace, an optional sign,
      then at least one digit. */
  function ReadSigned(s: string): (r: Extracted<int>)
    ensures r.Got? ==> |r.rest| < |s|
  {
    SignedNumeral(SkipWs(s))
  }

  /** The numeral at the front of text that starts with no whitespace. */
  function SignedNumeral(t: string): (r: Extracted<int>)
    ensures r.Got? ==> |r.rest| < |t|
  {
    if t == [] then Stuck(true)
    else
      var u := if t[0] == '+' || t[0] == '-' then t[1..] else t;
      if u == [] then Stuck(true)
      else if !IsDigit(u[0]) then Stuck(false)
      else
        var n := DigitRun(u);
        var v: int := DigitsValue(u[..n]);
        Got(if t[0] == '-' then -v else v, u[n..])
  }

  /** `is >> x` for an unsigned integer `x`: as for a signed one, except that a
      leading '-' negates the value modulo 2^64. */
  function ReadUnsigned(s: string): (r: Extracted<nat>)
    ensures r.Got? ==> |r.rest| < |s|
    ensures r.Got? ==> ReadSigned(s).Got? && r.rest == ReadSigned(s).rest
    ensures r.Got? && ReadSigned(s).value >= 0 ==> r.value == ReadSigned(s).value
    ensures r.Stuck? ==> ReadSigned(s) == Stuck(r.atEnd)
  {
    Unsigned(ReadSigned(s))
  }

  /** A signed extraction reinterpreted as `std::size_t`: a negative value
      wraps modulo 2^64. */
  function Unsigned(r: Extracted<int>): Extracted<nat>
  {
    match r
    case Stuck(e) => Stuck(e)
    case Got(v, rest) => Got(if v < 0 then Wrap(v) else v, rest)
  }

  /** 2^64: `std::size_t` arithmetic is modulo this. */
  const SIZE_T_MODULUS: nat := 0x1_0000_0000_0000_0000

  /** The conversion `std::size_t(x)` of an integer. */
  function Wrap(x: int): (r: nat)
    ensures r < SIZE_T_MODULUS
    ensures 0 <= x < SIZE_T_MODULUS ==> r == x
    ensures (r - x) % SIZE_T_MODULUS == 0
  {
    x % SIZE_T_MODULUS
  }

  /** Adding in `std::size_t` step by step agrees with wrapping the total. */
  lemma WrapAdd(a: int, b: int)
    ensures Wrap(Wrap(a) + b) == Wrap(a + b)
  {
  }

  /** `is >> c` for a `char c`: the first character that is not whitespace. */
  function ReadChar(s: string): (r: Extracted<char>)
    ensures r.Got? ==> |r.rest| < |s|
  {
    var t := SkipWs(s);
    if t == [] then Stuck(true) else Got(t[0], t[1..])
  }

  /** `is >> str` for a `std::string str`: the next whitespace-delimited word. */
  function ReadWord(s: string): (r: Extracted<string>)
    ensures r.Got? ==> |r.rest| < |s|
    ensures r.Got? ==> |r.value| > 0 && forall k :: 0 <= k < |r.value| ==> !IsSpace(r.value[k])
  {
    var t := SkipWs(s);
    if t == [] then Stuck(true)
    else
      var n := WordRun(t);
      Got(t[..n], t[n..])
  }

  /** `std::copy(std::istream_iterator<intmax_t>(is), {}, out)`: the values read
      until an extraction fails, and whether that failure hit the end of the
      stream (what a following `is.eof()` reports). */
  function ReadAllSigned(s: string): (seq<int>, bool)
    decreases |s|
  {
    match ReadSigned(s)
    case Stuck(e) => ([], e)
    case Got(v, rest) => var (vs, e) := ReadAllSigned(rest); ([v] + vs, e)
  }

  /** As `ReadAllSigned`, for `std::istream_iterator<std::size_t>`. */
  function ReadAllUnsigned(s: string): (seq<nat>, bool)
    decreases |s|
  {
    match ReadUnsigned(s)
    case Stuck(e) => ([], e)
    case Got(v, rest) => var (vs, e) := ReadAllUnsigned(rest); ([v] + vs, e)
  }

  /** As `ReadAllSigned`, for `std::istream_iterator<std::string>`. */
  function ReadAllWords(s: string): (seq<string>, bool)
    decreases |s|
  {
    match ReadWord(s)
    case Stuck(e) => ([], e)
    case Got(w, rest) => var (ws, e) := ReadAllWords(rest); ([w] + ws, e)
  }

  /** The pieces successive `std::getline(is, piece, delim)` calls return
      until one fails. */
  function Split(s: string, delim: char): seq<string>
    decreases |s|
  {
    if s == [] then []
    else
      var k := IndexOf(s, delim);
      if k == |s| then [s] else [s[..k]] + Split(s[k + 1..], delim)
  }

  /** `std::getline(is, line)` in a loop. */
  function Lines(s: string): seq<string>
  {
    Split(s, '\n')
  }

  /** The text that the pieces came from: each piece followed by the delimiter. */
  function Terminated(pieces: seq<string>, delim: char): string
  {
    if pieces == [] then [] else pieces[0] + [delim] + Terminated(pieces[1..], delim)
  }

  /** getline's pieces never hold the delimiter. */
  lemma {:induction false} SplitPieces(s: string, delim: char)
    ensures forall k :: 0 <= k < |Split(s, delim)| ==> delim !in Split(s, delim)[k]
  {
    if s != [] {
      var k := IndexOf(s, delim);
      if k < |s| {
        SplitPieces(s[k + 1..], delim);
      }
    }
  }

  /** Gluing getline's pieces back together gives the text again, up to a
      delimiter the text did not end with. */
  lemma {:induction false} SplitTerminated(s: string, delim: char)
    ensures s == [] || s[|s| - 1] == delim ==> Terminated(Split(s, delim), delim) == s
    ensures s != [] && s[|s| - 1] != delim ==> Terminated(Split(s, delim), delim) == s + [delim]
  {
    if s != [] {
      var k := IndexOf(s, delim);
      if k == |s| {
        assert Split(s, delim) == [s];
        TerminatedCons(s, [], delim);
      } else {
        var rest := s[k + 1..];
        SplitTerminated(rest, delim);
        var ps := Split(rest, delim);
        assert Split(s, delim) == [s[..k]] + ps;
        TerminatedCons(s[..k], ps, delim);
        GlueBack(s, k, delim, Terminated(ps, delim), Terminated(Split(s, delim), delim));
      }
    }
  }

  /** The step of `SplitTerminated`: the first piece, the delimiter and the
      glued rest give the text back. */
  lemma GlueBack(s: string, k: nat, delim: char, t: string, whole: string)
    requires k < |s| && s[k] == delim
    requires whole == s[..k] + [delim] + t
    requires s[k + 1..] == [] || s[|s| - 1] == delim ==> t == s[k + 1..]
    requires s[k + 1..] != [] && s[|s| - 1] != delim ==> t == s[k + 1..] + [delim]
    ensures s[|s| - 1] == delim ==> whole == s
    ensures s[|s| - 1] != delim ==> whole == s + [delim]
  {
    SplitAt(s, k);
  }

  /** Text made of delimiter-free pieces, each followed by the delimiter,
      splits back into those pieces. */
  lemma {:induction false} SplitOfTerminated(pieces: seq<string>, delim: char)
    requires forall k :: 0 <= k < |pieces| ==> delim !in pieces[k]
    ensures Split(Terminated(pieces, delim), delim) == pieces
  {
    if pieces != [] {
      var rest := Terminated(pieces[1..], delim);
      assert Terminated(pieces, delim) == pieces[0] + [delim] + rest;
      SplitFirstPiece(pieces[0], delim, rest);
      SplitOfTerminated(pieces[1..], delim);
      assert [pieces[0]] + pieces[1..] == pieces;
    }
  }

  /** A delimiter-free piece and the delimiter split off as the first piece. */
  lemma SplitFirstPiece(p: string, delim: char, rest: string)
    requires delim !in p
    ensures Split(p + [delim] + rest, delim) == [p] + Split(rest, delim)
  {
    var s := p + [delim] + rest;
    var k := IndexOf(s, delim);
    assert forall j :: 0 <= j < |p| ==> s[j] == p[j];
    assert s[|p|] == delim;
    assert k == |p|;
    assert s[..k] == p;
    assert s[k + 1..] == rest;
  }

  lemma TerminatedCons(p: string, ps: seq<string>, delim: char)
    ensures Terminated([p] + ps, delim) == p + [delim] + Terminated(ps, delim)
  {
    assert ([p] + ps)[1..] == ps;
  }

  lemma SplitAt(s: string, k: nat)
    requires k < |s|
    ensures s == s[..k] + [s[k]] + s[k + 1..]
  {
  }

  /** Extraction reads back what insertion wrote: a number rendered by
      `operator<<` and followed by a non-digit is read as that number. */
  lemma ReadSignedIntToString(i: int, rest: string)
    requires rest == [] || !IsDigit(rest[0])
    ensures ReadSigned(IntToString(i) + rest) == Got(i, rest)
  {
    var n: nat := if i < 0 then -i else i;
    var ds := NatToString(n);
    NatToStringDigits(n);
    if i < 0 {
      assert IntToString(i) + rest == "-" + (ds + rest);
      NegativeNumeral(ds, rest);
    } else {
      PlainNumeral(ds, rest);
    }
  }

  /** A run of digits with no sign, followed by a non-digit. */
  lemma PlainNumeral(ds: string, rest: string)
    requires ds != [] && AllDigits(ds)
    requires rest == [] || !IsDigit(rest[0])
    ensures ReadSigned(ds + rest) == Got(DigitsValue(ds), rest)
  {
    var u := ds + rest;
    assert u[0] == ds[0];
    NoLeadingSpace(u);
    DigitsNumeral(ds, rest);
  }

  /** A sentry leaves text that starts with no whitespace as it is. */
  lemma NoLeadingSpace(t: string)
    requires t != [] && !IsSpace(t[0])
    ensures SkipWs(t) == t
  {
  }

  /** A '-' and a run of digits, followed by a non-digit. */
  lemma NegativeNumeral(ds: string, rest: string)
    requires ds != [] && AllDigits(ds)
    requires rest == [] || !IsDigit(rest[0])
    ensures ReadSigned("-" + (ds + rest)) == Got(-(DigitsValue(ds) as int), rest)
  {
    var u := ds + rest;
    var s := "-" + u;
    assert s[1..] == u && s[0] == '-' && u[0] == ds[0];
    DigitsNumeral(ds, rest);
    MinusNumeral(s);
    NoLeadingSpace(s);
  }

  /** The digits of a numeral are read up to the first non-digit. */
  lemma DigitsNumeral(ds: string, rest: string)
    requires ds != [] && AllDigits(ds)
    requires rest == [] || !IsDigit(rest[0])
    ensures SignedNumeral(ds + rest) == Got(DigitsValue(ds), rest)
  {
    var u := ds + rest;
    DigitRunOfDigits(ds, rest);
    assert u[..|ds|] == ds;
    assert u[|ds|..] == rest;
    assert u[0] == ds[0];
  }

  /** A '-' in front of the digits negates the numeral. */
  lemma MinusNumeral(t: string)
    requires |t| >= 2 && t[0] == '-' && IsDigit(t[1])
    ensures SignedNumeral(t[1..]).Got?
    ensures SignedNumeral(t) == Got(-SignedNumeral(t[1..]).value, SignedNumeral(t[1..]).rest)
  {
  }

  lemma {:induction false} DigitRunOfDigits(ds: string, rest: string)
    requires AllDigits(ds)
    requires rest == [] || !IsDigit(rest[0])
    ensures DigitRun(ds + rest) == |ds|
  {
    if ds != [] {
      assert (ds + rest)[1..] == ds[1..] + rest;
      DigitRunOfDigits(ds[1..], rest);
    }
  }

  /** Integers written one per line. */
  function IntLines(xs: seq<int>): string {
    if xs == [] then [] else IntToString(xs[0]) + "\n" + IntLines(xs[1..])
  }

  /** Natural numbers written one per line. */
  function NatLines(xs: seq<nat>): string {
    if xs == [] then [] else NatToString(xs[0]) + "\n" + NatLines(xs[1..])
  }

  /** A leading whitespace character never changes a formatted extraction. */
  lemma ReadSignedSkipsSpace(c: char, s: string)
    requires IsSpace(c)
    ensures ReadSigned([c] + s) == ReadSigned(s)
  {
    assert ([c] + s)[0] == c && ([c] + s)[1..] == s;
    assert SkipWs([c] + s) == SkipWs(s);
  }

  lemma ReadAllSignedSkipsSpace(c: char, s: string)
    requires IsSpace(c)
    ensures ReadAllSigned([c] + s) == ReadAllSigned(s)
  {
    ReadSignedSkipsSpace(c, s);
  }

  lemma ReadAllUnsignedSkipsSpace(c: char, s: string)
    requires IsSpace(c)
    ensures ReadAllUnsigned([c] + s) == ReadAllUnsigned(s)
  {
    ReadUnsignedSkipsSpace(c, s);
  }

  lemma ReadUnsignedSkipsSpace(c: char, s: string)
    requires IsSpace(c)
    ensures ReadUnsigned([c] + s) == ReadUnsigned(s)
  {
    ReadSignedSkipsSpace(c, s);
  }

  lemma ReadAllSignedStep(s: string, v: int, rest: string)
    requires ReadSigned(s) == Got(v, rest)
    ensures ReadAllSigned(s) == ([v] + ReadAllSigned(rest).0, ReadAllSigned(rest).1)
  {
  }

  lemma ReadAllUnsignedStep(s: string, v: nat, rest: string)
    requires ReadUnsigned(s) == Got(v, rest)
    ensures ReadAllUnsigned(s) == ([v] + ReadAllUnsigned(rest).0, ReadAllUnsigned(rest).1)
  {
  }

  /** Reading integers back from their lines gives the same list, and stops
      at the end of the stream. */
  lemma {:induction false} ReadAllSignedIntLines(xs: seq<int>)
    ensures ReadAllSigned(IntLines(xs)) == (xs, true)
  {
    if xs != [] {
      ReadAllSignedLine(xs);
      ReadAllSignedIntLines(xs[1..]);
      ConsBack(xs, ReadAllSigned(IntLines(xs)), ReadAllSigned(IntLines(xs[1..])));
    } else {
      ReadAllSignedEmpty();
    }
  }

  /** Reading a list back: the first value before the rest of the list
      gives the whole list. */
  lemma ConsBack<T>(xs: seq<T>, whole: (seq<T>, bool), tail: (seq<T>, bool))
    requires xs != []
    requires whole == ([xs[0]] + tail.0, tail.1)
    requires tail.0 == xs[1..]
    ensures whole == (xs, tail.1)
  {
    assert [xs[0]] + xs[1..] == xs;
  }

  lemma ReadAllSignedEmpty()
    ensures ReadAllSigned([]) == ([], true)
  {
    assert SkipWs([]) == [];
  }

  lemma ReadAllUnsignedEmpty()
    ensures ReadAllUnsigned([]) == ([], true)
  {
    assert SkipWs([]) == [];
  }

  lemma ReadAllWordsEmpty()
    ensures ReadAllWords([]) == ([], true)
  {
    assert SkipWs([]) == [];
  }

  /** One step of `ReadAllSignedIntLines`: the first line reads back as the
      first value. */
  lemma ReadAllSignedLine(xs: seq<int>)
    requires xs != []
    ensures ReadAllSigned(IntLines(xs))
         == ([xs[0]] + ReadAllSigned(IntLines(xs[1..])).0, ReadAllSigned(IntLines(xs[1..])).1)
  {
    var rest := IntLines(xs[1..]);
    assert IntLines(xs) == IntToString(xs[0]) + ("\n" + rest);
    ReadAllSignedNumberLine(xs[0], rest);
  }

  /** A number and a newline read back as that number, before whatever the
      text after them holds. */
  lemma ReadAllSignedNumberLine(x: int, tail: string)
    ensures ReadAllSigned(IntToString(x) + ("\n" + tail))
         == ([x] + ReadAllSigned(tail).0, ReadAllSigned(tail).1)
  {
    ReadSignedIntToString(x, "\n" + tail);
    ReadAllSignedStep(IntToString(x) + ("\n" + tail), x, "\n" + tail);
    ReadAllSignedSkipsSpace('\n', tail);
  }

  /** As `ReadAllSignedIntLines`, for unsigned extraction. */
  lemma {:induction false} ReadAllUnsignedNatLines(xs: seq<nat>)
    ensures ReadAllUnsigned(NatLines(xs)) == (xs, true)
  {
    if xs != [] {
      ReadAllUnsignedLine(xs);
      ReadAllUnsignedNatLines(xs[1..]);
      ConsBack(xs, ReadAllUnsigned(NatLines(xs)), ReadAllUnsigned(NatLines(xs[1..])));
    } else {
      ReadAllUnsignedEmpty();
    }
  }

  /** One step of `ReadAllUnsignedNatLines`. */
  lemma ReadAllUnsignedLine(xs: seq<nat>)
    requires xs != []
    ensures ReadAllUnsigned(NatLines(xs))
         == ([xs[0]] + ReadAllUnsigned(NatLines(xs[1..])).0, ReadAllUnsigned(NatLines(xs[1..])).1)
  {
    var rest := NatLines(xs[1..]);
    assert NatLines(xs) == NatToString(xs[0]) + ("\n" + rest);
    ReadUnsignedNatToString(xs[0], "\n" + rest);
    ReadAllUnsignedStep(NatLines(xs), xs[0], "\n" + rest);
    ReadAllUnsignedSkipsSpace('\n', rest);
  }

  /** `ReadSignedIntToString` for unsigned extraction. */
  lemma ReadUnsignedNatToString(n: nat, rest: string)
    requires rest == [] || !IsDigit(rest[0])
    ensures ReadUnsigned(NatToString(n) + rest) == Got(n, rest)
  {
    assert IntToString(n) == NatToString(n);
    ReadSignedIntToString(n, rest);
  }

  /** A word is non-empty text without whitespace. */
  predicate IsWord(w: string) {
    w != [] && forall k :: 0 <= k < |w| ==> !IsSpace(w[k])
  }

  /** Words written one per line. */
  function WordLines(ws: seq<string>): string {
    if ws == [] then [] else ws[0] + "\n" + WordLines(ws[1..])
  }

  /** A word followed by whitespace reads back as that word. */
  lemma ReadWordBack(w: string, rest: string)
    requires IsWord(w) && rest != [] && IsSpace(rest[0])
    ensures ReadWord(w + rest) == Got(w, rest)
  {
    WordRunOfWord(w, rest);
    assert (w + rest)[..|w|] == w && (w + rest)[|w|..] == rest;
  }

  lemma {:induction false} WordRunOfWord(w: string, rest: string)
    requires forall k :: 0 <= k < |w| ==> !IsSpace(w[k])
    requires rest != [] && IsSpace(rest[0])
    ensures WordRun(w + rest) == |w|
  {
    if w != [] {
      assert (w + rest)[1..] == w[1..] + rest;
      WordRunOfWord(w[1..], rest);
    }
  }

  lemma ReadAllWordsStep(s: string, w: string, rest: string)
    requires ReadWord(s) == Got(w, rest)
    ensures ReadAllWords(s) == ([w] + ReadAllWords(rest).0, ReadAllWords(rest).1)
  {
  }

  lemma ReadWordSkipsSpace(c: char, s: string)
    requires IsSpace(c)
    ensures ReadWord([c] + s) == ReadWord(s)
  {
    assert ([c] + s)[0] == c && ([c] + s)[1..] == s;
    assert SkipWs([c] + s) == SkipWs(s);
  }

  lemma ReadAllWordsSkipsSpace(c: char, s: string)
    requires IsSpace(c)
    ensures ReadAllWords([c] + s) == ReadAllWords(s)
  {
    ReadWordSkipsSpace(c, s);
  }

  /** A word and a newline read back as that word, before the rest. */
  lemma ReadAllWordsLine(w: string, tail: string)
    requires IsWord(w)
    ensures ReadAllWords(w + ("\n" + tail)) == ([w] + ReadAllWords(tail).0, ReadAllWords(tail).1)
  {
    ReadWordBack(w, "\n" + tail);
    ReadAllWordsStep(w + ("\n" + tail), w, "\n" + tail);
    ReadAllWordsSkipsSpace('\n', tail);
  }

  /** Reading words back from their lines gives the same list, and stops at
      the end of the stream. */
  lemma {:induction false} ReadAllWordsLines(ws: seq<string>)
    requires AllWords(ws)
    ensures ReadAllWords(WordLines(ws)) == (ws, true)
  {
    if ws != [] {
      ReadAllWordsFirstLine(ws);
      assert AllWords(ws[1..]);
      ReadAllWordsLines(ws[1..]);
      ConsBack(ws, ReadAllWords(WordLines(ws)), ReadAllWords(WordLines(ws[1..])));
    } else {
      ReadAllWordsEmpty();
    }
  }

  predicate AllWords(ws: seq<string>) {
    forall k :: 0 <= k < |ws| ==> IsWord(ws[k])
  }

  lemma ReadAllWordsFirstLine(ws: seq<string>)
    requires ws != [] && IsWord(ws[0])
    ensures ReadAllWords(WordLines(ws))
         == ([ws[0]] + ReadAllWords(WordLines(ws[1..])).0, ReadAllWords(WordLines(ws[1..])).1)
  {
    assert WordLines(ws) == ws[0] + ("\n" + WordLines(ws[1..]));
    ReadAllWordsLine(ws[0], WordLines(ws[1..]));
  }
}
