/** 2018 day 3: fabric claims. Every claim is a rectangle of square inches
    with an id; part A counts the inches claimed more than once and part B
    finds the claim that overlaps no other. */
module Aoc2018D03 {
  import opened Wrappers
  import opened Text
  import opened Vector
  import Grid
  import Hyperbox

  datatype Claim = Claim(id: nat, rect: Hyperbox.Rect)

  // ---------------------------------------------------------------------
  // parse_input

  /** The `expect` lambda: `is >> e` reads the next non-blank character,
      which must be `c`. */
  function Expect(s: string, c: char): (r: Option<string>)
    ensures r.Some? <==> ReadChar(s).Got? && ReadChar(s).value == c
    ensures r.Some? ==> r.value == ReadChar(s).rest
  {
    match ReadChar(s)
    case Got(e, rest) => if e == c then Some(rest) else None
    case Stuck(_) => None
  }

  /** `(is >> v).eof()` on the last field: a numeral that runs to the end of
      the line, or an extraction that fails by hitting the end, which leaves
      the value 0. */
  function LastField(s: string): (r: Option<int>)
    ensures ReadSigned(s).Got? ==> (r.Some? <==> ReadSigned(s).rest == [])
    ensures ReadSigned(s).Got? && r.Some? ==> r.value == ReadSigned(s).value
    ensures ReadSigned(s).Stuck? ==> r == if ReadSigned(s).atEnd then Some(0) else None
  {
    match ReadSigned(s)
    case Got(v, rest) => if rest == [] then Some(v) else None
    case Stuck(atEnd) => if atEnd then Some(0) else None
  }

  /** What `parse_input` checks last: no negative coordinate or size. */
  predicate NonNegative(c: Claim) {
    c.rect.start.x >= 0 && c.rect.start.y >= 0 && c.rect.size.x >= 0 && c.rect.size.y >= 0
  }

  /** A separator and the integer after it: `expect(sep)` then `is >> v`. */
  function Then(s: string, sep: char): (r: Option<(int, string)>)
    ensures r.Some? ==> |r.value.1| < |s|
  {
    match Expect(s, sep)
    case None => None
    case Some(t) =>
      match ReadSigned(t)
      case Got(v, rest) => Some((v, rest))
      case Stuck(_) => None
  }

  /** The five fields of "#id @ x,y: wxh", in the order they are read. */
  function Fields(line: string): (r: Option<(nat, int, int, int, int)>)
  {
    match Expect(line, '#')
    case None => None
    case Some(s1) =>
      match ReadUnsigned(s1)
      case Stuck(_) => None
      case Got(id, s2) =>
        match Then(s2, '@')
        case None => None
        case Some((x, s4)) =>
          match Then(s4, ',')
          case None => None
          case Some((y, s6)) =>
            match Then(s6, ':')
            case None => None
            case Some((w, s8)) =>
              match Expect(s8, 'x')
              case None => None
              case Some(s9) =>
                match LastField(s9)
                case None => None
                case Some(h) => Some((id, x, y, w, h))
  }

  /** One non-empty line: "#id @ x,y: wxh", none of x, y, w, h negative. */
  function ParseClaim(line: string): (r: Result<Claim>)
    ensures r.Ok? <==> Fields(line).Some? && var (_, x, y, w, h) := Fields(line).value; x >= 0 && y >= 0 && w >= 0 && h >= 0
    ensures r.Ok? ==> var (id, x, y, w, h) := Fields(line).value; r.value == Claim(id, Hyperbox.Rect(Vec2(x, y), Vec2(w, h)))
    ensures r.Ok? ==> NonNegative(r.value)
  {
    match Fields(line)
    case None => Err(ParseError(""))
    case Some((id, x, y, w, h)) =>
      if x < 0 || y < 0 || w < 0 || h < 0 then Err(ParseError(""))
      else Ok(Claim(id, Hyperbox.Rect(Vec2(x, y), Vec2(w, h))))
  }

  /** The getline loop: empty lines are skipped, any other line must be a
      claim. */
  function ParseLines(lines: seq<string>): (r: Result<seq<Claim>>)
    ensures r.Ok? ==> forall c :: c in r.value ==> NonNegative(c)
    ensures r.Ok? ==> |r.value| <= |lines|
  {
    if lines == [] then Ok([])
    else if lines[0] == [] then ParseLines(lines[1..])
    else
      var first := ParseClaim(lines[0]);
      if first.Err? then Err(first.error)
      else
        var rest := ParseLines(lines[1..]);
        if rest.Err? then rest
        else
          assert NonNegative(first.value);
          Ok([first.value] + rest.value)
  }

  function ParseInput(text: string): (r: Result<seq<Claim>>)
    ensures r.Ok? ==> forall c :: c in r.value ==> NonNegative(c)
  {
    ParseLines(Lines(text))
  }

  /** The text "#id @ x,y: wx" followed by `height`, the text of the last
      field. */
  function Layout(id: nat, x: int, y: int, w: int, height: string): string {
    "#" + (NatToString(id) + (" @ " + (IntToString(x) + SizeText(y, w, height))))
  }

  /** The part of a layout after the left edge: ",y: wx" and `height`. */
  function SizeText(y: int, w: int, height: string): string {
    "," + (IntToString(y) + (": " + (IntToString(w) + ("x" + height))))
  }

  /** A claim as the puzzle writes it, followed by `tail`. */
  function Written(c: Claim, tail: string): string {
    var r := c.rect;
    Layout(c.id, r.start.x, r.start.y, r.size.x, IntToString(r.size.y) + tail)
  }

  /** The fields of any layout: the four written ones and whatever the last
      extraction makes of `height`. */
  lemma LayoutFields(id: nat, x: int, y: int, w: int, height: string)
    ensures Fields(Layout(id, x, y, w, height)) ==
      if LastField(height).Some? then Some((id, x, y, w, LastField(height).value)) else None
  {
    var t8 := "x" + height;
    var t6 := ": " + (IntToString(w) + t8);
    var t4 := SizeText(y, w, height);
    var t2 := " @ " + (IntToString(x) + t4);
    var t1 := NatToString(id) + t2;
    LayoutHead(id, x, t4);
    LayoutSize(y, w, height);
    FieldsChain(Layout(id, x, y, w, height), t1, id, t2, x, t4, y, t6, w, t8, height);
  }

  lemma LayoutHead(id: nat, x: int, t4: string)
    requires t4 == [] || !IsDigit(t4[0])
    ensures var t2 := " @ " + (IntToString(x) + t4); var t1 := NatToString(id) + t2;
      Expect("#" + t1, '#') == Some(t1) && ReadUnsigned(t1) == Got(id, t2)
    ensures Then(" @ " + (IntToString(x) + t4), '@') == Some((x, t4))
  {
    HeadId(id, " @ " + (IntToString(x) + t4));
    ThenAt(x, t4);
  }

  lemma ThenAt(x: int, t4: string)
    requires t4 == [] || !IsDigit(t4[0])
    ensures Then(" @ " + (IntToString(x) + t4), '@') == Some((x, t4))
  {
    assert " @ " == [' ', '@', ' '];
    ThenSpaced('@', x, t4);
  }

  lemma HeadId(id: nat, t2: string)
    requires t2 != [] && t2[0] == ' '
    ensures Expect("#" + (NatToString(id) + t2), '#') == Some(NatToString(id) + t2)
    ensures ReadUnsigned(NatToString(id) + t2) == Got(id, t2)
  {
    ExpectFirst('#', NatToString(id) + t2);
    ReadUnsignedNatToString(id, t2);
  }

  lemma LayoutSize(y: int, w: int, height: string)
    ensures var t8 := "x" + height; var t6 := ": " + (IntToString(w) + t8);
      Then(SizeText(y, w, height), ',') == Some((y, t6)) && Then(t6, ':') == Some((w, t8)) &&
      Expect(t8, 'x') == Some(height)
  {
    SizeY(y, ": " + (IntToString(w) + ("x" + height)));
    SizeW(w, "x" + height);
    SizeH(height);
  }

  lemma SizeY(y: int, t6: string)
    requires t6 != [] && t6[0] == ':'
    ensures Then("," + (IntToString(y) + t6), ',') == Some((y, t6))
  {
    ThenFirst(',', y, t6);
  }

  lemma SizeW(w: int, t8: string)
    requires t8 != [] && t8[0] == 'x'
    ensures Then(": " + (IntToString(w) + t8), ':') == Some((w, t8))
  {
    ThenColon(':', w, t8);
  }

  lemma SizeH(height: string)
    ensures Expect("x" + height, 'x') == Some(height)
  {
    ExpectFirst('x', height);
  }

  /** A written claim parses back to itself exactly when nothing in it is
      negative. */
  lemma ParseClaimText(c: Claim)
    ensures ParseClaim(Written(c, "")) == if NonNegative(c) then Ok(c) else Err(ParseError(""))
  {
    var r := c.rect;
    LayoutFields(c.id, r.start.x, r.start.y, r.size.x, IntToString(r.size.y) + "");
    ReadSignedIntToString(r.size.y, "");
  }

  /** Anything after the height, even a blank, makes the line invalid. */
  lemma TrailingBlank(c: Claim)
    ensures ParseClaim(Written(c, " ")).Err?
  {
    var r := c.rect;
    LayoutFields(c.id, r.start.x, r.start.y, r.size.x, IntToString(r.size.y) + " ");
    ReadSignedIntToString(r.size.y, " ");
  }

  /** A line whose height is missing ("#1 @ 2,3: 4x") is accepted with height
      0: the failed extraction hits the end of the line, which is all the
      check on the last field asks. */
  lemma MissingHeight(id: nat, x: int, y: int, w: int)
    requires x >= 0 && y >= 0 && w >= 0
    ensures ParseClaim(Layout(id, x, y, w, "")) == Ok(Claim(id, Hyperbox.Rect(Vec2(x, y), Vec2(w, 0))))
  {
    LayoutFields(id, x, y, w, "");
  }

  /** Every non-empty line is a claim. */
  predicate AllClaims(lines: seq<string>)
  {
    forall k :: 0 <= k < |lines| && lines[k] != [] ==> ParseClaim(lines[k]).Ok?
  }

  lemma AllClaimsTail(lines: seq<string>)
    requires lines != [] && AllClaims(lines)
    ensures AllClaims(lines[1..])
  {
    var rest := lines[1..];
    forall k | 0 <= k < |rest| && rest[k] != []
      ensures ParseClaim(rest[k]).Ok?
    {
      assert rest[k] == lines[k + 1];
    }
  }

  lemma AllClaimsCons(lines: seq<string>)
    requires lines != [] && AllClaims(lines[1..])
    requires lines[0] == [] || ParseClaim(lines[0]).Ok?
    ensures AllClaims(lines)
  {
    var rest := lines[1..];
    forall k | 0 <= k < |lines| && lines[k] != []
      ensures ParseClaim(lines[k]).Ok?
    {
      if k > 0 {
        assert lines[k] == rest[k - 1];
      }
    }
  }

  /** The loop succeeds exactly when every non-empty line is a claim. */
  lemma {:induction false} ParseLinesAccepted(lines: seq<string>)
    ensures ParseLines(lines).Ok? <==> AllClaims(lines)
  {
    if lines != [] {
      ParseLinesAccepted(lines[1..]);
      if ParseLines(lines).Ok? {
        AllClaimsCons(lines);
      }
      if AllClaims(lines) {
        AllClaimsTail(lines);
      }
    }
  }

  /** One non-empty line that is not a claim fails the whole input, as the
      `parse_exception` thrown inside the loop does. */
  lemma ParseInputBadLine(text: string, k: nat)
    requires k < |Lines(text)| && Lines(text)[k] != []
    requires ParseClaim(Lines(text)[k]).Err?
    ensures ParseInput(text).Err?
  {
    ParseLinesAccepted(Lines(text));
  }

  /** Each line is non-empty and is the claim at the same position. */
  predicate ClaimsAs(lines: seq<string>, claims: seq<Claim>)
  {
    |lines| == |claims| &&
    forall k :: 0 <= k < |lines| ==> lines[k] != [] && ParseClaim(lines[k]) == Ok(claims[k])
  }

  lemma ClaimsAsTail(lines: seq<string>, claims: seq<Claim>)
    requires lines != [] && ClaimsAs(lines, claims)
    ensures ClaimsAs(lines[1..], claims[1..])
  {
    var rest := lines[1..];
    forall k | 0 <= k < |rest|
      ensures rest[k] != [] && ParseClaim(rest[k]) == Ok(claims[1..][k])
    {
      assert rest[k] == lines[k + 1] && claims[1..][k] == claims[k + 1];
    }
  }

  /** One more claim in front of lines that parse. */
  lemma ParseLinesCons(lines: seq<string>, c: Claim, rest: seq<Claim>)
    requires lines != [] && lines[0] != [] && ParseClaim(lines[0]) == Ok(c)
    requires ParseLines(lines[1..]) == Ok(rest)
    ensures ParseLines(lines) == Ok([c] + rest)
  {
  }

  lemma FirstRest(claims: seq<Claim>)
    requires claims != []
    ensures [claims[0]] + claims[1..] == claims
  {
  }

  /** Lines that are each a claim are read back as those claims, in
      order. */
  lemma {:induction false} ParseLinesOfParsed(lines: seq<string>, claims: seq<Claim>)
    requires ClaimsAs(lines, claims)
    ensures ParseLines(lines) == Ok(claims)
  {
    if lines != [] {
      ClaimsAsTail(lines, claims);
      ParseLinesOfParsed(lines[1..], claims[1..]);
      ParseLinesCons(lines, claims[0], claims[1..]);
      FirstRest(claims);
    }
  }

  /** Claims written one per line, in order. */
  function ClaimLines(claims: seq<Claim>): (lines: seq<string>)
    ensures |lines| == |claims|
    ensures forall k :: 0 <= k < |claims| ==> lines[k] == Written(claims[k], "")
  {
    seq(|claims|, k requires 0 <= k < |claims| => Written(claims[k], ""))
  }

  /** A written claim starts with '#' and holds no line break. */
  lemma WrittenChars(c: Claim)
    ensures Written(c, "") != [] && Written(c, "")[0] == '#'
    ensures '\n' !in Written(c, "")
  {
    var r := c.rect;
    NatToStringDigits(c.id);
    IntToStringChars(r.start.x);
    IntToStringChars(r.start.y);
    IntToStringChars(r.size.x);
    IntToStringChars(r.size.y);
    assert IntToString(r.size.y) + "" == IntToString(r.size.y);
    assert '\n' !in NatToString(c.id);
  }

  /** Claims with nothing negative, written one per line, are read back in
      order. */
  lemma ParseLinesWritten(claims: seq<Claim>)
    requires forall c :: c in claims ==> NonNegative(c)
    ensures ParseLines(ClaimLines(claims)) == Ok(claims)
  {
    var lines := ClaimLines(claims);
    forall k | 0 <= k < |lines|
      ensures lines[k] != [] && ParseClaim(lines[k]) == Ok(claims[k])
    {
      WrittenChars(claims[k]);
      ParseClaimText(claims[k]);
    }
    ParseLinesOfParsed(lines, claims);
  }

  /** The same claims as a text, each line ended by '\n'. */
  lemma ParseInputWritten(claims: seq<Claim>)
    requires forall c :: c in claims ==> NonNegative(c)
    ensures ParseInput(Terminated(ClaimLines(claims), '\n')) == Ok(claims)
  {
    var lines := ClaimLines(claims);
    forall k | 0 <= k < |lines|
      ensures '\n' !in lines[k]
    {
      WrittenChars(claims[k]);
    }
    SplitOfTerminated(lines, '\n');
    ParseLinesWritten(claims);
  }

  /** `Fields` from the outcome of each of its steps. */
  lemma FieldsChain(line: string, t1: string, id: nat, t2: string, x: int, t4: string, y: int, t6: string,
                    w: int, t8: string, t9: string)
    requires Expect(line, '#') == Some(t1) && ReadUnsigned(t1) == Got(id, t2)
    requires Then(t2, '@') == Some((x, t4)) && Then(t4, ',') == Some((y, t6)) && Then(t6, ':') == Some((w, t8))
    requires Expect(t8, 'x') == Some(t9)
    ensures Fields(line) == if LastField(t9).Some? then Some((id, x, y, w, LastField(t9).value)) else None
  {
  }

  lemma ExpectFirst(c: char, t: string)
    requires !IsSpace(c)
    ensures Expect([c] + t, c) == Some(t)
  {
    assert ([c] + t)[1..] == t;
  }

  lemma ThenFirst(sep: char, v: int, rest: string)
    requires !IsSpace(sep) && (rest == [] || !IsDigit(rest[0]))
    ensures Then([sep] + (IntToString(v) + rest), sep) == Some((v, rest))
  {
    ExpectFirst(sep, IntToString(v) + rest);
    ReadSignedIntToString(v, rest);
  }

  lemma ThenColon(sep: char, v: int, rest: string)
    requires !IsSpace(sep) && (rest == [] || !IsDigit(rest[0]))
    ensures Then([sep, ' '] + (IntToString(v) + rest), sep) == Some((v, rest))
  {
    var t := IntToString(v) + rest;
    assert [sep, ' '] + t == [sep] + ([' '] + t);
    ExpectFirst(sep, [' '] + t);
    ReadSignedSkipsSpace(' ', t);
    ReadSignedIntToString(v, rest);
  }

  lemma ThenSpaced(sep: char, v: int, rest: string)
    requires !IsSpace(sep) && (rest == [] || !IsDigit(rest[0]))
    ensures Then([' ', sep, ' '] + (IntToString(v) + rest), sep) == Some((v, rest))
  {
    var t := IntToString(v) + rest;
    assert [' ', sep, ' '] + t == [' '] + ([sep, ' '] + t);
    ThenSkipsSpace(' ', [sep, ' '] + t, sep);
    ThenColon(sep, v, rest);
  }

  lemma ThenSkipsSpace(c: char, s: string, sep: char)
    requires IsSpace(c)
    ensures Then([c] + s, sep) == Then(s, sep)
  {
    ReadCharSkipsSpace(c, s);
  }

  lemma ReadCharSkipsSpace(c: char, s: string)
    requires IsSpace(c)
    ensures ReadChar([c] + s) == ReadChar(s)
  {
    assert ([c] + s)[0] == c && ([c] + s)[1..] == s;
    assert SkipWs([c] + s) == SkipWs(s);
  }

  // ---------------------------------------------------------------------
  // The board: how many claims cover each square inch

  /** The number of claims that cover the inch `q`. */
  function Coverage(claims: seq<Claim>, q: Vec2): (n: nat)
    ensures n <= |claims|
  {
    if claims == [] then 0
    else Coverage(claims[..|claims| - 1], q) + (if Hyperbox.Inside(claims[|claims| - 1].rect, q) then 1 else 0)
  }

  lemma CoverageSnoc(claims: seq<Claim>, c: Claim, q: Vec2)
    ensures Coverage(claims + [c], q) == Coverage(claims, q) + (if Hyperbox.Inside(c.rect, q) then 1 else 0)
  {
    assert (claims + [c])[..|claims|] == claims;
  }

  /** An inch is covered at all exactly when some claim covers it. */
  lemma {:induction false} CoveragePositive(claims: seq<Claim>, q: Vec2)
    ensures Coverage(claims, q) > 0 <==> exists j :: 0 <= j < |claims| && Hyperbox.Inside(claims[j].rect, q)
  {
    if claims != [] {
      var init := claims[..|claims| - 1];
      CoveragePositive(init, q);
      if exists j :: 0 <= j < |init| && Hyperbox.Inside(init[j].rect, q) {
        var j :| 0 <= j < |init| && Hyperbox.Inside(init[j].rect, q);
        assert Hyperbox.Inside(claims[j].rect, q);
      }
      if exists j :: 0 <= j < |claims| && Hyperbox.Inside(claims[j].rect, q) {
        var j :| 0 <= j < |claims| && Hyperbox.Inside(claims[j].rect, q);
        if j < |init| {
          assert Hyperbox.Inside(init[j].rect, q);
        }
      }
    }
  }

  /** An inch of claim `i` has coverage 1 exactly when no other claim covers it. */
  lemma {:induction false} CoverageOthers(claims: seq<Claim>, i: int, q: Vec2)
    requires 0 <= i < |claims| && Hyperbox.Inside(claims[i].rect, q)
    ensures Coverage(claims, q) == 1 <==> forall j :: 0 <= j < |claims| && j != i ==> !Hyperbox.Inside(claims[j].rect, q)
  {
    var n := |claims| - 1;
    var init := claims[..n];
    if i == n {
      CoveragePositive(init, q);
      if exists j :: 0 <= j < |claims| && j != i && Hyperbox.Inside(claims[j].rect, q) {
        var j :| 0 <= j < |claims| && j != i && Hyperbox.Inside(claims[j].rect, q);
        assert Hyperbox.Inside(init[j].rect, q);
      }
    } else {
      assert Hyperbox.Inside(init[i].rect, q);
      CoverageOthers(init, i, q);
      CoveragePositive(init, q);
      if !Hyperbox.Inside(claims[n].rect, q) {
        if exists j :: 0 <= j < |init| && j != i && Hyperbox.Inside(init[j].rect, q) {
          var j :| 0 <= j < |init| && j != i && Hyperbox.Inside(init[j].rect, q);
          assert Hyperbox.Inside(claims[j].rect, q);
        }
      }
    }
  }

  /** Part A counts an inch exactly when two different claims cover it. */
  lemma Overlapping(claims: seq<Claim>, q: Vec2)
    ensures Coverage(claims, q) > 1 <==>
      exists i, j :: 0 <= i < j < |claims| && Hyperbox.Inside(claims[i].rect, q) && Hyperbox.Inside(claims[j].rect, q)
  {
    CoveragePositive(claims, q);
    if Coverage(claims, q) > 1 {
      var i :| 0 <= i < |claims| && Hyperbox.Inside(claims[i].rect, q);
      CoverageOthers(claims, i, q);
      var j :| 0 <= j < |claims| && j != i && Hyperbox.Inside(claims[j].rect, q);
      if j < i {
        assert 0 <= j < i < |claims|;
      } else {
        assert 0 <= i < j < |claims|;
      }
    }
    if exists i, j :: 0 <= i < j < |claims| && Hyperbox.Inside(claims[i].rect, q) && Hyperbox.Inside(claims[j].rect, q) {
      var i, j :| 0 <= i < j < |claims| && Hyperbox.Inside(claims[i].rect, q) && Hyperbox.Inside(claims[j].rect, q);
      CoverageOthers(claims, i, q);
    }
  }

  /** The componentwise maximum of `start + size` over the claims, from the
      value-initialised `ivec2` (0, 0). */
  function BoardSize(claims: seq<Claim>): (m: Vec2)
    ensures m.x >= 0 && m.y >= 0
  {
    if claims == [] then Vec2(0, 0)
    else Max(BoardSize(claims[..|claims| - 1]), Corner(claims[|claims| - 1]))
  }

  /** The board reaches the far corner of every claim, and each of its
      dimensions is that of some claim's far corner, or 0. */
  lemma {:induction false} BoardSizeBounds(claims: seq<Claim>)
    ensures forall c :: c in claims ==> Corner(c).x <= BoardSize(claims).x && Corner(c).y <= BoardSize(claims).y
    ensures BoardSize(claims).x == 0 || exists c :: c in claims && Corner(c).x == BoardSize(claims).x
    ensures BoardSize(claims).y == 0 || exists c :: c in claims && Corner(c).y == BoardSize(claims).y
  {
    if claims != [] {
      var init := claims[..|claims| - 1];
      BoardSizeBounds(init);
      assert forall c :: c in init ==> c in claims;
      assert claims == init + [claims[|claims| - 1]];
    }
  }

  /** The far corner `start + size` of a claim. */
  function Corner(c: Claim): Vec2 {
    Add(c.rect.start, c.rect.size)
  }

  /** Claim `i` lies within the board. */
  lemma ClaimOnBoard(claims: seq<Claim>, i: int)
    requires 0 <= i < |claims|
    ensures claims[i].rect.start.x + claims[i].rect.size.x <= BoardSize(claims).x
    ensures claims[i].rect.start.y + claims[i].rect.size.y <= BoardSize(claims).y
  {
    BoardSizeBounds(claims);
    assert claims[i] in claims;
  }

  /** The board sizing loop of `resultA` and `resultB`. */
  method MaxCorner(claims: seq<Claim>) returns (max: Vec2)
    ensures max == BoardSize(claims)
  {
    max := Vec2(0, 0);
    for i := 0 to |claims|
      invariant max == BoardSize(claims[..i])
    {
      var r := claims[i].rect;
      assert claims[..i + 1][..i] == claims[..i];
      max := Vec2(if max.x >= r.start.x + r.size.x then max.x else r.start.x + r.size.x,
                  if max.y >= r.start.y + r.size.y then max.y else r.start.y + r.size.y);
    }
    assert claims[..|claims|] == claims;
  }

  /** A rectangle the `rect` iterator can walk: `++` divides by the width,
      so a rectangle with rows must have a positive width. */
  predicate Walkable(r: Hyperbox.Rect) {
    r.size.x > 0 || r.size.y == 0
  }

  /** What `resultA` and `resultB` need of their input: parsed claims that
      can be walked, on a board both of whose dimensions are positive (the
      assertions of `grid2::resize`). */
  predicate Fits(claims: seq<Claim>) {
    (forall c :: c in claims ==> NonNegative(c) && Walkable(c.rect)) &&
    BoardSize(claims).x > 0 && BoardSize(claims).y > 0
  }

  /** Every inch of a parsed claim lies on the board. */
  lemma OnBoard(claims: seq<Claim>, c: Claim, q: Vec2)
    requires c in claims && NonNegative(c) && Hyperbox.Inside(c.rect, q)
    ensures Grid.InBounds(q, BoardSize(claims))
  {
    BoardSizeBounds(claims);
  }

  /** The step at which the walk of `r` reaches `q`. */
  function Step(r: Hyperbox.Rect, q: Vec2): int {
    Grid.RowMajor(Sub(q, r.start), r.size.x)
  }

  /** `q` is among the first `j` inches the walk of `r` visits. */
  predicate Before(r: Hyperbox.Rect, q: Vec2, j: int) {
    Hyperbox.Inside(r, q) && Step(r, q) < j
  }

  /** One more step of the walk adds exactly the inch it is at. */
  lemma BeforeStep(r: Hyperbox.Rect, j: nat, q: Vec2)
    requires r.size.x > 0 && r.size.y >= 0 && j < r.size.x * r.size.y
    ensures Before(r, q, j + 1) <==> Before(r, q, j) || q == Hyperbox.Nth(r, j)
  {
    Hyperbox.NthEnd(r, j);
    if Hyperbox.Inside(r, q) {
      Hyperbox.NthCovers(r, q);
      if q == Hyperbox.Nth(r, j) {
        Hyperbox.NthInjective(r, Step(r, q), j);
      }
    }
  }

  /** After the whole walk, the inches visited are the inches of the rectangle. */
  lemma BeforeAll(r: Hyperbox.Rect, q: Vec2)
    requires r.size.x > 0 && r.size.y >= 0
    ensures Before(r, q, r.size.x * r.size.y) <==> Hyperbox.Inside(r, q)
  {
    if Hyperbox.Inside(r, q) {
      Hyperbox.NthCovers(r, q);
    }
  }

  /** On a grid of size `size`, the cell at row-major position `k` is `q`
      exactly when `k` is the linear index of `q`. */
  lemma CellAt(size: Vec2, k: int, q: Vec2)
    requires size.x > 0 && 0 <= k < size.x * size.y && Grid.InBounds(q, size)
    ensures Grid.Point(k, size.x) == q <==> k == Grid.RowMajor(q, size.x)
  {
    Grid.PointRowMajor(k, size);
    Grid.RowMajorInRange(q, size);
  }

  /** The board after `++board[idx]` for every inch of every claim: each cell
      holds the coverage of its inch. */
  ghost predicate Counted(board: seq<nat>, size: Vec2, claims: seq<Claim>)
  {
    |board| == size.x * size.y &&
    forall k :: 0 <= k < |board| ==> size.x > 0 && board[k] == Coverage(claims, Grid.Point(k, size.x))
  }

  /** The board part way through marking claim rectangle `r`: the claims
      `done` are counted, and so are the first `j` inches of the walk of `r`. */
  ghost predicate Marking(board: seq<nat>, size: Vec2, done: seq<Claim>, r: Hyperbox.Rect, j: int)
  {
    size.x > 0 && |board| == size.x * size.y &&
    forall k :: 0 <= k < |board| ==>
      board[k] == Coverage(done, Grid.Point(k, size.x)) + (if Before(r, Grid.Point(k, size.x), j) then 1 else 0)
  }

  /** Before the walk, marking is just counting. */
  lemma MarkingStart(board: seq<nat>, size: Vec2, done: seq<Claim>, r: Hyperbox.Rect)
    requires size.x > 0 && Counted(board, size, done)
    ensures Marking(board, size, done, r, 0)
  {
  }

  /** `++board[idx]` at the inch the walk is at counts one more step. */
  lemma MarkingStep(board: seq<nat>, size: Vec2, done: seq<Claim>, r: Hyperbox.Rect, j: nat, q: Vec2)
    requires size.x > 0 && Grid.InBounds(q, size)
    requires r.size.x > 0 && r.size.y >= 0 && j < r.size.x * r.size.y && q == Hyperbox.Nth(r, j)
    requires Marking(board, size, done, r, j)
    ensures 0 <= Grid.RowMajor(q, size.x) < |board|
    ensures Marking(board[Grid.RowMajor(q, size.x) := board[Grid.RowMajor(q, size.x)] + 1], size, done, r, j + 1)
  {
    Grid.RowMajorInRange(q, size);
    var k0 := Grid.RowMajor(q, size.x);
    var after := board[k0 := board[k0] + 1];
    forall k | 0 <= k < |after|
      ensures after[k] == Coverage(done, Grid.Point(k, size.x)) + (if Before(r, Grid.Point(k, size.x), j + 1) then 1 else 0)
    {
      BeforeStep(r, j, Grid.Point(k, size.x));
      CellAt(size, k, q);
    }
  }

  /** After the whole walk, the claim is counted. */
  lemma MarkingEnd(board: seq<nat>, size: Vec2, done: seq<Claim>, c: Claim, j: nat)
    requires size.x > 0 && c.rect.size.x >= 0 && c.rect.size.y >= 0
    requires c.rect.size.x > 0 ==> j == c.rect.size.x * c.rect.size.y
    requires Marking(board, size, done, c.rect, j)
    ensures Counted(board, size, done + [c])
  {
    forall k | 0 <= k < |board|
      ensures board[k] == Coverage(done + [c], Grid.Point(k, size.x))
    {
      CoverageSnoc(done, c, Grid.Point(k, size.x));
      if c.rect.size.x > 0 {
        BeforeAll(c.rect, Grid.Point(k, size.x));
      }
    }
  }

  /** The inner loop of the board filling: `++board[idx]` for each inch of
      the rectangle of one more claim. */
  method Mark(board: Grid.Grid2<nat>, c: Claim, ghost done: seq<Claim>)
    requires board.Valid() && board.bounds.x > 0
    requires NonNegative(c) && Walkable(c.rect)
    requires c.rect.start.x + c.rect.size.x <= board.bounds.x && c.rect.start.y + c.rect.size.y <= board.bounds.y
    requires Counted(board.cells[..], board.bounds, done)
    modifies board.cells
    ensures Counted(board.cells[..], board.bounds, done + [c])
  {
    var r := c.rect;
    var size := board.bounds;
    var it := Hyperbox.Begin(r);
    ghost var j: nat := 0;
    MarkingStart(board.cells[..], size, done, r);
    while !Hyperbox.Same(it, Hyperbox.End(r))
      invariant it.rect == r
      invariant r.size.x == 0 ==> it.idx == r.start
      invariant r.size.x > 0 ==> j <= r.size.x * r.size.y && it.idx == Hyperbox.Nth(r, j)
      invariant Marking(board.cells[..], size, done, r, j)
      decreases if r.size.x > 0 then r.size.x * r.size.y - j else 0
    {
      Hyperbox.NthEnd(r, j);
      var q := it.idx;
      MarkingStep(board.cells[..], size, done, r, j, q);
      board.Set(q, board.At(q) + 1);
      Hyperbox.IncrementNth(r, j);
      it := Hyperbox.Increment(it);
      j := j + 1;
    }
    if r.size.x > 0 {
      Hyperbox.NthEnd(r, j);
    }
    MarkingEnd(board.cells[..], size, done, c, j);
  }

  /** The board of `resultA` and `resultB`: sized to hold every claim, then
      one increment per claim for each inch it covers. */
  method FillBoard(claims: seq<Claim>) returns (board: Grid.Grid2<nat>)
    requires Fits(claims)
    ensures fresh(board) && fresh(board.cells) && board.Valid() && board.bounds == BoardSize(claims)
    ensures Counted(board.cells[..], board.bounds, claims)
  {
    board := new Grid.Grid2.Empty(0);
    var max := MaxCorner(claims);
    board.Resize(max);
    assert Counted(board.cells[..], board.bounds, []);
    for i := 0 to |claims|
      invariant fresh(board) && fresh(board.cells) && board.Valid() && board.bounds == max
      invariant Counted(board.cells[..], board.bounds, claims[..i])
    {
      assert claims[i] in claims;
      ClaimOnBoard(claims, i);
      Mark(board, claims[i], claims[..i]);
      assert claims[..i + 1] == claims[..i] + [claims[i]];
    }
    assert claims[..|claims|] == claims;
  }

  /** The cells of the board, by row-major position, whose inch is covered by
      more than one claim. */
  ghost function Overlaps(claims: seq<Claim>): set<int>
  {
    var size := BoardSize(claims);
    set k | 0 <= k < size.x * size.y && size.x > 0 && Coverage(claims, Grid.Point(k, size.x)) > 1
  }

  /** `resultA`: the number of square inches claimed more than once. */
  method ResultA(claims: seq<Claim>) returns (r: nat)
    requires Fits(claims)
    ensures r == |Overlaps(claims)|
  {
    var board := FillBoard(claims);
    r := CountAbove(board.cells);
    AboveOverlaps(board.cells[..], claims);
  }

  /** The positions of the cells among the first `n` that hold more than 1. */
  ghost function Above(cells: seq<nat>, n: int): set<int>
    requires n <= |cells|
  {
    set m | 0 <= m < n && cells[m] > 1
  }

  lemma AboveStep(cells: seq<nat>, n: nat)
    requires n < |cells|
    ensures Above(cells, n + 1) == Above(cells, n) + (if cells[n] > 1 then {n} else {})
    ensures n !in Above(cells, n)
  {
  }

  /** The counted board holds more than 1 exactly at the overlaps. */
  lemma AboveOverlaps(cells: seq<nat>, claims: seq<Claim>)
    requires Counted(cells, BoardSize(claims), claims)
    ensures Above(cells, |cells|) == Overlaps(claims)
  {
  }

  /** The counting loop of `resultA`: the cells holding more than 1. */
  method CountAbove(cells: array<nat>) returns (r: nat)
    ensures r == |Above(cells[..], cells.Length)|
  {
    r := 0;
    for k := 0 to cells.Length
      invariant r == |Above(cells[..], k)|
    {
      AboveStep(cells[..], k);
      if cells[k] > 1 {
        r := r + 1;
      }
    }
  }

  /** No inch of the rectangle `r` is covered by more than one claim. */
  ghost predicate Isolated(claims: seq<Claim>, r: Hyperbox.Rect) {
    forall q :: Hyperbox.Inside(r, q) ==> Coverage(claims, q) == 1
  }

  ghost predicate Overlap(a: Hyperbox.Rect, b: Hyperbox.Rect) {
    exists q :: Hyperbox.Inside(a, q) && Hyperbox.Inside(b, q)
  }

  /** A claim passes part B's test exactly when it overlaps no other claim. */
  lemma IsolatedMeansNoOverlap(claims: seq<Claim>, i: int)
    requires 0 <= i < |claims|
    ensures Isolated(claims, claims[i].rect) <==>
      forall j :: 0 <= j < |claims| && j != i ==> !Overlap(claims[i].rect, claims[j].rect)
  {
    if Isolated(claims, claims[i].rect) {
      forall j | 0 <= j < |claims| && j != i
        ensures !Overlap(claims[i].rect, claims[j].rect)
      {
        if Overlap(claims[i].rect, claims[j].rect) {
          var q :| Hyperbox.Inside(claims[i].rect, q) && Hyperbox.Inside(claims[j].rect, q);
          CoverageOthers(claims, i, q);
        }
      }
    } else {
      var q :| Hyperbox.Inside(claims[i].rect, q) && Coverage(claims, q) != 1;
      CoverageOthers(claims, i, q);
    }
  }

  /** Claim `i` is the first, in input order, that overlaps no other. */
  ghost predicate FirstIsolated(claims: seq<Claim>, i: int) {
    0 <= i < |claims| && Isolated(claims, claims[i].rect) &&
    forall j :: 0 <= j < i ==> !Isolated(claims, claims[j].rect)
  }

  /** The scan of one claim in `resultB`: every inch of its rectangle is
      checked for a count of exactly 1, stopping at the first that is not. */
  method AllOnce(board: Grid.Grid2<nat>, claims: seq<Claim>, c: Claim) returns (found: bool)
    requires board.Valid() && board.bounds.x > 0 && Counted(board.cells[..], board.bounds, claims)
    requires NonNegative(c) && Walkable(c.rect)
    requires c.rect.start.x + c.rect.size.x <= board.bounds.x && c.rect.start.y + c.rect.size.y <= board.bounds.y
    ensures found <==> Isolated(claims, c.rect)
  {
    var size := board.bounds;
    var rc := c.rect;
    var it := Hyperbox.Begin(rc);
    ghost var j: nat := 0;
    while !Hyperbox.Same(it, Hyperbox.End(rc))
      invariant it.rect == rc
      invariant rc.size.x == 0 ==> it.idx == rc.start
      invariant rc.size.x > 0 ==> j <= rc.size.x * rc.size.y && it.idx == Hyperbox.Nth(rc, j)
      invariant forall q :: Before(rc, q, j) ==> Coverage(claims, q) == 1
      decreases if rc.size.x > 0 then rc.size.x * rc.size.y - j else 0
    {
      Hyperbox.NthEnd(rc, j);
      var q := it.idx;
      Grid.RowMajorInRange(q, size);
      CellAt(size, Grid.RowMajor(q, size.x), q);
      if board.At(q) != 1 {
        return false;
      }
      forall q' | Before(rc, q', j + 1)
        ensures Coverage(claims, q') == 1
      {
        BeforeStep(rc, j, q');
      }
      Hyperbox.IncrementNth(rc, j);
      it := Hyperbox.Increment(it);
      j := j + 1;
    }
    forall q | Hyperbox.Inside(rc, q)
      ensures Coverage(claims, q) == 1
    {
      Hyperbox.NthEnd(rc, j);
      BeforeAll(rc, q);
    }
    return true;
  }

  /** `resultB`: the id of the first claim all of whose inches have count 1,
      or none. */
  method ResultB(claims: seq<Claim>) returns (r: Option<nat>)
    requires Fits(claims)
    ensures r.None? <==> forall i :: 0 <= i < |claims| ==> !Isolated(claims, claims[i].rect)
    ensures r.Some? ==> exists i :: FirstIsolated(claims, i) && r.value == claims[i].id
  {
    var board := FillBoard(claims);
    for i := 0 to |claims|
      invariant forall j :: 0 <= j < i ==> !Isolated(claims, claims[j].rect)
      invariant board.Valid() && board.bounds == BoardSize(claims)
      invariant Counted(board.cells[..], board.bounds, claims)
    {
      assert claims[i] in claims;
      ClaimOnBoard(claims, i);
      var found := AllOnce(board, claims, claims[i]);
      if found {
        assert FirstIsolated(claims, i);
        return Some(claims[i].id);
      }
    }
    return None;
  }
}
