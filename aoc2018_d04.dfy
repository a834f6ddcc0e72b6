/** 2018 day 4: guard sleep logs. Every line is a time stamp on a fake
    calendar and an event; the guards' sleeping minutes are counted, and the
    answer is a guard's id times the minute that guard slept most. */
module Aoc2018D04 {
  import opened Wrappers
  import opened Text
  import Hyperbox
  import Grid

  /** The id of a record whose guard is not known (`size_t` maximum). */
  const NO_ID: nat := 0xFFFF_FFFF_FFFF_FFFF

  /** `std::size_t` arithmetic wraps modulo 2^64. */
  const WORD: nat := 0x1_0000_0000_0000_0000

  // ---------------------------------------------------------------------
  // date_t: minutes since a fake epoch, with 31-day months and 12-month years

  /** `date_t(years, months, days, hours, minutes)`. */
  function Date(years: int, months: int, days: int, hours: int, minutes: int): int {
    minutes + 60 * (hours + 24 * (days + 31 * (months + 12 * years)))
  }

  /** `min()`: `((t % 60) + 60) % 60` with C++'s truncating `%`; always the
      minute within the hour, also for a time before the epoch. */
  function Minute(t: int): (m: nat)
    ensures m < 60 && m == t % 60
  {
    var r := Hyperbox.Rem(Hyperbox.Rem(t, 60) + 60, 60);
    assert 0 <= Hyperbox.Rem(t, 60) + 60;
    Hyperbox.DivAgrees(Hyperbox.Rem(t, 60) + 60, 60);
    r
  }

  /** The minute of a time stamp is its minute field. */
  lemma DateMinute(years: int, months: int, days: int, hours: int, minutes: int)
    requires 0 <= minutes < 60
    ensures Minute(Date(years, months, days, hours, minutes)) == minutes
  {
    var q := hours + 24 * (days + 31 * (months + 12 * years));
    assert Date(years, months, days, hours, minutes) == q * 60 + minutes;
  }

  /** One place of a mixed-radix numeral: with digits `b`, `b'` in
      `[lo, lo + base)`, `a * base + b` orders like the pair `(a, b)`. */
  lemma Place(a: int, b: int, a': int, b': int, base: int, lo: int)
    requires base > 0 && lo <= b < lo + base && lo <= b' < lo + base
    ensures a * base + b < a' * base + b' <==> a < a' || (a == a' && b < b')
    ensures a * base + b == a' * base + b' <==> a == a' && b == b'
  {
    if a < a' {
      Apart(a, a', base);
    } else if a > a' {
      Apart(a', a, base);
    }
  }

  lemma Apart(a: int, a': int, base: int)
    requires a < a' && base > 0
    ensures a * base + base <= a' * base
  {
    var n := a' - a;
    assert n * base >= base by {
      Grid.MulLe(1, n, base);
    }
    assert a' * base == a * base + n * base;
  }

  predicate InCalendar(months: int, days: int, hours: int, minutes: int) {
    1 <= months <= 12 && 1 <= days <= 31 && 0 <= hours < 24 && 0 <= minutes < 60
  }

  /** For time stamps within the calendar, comparing `date_t`s compares
      the stamps field by field, years first. */
  lemma DateOrder(y: int, mo: int, d: int, h: int, mi: int, y': int, mo': int, d': int, h': int, mi': int)
    requires InCalendar(mo, d, h, mi) && InCalendar(mo', d', h', mi')
    ensures Date(y, mo, d, h, mi) < Date(y', mo', d', h', mi') <==>
      y < y' || (y == y' && (mo < mo' || (mo == mo' && (d < d' || (d == d' && (h < h' || (h == h' && mi < mi')))))))
    ensures Date(y, mo, d, h, mi) == Date(y', mo', d', h', mi') <==> y == y' && mo == mo' && d == d' && h == h' && mi == mi'
  {
    Place(y, mo, y', mo', 12, 1);
    var m, m' := mo + 12 * y, mo' + 12 * y';
    assert m == y * 12 + mo && m' == y' * 12 + mo';
    Place(m, d, m', d', 31, 1);
    var dd, dd' := d + 31 * m, d' + 31 * m';
    assert dd == m * 31 + d && dd' == m' * 31 + d';
    Place(dd, h, dd', h', 24, 0);
    var hh, hh' := h + 24 * dd, h' + 24 * dd';
    assert hh == dd * 24 + h && hh' == dd' * 24 + h';
    Place(hh, mi, hh', mi', 60, 0);
    assert Date(y, mo, d, h, mi) == hh * 60 + mi && Date(y', mo', d', h', mi') == hh' * 60 + mi';
  }

  // ---------------------------------------------------------------------
  // Records

  datatype Event = Begin | Sleep | Awake

  /** A record: its time, the guard's id and the event. */
  datatype Record = Record(time: int, id: nat, event: Event)

  // ---------------------------------------------------------------------
  // parse_input: the regular expressions as hand-written matchers

  /** `(\d+)`: a non-empty run of digits and its value (`std::stoi`). */
  function Number(s: string): (r: Option<(nat, string)>)
    ensures r.Some? ==> |r.value.1| < |s| && r.value.1 == s[|s| - |r.value.1|..]
    ensures r.Some? ==> r.value.1 == [] || !IsDigit(r.value.1[0])
  {
    var n := DigitRun(s);
    if n == 0 then None else Some((DigitsValue(s[..n]), s[n..]))
  }

  /** A literal character. */
  function Char(s: string, c: char): (r: Option<string>)
    ensures r.Some? <==> s != [] && s[0] == c
    ensures r.Some? ==> r.value == s[1..]
  {
    if s != [] && s[0] == c then Some(s[1..]) else None
  }

  /** A number followed by the literal `sep`. */
  function Field(s: string, sep: char): Option<(nat, string)> {
    match Number(s)
    case None => None
    case Some((v, rest)) =>
      match Char(rest, sep)
      case None => None
      case Some(t) => Some((v, t))
  }

  /** `^\[(\d+)-(\d+)-(\d+) (\d+):(\d+)\] `: the time stamp at the start of
      a line and the text after it. */
  function Stamp(line: string): Option<(int, string)> {
    match Char(line, '[')
    case None => None
    case Some(s0) =>
      match Field(s0, '-')
      case None => None
      case Some((y, s1)) =>
        match Field(s1, '-')
        case None => None
        case Some((mo, s2)) =>
          match Field(s2, ' ')
          case None => None
          case Some((d, s3)) =>
            match Field(s3, ':')
            case None => None
            case Some((h, s4)) =>
              match Field(s4, ']')
              case None => None
              case Some((mi, s5)) =>
                match Char(s5, ' ')
                case None => None
                case Some(rest) => Some((Date(y, mo, d, h, mi), rest))
  }

  /** `Guard #(\d+) begins shift`, matched against the whole text. */
  function Shift(s: string): Option<nat> {
    if |s| < 7 || s[..7] != "Guard #" then None
    else
      match Number(s[7..])
      case None => None
      case Some((id, rest)) => if rest == " begins shift" then Some(id) else None
  }

  /** The text after the time stamp decides the event. Text that matches
      none of the three patterns leaves the record value-initialised: a
      `begin` with no guard id. */
  function Action(rest: string): (Event, nat) {
    if rest == "falls asleep" then (Sleep, NO_ID)
    else if rest == "wakes up" then (Awake, NO_ID)
    else
      match Shift(rest)
      case Some(id) => (Begin, id)
      case None => (Begin, NO_ID)
  }

  /** One non-empty line. */
  function ParseLine(line: string): (r: Result<Record>)
    ensures r.Err? <==> Stamp(line).None?
    ensures r.Ok? ==> r.value.time == Stamp(line).value.0
    ensures r.Ok? ==> (r.value.event, r.value.id) == Action(Stamp(line).value.1)
  {
    match Stamp(line)
    case None => Err(ParseError("unexpected line format"))
    case Some((t, rest)) =>
      var (e, id) := Action(rest);
      Ok(Record(t, id, e))
  }

  /** The three event texts are recognised; anything else after a time
      stamp is a `begin` without an id. */
  lemma Actions(id: nat)
    ensures Action("falls asleep") == (Sleep, NO_ID)
    ensures Action("wakes up") == (Awake, NO_ID)
    ensures Action("Guard #" + NatToString(id) + " begins shift") == (Begin, id)
    ensures Action("dozes off") == (Begin, NO_ID)
  {
    ShiftAction(id);
    assert Shift("dozes off").None? by { assert "dozes off"[0] != 'G'; }
  }

  /** A shift line names its guard. */
  lemma ShiftAction(id: nat)
    ensures Action("Guard #" + NatToString(id) + " begins shift") == (Begin, id)
  {
    var s := "Guard #" + NatToString(id) + " begins shift";
    ShiftId(id, s);
    assert s != "falls asleep" by { assert s[0] != "falls asleep"[0]; }
    assert s != "wakes up" by { assert s[0] != "wakes up"[0]; }
  }

  lemma ShiftId(id: nat, s: string)
    requires s == "Guard #" + NatToString(id) + " begins shift"
    ensures Shift(s) == Some(id)
  {
    assert s[..7] == "Guard #";
    assert s[7..] == NatToString(id) + " begins shift";
    NumberOfNumeral(id, " begins shift");
  }

  lemma NumberOfNumeral(id: nat, rest: string)
    requires rest == [] || !IsDigit(rest[0])
    ensures Number(NatToString(id) + rest) == Some((id, rest))
  {
    NatToStringDigits(id);
    DigitRunOfDigits(NatToString(id), rest);
    assert (NatToString(id) + rest)[..|NatToString(id)|] == NatToString(id);
    assert (NatToString(id) + rest)[|NatToString(id)|..] == rest;
  }

  /** Records are non-negative times: every field of a stamp is a numeral. */
  lemma StampNonNegative(line: string)
    requires Stamp(line).Some?
    ensures Stamp(line).value.0 >= 0
  {
  }

  /** The `getline` loop: empty lines are skipped, every other line must
      start with a time stamp; records are kept in input order. */
  function Records(lines: seq<string>): (r: Result<seq<Record>>)
    ensures r.Ok? ==> forall x :: x in r.value ==> x.time >= 0
  {
    if lines == [] then Ok([])
    else
      var init := Records(lines[..|lines| - 1]);
      var line := lines[|lines| - 1];
      if init.Err? then init
      else if line == [] then init
      else
        var rec := ParseLine(line);
        if rec.Err? then Err(rec.error)
        else
          StampNonNegative(line);
          Ok(init.value + [rec.value])
  }

  // ---------------------------------------------------------------------
  // Sorting: by time in parse_input, stably by id in result

  datatype SortKey = ByTime | ById

  function Key(r: Record, k: SortKey): int {
    if k == ByTime then r.time else r.id
  }

  predicate SortedBy(s: seq<Record>, k: SortKey) {
    forall i, j :: 0 <= i < j < |s| ==> Key(s[i], k) <= Key(s[j], k)
  }

  /** `r` placed after every record whose key is not larger. */
  function Insert(s: seq<Record>, r: Record, k: SortKey): seq<Record> {
    if s == [] then [r]
    else if Key(s[|s| - 1], k) <= Key(r, k) then s + [r]
    else Insert(s[..|s| - 1], r, k) + [s[|s| - 1]]
  }

  /** A stable sort by key, the ordering `std::stable_sort` produces. */
  function SortBy(s: seq<Record>, k: SortKey): seq<Record> {
    if s == [] then [] else Insert(SortBy(s[..|s| - 1], k), s[|s| - 1], k)
  }

  lemma {:induction false} InsertSorted(s: seq<Record>, r: Record, k: SortKey)
    requires SortedBy(s, k)
    ensures multiset(Insert(s, r, k)) == multiset(s) + multiset{r}
    ensures SortedBy(Insert(s, r, k), k)
  {
    InsertMultiset(s, r, k);
    if s != [] {
      var init, last := s[..|s| - 1], s[|s| - 1];
      if Key(last, k) > Key(r, k) {
        assert SortedBy(init, k);
        InsertSorted(init, r, k);
        var t := Insert(init, r, k);
        forall x | x in t
          ensures Key(x, k) <= Key(last, k)
        {
          assert x in multiset(t);
          if x != r {
            assert x in multiset(init);
            assert x in init;
          }
        }
        SnocSorted(t, last, k);
      } else {
        SnocSorted(s, r, k);
      }
    }
  }

  lemma {:induction false} InsertMultiset(s: seq<Record>, r: Record, k: SortKey)
    ensures multiset(Insert(s, r, k)) == multiset(s) + multiset{r}
  {
    if s != [] {
      var init, last := s[..|s| - 1], s[|s| - 1];
      assert s == init + [last];
      if Key(last, k) > Key(r, k) {
        InsertMultiset(init, r, k);
      }
    }
  }

  lemma SnocSorted(t: seq<Record>, x: Record, k: SortKey)
    requires SortedBy(t, k) && forall y :: y in t ==> Key(y, k) <= Key(x, k)
    ensures SortedBy(t + [x], k)
  {
    forall i, j | 0 <= i < j < |t + [x]|
      ensures Key((t + [x])[i], k) <= Key((t + [x])[j], k)
    {
      assert (t + [x])[i] == t[i];
      if j < |t| {
        assert (t + [x])[j] == t[j];
      } else {
        assert t[i] in t;
      }
    }
  }

  /** The records with key value `v`, in order. */
  function Filter(s: seq<Record>, k: SortKey, v: int): seq<Record> {
    if s == [] then []
    else Filter(s[..|s| - 1], k, v) + (if Key(s[|s| - 1], k) == v then [s[|s| - 1]] else [])
  }

  lemma {:induction false} InsertStable(s: seq<Record>, r: Record, k: SortKey, v: int)
    ensures Filter(Insert(s, r, k), k, v) == Filter(s, k, v) + (if Key(r, k) == v then [r] else [])
  {
    if s != [] {
      var init, last := s[..|s| - 1], s[|s| - 1];
      if Key(last, k) <= Key(r, k) {
        FilterSnoc(s, r, k, v);
      } else {
        InsertStable(init, r, k, v);
        var t := Insert(init, r, k);
        assert Insert(s, r, k) == t + [last];
        FilterSnoc(t, last, k, v);
        assert Filter(s, k, v) == Filter(init, k, v) + (if Key(last, k) == v then [last] else []);
        Swap(Filter(init, k, v), if Key(last, k) == v then [last] else [], if Key(r, k) == v then [r] else []);
      }
    }
  }

  lemma FilterSnoc(t: seq<Record>, x: Record, k: SortKey, v: int)
    ensures Filter(t + [x], k, v) == Filter(t, k, v) + (if Key(x, k) == v then [x] else [])
  {
    assert (t + [x])[..|t|] == t;
  }

  lemma Swap(a: seq<Record>, b: seq<Record>, c: seq<Record>)
    requires b == [] || c == []
    ensures a + c + b == a + b + c
  {
  }

  /** The stable sort by key: the result is ordered by key, holds the same
      records, and keeps the records of each key in their input order. This
      is what `std::stable_sort` by id promises; for the time sort, where
      the source calls `std::sort`, the input order of equal time stamps is
      one of the orders the source may produce (see README, "Left out"). */
  lemma {:induction false} SortByProps(s: seq<Record>, k: SortKey)
    ensures |SortBy(s, k)| == |s|
    ensures multiset(SortBy(s, k)) == multiset(s)
    ensures SortedBy(SortBy(s, k), k)
    ensures forall v :: Filter(SortBy(s, k), k, v) == Filter(s, k, v)
  {
    if s != [] {
      var init := s[..|s| - 1];
      SortByProps(init, k);
      InsertSorted(SortBy(init, k), s[|s| - 1], k);
      assert s == init + [s[|s| - 1]];
      forall v
        ensures Filter(SortBy(s, k), k, v) == Filter(s, k, v)
      {
        InsertStable(SortBy(init, k), s[|s| - 1], k, v);
      }
      assert |SortBy(s, k)| == |multiset(SortBy(s, k))|;
    }
  }

  // ---------------------------------------------------------------------
  // parse_input

  /** The nearest `begin` at or before position `i`. */
  function LastBegin(s: seq<Record>, i: nat): (j: nat)
    requires i < |s| && s[0].event == Begin
    ensures j <= i && s[j].event == Begin
    ensures forall l :: j < l <= i ==> s[l].event != Begin
  {
    if s[i].event == Begin then i else LastBegin(s, i - 1)
  }

  /** The records of a time-sorted log with each one's guard filled in:
      the id of the nearest `begin` at or before it. */
  ghost predicate Attributed(sorted: seq<Record>, out: seq<Record>)
    requires sorted != [] && sorted[0].event == Begin
  {
    |out| == |sorted| &&
    forall i :: 0 <= i < |sorted| ==> out[i] == sorted[i].(id := sorted[LastBegin(sorted, i)].id)
  }

  /** The records of the text, sorted by time, when there is at least one. */
  function SortedLog(text: string): seq<Record> {
    var raw := Records(Lines(text));
    if raw.Err? then [] else SortBy(raw.value, ByTime)
  }

  /** The `getline` loop of `parse_input`: one record per non-empty line,
      pushed in input order; the first malformed line is an error. */
  method CollectRecords(lines: seq<string>) returns (r: Result<seq<Record>>)
    ensures r == Records(lines)
  {
    var vec: seq<Record> := [];
    for i := 0 to |lines|
      invariant Records(lines[..i]) == Ok(vec)
    {
      var next := AddLine(lines, i, vec);
      if next.Err? {
        RecordsErr(lines, i + 1);
        return next;
      }
      vec := next.value;
    }
    assert lines[..|lines|] == lines;
    return Ok(vec);
  }

  /** The body of the `getline` loop: an empty line is skipped, any other
      is parsed and its record pushed. */
  method AddLine(lines: seq<string>, i: nat, vec: seq<Record>) returns (next: Result<seq<Record>>)
    requires i < |lines| && Records(lines[..i]) == Ok(vec)
    ensures next == Records(lines[..i + 1])
  {
    RecordsNext(lines, i);
    if lines[i] == [] {
      return Ok(vec);
    }
    var rec := ParseLine(lines[i]);
    if rec.Err? {
      return Err(rec.error);
    }
    return Ok(vec + [rec.value]);
  }

  /** One more line of `Records`. */
  lemma RecordsNext(lines: seq<string>, i: nat)
    requires i < |lines| && Records(lines[..i]).Ok?
    ensures lines[i] == [] ==> Records(lines[..i + 1]) == Records(lines[..i])
    ensures lines[i] != [] && ParseLine(lines[i]).Err? ==> Records(lines[..i + 1]) == Err(ParseLine(lines[i]).error)
    ensures lines[i] != [] && ParseLine(lines[i]).Ok? ==>
      Records(lines[..i + 1]) == Ok(Records(lines[..i]).value + [ParseLine(lines[i]).value])
  {
    assert lines[..i + 1][..i] == lines[..i];
  }

  /** An error in the first lines is the error of the whole text. */
  lemma {:induction false} RecordsErr(lines: seq<string>, n: nat)
    requires n <= |lines| && Records(lines[..n]).Err?
    ensures Records(lines) == Records(lines[..n])
  {
    if n < |lines| {
      assert lines[..|lines| - 1][..n] == lines[..n];
      RecordsErr(lines[..|lines| - 1], n);
    } else {
      assert lines[..n] == lines;
    }
  }

  /** The id loop of `parse_input`: a `begin` sets the current id, every
      other record takes it. */
  method Attribute(sorted: seq<Record>) returns (out: seq<Record>)
    requires sorted != [] && sorted[0].event == Begin
    ensures Attributed(sorted, out)
  {
    out := sorted;
    var lastId := NO_ID;
    for i := 0 to |out|
      invariant |out| == |sorted|
      invariant i > 0 ==> lastId == sorted[LastBegin(sorted, i - 1)].id
      invariant forall j :: 0 <= j < i ==> out[j] == sorted[j].(id := sorted[LastBegin(sorted, j)].id)
      invariant forall j :: i <= j < |out| ==> out[j] == sorted[j]
    {
      assert out[i] == sorted[i];
      if out[i].event == Begin {
        assert LastBegin(sorted, i) == i;
        lastId := out[i].id;
      } else {
        assert i > 0 && LastBegin(sorted, i) == LastBegin(sorted, i - 1);
        out := out[i := sorted[i].(id := lastId)];
      }
    }
  }

  /** `parse_input`: the records of all non-empty lines, sorted by time; the
      earliest must be a `begin`, and every other record takes the id of
      the nearest `begin` before it. */
  method ParseInput(text: string) returns (r: Result<seq<Record>>)
    ensures r.Err? <==> Records(Lines(text)).Err? || SortedLog(text) == [] || SortedLog(text)[0].event != Begin
    ensures r.Ok? ==> Attributed(SortedLog(text), r.value)
    ensures r.Ok? ==> r.value != [] && r.value[0].event == Begin && SortedBy(r.value, ByTime)
    ensures r.Ok? ==> forall x :: x in r.value ==> x.time >= 0
  {
    var raw := CollectRecords(Lines(text));
    if raw.Err? {
      return Err(raw.error);
    }
    var vec := raw.value;
    if vec == [] {
      return Err(ParseError(""));
    }
    var sorted := SortBy(vec, ByTime);
    SortByProps(vec, ByTime);
    if sorted[0].event != Begin {
      return Err(ParseError("first event is not a guard beginning their shift"));
    }
    var out := Attribute(sorted);
    forall x | x in out
      ensures x.time >= 0
    {
      var j :| 0 <= j < |out| && out[j] == x;
      assert sorted[j] in multiset(vec);
    }
    forall i, j | 0 <= i < j < |out|
      ensures Key(out[i], ByTime) <= Key(out[j], ByTime)
    {
    }
    r := Ok(out);
  }

  // ---------------------------------------------------------------------
  // result<partA>: one group of records per guard

  /** `std::adjacent_find(lo, hi, ids differ)`: the first position in
      `[lo, hi)` whose record and the next one, also before `hi`, have
      different ids; `hi` if there is none. */
  function AdjacentFind(s: seq<Record>, lo: nat, hi: nat): (r: nat)
    requires lo <= hi <= |s|
    ensures lo <= r <= hi
    ensures r < hi ==> r + 1 < hi && s[r].id != s[r + 1].id
    ensures forall j :: lo <= j < r && j + 1 < hi ==> (s[j].id == s[j + 1].id)
    decreases hi - lo
  {
    if lo + 1 >= hi then hi
    else if s[lo].id != s[lo + 1].id then lo
    else AdjacentFind(s, lo + 1, hi)
  }

  /** `std::next(std::adjacent_find(first, std::prev(end), ...))`: the end
      of the group that starts at `first`. The last pair of records is
      never compared. */
  function GroupEnd(s: seq<Record>, first: nat): (last: nat)
    requires first < |s|
    ensures first < last <= |s|
  {
    AdjacentFind(s, first, |s| - 1) + 1
  }

  /** Every record of a group has the id of its first record, except that a
      last record of the whole log with a new id joins the group before it. */
  lemma GroupIds(s: seq<Record>, first: nat)
    requires first < |s|
    ensures var last := GroupEnd(s, first);
      forall j :: first <= j < last && j < |s| - 1 ==> s[j].id == s[first].id
    ensures GroupEnd(s, first) < |s| ==> s[GroupEnd(s, first) - 1].id != s[GroupEnd(s, first)].id
  {
    var last := GroupEnd(s, first);
    forall j | first <= j < last && j < |s| - 1
      ensures s[j].id == s[first].id
    {
      var i := first;
      while i < j
        invariant first <= i <= j && s[i].id == s[first].id
      {
        i := i + 1;
      }
    }
  }

  /** The fold: in a log "a, a, b" sorted by id, the trailing "b" ends up
      in the group of "a". */
  lemma TrailingRecordFolded(a: Record, b: Record)
    requires a.id != b.id
    ensures GroupEnd([a, a, b], 0) == 3
  {
  }

  /** The state of the event loop: the minute totals and the open sleep. */
  datatype Sweep = Sweep(totals: seq<nat>, since: Option<int>)

  function Zeros(): (z: seq<nat>)
    ensures |z| == 60 && forall m :: 0 <= m < 60 ==> z[m] == 0
  {
    seq(60, _ => 0)
  }

  /** `++totals[i % 60]` for every minute `i` in `[lo, hi)`. */
  function AddRange(t: seq<nat>, lo: int, hi: int): (r: seq<nat>)
    requires |t| == 60
    ensures |r| == 60
    decreases hi - lo
  {
    if lo >= hi then t else AddRange(t[lo % 60 := t[lo % 60] + 1], lo + 1, hi)
  }

  /** One event of a group: a sleep keeps an earlier open start, a wake-up
      counts the minutes of the open sleep and closes it, a wake-up with no
      open sleep and a `begin` change nothing. */
  function Step(st: Sweep, e: Record): (r: Sweep)
    requires |st.totals| == 60
    ensures |r.totals| == 60
  {
    match e.event
    case Begin => st
    case Sleep => Sweep(st.totals, Some(st.since.GetOr(e.time)))
    case Awake =>
      if st.since.Some? then Sweep(AddRange(st.totals, st.since.value, e.time), None) else st
  }

  function Scan(evs: seq<Record>): (st: Sweep)
    ensures |st.totals| == 60
  {
    if evs == [] then Sweep(Zeros(), None) else Step(Scan(evs[..|evs| - 1]), evs[|evs| - 1])
  }

  function Sum(t: seq<nat>): nat {
    if t == [] then 0 else Sum(t[..|t| - 1]) + t[|t| - 1]
  }

  lemma {:induction false} SumBump(t: seq<nat>, k: nat)
    requires k < |t|
    ensures Sum(t[k := t[k] + 1]) == Sum(t) + 1
  {
    var u := t[k := t[k] + 1];
    if k < |t| - 1 {
      assert u[..|u| - 1] == t[..|t| - 1][k := t[k] + 1];
      SumBump(t[..|t| - 1], k);
    } else {
      assert u[..|u| - 1] == t[..|t| - 1];
    }
  }

  /** Counting a sleep adds its length hi the total. */
  lemma {:induction false} AddRangeSum(t: seq<nat>, lo: int, hi: int)
    requires |t| == 60
    ensures Sum(AddRange(t, lo, hi)) == Sum(t) + (if lo < hi then hi - lo else 0)
    decreases hi - lo
  {
    if lo < hi {
      SumBump(t, lo % 60);
      AddRangeSum(t[lo % 60 := t[lo % 60] + 1], lo + 1, hi);
    }
  }

  /** The minutes slept in a group, sleep by sleep: a wake-up after an open
      sleep adds the time between them. */
  function Slept(evs: seq<Record>): int {
    if evs == [] then 0
    else
      var st := Scan(evs[..|evs| - 1]);
      var e := evs[|evs| - 1];
      Slept(evs[..|evs| - 1]) + (if e.event == Awake && st.since.Some? && st.since.value < e.time then e.time - st.since.value else 0)
  }

  lemma {:induction false} SumZero(t: seq<nat>)
    requires forall m :: 0 <= m < |t| ==> t[m] == 0
    ensures Sum(t) == 0
  {
    if t != [] {
      SumZero(t[..|t| - 1]);
    }
  }

  /** A guard's total is the number of minutes the guard slept. */
  lemma {:induction false} TotalIsSlept(evs: seq<Record>)
    ensures Sum(Scan(evs).totals) == Slept(evs)
  {
    if evs == [] {
      SumZero(Zeros());
    } else {
      TotalIsSlept(evs[..|evs| - 1]);
      var st := Scan(evs[..|evs| - 1]);
      var e := evs[|evs| - 1];
      assert Scan(evs) == Step(st, e);
      if e.event == Awake && st.since.Some? {
        AddRangeSum(st.totals, st.since.value, e.time);
      }
    }
  }

  /** `std::max_element`: the first position of a largest element. */
  function FirstMax(a: seq<nat>): (k: nat)
    requires a != []
    ensures k < |a|
    ensures forall j :: 0 <= j < |a| ==> a[j] <= a[k]
    ensures forall j :: 0 <= j < k ==> a[j] < a[k]
  {
    if |a| == 1 then 0
    else
      var k := FirstMax(a[..|a| - 1]);
      assert forall j :: 0 <= j < |a| - 1 ==> a[..|a| - 1][j] == a[j];
      if a[|a| - 1] > a[k] then |a| - 1 else k
  }

  /** `guard_info_t`: the id, the minutes slept, the first most-slept
      minute and how often it was slept. */
  datatype GuardInfo = GuardInfo(id: nat, total: nat, bestMinute: nat, totalBestMinute: nat)

  function Info(group: seq<Record>): (g: GuardInfo)
    requires group != []
    ensures g.bestMinute < 60
  {
    var t := Scan(group).totals;
    var best := FirstMax(t);
    GuardInfo(group[0].id, Sum(t), best, t[best])
  }

  /** The guard of every group, from position `first` on. */
  function Infos(s: seq<Record>, first: nat): (r: seq<GuardInfo>)
    ensures first < |s| <==> r != []
    ensures first <= |s| ==> |r| <= |s| - first
    ensures forall k :: 0 <= k < |r| ==> r[k].bestMinute < 60
    decreases |s| - first
  {
    if first >= |s| then []
    else
      var last := GroupEnd(s, first);
      [Info(s[first..last])] + Infos(s, last)
  }

  /** The key `std::max_element` compares: the total for part A, the count
      of the best minute for part B. */
  function Score(g: GuardInfo, partA: bool): nat {
    if partA then g.total else g.totalBestMinute
  }

  /** The answer for a non-empty log: the first guard, in id order, with the
      largest score; its id times its first most-slept minute, in `size_t`. */
  function Answer(input: seq<Record>, partA: bool): nat
    requires input != []
  {
    Pick(Infos(SortBy(input, ById), 0), partA)
  }

  /** `std::max_element` over the guards by score, then id times best minute. */
  function Pick(guards: seq<GuardInfo>, partA: bool): (r: nat)
    ensures r < WORD
  {
    if guards == [] then 0
    else
      var best := FirstMax(seq(|guards|, i requires 0 <= i < |guards| => Score(guards[i], partA)));
      (guards[best].id * guards[best].bestMinute) % WORD
  }

  /** A guard's summary: the minutes slept, and a minute slept at least as
      often as any other, with how often. */
  lemma InfoSummary(group: seq<Record>)
    requires group != []
    ensures Info(group).id == group[0].id && Info(group).total == Slept(group)
    ensures Scan(group).totals[Info(group).bestMinute] == Info(group).totalBestMinute
    ensures forall m :: 0 <= m < 60 ==> Scan(group).totals[m] <= Info(group).totalBestMinute
  {
    TotalIsSlept(group);
  }

  /** The answer is the id times the best minute of a guard with the largest
      score, the first such guard in id order, in `size_t`. */
  lemma PickBest(guards: seq<GuardInfo>, partA: bool)
    requires guards != []
    ensures exists b :: 0 <= b < |guards| &&
              (forall j :: 0 <= j < |guards| ==> Score(guards[j], partA) <= Score(guards[b], partA)) &&
              (forall j :: 0 <= j < b ==> Score(guards[j], partA) < Score(guards[b], partA)) &&
              Pick(guards, partA) == (guards[b].id * guards[b].bestMinute) % WORD
  {
    var scores := seq(|guards|, i requires 0 <= i < |guards| => Score(guards[i], partA));
    var b := FirstMax(scores);
    assert forall j :: 0 <= j < |guards| ==> scores[j] == Score(guards[j], partA);
  }

  /** A log has at least one group. */
  lemma InfosNonEmpty(s: seq<Record>)
    requires s != []
    ensures Infos(s, 0) != []
  {
  }

  /** The event loop of one group: `totals` is a 60-entry array, the inner
      loop counts each minute of a sleep when its wake-up comes. */
  method ScanGroup(group: seq<Record>) returns (info: GuardInfo)
    requires group != [] && forall x :: x in group ==> x.time >= 0
    ensures info == Info(group)
  {
    var totals := new nat[60](_ => 0);
    var sleepingSince: Option<int> := None;
    for k := 0 to |group|
      invariant totals.Length == 60
      invariant totals[..] == Scan(group[..k]).totals && sleepingSince == Scan(group[..k]).since
    {
      ScanNext(group, k);
      var e := group[k];
      match e.event {
        case Begin =>
        case Sleep =>
          sleepingSince := Some(sleepingSince.GetOr(e.time));
        case Awake =>
          if sleepingSince.Some? {
            CountSleep(totals, sleepingSince.value, e.time);
            sleepingSince := None;
          }
      }
    }
    assert group[..|group|] == group;
    var t := totals[..];
    var best := FirstMax(t);
    info := GuardInfo(group[0].id, Sum(t), best, t[best]);
  }

  lemma ScanNext(group: seq<Record>, k: nat)
    requires k < |group|
    ensures Scan(group[..k + 1]) == Step(Scan(group[..k]), group[k])
  {
    assert group[..k + 1][..k] == group[..k];
  }

  /** The inner loop of a wake-up: `++totals[i % 60]` for every minute `i`
      of the sleep. */
  method CountSleep(totals: array<nat>, since: int, until: int)
    requires totals.Length == 60
    modifies totals
    ensures totals[..] == AddRange(old(totals[..]), since, until)
  {
    var i := since;
    while i < until
      invariant since <= i && (i <= until || i == since)
      invariant AddRange(totals[..], i, until) == AddRange(old(totals[..]), since, until)
      decreases until - i
    {
      totals[i % 60] := totals[i % 60] + 1;
      i := i + 1;
    }
  }

  /** Sorting by id keeps every record, so every time stays non-negative. */
  lemma SortedTimes(input: seq<Record>)
    requires forall x :: x in input ==> x.time >= 0
    ensures forall x :: x in SortBy(input, ById) ==> x.time >= 0
  {
    SortByProps(input, ById);
    forall x | x in SortBy(input, ById)
      ensures x.time >= 0
    {
      assert x in multiset(SortBy(input, ById));
    }
  }

  lemma SliceTimes(s: seq<Record>, first: nat, last: nat)
    requires first <= last <= |s| && forall x :: x in s ==> x.time >= 0
    ensures forall x :: x in s[first..last] ==> x.time >= 0
  {
    assert forall x :: x in s[first..last] ==> x in s;
  }

  /** One more group of the loop of `result`. */
  lemma InfosStep(s: seq<Record>, first: nat, guards: seq<GuardInfo>)
    requires first < |s|
    ensures guards + Infos(s, first) ==
      (guards + [Info(s[first..GroupEnd(s, first)])]) + Infos(s, GroupEnd(s, first))
  {
  }

  lemma SortByNonEmpty(s: seq<Record>, k: SortKey)
    requires s != []
    ensures SortBy(s, k) != []
  {
  }

  /** `result<partA>`: stable-sort a copy by id, summarise each group, and
      pick the guard with the largest score. */
  method Result(input: seq<Record>, partA: bool) returns (answer: nat)
    requires input != [] && forall x :: x in input ==> x.time >= 0
    ensures answer == Answer(input, partA)
  {
    var s := SortBy(input, ById);
    SortedTimes(input);
    var guards: seq<GuardInfo> := [];
    var first := 0;
    while first < |s|
      invariant first <= |s|
      invariant guards + Infos(s, first) == Infos(s, 0)
      decreases |s| - first
    {
      var last := GroupEnd(s, first);
      SliceTimes(s, first, last);
      var info := ScanGroup(s[first..last]);
      InfosStep(s, first, guards);
      guards := guards + [info];
      first := last;
    }
    assert guards == Infos(s, 0);
    SortByNonEmpty(input, ById);
    InfosNonEmpty(s);
    var scores := seq(|guards|, i requires 0 <= i < |guards| => Score(guards[i], partA));
    var best := FirstMax(scores);
    answer := (guards[best].id * guards[best].bestMinute) % WORD;
    assert answer == Pick(guards, partA);
  }
}
