/** 2018 day 8: a tree written as integers. A node is a header (number of
    children, number of metadata entries), its children, then its metadata.
    Part A adds up all metadata; part B computes the value of the root, where
    an inner node's metadata entries refer to its children by 1-based index. */
module Aoc2018D08 {
  import opened Wrappers
  import opened Text
  import Aoc2018D01

  /** `ddr::data::node_t<std::vector<std::intmax_t>>`: the children and the
      data vector (`*node`). */
  datatype Node = Node(children: seq<Node>, metadata: seq<int>)

  // ---------------------------------------------------------------------
  // parse_input

  /** The two extractions a tree is read with: `is >> n` into a
      `std::size_t` for the header counts and `is >> x` into a
      `std::intmax_t` for the metadata. The reading of nodes takes them as a
      parameter, so that what is proved about the tree structure needs only
      the properties of the extractions stated below; `Stream` is the pair
      the source uses. */
  datatype Extraction = Extraction(count: string -> Extracted<nat>, entry: string -> Extracted<int>)

  const Stream: Extraction := Extraction(ReadUnsigned, ReadSigned)

  /** Every successful extraction consumes input. */
  ghost predicate Consumes(x: Extraction) {
    (forall s :: x.count(s).Got? ==> |x.count(s).rest| < |s|) &&
    (forall s :: x.entry(s).Got? ==> |x.entry(s).rest| < |s|)
  }

  lemma StreamConsumes()
    ensures Consumes(Stream)
  {
  }

  /** How the metadata of a node is read. `Primed` is what the source does:
      `std::istream_iterator` reads its first value when it is constructed,
      and `std::copy_n` (libstdc++) then reads `n - 1` more, so `n` values
      are read when `n > 0` and one value is read and dropped when `n == 0`.
      `Exact` reads exactly `n` values. */
  datatype MetadataRead = Primed | Exact

  /** `n` signed integers, each by `is >> x`. */
  function ReadInts(s: string, n: nat, x: Extraction): (r: Result<(seq<int>, string)>)
    requires Consumes(x)
    ensures r.Ok? ==> |r.value.0| == n && |r.value.1| <= |s|
    ensures r.Ok? && n > 0 ==> |r.value.1| < |s|
    decreases n
  {
    if n == 0 then Ok(([], s))
    else
      var first := x.entry(s);
      if first.Stuck? then Err(ParseError(""))
      else
        var others := ReadInts(first.rest, n - 1, x);
        if others.Err? then Err(others.error)
        else Ok(([first.value] + others.value.0, others.value.1))
  }

  /** The `std::copy_n` of a node's `n` metadata values, followed by the
      `is.fail()` check. */
  function ReadMetadata(s: string, n: nat, how: MetadataRead, x: Extraction): (r: Result<(seq<int>, string)>)
    requires Consumes(x)
    ensures r.Ok? ==> |r.value.0| == n && |r.value.1| <= |s|
    ensures r.Ok? && how == Primed ==> |r.value.1| < |s|
  {
    if how == Primed && n == 0 then
      var dropped := ReadInts(s, 1, x);
      if dropped.Err? then Err(dropped.error) else Ok(([], dropped.value.1))
    else ReadInts(s, n, x)
  }

  /** `is >> num_children >> num_data`, both `std::size_t`. */
  function ReadHeader(s: string, x: Extraction): (r: Result<(nat, nat, string)>)
    requires Consumes(x)
    ensures r.Ok? ==> |r.value.2| < |s|
  {
    var first := x.count(s);
    if first.Stuck? then Err(ParseError(""))
    else
      var second := x.count(first.rest);
      if second.Stuck? then Err(ParseError(""))
      else Ok((first.value, second.value, second.rest))
  }

  /** `read_tree`'s `impl`: the header, the children, then the metadata.
      Any failed extraction is a parse error. */
  function ReadNode(s: string, how: MetadataRead, x: Extraction): (r: Result<(Node, string)>)
    requires Consumes(x)
    ensures r.Ok? ==> |r.value.1| < |s|
    decreases |s|, 0
  {
    var header := ReadHeader(s, x);
    if header.Err? then Err(header.error)
    else
      var (numChildren, numData, s2) := header.value;
      var children := ReadChildren(s2, numChildren, how, x);
      if children.Err? then Err(children.error)
      else
        var metadata := ReadMetadata(children.value.1, numData, how, x);
        if metadata.Err? then Err(metadata.error)
        else Ok((Node(children.value.0, metadata.value.0), metadata.value.1))
  }

  /** The loop over the `num_children` children after `resize`, each read
      by a recursive call. */
  function ReadChildren(s: string, k: nat, how: MetadataRead, x: Extraction): (r: Result<(seq<Node>, string)>)
    requires Consumes(x)
    ensures r.Ok? ==> |r.value.0| == k && |r.value.1| <= |s|
    decreases |s|, 1, k
  {
    if k == 0 then Ok(([], s))
    else
      var child := ReadNode(s, how, x);
      if child.Err? then Err(child.error)
      else
        var siblings := ReadChildren(child.value.1, k - 1, how, x);
        if siblings.Err? then Err(siblings.error)
        else Ok(([child.value.0] + siblings.value.0, siblings.value.1))
  }

  /** `parse_input`: the root node; whatever follows it is not read. */
  function ParseInput(text: string): (r: Result<Node>)
    ensures r.Ok? <==> ReadNode(text, Primed, Stream).Ok?
  {
    StreamConsumes();
    var root := ReadNode(text, Primed, Stream);
    if root.Err? then Err(root.error) else Ok(root.value.0)
  }

  /** The parse that reads each node's metadata count exactly. */
  function ParseExact(text: string): (r: Result<Node>)
    ensures r.Ok? <==> ReadNode(text, Exact, Stream).Ok?
  {
    StreamConsumes();
    var root := ReadNode(text, Exact, Stream);
    if root.Err? then Err(root.error) else Ok(root.value.0)
  }

  // Writing a tree in the puzzle's format, every number preceded by a
  // space, in front of the text `rest`.

  /** A count written after a space, in front of `tail`. */
  function Spaced(n: nat, tail: string): string {
    " " + NatToString(n) + tail
  }

  /** A metadata entry written after a space, in front of `tail`. */
  function SpacedInt(i: int, tail: string): string {
    " " + IntToString(i) + tail
  }

  function Encode(t: Node, rest: string): string
    decreases t, 1
  {
    Spaced(|t.children|, Spaced(|t.metadata|, EncodeForest(t.children, EncodeInts(t.metadata, rest))))
  }

  function EncodeForest(cs: seq<Node>, rest: string): string
    decreases cs, 0
  {
    if cs == [] then rest else Encode(cs[0], EncodeForest(cs[1..], rest))
  }

  function EncodeInts(ms: seq<int>, rest: string): string {
    if ms == [] then rest else SpacedInt(ms[0], EncodeInts(ms[1..], rest))
  }

  /** Every node of the tree has at least one metadata entry. */
  predicate HasMetadata(t: Node)
    decreases t, 1
  {
    |t.metadata| > 0 && AllHaveMetadata(t.children)
  }

  predicate AllHaveMetadata(cs: seq<Node>)
    decreases cs, 0
  {
    cs == [] || (HasMetadata(cs[0]) && AllHaveMetadata(cs[1..]))
  }

  /** Text that does not continue a numeral. */
  predicate Delimited(rest: string) {
    rest == [] || !IsDigit(rest[0])
  }

  /** What the round trip needs of the extractions: a space and a numeral
      read back as that number, leaving the text after it, and nothing is
      read from empty text. */
  ghost predicate ReadsBack(x: Extraction) {
    Consumes(x) &&
    (forall n: nat, tail :: Delimited(tail) ==> x.count(Spaced(n, tail)) == Got(n, tail)) &&
    (forall i: int, tail :: Delimited(tail) ==> x.entry(SpacedInt(i, tail)) == Got(i, tail)) &&
    x.entry([]).Stuck?
  }

  /** The source's extractions read back what was written. */
  lemma StreamReadsBack()
    ensures ReadsBack(Stream)
  {
    forall n: nat, tail | Delimited(tail)
      ensures ReadUnsigned(Spaced(n, tail)) == Got(n, tail)
    {
      assert " " + NatToString(n) + tail == [' '] + (NatToString(n) + tail);
      ReadUnsignedSkipsSpace(' ', NatToString(n) + tail);
      ReadUnsignedNatToString(n, tail);
    }
    forall i: int, tail | Delimited(tail)
      ensures ReadSigned(SpacedInt(i, tail)) == Got(i, tail)
    {
      assert " " + IntToString(i) + tail == [' '] + (IntToString(i) + tail);
      ReadSignedSkipsSpace(' ', IntToString(i) + tail);
      ReadSignedIntToString(i, tail);
    }
    assert SkipWs([]) == [];
  }

  /** A number written after a space is delimited, whatever follows it. */
  lemma SpacedDelimited(n: nat, i: int, tail: string)
    ensures Delimited(Spaced(n, tail)) && Delimited(SpacedInt(i, tail))
  {
    assert Spaced(n, tail)[0] == ' ';
    assert SpacedInt(i, tail)[0] == ' ';
  }

  /** Forests and lists keep the text after them delimited. */
  lemma ListsDelimited(cs: seq<Node>, ms: seq<int>, rest: string)
    requires Delimited(rest)
    ensures Delimited(EncodeForest(cs, rest))
    ensures Delimited(EncodeInts(ms, rest))
  {
    if cs != [] {
      SpacedDelimited(|cs[0].children|, 0, Spaced(|cs[0].metadata|,
        EncodeForest(cs[0].children, EncodeInts(cs[0].metadata, EncodeForest(cs[1..], rest)))));
    }
    if ms != [] {
      SpacedDelimited(0, ms[0], EncodeInts(ms[1..], rest));
    }
  }

  /** Reading `n` integers back from their encoding. */
  lemma {:induction false} ReadIntsEncode(ms: seq<int>, n: nat, rest: string, x: Extraction)
    requires n == |ms| && Delimited(rest) && ReadsBack(x)
    ensures ReadInts(EncodeInts(ms, rest), n, x) == Ok((ms, rest))
  {
    if ms != [] {
      ReadIntsEncode(ms[1..], n - 1, rest, x);
      ListsDelimited([], ms[1..], rest);
      assert [ms[0]] + ms[1..] == ms;
    }
  }

  /** The header of an encoded node reads back. */
  lemma ReadHeaderEncode(t: Node, rest: string, x: Extraction)
    requires Delimited(rest) && ReadsBack(x)
    ensures ReadHeader(Encode(t, rest), x)
         == Ok((|t.children|, |t.metadata|, EncodeForest(t.children, EncodeInts(t.metadata, rest))))
  {
    var body := EncodeForest(t.children, EncodeInts(t.metadata, rest));
    ListsDelimited([], t.metadata, rest);
    ListsDelimited(t.children, [], EncodeInts(t.metadata, rest));
    SpacedDelimited(|t.metadata|, 0, body);
  }

  /** The metadata of an encoded node read back: always when read exactly,
      and when there is some when read as the source does. */
  lemma ReadMetadataEncode(ms: seq<int>, rest: string, how: MetadataRead, x: Extraction)
    requires Delimited(rest) && ReadsBack(x)
    requires how == Exact || |ms| > 0
    ensures ReadMetadata(EncodeInts(ms, rest), |ms|, how, x) == Ok((ms, rest))
  {
    ReadIntsEncode(ms, |ms|, rest, x);
  }

  /** The round trip: an encoded tree reads back as itself, with the text
      after it left over. Exact reading always does this; the source's own
      reading does it when every node has metadata. */
  lemma {:induction false} ReadNodeEncode(t: Node, rest: string, how: MetadataRead, x: Extraction)
    requires Delimited(rest) && ReadsBack(x)
    requires how == Exact || HasMetadata(t)
    ensures ReadNode(Encode(t, rest), how, x) == Ok((t, rest))
    decreases t, 1
  {
    var mid := EncodeInts(t.metadata, rest);
    ReadHeaderEncode(t, rest, x);
    ListsDelimited([], t.metadata, rest);
    ReadChildrenEncode(t.children, |t.children|, mid, how, x);
    ReadMetadataEncode(t.metadata, rest, how, x);
  }

  /** The children of an encoded forest read back in order; `k` is the
      number of trees. */
  lemma {:induction false} ReadChildrenEncode(cs: seq<Node>, k: nat, rest: string, how: MetadataRead, x: Extraction)
    requires k == |cs| && Delimited(rest) && ReadsBack(x)
    requires how == Exact || AllHaveMetadata(cs)
    ensures ReadChildren(EncodeForest(cs, rest), k, how, x) == Ok((cs, rest))
    decreases cs, 0
  {
    if cs != [] {
      ReadChildrenEncode(cs[1..], k - 1, rest, how, x);
      ListsDelimited(cs[1..], [], rest);
      ReadNodeEncode(cs[0], EncodeForest(cs[1..], rest), how, x);
      assert [cs[0]] + cs[1..] == cs;
    }
  }

  /** `parse_input` reads back the encoding of a tree whose nodes all have
      metadata. */
  lemma ParseInputEncode(t: Node, rest: string)
    requires Delimited(rest) && HasMetadata(t)
    ensures ParseInput(Encode(t, rest)) == Ok(t)
  {
    StreamReadsBack();
    ReadNodeEncode(t, rest, Primed, Stream);
  }

  /** The exact reading recovers every tree from its encoding. */
  lemma ParseExactEncode(t: Node, rest: string)
    requires Delimited(rest)
    ensures ParseExact(Encode(t, rest)) == Ok(t)
  {
    StreamReadsBack();
    ReadNodeEncode(t, rest, Exact, Stream);
  }

  /** As read by the source, a leaf without metadata takes the integer that
      follows its header with it. */
  lemma ZeroMetadataSwallows(m: int, rest: string, x: Extraction)
    requires Delimited(rest) && ReadsBack(x)
    ensures ReadNode(Encode(Node([], []), SpacedInt(m, rest)), Primed, x) == Ok((Node([], []), rest))
  {
    SpacedDelimited(0, m, rest);
    ReadHeaderEncode(Node([], []), SpacedInt(m, rest), x);
  }

  /** A leaf without metadata at the end of the text is rejected by
      `parse_input` (the metadata read still wants an integer) and read by
      the exact parse. */
  lemma ZeroMetadataRejected()
    ensures ParseInput(Encode(Node([], []), "")).Err?
    ensures ParseExact(Encode(Node([], []), "")) == Ok(Node([], []))
  {
    StreamReadsBack();
    ParseExactEncode(Node([], []), "");
    ReadHeaderEncode(Node([], []), "", Stream);
  }

  /** A root with one metadata entry `a` whose one child is a leaf without
      metadata, followed by the integer `b`: `parse_input` lets the child
      swallow `a`, and reads `b` as the root's metadata. The exact reading
      gives the tree that was written and leaves `b` unread. */
  lemma SwallowedMetadata(a: int, b: int, rest: string, x: Extraction)
    requires Delimited(rest) && ReadsBack(x)
    ensures ReadNode(Encode(Node([Node([], [])], [a]), SpacedInt(b, rest)), Primed, x)
         == Ok((Node([Node([], [])], [b]), rest))
    ensures ReadNode(Encode(Node([Node([], [])], [a]), SpacedInt(b, rest)), Exact, x)
         == Ok((Node([Node([], [])], [a]), SpacedInt(b, rest)))
  {
    var leaf := Node([], []);
    var t := Node([leaf], [a]);
    var tail := SpacedInt(b, rest);
    var after := SpacedInt(a, tail);
    SpacedDelimited(0, b, rest);
    ReadNodeEncode(t, tail, Exact, x);
    ReadHeaderEncode(t, tail, x);
    assert EncodeInts([a], tail) == after;
    assert EncodeForest([leaf], after) == Encode(leaf, after);
    ZeroMetadataSwallows(a, tail, x);
    assert ReadChildren(Encode(leaf, after), 1, Primed, x) == Ok(([leaf], tail));
    assert ReadInts(rest, 0, x) == Ok(([], rest));
    assert [b] + [] == [b];
    assert ReadInts(tail, 1, x) == Ok(([b], rest));
  }

  // ---------------------------------------------------------------------
  // resultA

  /** The sum of all metadata in a tree. */
  function MetaTotal(t: Node): int
    decreases t, 1
  {
    Aoc2018D01.Sum(t.metadata) + ForestTotal(t.children)
  }

  /** The sum of all metadata in a list of trees. */
  function ForestTotal(cs: seq<Node>): int
    decreases cs, 0
  {
    if cs == [] then 0 else ForestTotal(cs[..|cs| - 1]) + MetaTotal(cs[|cs| - 1])
  }

  /** The number of nodes in a tree, which bounds the stack loop. */
  function Size(t: Node): nat
    decreases t, 1
  {
    1 + ForestSize(t.children)
  }

  function ForestSize(cs: seq<Node>): nat
    decreases cs, 0
  {
    if cs == [] then 0 else ForestSize(cs[..|cs| - 1]) + Size(cs[|cs| - 1])
  }

  /** Totals and sizes add up over a concatenation of forests. */
  lemma {:induction false} ForestConcat(a: seq<Node>, b: seq<Node>)
    ensures ForestTotal(a + b) == ForestTotal(a) + ForestTotal(b)
    ensures ForestSize(a + b) == ForestSize(a) + ForestSize(b)
  {
    if b == [] {
      assert a + b == a;
    } else {
      ForestConcat(a, b[..|b| - 1]);
      assert (a + b)[..|a + b| - 1] == a + b[..|b| - 1];
    }
  }

  /** `resultA`: pop a node from the stack, add its metadata, push its
      children; the total is converted to `std::size_t`. */
  method ResultA(root: Node) returns (r: nat)
    ensures r == Wrap(MetaTotal(root))
  {
    var nodes := [root];
    var accum := 0;
    assert nodes == [] + [root];
    while nodes != []
      invariant accum + ForestTotal(nodes) == MetaTotal(root)
      decreases ForestSize(nodes)
    {
      var node := nodes[|nodes| - 1];
      ghost var before := nodes;
      nodes := nodes[..|nodes| - 1];
      assert ForestSize(before) == ForestSize(nodes) + 1 + ForestSize(node.children);
      assert ForestTotal(before) == ForestTotal(nodes) + Aoc2018D01.Sum(node.metadata) + ForestTotal(node.children);
      accum := accum + Aoc2018D01.Sum(node.metadata);
      var base := nodes;
      for k := 0 to |node.children|
        invariant nodes == base + node.children[..k]
      {
        assert node.children[..k + 1] == node.children[..k] + [node.children[k]];
        nodes := nodes + [node.children[k]];
      }
      assert node.children[..|node.children|] == node.children;
      ForestConcat(base, node.children);
    }
    r := Wrap(accum);
  }

  // ---------------------------------------------------------------------
  // resultB

  /** The value of a node: for a leaf its metadata sum; for an inner node
      the sum, over its metadata entries that name a child (1 to the number
      of children), of that child's value. Both are `std::size_t`. */
  function Value(t: Node): (v: nat)
    ensures v < SIZE_T_MODULUS
    decreases t, 1
  {
    if t.children == [] then Wrap(Aoc2018D01.Sum(t.metadata))
    else Wrap(Refs(t, |t.metadata|))
  }

  /** Whether metadata entry `m` names a child of `t`: the source skips
      `0` and anything whose `std::size_t` conversion exceeds the number of
      children, which includes every negative entry. */
  predicate Names(t: Node, m: int) {
    1 <= m <= |t.children|
  }

  /** The sum of the values of the children named by the first `i`
      metadata entries of `t`. */
  function Refs(t: Node, i: nat): int
    requires i <= |t.metadata|
    decreases t, 0, i
  {
    if i == 0 then 0
    else
      var m := t.metadata[i - 1];
      if Names(t, m) then Refs(t, i - 1) + Value(t.children[m - 1]) else Refs(t, i - 1)
  }

  const INTMAX_MIN: int := -0x8000_0000_0000_0000
  const INTMAX_MAX: int := 0x7FFF_FFFF_FFFF_FFFF

  /** The tree fits the source's types: metadata are `std::intmax_t` values
      and no vector has more than `INTMAX_MAX` elements. */
  predicate Fits(t: Node)
    decreases t, 1
  {
    |t.children| <= INTMAX_MAX &&
    (forall k :: 0 <= k < |t.metadata| ==> INTMAX_MIN <= t.metadata[k] <= INTMAX_MAX) &&
    AllFit(t.children)
  }

  predicate AllFit(cs: seq<Node>)
    decreases cs, 0
  {
    forall k :: 0 <= k < |cs| ==> Fits(cs[k])
  }

  /** A negative `std::intmax_t` converts to a `std::size_t` of at least
      2^63, so the source's test `child == 0 || size_t(child) > size` skips
      exactly the entries that do not name a child. */
  lemma SkipTest(t: Node, m: int)
    requires INTMAX_MIN <= m <= INTMAX_MAX && |t.children| <= INTMAX_MAX
    ensures (m == 0 || Wrap(m) > |t.children|) <==> !Names(t, m)
  {
    if m < 0 {
      assert Wrap(m) == m + SIZE_T_MODULUS;
      assert Wrap(m) > |t.children|;
    } else {
      assert Wrap(m) == m;
    }
  }

  /** How often `k` occurs among the first `i` metadata entries. */
  function Occurrences(ms: seq<int>, k: int): nat {
    multiset(ms)[k]
  }

  /** The value of the children weighted by how often they are named:
      children 1 to `n`. */
  function Weighted(t: Node, ms: seq<int>, n: nat): int
    requires n <= |t.children|
  {
    if n == 0 then 0 else Weighted(t, ms, n - 1) + Occurrences(ms, n) * Value(t.children[n - 1])
  }

  lemma MulSucc(c: int, v: int)
    ensures (c + 1) * v == c * v + v
  {
  }

  /** One more entry adds the value of the child it names, if any. */
  lemma {:induction false} WeightedAppend(t: Node, ms: seq<int>, m: int, n: nat)
    requires n <= |t.children|
    ensures Weighted(t, ms + [m], n)
         == Weighted(t, ms, n) + (if 1 <= m <= n then Value(t.children[m - 1]) else 0)
  {
    if n > 0 {
      WeightedAppend(t, ms, m, n - 1);
      var v := Value(t.children[n - 1]);
      var c := Occurrences(ms, n);
      assert multiset(ms + [m]) == multiset(ms) + multiset{m};
      if m == n {
        assert Occurrences(ms + [m], n) == c + 1;
        MulSucc(c, v);
      } else {
        assert Occurrences(ms + [m], n) == c;
      }
    }
  }

  /** Repeats count: an inner node's value is each child's value times the
      number of metadata entries that name it. */
  lemma {:induction false} RefsWeighted(t: Node, i: nat)
    requires i <= |t.metadata|
    ensures Refs(t, i) == Weighted(t, t.metadata[..i], |t.children|)
  {
    if i == 0 {
      WeightedEmpty(t, |t.children|);
    } else {
      RefsWeighted(t, i - 1);
      assert t.metadata[..i] == t.metadata[..i - 1] + [t.metadata[i - 1]];
      WeightedAppend(t, t.metadata[..i - 1], t.metadata[i - 1], |t.children|);
    }
  }

  lemma {:induction false} WeightedEmpty(t: Node, n: nat)
    requires n <= |t.children|
    ensures Weighted(t, [], n) == 0
  {
    if n > 0 {
      WeightedEmpty(t, n - 1);
    }
  }

  /** The value of an inner node, stated without the metadata order. */
  lemma ValueWeighted(t: Node)
    requires t.children != []
    ensures Value(t) == Wrap(Weighted(t, t.metadata, |t.children|))
  {
    RefsWeighted(t, |t.metadata|);
    assert t.metadata[..|t.metadata|] == t.metadata;
  }

  /** The memo: each filled entry holds the value of its child. */
  ghost predicate Cached(t: Node, cache: seq<Option<nat>>) {
    |cache| == |t.children| &&
    forall j :: 0 <= j < |cache| && cache[j].Some? ==> cache[j].value == Value(t.children[j])
  }

  /** Recording a child's value keeps the memo faithful. */
  lemma CachedSet(t: Node, cache: seq<Option<nat>>, j: nat, value: nat)
    requires Cached(t, cache) && j < |cache| && value == Value(t.children[j])
    ensures Cached(t, cache[j := Some(value)])
  {
  }

  /** One more metadata entry adds the value of the child it names. */
  lemma RefsStep(t: Node, i: nat)
    requires i < |t.metadata|
    ensures Refs(t, i + 1) == Refs(t, i) +
              if Names(t, t.metadata[i]) then Value(t.children[t.metadata[i] - 1]) else 0
  {
  }

  /** `resultB`: recursive, with `cached_values` holding the value of each
      child once it is first named. The memo does not change the result: it
      is the uncached `Value`. */
  method ResultB(t: Node) returns (v: nat)
    requires Fits(t)
    ensures v == Value(t)
    decreases t, 1
  {
    if t.children == [] {
      v := Wrap(Aoc2018D01.Sum(t.metadata));
    } else {
      var cached := new Option<nat>[|t.children|](_ => None);
      var accum := 0;
      for i := 0 to |t.metadata|
        invariant Cached(t, cached[..])
        invariant accum == Wrap(Refs(t, i))
      {
        accum := AddReference(t, cached, i, accum);
      }
      v := accum;
    }
  }

  /** One iteration of `resultB`'s loop: the metadata entry `i` adds the
      value of the child it names, computed at its first mention. */
  method AddReference(t: Node, cached: array<Option<nat>>, i: nat, accum: nat) returns (next: nat)
    requires Fits(t) && i < |t.metadata|
    requires Cached(t, cached[..]) && accum == Wrap(Refs(t, i))
    modifies cached
    ensures Cached(t, cached[..]) && next == Wrap(Refs(t, i + 1))
    decreases t, 0
  {
    assert INTMAX_MIN <= t.metadata[i] <= INTMAX_MAX;
    var child := t.metadata[i];
    SkipTest(t, child);
    RefsStep(t, i);
    if child == 0 || Wrap(child) > |t.children| {
      return accum;
    }
    if cached[child - 1].None? {
      assert t.children[child - 1] in t.children;
      assert Fits(t.children[child - 1]);
      var value := ResultB(t.children[child - 1]);
      CachedSet(t, cached[..], child - 1, value);
      cached[child - 1] := Some(value);
    }
    WrapAdd(Refs(t, i), cached[child - 1].value);
    next := Wrap(accum + cached[child - 1].value);
  }
}
