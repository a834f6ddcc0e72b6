/** 2019 day 1: fuel for modules. A module of mass `x` needs `x / 3 - 2`
    fuel; part A adds that up over the modules, part B also counts the fuel
    needed for the fuel, step after step, until a step comes out negative. */
module Aoc2019D01 {
  import opened Wrappers
  import opened Text

  /** `parse_input`: every `std::size_t` of the stream, which must be read
      to its end. */
  function ParseInput(text: string): (r: Result<seq<nat>>)
    ensures r.Ok? <==> ReadAllUnsigned(text).1
    ensures r.Ok? ==> r.value == ReadAllUnsigned(text).0
  {
    var (masses, atEnd) := ReadAllUnsigned(text);
    if !atEnd then Err(ParseError("failed to parse input")) else Ok(masses)
  }

  /** Masses written one per line parse back to themselves. */
  lemma ParseInputLines(masses: seq<nat>)
    ensures ParseInput(NatLines(masses)) == Ok(masses)
  {
    ReadAllUnsignedNatLines(masses);
  }

  // ---------------------------------------------------------------------
  // resultA

  /** The exact fuel of part A, without wrap-around. */
  function TotalA(masses: seq<nat>): int {
    if masses == [] then 0
    else TotalA(masses[..|masses| - 1]) + (masses[|masses| - 1] as int / 3 - 2)
  }

  /** `resultA`: `std::accumulate` from `std::size_t(0)` of
      `acc + (x / 3) - 2`, every operation modulo 2^64. */
  function ResultA(masses: seq<nat>): (r: nat)
    ensures r < SIZE_T_MODULUS
  {
    if masses == [] then 0
    else
      var acc := ResultA(masses[..|masses| - 1]);
      Wrap(Wrap(acc + masses[|masses| - 1] / 3) - 2)
  }

  /** Wrapping at every step gives the exact total taken modulo 2^64. */
  lemma {:induction false} ResultAWraps(masses: seq<nat>)
    ensures ResultA(masses) == Wrap(TotalA(masses))
  {
    if masses != [] {
      var init := masses[..|masses| - 1];
      var x := masses[|masses| - 1];
      ResultAWraps(init);
      FuelStepWraps(ResultA(init), TotalA(init), x / 3);
    }
  }

  /** One step of the accumulation, on a wrapped running total. */
  lemma FuelStepWraps(acc: int, total: int, q: int)
    requires acc == Wrap(total)
    ensures Wrap(Wrap(acc + q) - 2) == Wrap(total + (q - 2))
  {
    WrapAdd(total, q);
    WrapAdd(total + q, -2);
  }

  /** Every mass of at least 6 needs fuel, so the exact total never goes
      down when one is added. */
  lemma {:induction false} TotalANonNegative(masses: seq<nat>)
    requires forall k :: 0 <= k < |masses| ==> masses[k] >= 6
    ensures TotalA(masses) >= 0
  {
    if masses != [] {
      TotalANonNegative(masses[..|masses| - 1]);
    }
  }

  /** With masses of at least 6 and a total below 2^64, part A is the
      exact total. */
  lemma ResultAExact(masses: seq<nat>)
    requires forall k :: 0 <= k < |masses| ==> masses[k] >= 6
    requires TotalA(masses) < SIZE_T_MODULUS
    ensures ResultA(masses) == TotalA(masses)
  {
    ResultAWraps(masses);
    TotalANonNegative(masses);
  }

  /** A mass below 6 needs negative fuel, which wraps: a single module of
      mass 5 gives 2^64 - 1. */
  lemma SmallMassWraps()
    ensures ResultA([5]) == SIZE_T_MODULUS - 1
  {
    assert [5][..0] == [];
  }

  // ---------------------------------------------------------------------
  // resultB

  const INTMAX_MAX: int := 0x7FFF_FFFF_FFFF_FFFF

  /** The conversion of a `std::size_t` mass to the lambda's
      `std::intmax_t` parameter: values above `INTMAX_MAX` come out
      negative. */
  function ToIntmax(x: nat): (r: int)
    ensures 0 <= x <= INTMAX_MAX ==> r == x
    ensures Wrap(x) <= INTMAX_MAX <==> r >= 0
  {
    var w := Wrap(x);
    if w <= INTMAX_MAX then w else w - SIZE_T_MODULUS
  }

  /** `x / 3 - 2` on a `std::intmax_t`, whose division truncates toward
      zero. */
  function Step(x: int): (r: int)
    ensures x >= 0 ==> r == x / 3 - 2
    ensures x >= 0 ==> r < x
    ensures x < 6 ==> r < 0
  {
    (if x >= 0 then x / 3 else -((-x) / 3)) - 2
  }

  /** What the inner loop adds from `x` on: `x`, `Step(x)`,
      `Step(Step(x))`, ... up to the first negative value. */
  function FuelFrom(x: int): (f: int)
    ensures f >= 0
    ensures x >= 0 ==> f >= x
    decreases if x < 0 then 0 else x + 1
  {
    if x < 0 then 0 else x + FuelFrom(Step(x))
  }

  /** The fuel part B counts for one mass. */
  function MassFuel(mass: nat): int {
    FuelFrom(Step(ToIntmax(mass)))
  }

  /** The total of part B, folded from the left as `std::accumulate` does. */
  function TotalB(masses: seq<nat>): int {
    if masses == [] then 0
    else TotalB(masses[..|masses| - 1]) + MassFuel(masses[|masses| - 1])
  }

  /** Part B never adds a negative term. */
  lemma {:induction false} TotalBNonNegative(masses: seq<nat>)
    ensures TotalB(masses) >= 0
  {
    if masses != [] {
      TotalBNonNegative(masses[..|masses| - 1]);
    }
  }

  /** A mass gets fuel in part B exactly when it is at least 9 (masses 6 to
      8 need zero fuel) and fits `std::intmax_t`. */
  lemma MassFuelPositive(mass: nat)
    requires mass < SIZE_T_MODULUS
    ensures MassFuel(mass) > 0 <==> 9 <= mass <= INTMAX_MAX
  {
    var x := ToIntmax(mass);
    if 9 <= mass <= INTMAX_MAX {
      assert Step(x) > 0;
    }
  }

  /** Masses below 6 contribute nothing. */
  lemma SmallMassNoFuel(mass: nat)
    requires mass < 6
    ensures MassFuel(mass) == 0
  {
  }

  /** Part B counts at least part A's fuel for every mass from 6 that fits
      `std::intmax_t`. */
  lemma MassFuelAtLeastA(mass: nat)
    requires 6 <= mass <= INTMAX_MAX
    ensures MassFuel(mass) >= mass / 3 - 2
  {
  }

  /** The fuel for fuel shrinks geometrically: from `x` on, at most one and
      a half times `x` is added. */
  lemma {:induction false} FuelFromBound(x: int)
    requires x >= 0
    ensures 2 * FuelFrom(x) <= 3 * x
    decreases x
  {
    var y := Step(x);
    if y >= 0 {
      FuelFromBound(y);
    }
  }

  /** `resultB`: for each mass, the inner `while` adds `x / 3 - 2`
      repeatedly while it stays non-negative; the `std::intmax_t` total is
      converted to `std::size_t`. */
  method ResultB(masses: seq<nat>) returns (r: nat)
    ensures r == Wrap(TotalB(masses))
  {
    var acc := 0;
    for k := 0 to |masses|
      invariant acc == TotalB(masses[..k])
    {
      assert masses[..k + 1][..k] == masses[..k];
      ghost var before := acc;
      var x := ToIntmax(masses[k]);
      x := Step(x);
      while x >= 0
        invariant acc + FuelFrom(x) == before + MassFuel(masses[k])
        decreases x
      {
        acc := acc + x;
        x := Step(x);
      }
    }
    assert masses[..|masses|] == masses;
    r := Wrap(acc);
  }
}
