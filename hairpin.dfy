/** hairpin_check: erase isolated base pairs and two-pair stems, together
    with everything they enclose. */
module Hairpin {
  import opened Notation

  /** ps[c] begins a run: it does not directly follow its predecessor. */
  predicate RunStart(ps: seq<nat>, c: nat)
    requires c < |ps|
  {
    c == 0 || ps[c - 1] + 1 != ps[c]
  }

  /** Length of the maximal run of consecutive values that starts at ps[c]. */
  function RunLength(ps: seq<nat>, c: nat): (n: nat)
    requires c < |ps|
    ensures 1 <= n <= |ps| - c
    ensures forall j :: c <= j < c + n - 1 ==> ps[j] + 1 == ps[j + 1]
    ensures c + n == |ps| || ps[c + n - 1] + 1 != ps[c + n]
    decreases |ps| - c
  {
    if c + 1 < |ps| && ps[c] + 1 == ps[c + 1] then 1 + RunLength(ps, c + 1) else 1
  }

  /** A run that is consecutive from c up to i and breaks after i has
      length i - c + 1. */
  lemma RunLengthExact(ps: seq<nat>, c: nat, i: nat)
    requires c <= i < |ps|
    requires forall j :: c <= j < i ==> ps[j] + 1 == ps[j + 1]
    requires i + 1 == |ps| || ps[i] + 1 != ps[i + 1]
    ensures RunLength(ps, c) == i - c + 1
  {
  }

  /** The run starting at ps[c] is erased: a single pair under `ones`, a
      two-pair stem under `twos`. */
  predicate Fires(ps: seq<nat>, c: nat, twos: bool, ones: bool)
    requires c < |ps|
  {
    RunStart(ps, c) && ((ones && RunLength(ps, c) == 1) || (twos && RunLength(ps, c) == 2))
  }

  /** Position x lies in the span [ps[c], pm[ps[c]]] of a firing run whose
      start c is below hi. */
  ghost predicate ErasedBy(ps: seq<nat>, pm: map<nat, nat>, twos: bool, ones: bool, hi: nat, x: nat)
  {
    exists c :: 0 <= c < hi && c < |ps| && Fires(ps, c, twos, ones) && ps[c] in pm && ps[c] <= x <= pm[ps[c]]
  }

  /** What hairpin_check returns: every position inside the span of a firing
      run becomes `.`, every other position keeps its character. */
  ghost function HairpinSpec(ps: seq<nat>, pm: map<nat, nat>, twos: bool, ones: bool, s: string): string
  {
    seq(|s|, x requires 0 <= x < |s| => if ErasedBy(ps, pm, twos, ones, |ps|, x) then '.' else s[x])
  }

  /** The slice assignment dots_list[a:b+1] = '.' * (b + 1 - a). */
  function EraseSpan(d: string, a: nat, b: nat): (r: string)
    requires a <= b < |d|
    ensures |r| == |d|
    ensures forall x :: 0 <= x < |d| ==> r[x] == if a <= x <= b then '.' else d[x]
  {
    d[..a] + seq(b + 1 - a, _ => '.') + d[b + 1..]
  }

  /** Closing the run [current, i]: only its start can fire, since every
      later member follows its predecessor. */
  lemma RunStep(ps: seq<nat>, pm: map<nat, nat>, twos: bool, ones: bool, current: nat, i: nat, x: nat)
    requires current <= i < |ps|
    requires forall j :: current <= j < i ==> ps[j] + 1 == ps[j + 1]
    ensures ErasedBy(ps, pm, twos, ones, i + 1, x) <==>
      ErasedBy(ps, pm, twos, ones, current, x) ||
      (Fires(ps, current, twos, ones) && ps[current] in pm && ps[current] <= x <= pm[ps[current]])
  {
    forall c | current < c <= i ensures !RunStart(ps, c) {
      assert ps[c - 1] + 1 == ps[c];
    }
  }

  /** Closing the run [current, i] erases the span of its start exactly when
      that start fires, which extends the erased positions from the runs
      before current to the runs up to i. */
  lemma CloseRun(ps: seq<nat>, pm: map<nat, nat>, twos: bool, ones: bool, s: string,
                 before: string, dots: string, current: nat, i: nat)
    requires current <= i < |ps| && ps[current] in pm && ps[current] < pm[ps[current]] < |s|
    requires forall j :: current <= j < i ==> ps[j] + 1 == ps[j + 1]
    requires |before| == |s|
    requires forall x :: 0 <= x < |s| ==>
      before[x] == if ErasedBy(ps, pm, twos, ones, current, x) then '.' else s[x]
    requires dots == if Fires(ps, current, twos, ones) then EraseSpan(before, ps[current], pm[ps[current]]) else before
    ensures forall x :: 0 <= x < |s| ==>
      dots[x] == if ErasedBy(ps, pm, twos, ones, i + 1, x) then '.' else s[x]
  {
    forall x | 0 <= x < |s|
      ensures dots[x] == if ErasedBy(ps, pm, twos, ones, i + 1, x) then '.' else s[x]
    {
      RunStep(ps, pm, twos, ones, current, i, x);
    }
  }

  /** The two tests at the end of a run of count + 1 consecutive opening
      positions starting at ps[current]: erase the span of ps[current]
      exactly when that run fires. */
  method EraseRun(ps: seq<nat>, pm: map<nat, nat>, twos: bool, ones: bool, d: string, current: nat, count: nat)
    returns (r: string)
    requires current < |ps| && RunStart(ps, current) && RunLength(ps, current) == count + 1
    requires ps[current] in pm && ps[current] < pm[ps[current]] < |d|
    ensures r == if Fires(ps, current, twos, ones) then EraseSpan(d, ps[current], pm[ps[current]]) else d
  {
    r := d;
    if ones && count < 1 {
      r := EraseSpan(r, ps[current], pm[ps[current]]);
    }
    if twos && count < 2 && count != 0 {
      r := EraseSpan(r, ps[current], pm[ps[current]]);
    }
  }

  /** The walk of hairpin_check: group the sorted opening positions into
      maximal runs and erase the span of each run's first member when the
      run has length 1 (under `ones`) or 2 (under `twos`). */
  method HairpinCheck(positions: seq<nat>, pm: map<nat, nat>, twos: bool, ones: bool, s: string) returns (r: string)
    requires PairTable(pm, |s|)
    requires forall c :: 0 <= c < |positions| ==> positions[c] in pm
    ensures r == HairpinSpec(positions, pm, twos, ones, s)
  {
    var dots := s;
    var i := -1;
    while i + 1 < |positions|
      invariant -1 <= i < |positions|
      invariant i + 1 < |positions| ==> RunStart(positions, i + 1)
      invariant |dots| == |s|
      invariant forall x :: 0 <= x < |s| ==>
        dots[x] == if ErasedBy(positions, pm, twos, ones, i + 1, x) then '.' else s[x]
    {
      var count := 0;
      i := i + 1;
      var current := i;
      while i + 1 < |positions| && positions[i] + 1 == positions[i + 1]
        invariant current <= i < |positions|
        invariant count == i - current
        invariant forall j :: current <= j < i ==> positions[j] + 1 == positions[j + 1]
      {
        count := count + 1;
        i := i + 1;
      }
      RunLengthExact(positions, current, i);
      ghost var before := dots;
      dots := EraseRun(positions, pm, twos, ones, dots, current, count);
      CloseRun(positions, pm, twos, ones, s, before, dots, current, i);
    }
    r := dots;
  }

  /** With both flags off nothing is erased. */
  lemma HairpinNoFlags(ps: seq<nat>, pm: map<nat, nat>, s: string)
    ensures HairpinSpec(ps, pm, false, false, s) == s
  {
  }

  /** The erased spans depend only on the positions, the table and the
      flags, so a second pass with the same ones changes nothing. */
  lemma HairpinIdempotent(ps: seq<nat>, pm: map<nat, nat>, twos: bool, ones: bool, s: string)
    ensures HairpinSpec(ps, pm, twos, ones, HairpinSpec(ps, pm, twos, ones, s)) == HairpinSpec(ps, pm, twos, ones, s)
  {
  }

  /** The filter keeps the length and only writes `.`. */
  lemma HairpinOnlyDots(ps: seq<nat>, pm: map<nat, nat>, twos: bool, ones: bool, s: string)
    ensures OnlyDots(s, HairpinSpec(ps, pm, twos, ones, s))
  {
  }

  /** `....(.)....` loses its isolated pair under `ones` and keeps it under
      `twos` alone. */
  lemma SinglePairExample()
    ensures HairpinSpec([4], map[4 := 6], false, true, "....(.)....") == "..........."
    ensures HairpinSpec([4], map[4 := 6], true, false, "....(.)....") == "....(.)...."
  {
    var s := "....(.)....";
    var r := HairpinSpec([4], map[4 := 6], false, true, s);
    assert RunLength([4], 0) == 1;
    forall x | 0 <= x < |s| ensures r[x] == '.' {
      if 4 <= x <= 6 {
        assert ErasedBy([4], map[4 := 6], false, true, 1, x);
      }
    }
  }

  /** `...((.))...` loses its two-pair stem under `twos`. */
  lemma DoubletExample()
    ensures HairpinSpec([3, 4], map[3 := 7, 4 := 6], true, false, "...((.))...") == "..........."
  {
    var s := "...((.))...";
    var ps: seq<nat> := [3, 4];
    var pm := map[3 := 7, 4 := 6];
    assert RunLength(ps, 0) == 2;
    var r := HairpinSpec(ps, pm, true, false, s);
    forall x | 0 <= x < |s| ensures r[x] == '.' {
      if 3 <= x <= 7 {
        assert ErasedBy(ps, pm, true, false, 2, x);
      }
    }
  }

  /** Under `ones` alone the same two-pair stem is kept. */
  lemma DoubletKeptExample()
    ensures HairpinSpec([3, 4], map[3 := 7, 4 := 6], false, true, "...((.))...") == "...((.))..."
  {
    var ps: seq<nat> := [3, 4];
    assert RunLength(ps, 1) == 1;
    assert RunLength(ps, 0) == 2;
    assert !Fires(ps, 0, false, true) && !Fires(ps, 1, false, true);
  }

  /** A stem of three stacked pairs survives both flags. */
  lemma LongStemExample()
    ensures HairpinSpec([0, 1, 2], map[0 := 6, 1 := 5, 2 := 4], true, true, "(((.)))") == "(((.)))"
  {
    var ps: seq<nat> := [0, 1, 2];
    assert RunLength(ps, 2) == 1;
    assert RunLength(ps, 1) == 2;
    assert RunLength(ps, 0) == 3;
    forall c | 0 <= c < 3 ensures !Fires(ps, c, true, true) {
    }
  }
}
