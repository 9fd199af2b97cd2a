/** bootstrap_check: erase base pairs whose bootstrap confidence, read from a
    matrix of fixed-width fields, is measured and below the threshold. */
module Confidence {
  import opened Notation

  function DigitChar(d: nat): char
    requires d < 10
  {
    ('0' as int + d) as char
  }

  /** A confidence field of the form `d.dd`, as a number of hundredths. */
  function ParseHundredths(f: string): (r: Option<nat>)
    ensures r.Some? ==> r.value < 1000 && |f| == 4 && f[1] == '.'
  {
    if |f| == 4 && IsDigit(f[0]) && f[1] == '.' && IsDigit(f[2]) && IsDigit(f[3])
    then Some(100 * DigitValue(f[0]) + 10 * DigitValue(f[2]) + DigitValue(f[3]))
    else None
  }

  /** The `d.dd` spelling of a number of hundredths below 10.00. */
  function FormatHundredths(v: nat): (f: string)
    requires v < 1000
  {
    [DigitChar(v / 100), '.', DigitChar(v / 10 % 10), DigitChar(v % 10)]
  }

  /** Three decimal digits and the number they spell determine each other. */
  lemma Digits(v: nat, a: nat, b: nat, c: nat)
    requires a < 10 && b < 10 && c < 10
    ensures v == 100 * a + 10 * b + c <==> v / 100 == a && v / 10 % 10 == b && v % 10 == c && v < 1000
  {
    if v == 100 * a + 10 * b + c {
      assert v / 10 == 10 * a + b;
    }
    if v / 100 == a && v / 10 % 10 == b && v % 10 == c && v < 1000 {
      assert v / 10 / 10 == v / 100;
    }
  }

  lemma ParseFormat(v: nat)
    requires v < 1000
    ensures ParseHundredths(FormatHundredths(v)) == Some(v)
  {
    var a, b, c := v / 100, v / 10 % 10, v % 10;
    Digits(v, a, b, c);
    var f := FormatHundredths(v);
    assert DigitValue(f[0]) == a && DigitValue(f[2]) == b && DigitValue(f[3]) == c;
  }

  lemma FormatParse(f: string)
    requires ParseHundredths(f).Some?
    ensures FormatHundredths(ParseHundredths(f).value) == f
  {
    var v := ParseHundredths(f).value;
    var a, b, c := DigitValue(f[0]), DigitValue(f[2]), DigitValue(f[3]);
    Digits(v, a, b, c);
    assert DigitChar(a) == f[0] && DigitChar(b) == f[2] && DigitChar(c) == f[3];
  }

  /** Field t of a row is read: the scan visits offsets 0, 5, 10, ... below
      len(row) - 4, so a field is read only when a character follows it. */
  predicate HasField(row: string, t: nat)
  {
    5 * t < |row| - 4
  }

  function Field(row: string, t: nat): (f: string)
    requires HasField(row, t)
    ensures |f| == 4
  {
    row[5 * t .. 5 * t + 4]
  }

  /** Every field the scan reads is a number. */
  ghost predicate FieldsParse(rows: seq<string>)
  {
    forall p, t :: 0 <= p < |rows| && HasField(rows[p], t) ==> ParseHundredths(Field(rows[p], t)).Some?
  }

  predicate IsPair(pm: map<nat, nat>, a: nat, b: nat)
  {
    a in pm && pm[a] == b
  }

  /** A measured value (0.00 means no data) strictly below the threshold. */
  predicate LowConfidence(v: nat, threshold: real)
  {
    v != 0 && (v as real) / 100.0 < threshold
  }

  /** Cell (row p, field t) holds a low confidence for the pair {p, t}. */
  ghost predicate Qualifies(rows: seq<string>, threshold: real, pm: map<nat, nat>, p: nat, t: nat)
  {
    && p < |rows| && HasField(rows[p], t)
    && ParseHundredths(Field(rows[p], t)).Some?
    && LowConfidence(ParseHundredths(Field(rows[p], t)).value, threshold)
    && (IsPair(pm, t, p) || IsPair(pm, p, t))
  }

  /** x is an end of a pair with a qualifying cell. */
  ghost predicate LowConfidenceEnd(rows: seq<string>, threshold: real, pm: map<nat, nat>, x: nat)
  {
    exists p, t :: Qualifies(rows, threshold, pm, p, t) && (x == p || x == t)
  }

  /** What bootstrap_check returns or raises. Too many rows overflow the
      row list while reading; a bad field fails while scanning; too few rows
      leave a placeholder that fails once the scan reaches it. */
  ghost function BootstrapSpec(rows: seq<string>, length: nat, threshold: real, pm: map<nat, nat>, s: string): Result<string>
  {
    if |rows| > length then Err(ConfidenceRowCount)
    else if !FieldsParse(rows) then Err(BadConfidenceField)
    else if |rows| < length then Err(ConfidenceRowCount)
    else Ok(seq(|s|, x requires 0 <= x < |s| => if LowConfidenceEnd(rows, threshold, pm, x) then '.' else s[x]))
  }

  /** An entry of `changes`: the value read and the two ends to erase. */
  datatype Change = Change(value: nat, first: nat, second: nat)

  ghost function Ends(cs: seq<Change>): set<nat>
  {
    (set c | c in cs :: c.first) + (set c | c in cs :: c.second)
  }

  lemma EndsAppend(cs: seq<Change>, c: Change)
    ensures Ends(cs + [c]) == Ends(cs) + {c.first, c.second}
  {
    assert forall d :: d in cs + [c] <==> d in cs || d == c;
  }

  /** Sorting `changes` before applying them cannot matter: the positions
      erased depend only on which changes there are. */
  lemma EndsIgnoreOrder(a: seq<Change>, b: seq<Change>)
    requires multiset(a) == multiset(b)
    ensures Ends(a) == Ends(b)
  {
    forall c ensures c in a <==> c in b {
      assert c in a <==> c in multiset(a);
      assert c in b <==> c in multiset(b);
    }
  }

  /** Cell (p, t) comes before cell (P, T) in the row-by-row scan. */
  predicate Scanned(P: nat, T: nat, p: nat, t: nat)
  {
    p < P || (p == P && t < T)
  }

  ghost predicate LowEndBefore(rows: seq<string>, threshold: real, pm: map<nat, nat>, P: nat, T: nat, x: nat)
  {
    exists p, t :: Scanned(P, T, p, t) && Qualifies(rows, threshold, pm, p, t) && (x == p || x == t)
  }

  lemma CellStep(rows: seq<string>, threshold: real, pm: map<nat, nat>, P: nat, T: nat, x: nat)
    ensures LowEndBefore(rows, threshold, pm, P, T + 1, x) <==>
      LowEndBefore(rows, threshold, pm, P, T, x) || (Qualifies(rows, threshold, pm, P, T) && (x == P || x == T))
  {
    if LowEndBefore(rows, threshold, pm, P, T + 1, x) {
      var p, t :| Scanned(P, T + 1, p, t) && Qualifies(rows, threshold, pm, p, t) && (x == p || x == t);
      if !(p == P && t == T) {
        assert Scanned(P, T, p, t);
      }
    }
    if Qualifies(rows, threshold, pm, P, T) && (x == P || x == T) {
      assert Scanned(P, T + 1, P, T);
    }
  }

  lemma RowStep(rows: seq<string>, threshold: real, pm: map<nat, nat>, P: nat, T: nat, x: nat)
    requires P < |rows| && !HasField(rows[P], T)
    ensures LowEndBefore(rows, threshold, pm, P, T, x) <==> LowEndBefore(rows, threshold, pm, P + 1, 0, x)
  {
    if LowEndBefore(rows, threshold, pm, P + 1, 0, x) {
      var p, t :| Scanned(P + 1, 0, p, t) && Qualifies(rows, threshold, pm, p, t) && (x == p || x == t);
      assert Scanned(P, T, p, t);
    }
  }

  /** The keys-or-values test on the tracker adds nothing: a qualifying pair
      already puts the field index among the keys or the values. */
  lemma GateRedundant(pm: map<nat, nat>, p: nat, t: nat)
    requires IsPair(pm, t, p) || IsPair(pm, p, t)
    ensures t in pm || t in pm.Values
  {
    if !IsPair(pm, t, p) {
      assert pm[p] == t;
    }
  }

  /** The tests on one cell (row `position`, field `tracker`, value v): a
      measured value below the threshold records the pair the two indices
      form, in whichever direction the table holds it. */
  method RecordCell(pm: map<nat, nat>, threshold: real, position: nat, tracker: nat, v: nat, changes: seq<Change>)
    returns (changes': seq<Change>)
    requires forall c :: c in changes ==> IsPair(pm, c.first, c.second) && LowConfidence(c.value, threshold)
    ensures forall c :: c in changes' ==> IsPair(pm, c.first, c.second) && LowConfidence(c.value, threshold)
    ensures forall x :: x in Ends(changes') <==> (x in Ends(changes) ||
      (LowConfidence(v, threshold) && (IsPair(pm, tracker, position) || IsPair(pm, position, tracker))
       && (x == position || x == tracker)))
  {
    changes' := changes;
    if LowConfidence(v, threshold) && (tracker in pm || tracker in pm.Values) {
      if tracker in pm && pm[tracker] == position {
        changes' := changes' + [Change(v, tracker, position)];
      } else if position in pm && pm[position] == tracker {
        changes' := changes' + [Change(v, position, tracker)];
      }
    }
    if changes' != changes {
      EndsAppend(changes, changes'[|changes'| - 1]);
    }
    if IsPair(pm, tracker, position) || IsPair(pm, position, tracker) {
      GateRedundant(pm, position, tracker);
    }
  }

  /** One pass of the inner loop of bootstrap_check over row `position`:
      read each field in turn and record the pair of every low-confidence
      cell. Either every field of the row is a number and the changes now
      cover all cells up to the end of this row, or some field is not. */
  method ScanRow(rows: seq<string>, threshold: real, pm: map<nat, nat>, position: nat, changes: seq<Change>)
    returns (ok: bool, changes': seq<Change>)
    requires position < |rows|
    requires forall c :: c in changes ==> IsPair(pm, c.first, c.second) && LowConfidence(c.value, threshold)
    requires forall x :: x in Ends(changes) <==> LowEndBefore(rows, threshold, pm, position, 0, x)
    ensures ok ==> forall t :: HasField(rows[position], t) ==> ParseHundredths(Field(rows[position], t)).Some?
    ensures ok ==> forall c :: c in changes' ==> IsPair(pm, c.first, c.second) && LowConfidence(c.value, threshold)
    ensures ok ==> forall x :: x in Ends(changes') <==> LowEndBefore(rows, threshold, pm, position + 1, 0, x)
    ensures !ok ==> exists t :: HasField(rows[position], t) && ParseHundredths(Field(rows[position], t)).None?
  {
    changes' := changes;
    var row := rows[position];
    var tracker: nat := 0;
    var i := 0;
    while i < |row| - 4
      invariant i == 5 * tracker
      invariant forall t: nat :: t < tracker ==> HasField(row, t) && ParseHundredths(Field(row, t)).Some?
      invariant forall c :: c in changes' ==> IsPair(pm, c.first, c.second) && LowConfidence(c.value, threshold)
      invariant forall x :: x in Ends(changes') <==> LowEndBefore(rows, threshold, pm, position, tracker, x)
    {
      var v := ParseHundredths(row[i .. i + 4]);
      if v.None? {
        assert HasField(row, tracker) && Field(row, tracker) == row[i .. i + 4];
        return false, changes';
      }
      assert Field(row, tracker) == row[i .. i + 4];
      changes' := RecordCell(pm, threshold, position, tracker, v.value, changes');
      forall x ensures x in Ends(changes') <==> LowEndBefore(rows, threshold, pm, position, tracker + 1, x) {
        CellStep(rows, threshold, pm, position, tracker, x);
      }
      tracker := tracker + 1;
      i := i + 5;
    }
    forall x ensures x in Ends(changes') <==> LowEndBefore(rows, threshold, pm, position + 1, 0, x) {
      RowStep(rows, threshold, pm, position, tracker, x);
    }
    assert forall t: nat :: HasField(row, t) ==> t < tracker;
    ok := true;
  }

  /** The loop over `changes`: both ends of every recorded pair become `.`,
      every other position keeps its character. */
  method ApplyChanges(s: string, changes: seq<Change>) returns (dots: string)
    requires forall c :: c in changes ==> c.first < |s| && c.second < |s|
    ensures |dots| == |s|
    ensures forall x :: 0 <= x < |s| ==> dots[x] == if x in Ends(changes) then '.' else s[x]
  {
    dots := s;
    for k := 0 to |changes|
      invariant |dots| == |s|
      invariant forall x :: 0 <= x < |s| ==> dots[x] == if x in Ends(changes[..k]) then '.' else s[x]
    {
      assert changes[..k + 1] == changes[..k] + [changes[k]];
      EndsAppend(changes[..k], changes[k]);
      dots := dots[changes[k].first := '.'];
      dots := dots[changes[k].second := '.'];
    }
    assert changes[..|changes|] == changes;
  }

  /** bootstrap_check: fill the row list, scan it row by row, then set both
      ends of every recorded pair to `.`. */
  method BootstrapCheck(rows: seq<string>, length: nat, threshold: real, pm: map<nat, nat>, s: string)
    returns (r: Result<string>)
    requires PairTable(pm, |s|)
    ensures r == BootstrapSpec(rows, length, threshold, pm, s)
  {
    if |rows| > length {
      return Err(ConfidenceRowCount);
    }
    var changes: seq<Change> := [];
    for position := 0 to |rows|
      invariant forall p, t :: 0 <= p < position && HasField(rows[p], t) ==> ParseHundredths(Field(rows[p], t)).Some?
      invariant forall c :: c in changes ==> IsPair(pm, c.first, c.second) && LowConfidence(c.value, threshold)
      invariant forall x :: x in Ends(changes) <==> LowEndBefore(rows, threshold, pm, position, 0, x)
    {
      var ok;
      ok, changes := ScanRow(rows, threshold, pm, position, changes);
      if !ok {
        return Err(BadConfidenceField);
      }
    }
    assert FieldsParse(rows);
    if |rows| < length {
      return Err(ConfidenceRowCount);
    }
    var dots := ApplyChanges(s, changes);
    forall x | 0 <= x < |s| ensures x in Ends(changes) <==> LowConfidenceEnd(rows, threshold, pm, x) {
      if LowConfidenceEnd(rows, threshold, pm, x) {
        var p, t :| Qualifies(rows, threshold, pm, p, t) && (x == p || x == t);
        assert Scanned(|rows|, 0, p, t);
      }
    }
    assert dots == BootstrapSpec(rows, length, threshold, pm, s).value;
    r := Ok(dots);
  }

  /** Where the table pairs each position at most once, a pair loses both
      ends exactly when one of its two cells, (row b, field a) or
      (row a, field b), qualifies; unpaired positions are never touched. */
  lemma PairErasedIff(rows: seq<string>, threshold: real, pm: map<nat, nat>, n: nat, a: nat)
    requires PairTable(pm, n) && OnePairEach(pm) && a in pm
    ensures LowConfidenceEnd(rows, threshold, pm, a) <==>
      Qualifies(rows, threshold, pm, pm[a], a) || Qualifies(rows, threshold, pm, a, pm[a])
    ensures LowConfidenceEnd(rows, threshold, pm, pm[a]) <==>
      Qualifies(rows, threshold, pm, pm[a], a) || Qualifies(rows, threshold, pm, a, pm[a])
  {
    var b := pm[a];
    forall p, t | Qualifies(rows, threshold, pm, p, t) && (a == p || a == t || b == p || b == t)
      ensures (p == b && t == a) || (p == a && t == b)
    {
      if IsPair(pm, t, p) {
        assert t == a;
      } else {
        assert p == a;
      }
    }
    if Qualifies(rows, threshold, pm, b, a) {
      assert LowConfidenceEnd(rows, threshold, pm, a) && LowConfidenceEnd(rows, threshold, pm, b);
    }
    if Qualifies(rows, threshold, pm, a, b) {
      assert LowConfidenceEnd(rows, threshold, pm, a) && LowConfidenceEnd(rows, threshold, pm, b);
    }
  }

  lemma UnpairedKept(rows: seq<string>, threshold: real, pm: map<nat, nat>, x: nat)
    requires x !in pm && x !in pm.Values
    ensures !LowConfidenceEnd(rows, threshold, pm, x)
  {
  }

  /** A pair (12, 101) whose cell holds 0.40 under a threshold of 0.70 loses
      both ends; a cell holding 0.00 never qualifies. */
  lemma ConfidenceExample(rows: seq<string>)
    requires |rows| > 101 && HasField(rows[101], 12) && Field(rows[101], 12) == "0.40"
    ensures LowConfidenceEnd(rows, 0.7, map[12 := 101], 12)
    ensures LowConfidenceEnd(rows, 0.7, map[12 := 101], 101)
    ensures forall p: nat, t: nat, thr: real :: p < |rows| && HasField(rows[p], t) && Field(rows[p], t) == "0.00" ==>
      !Qualifies(rows, thr, map[12 := 101], p, t)
  {
    assert ParseHundredths("0.40") == Some(40);
    assert Qualifies(rows, 0.7, map[12 := 101], 101, 12);
  }
}
