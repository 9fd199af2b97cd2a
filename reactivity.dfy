/** reactivity_check: erase base pairs whose two ends differ in reactivity
    by more than the threshold. */
module Reactivity {
  import opened Notation

  /** A token the reader keeps: it starts with `+` or `-`. */
  predicate Signed(tok: string)
  {
    |tok| > 0 && (tok[0] == '+' || tok[0] == '-')
  }

  /** The signed tokens among toks, in their order. */
  function SignedTokens(toks: seq<string>): (sig: seq<string>)
    ensures |sig| <= |toks|
    ensures forall j :: 0 <= j < |sig| ==> Signed(sig[j])
  {
    if toks == [] then []
    else
      var init, last := toks[..|toks| - 1], toks[|toks| - 1];
      assert toks == init + [last];
      SignedTokens(init) + (if Signed(last) then [last] else [])
  }

  /** The tokens kept are exactly the signed tokens among the input. */
  lemma {:induction false} SignedTokensMembers(toks: seq<string>)
    ensures forall w :: w in SignedTokens(toks) <==> w in toks && Signed(w)
    decreases |toks|
  {
    if toks != [] {
      var init, last := toks[..|toks| - 1], toks[|toks| - 1];
      assert toks == init + [last];
      SignedTokensMembers(init);
    }
  }

  /** Filtering keeps order: the signed tokens of a concatenation are those
      of each part, one after the other. */
  lemma {:induction false} SignedTokensAppend(a: seq<string>, b: seq<string>)
    ensures SignedTokens(a + b) == SignedTokens(a) + SignedTokens(b)
    decreases |b|
  {
    if b == [] {
      assert a + b == a;
    } else {
      var init, last := b[..|b| - 1], b[|b| - 1];
      assert a + b == (a + init) + [last];
      assert (a + b)[..|a + b| - 1] == a + init;
      SignedTokensAppend(a, init);
    }
  }

  predicate AllDigits(ds: string)
  {
    forall i :: 0 <= i < |ds| ==> IsDigit(ds[i])
  }

  /** The value of a string of decimal digits. */
  function Natural(ds: string): nat
    requires AllDigits(ds)
  {
    if ds == [] then 0 else 10 * Natural(ds[..|ds| - 1]) + DigitValue(ds[|ds| - 1])
  }

  function Pow10(n: nat): (p: nat)
    ensures p >= 1
  {
    if n == 0 then 1 else 10 * Pow10(n - 1)
  }

  /** Index of the first `.` at or after i, or |f| when there is none. */
  function DotAt(f: string, i: nat): (k: nat)
    requires i <= |f|
    ensures i <= k <= |f|
    ensures k < |f| ==> f[k] == '.'
    ensures forall j :: i <= j < k ==> f[j] != '.'
    decreases |f| - i
  {
    if i == |f| || f[i] == '.' then i else DotAt(f, i + 1)
  }

  /** An unsigned decimal numeral: digits, optionally a `.` and more
      digits, with at least one digit in all. */
  function ParseUnsigned(f: string): (r: Option<real>)
    ensures r.Some? ==> r.value >= 0.0
  {
    var k := DotAt(f, 0);
    var whole, frac := f[..k], if k < |f| then f[k + 1..] else [];
    if AllDigits(whole) && AllDigits(frac) && |whole| + |frac| > 0
    then Some(Natural(whole) as real + Natural(frac) as real / Pow10(|frac|) as real)
    else None
  }

  /** float() on a numeral with an optional sign. */
  function ParseFloat(f: string): Option<real>
  {
    if |f| > 0 && f[0] == '-' then
      match ParseUnsigned(f[1..])
      case Some(v) => Some(-v)
      case None => None
    else if |f| > 0 && f[0] == '+' then ParseUnsigned(f[1..])
    else ParseUnsigned(f)
  }

  /** The value stored for a signed token: after `+` the rest is read, a
      `-` token is read whole, sign included. */
  function TokenValue(tok: string): Option<real>
    requires Signed(tok)
  {
    if tok[0] == '+' then ParseFloat(tok[1..]) else ParseFloat(tok)
  }

  /** An unsigned numeral starts with a digit or a `.`, never a sign. */
  lemma UnsignedNoSign(u: string)
    requires ParseUnsigned(u).Some?
    ensures |u| > 0 && u[0] != '-' && u[0] != '+'
  {
    var k := DotAt(u, 0);
    if k > 0 {
      assert IsDigit(u[..k][0]);
    } else {
      assert IsDigit(u[k + 1..][0]);
    }
  }

  /** `+` is dropped and `-` negates: a numeral u stands for v after `+`
      and for -v after `-`. */
  lemma SignedValue(u: string, v: real)
    requires ParseUnsigned(u) == Some(v)
    ensures TokenValue(['+'] + u) == Some(v)
    ensures TokenValue(['-'] + u) == Some(-v)
  {
    UnsignedNoSign(u);
    assert (['+'] + u)[1..] == u;
    assert (['-'] + u)[1..] == u;
  }

  /** What the reading loop produces: the value of the j-th signed token in
      slot j, zero in the slots no token reached. A token that is not a
      number fails as soon as it is met; a token beyond the last slot fails
      once it has been read. */
  ghost function ReadSpec(toks: seq<string>, length: nat): Result<seq<real>>
  {
    var sig := SignedTokens(toks);
    if exists j :: 0 <= j < |sig| && j <= length && TokenValue(sig[j]).None? then Err(BadReactivityToken)
    else if |sig| > length then Err(TooManyReactivities)
    else Ok(seq(length, x requires 0 <= x < length => if x < |sig| then TokenValue(sig[x]).value else 0.0))
  }

  lemma SignedTokensStep(toks: seq<string>, k: nat)
    requires k < |toks|
    ensures SignedTokens(toks[..k + 1]) == SignedTokens(toks[..k]) + (if Signed(toks[k]) then [toks[k]] else [])
  {
    assert toks[..k + 1][..k] == toks[..k];
  }

  lemma TakeDrop(toks: seq<string>, k: nat)
    requires k <= |toks|
    ensures toks[..k] + toks[k..] == toks
  {
  }

  /** The signed tokens of the first k tokens begin the signed tokens of
      all of them. */
  lemma SignedTokensSplit(toks: seq<string>, k: nat)
    requires k <= |toks|
    ensures SignedTokens(toks) == SignedTokens(toks[..k]) + SignedTokens(toks[k..])
  {
    TakeDrop(toks, k);
    SignedTokensAppend(toks[..k], toks[k..]);
  }

  /** What the reading loop knows after k tokens: index slots hold the
      values of the signed tokens read so far, the rest are still zero. */
  ghost predicate ReadInv(toks: seq<string>, length: nat, k: nat, index: nat, rv: seq<real>)
  {
    && k <= |toks| && |rv| == length && index <= length
    && index == |SignedTokens(toks[..k])|
    && (forall j :: 0 <= j < index ==> TokenValue(SignedTokens(toks[..k])[j]) == Some(rv[j]))
    && (forall x :: index <= x < length ==> rv[x] == 0.0)
  }

  lemma ReadBad(toks: seq<string>, length: nat, k: nat, index: nat, rv: seq<real>)
    requires ReadInv(toks, length, k, index, rv) && k < |toks| && Signed(toks[k]) && TokenValue(toks[k]).None?
    ensures ReadSpec(toks, length) == Err(BadReactivityToken)
  {
    SignedTokensStep(toks, k);
    SignedTokensSplit(toks, k + 1);
    var sig := SignedTokens(toks);
    assert sig[index] == toks[k];
  }

  lemma ReadTooMany(toks: seq<string>, length: nat, k: nat, index: nat, rv: seq<real>)
    requires ReadInv(toks, length, k, index, rv) && k < |toks| && Signed(toks[k]) && TokenValue(toks[k]).Some?
    requires index >= length
    ensures ReadSpec(toks, length) == Err(TooManyReactivities)
  {
    SignedTokensStep(toks, k);
    SignedTokensSplit(toks, k + 1);
    var sig := SignedTokens(toks);
    var pre := SignedTokens(toks[..k]);
    assert sig[index] == toks[k];
    forall j | 0 <= j < |sig| && j <= length ensures TokenValue(sig[j]).Some? {
      if j < index {
        assert sig[j] == pre[j];
      }
    }
  }

  lemma ReadStep(toks: seq<string>, length: nat, k: nat, index: nat, rv: seq<real>)
    requires ReadInv(toks, length, k, index, rv) && k < |toks|
    requires Signed(toks[k]) ==> TokenValue(toks[k]).Some? && index < length
    ensures !Signed(toks[k]) ==> ReadInv(toks, length, k + 1, index, rv)
    ensures Signed(toks[k]) ==> ReadInv(toks, length, k + 1, index + 1, rv[index := TokenValue(toks[k]).value])
  {
    SignedTokensStep(toks, k);
  }

  lemma ReadDone(toks: seq<string>, length: nat, index: nat, rv: seq<real>)
    requires ReadInv(toks, length, |toks|, index, rv)
    ensures ReadSpec(toks, length) == Ok(rv)
  {
    assert toks[..|toks|] == toks;
    var sig := SignedTokens(toks);
    assert !exists j :: 0 <= j < |sig| && j <= length && TokenValue(sig[j]).None?;
    var spec := seq(length, x requires 0 <= x < length => if x < |sig| then TokenValue(sig[x]).value else 0.0);
    assert spec == rv;
  }

  /** The reading loop of reactivity_check over the space-split tokens:
      `+` and `-` tokens fill the slots in order, all others are skipped. */
  method ReadReactivities(toks: seq<string>, length: nat) returns (r: Result<seq<real>>)
    ensures r == ReadSpec(toks, length)
  {
    var reactivities := seq(length, _ => 0.0);
    var index := 0;
    for k := 0 to |toks|
      invariant ReadInv(toks, length, k, index, reactivities)
    {
      var entry := toks[k];
      if Signed(entry) {
        var v := TokenValue(entry);
        if v.None? {
          ReadBad(toks, length, k, index, reactivities);
          return Err(BadReactivityToken);
        }
        if index >= length {
          ReadTooMany(toks, length, k, index, reactivities);
          return Err(TooManyReactivities);
        }
        ReadStep(toks, length, k, index, reactivities);
        reactivities := reactivities[index := v.value];
        index := index + 1;
      } else {
        ReadStep(toks, length, k, index, reactivities);
      }
    }
    ReadDone(toks, length, index, reactivities);
    return Ok(reactivities);
  }

  function Abs(x: real): real
  {
    if x < 0.0 then -x else x
  }

  /** x is an end of a pair, with its key among done, whose two ends differ
      in reactivity by more than the threshold. */
  ghost predicate Asymmetric(rv: seq<real>, threshold: real, pm: map<nat, nat>, done: set<nat>, x: nat)
  {
    exists k :: k in done && k in pm && k < |rv| && pm[k] < |rv| && (x == k || x == pm[k])
      && Abs(rv[pm[k]] - rv[k]) > threshold
  }

  /** What reactivity_check returns or raises. */
  ghost function ReactivitySpec(toks: seq<string>, length: nat, threshold: real, pm: map<nat, nat>, s: string): Result<string>
  {
    match ReadSpec(toks, length)
    case Err(e) => Err(e)
    case Ok(rv) =>
      if exists k :: k in pm && pm[k] >= length then Err(PairBeyondReactivities)
      else Ok(seq(|s|, x requires 0 <= x < |s| => if Asymmetric(rv, threshold, pm, pm.Keys, x) then '.' else s[x]))
  }

  lemma AsymmetricStep(rv: seq<real>, threshold: real, pm: map<nat, nat>, done: set<nat>, i: nat, x: nat)
    ensures Asymmetric(rv, threshold, pm, done + {i}, x) <==>
      Asymmetric(rv, threshold, pm, done, x) ||
      (i in pm && i < |rv| && pm[i] < |rv| && (x == i || x == pm[i]) && Abs(rv[pm[i]] - rv[i]) > threshold)
  {
    if Asymmetric(rv, threshold, pm, done + {i}, x) {
      var k :| k in done + {i} && k in pm && k < |rv| && pm[k] < |rv| && (x == k || x == pm[k])
        && Abs(rv[pm[k]] - rv[k]) > threshold;
      if k != i {
        assert k in done;
      }
    }
  }

  /** reactivity_check: read the vector, then visit every pair once and
      erase both ends of each pair whose ends differ by more than the
      threshold. The pairs are visited in an arbitrary order. */
  method ReactivityCheck(toks: seq<string>, length: nat, threshold: real, pm: map<nat, nat>, s: string)
    returns (r: Result<string>)
    requires PairTable(pm, |s|)
    ensures r == ReactivitySpec(toks, length, threshold, pm, s)
  {
    var read := ReadReactivities(toks, length);
    if read.Err? {
      return Err(read.error);
    }
    var reactivities := read.value;
    var dots := s;
    var todo := pm.Keys;
    while todo != {}
      invariant todo <= pm.Keys
      invariant forall k :: k in pm && k !in todo ==> pm[k] < length
      invariant |dots| == |s|
      invariant forall x :: 0 <= x < |s| ==>
        dots[x] == if Asymmetric(reactivities, threshold, pm, pm.Keys - todo, x) then '.' else s[x]
      decreases todo
    {
      var i :| i in todo;
      if pm[i] >= length {
        return Err(PairBeyondReactivities);
      }
      if Abs(reactivities[pm[i]] - reactivities[i]) > threshold {
        dots := dots[i := '.'];
        dots := dots[pm[i] := '.'];
      }
      forall x | 0 <= x < |s| ensures
        dots[x] == if Asymmetric(reactivities, threshold, pm, (pm.Keys - todo) + {i}, x) then '.' else s[x]
      {
        AsymmetricStep(reactivities, threshold, pm, pm.Keys - todo, i, x);
      }
      assert (pm.Keys - todo) + {i} == pm.Keys - (todo - {i});
      todo := todo - {i};
    }
    assert pm.Keys - {} == pm.Keys;
    assert ReadSpec(toks, length) == Ok(reactivities);
    assert !exists k :: k in pm && pm[k] >= length;
    assert dots == ReactivitySpec(toks, length, threshold, pm, s).value;
    r := Ok(dots);
  }

  /** Where each position is in at most one pair, both ends of a pair are
      erased exactly when their reactivities differ by more than the
      threshold, strictly. */
  lemma PairErasedIff(rv: seq<real>, threshold: real, pm: map<nat, nat>, k: nat)
    requires PairTable(pm, |rv|) && OnePairEach(pm) && k in pm
    ensures Asymmetric(rv, threshold, pm, pm.Keys, k) <==> Abs(rv[pm[k]] - rv[k]) > threshold
    ensures Asymmetric(rv, threshold, pm, pm.Keys, pm[k]) <==> Abs(rv[pm[k]] - rv[k]) > threshold
  {
    forall k' | k' in pm && (k == k' || k == pm[k'] || pm[k] == k' || pm[k] == pm[k'])
      ensures k' == k
    {
    }
  }

  /** Positions 25 and 145 are paired, with reactivities 0.5 and 2.45: they
      differ by 1.95, and under a threshold of 1.0 both ends are erased;
      with 0.5 and 1.2 they differ by 0.7 and the pair is kept. */
  lemma ReactivityExample(rv: seq<real>)
    requires |rv| > 145 && rv[25] == 0.5
    ensures rv[145] == 2.45 ==>
      Asymmetric(rv, 1.0, map[25 := 145], {25}, 25) && Asymmetric(rv, 1.0, map[25 := 145], {25}, 145)
    ensures rv[145] == 1.2 ==> forall x :: !Asymmetric(rv, 1.0, map[25 := 145], {25}, x)
  {
  }

  /** Positions 15 and 75 are paired, with reactivities 1.5 and 3.0: the
      difference is 1.5, so a threshold of 1.0 erases the pair and a
      threshold of 1.5 keeps it, the comparison being strict. */
  lemma DifferenceExample(rv: seq<real>)
    requires |rv| > 75 && rv[15] == 1.5 && rv[75] == 3.0
    ensures Asymmetric(rv, 1.0, map[15 := 75], {15}, 15) && Asymmetric(rv, 1.0, map[15 := 75], {15}, 75)
    ensures forall x :: !Asymmetric(rv, 1.5, map[15 := 75], {15}, x)
  {
  }
}
