/** main: compute the pairing table once, then run the enabled filters in
    the fixed order hairpin, confidence, reactivity, each on the string the
    previous one returned and all on the table of the original string. */
module Pipeline {
  import opened Notation
  import Pairing
  import Hairpin
  import Confidence
  import Reactivity

  /** The command-line switches and cut-offs, as plain values. */
  datatype Config = Config(
    checkHairpins: bool,
    checkConfidence: bool,
    checkReactivity: bool,
    ones: bool,
    twos: bool,
    confidenceCutoff: real,
    reactivityCutoff: real)

  /** The chain of enabled filters over one pairing table. */
  ghost function Chain(cfg: Config, ps: seq<nat>, pm: map<nat, nat>, length: nat,
                       rows: seq<string>, toks: seq<string>, s: string): Result<string>
  {
    var afterHairpins := if cfg.checkHairpins then Hairpin.HairpinSpec(ps, pm, cfg.twos, cfg.ones, s) else s;
    var afterConfidence :=
      if cfg.checkConfidence then Confidence.BootstrapSpec(rows, length, cfg.confidenceCutoff, pm, afterHairpins)
      else Ok(afterHairpins);
    if afterConfidence.Err? || !cfg.checkReactivity then afterConfidence
    else Reactivity.ReactivitySpec(toks, length, cfg.reactivityCutoff, pm, afterConfidence.value)
  }

  /** The body of main. Only the length of the RNA sequence is used. */
  method Run(s: string, rna: string, cfg: Config, rows: seq<string>, toks: seq<string>)
    returns (pm: map<nat, nat>, positions: seq<nat>, r: Result<string>)
    ensures !Pairing.NoExcessClose(s) ==> r.Err? && r.error.UnmatchedClose? && Pairing.FirstExcessClose(s, r.error.at)
    ensures Pairing.NoExcessClose(s) ==> Pairing.MatchesOf(s, pm)
    ensures Pairing.NoExcessClose(s) ==> forall k :: k in pm <==> k in positions
    ensures Pairing.NoExcessClose(s) ==> forall i, j :: 0 <= i < j < |positions| ==> positions[i] < positions[j]
    ensures Pairing.NoExcessClose(s) ==> r == Chain(cfg, positions, pm, |rna|, rows, toks, s)
  {
    var mapped := Pairing.MapNotation(s);
    if mapped.Err? {
      return map[], [], Err(mapped.error);
    }
    pm := mapped.value;
    assert PairTable(pm, |s|) by {
      Pairing.MatchesShape(s, pm);
    }
    positions := Pairing.SortKeys(pm);
    var length := |rna|;
    var dotBracket := s;
    if cfg.checkHairpins {
      dotBracket := Hairpin.HairpinCheck(positions, pm, cfg.twos, cfg.ones, dotBracket);
    }
    if cfg.checkConfidence {
      var confident := Confidence.BootstrapCheck(rows, length, cfg.confidenceCutoff, pm, dotBracket);
      if confident.Err? {
        return pm, positions, confident;
      }
      dotBracket := confident.value;
    }
    if cfg.checkReactivity {
      r := Reactivity.ReactivityCheck(toks, length, cfg.reactivityCutoff, pm, dotBracket);
    } else {
      r := Ok(dotBracket);
    }
  }

  /** With every filter off, main hands back its input. */
  lemma ChainAllOff(cfg: Config, ps: seq<nat>, pm: map<nat, nat>, length: nat,
                    rows: seq<string>, toks: seq<string>, s: string)
    requires !cfg.checkHairpins && !cfg.checkConfidence && !cfg.checkReactivity
    ensures Chain(cfg, ps, pm, length, rows, toks, s) == Ok(s)
  {
  }

  /** With the hairpin filter on but neither `ones` nor `twos` set, nothing
      changes either. */
  lemma ChainHairpinsNoFlags(cfg: Config, ps: seq<nat>, pm: map<nat, nat>, length: nat,
                             rows: seq<string>, toks: seq<string>, s: string)
    requires !cfg.ones && !cfg.twos && !cfg.checkConfidence && !cfg.checkReactivity
    ensures Chain(cfg, ps, pm, length, rows, toks, s) == Ok(s)
  {
    Hairpin.HairpinNoFlags(ps, pm, s);
  }

  lemma BootstrapOnlyDots(rows: seq<string>, length: nat, threshold: real, pm: map<nat, nat>, s: string)
    requires Confidence.BootstrapSpec(rows, length, threshold, pm, s).Ok?
    ensures OnlyDots(s, Confidence.BootstrapSpec(rows, length, threshold, pm, s).value)
  {
  }

  lemma ReactivityOnlyDots(toks: seq<string>, length: nat, threshold: real, pm: map<nat, nat>, s: string)
    requires Reactivity.ReactivitySpec(toks, length, threshold, pm, s).Ok?
    ensures OnlyDots(s, Reactivity.ReactivitySpec(toks, length, threshold, pm, s).value)
  {
  }

  /** Whatever filters run, the final string has the input's length and
      differs from it only where a `.` was written. */
  lemma ChainOnlyDots(cfg: Config, ps: seq<nat>, pm: map<nat, nat>, length: nat,
                      rows: seq<string>, toks: seq<string>, s: string)
    requires Chain(cfg, ps, pm, length, rows, toks, s).Ok?
    ensures OnlyDots(s, Chain(cfg, ps, pm, length, rows, toks, s).value)
  {
    var h := if cfg.checkHairpins then Hairpin.HairpinSpec(ps, pm, cfg.twos, cfg.ones, s) else s;
    Hairpin.HairpinOnlyDots(ps, pm, cfg.twos, cfg.ones, s);
    var c := if cfg.checkConfidence then Confidence.BootstrapSpec(rows, length, cfg.confidenceCutoff, pm, h) else Ok(h);
    assert c.Ok?;
    if cfg.checkConfidence {
      BootstrapOnlyDots(rows, length, cfg.confidenceCutoff, pm, h);
    }
    OnlyDotsTransitive(s, h, c.value);
    if cfg.checkReactivity {
      ReactivityOnlyDots(toks, length, cfg.reactivityCutoff, pm, c.value);
      OnlyDotsTransitive(s, c.value, Chain(cfg, ps, pm, length, rows, toks, s).value);
    }
  }

  /** The hairpin filter alone never fails. */
  lemma ChainHairpinsOnly(cfg: Config, ps: seq<nat>, pm: map<nat, nat>, length: nat,
                          rows: seq<string>, toks: seq<string>, s: string)
    requires !cfg.checkConfidence && !cfg.checkReactivity
    ensures Chain(cfg, ps, pm, length, rows, toks, s).Ok?
  {
  }
}
