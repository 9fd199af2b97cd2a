# rna_visual: dot-bracket filtering, modelled and proved in Dafny

`rna_visual.py` cleans up a predicted RNA secondary structure given in
dot-bracket notation. It pairs every `(` with its `)` using a stack. It
then runs up to three filters in a fixed order, and each filter turns
some base pairs into unpaired `.`:

- **hairpin**: erases isolated pairs (`--ones`) and two-pair stems (`--twos`),
  together with everything they enclose;
- **confidence**: erases pairs whose bootstrap confidence, read from a
  matrix of fixed-width `d.dd` fields, is non-zero and below a cut-off;
- **reactivity**: erases pairs whose two ends differ in reactivity by more
  than a cut-off.

This project models that core in Dafny. `HairpinCheck`,
`BootstrapCheck`, `ReadReactivities`, `ReactivityCheck` and `Run` are
proved equal to specification functions. `MapNotation` satisfies the
relational specification `MatchesOf`. The helper methods `MinOf`,
`SortKeys`, `EraseRun`, `RecordCell`, `ScanRow` and `ApplyChanges` are
specified by their own ensures clauses. Every loop the model keeps is a
`for` or `while` loop. The file-reading loops and the scan over
`bp_positions.items()` are not kept as loops; "Left out" says how they
are modelled. The properties the program relies on are proved about the
specification functions. The modules are:

- `Notation`: errors, results, and the shape of a pairing table.
- `Pairing`: `map_notation`, plus the sorted key list that `main` builds.
- `Hairpin`: `hairpin_check`.
- `Confidence`: `bootstrap_check`.
- `Reactivity`: `reactivity_check`.
- `Pipeline`: `main`.

Every Python exception on a reachable path becomes an `Err` of the
`Notation.Error` datatype:

- a `)` popping an empty stack;
- too many or too few confidence rows;
- a confidence field that is not a number;
- a reactivity token that is not a number;
- more signed reactivity tokens than sequence positions;
- a pair whose closing end has no reactivity slot.

In two places the code behaves differently from what a reader might
expect, and the model follows the code:

- `map_notation` does not reject an unclosed `(` (rna_visual.py:100-105).
  The `(` is left on the stack and simply has no pair
  (`Pairing.UnclosedOpenExample`). Only a `)` with nothing to pop fails.
- `reactivity_check` does not demand exactly one token per position
  (rna_visual.py:179-187). Fewer signed tokens leave the remaining slots
  at 0. Only more tokens than slots fail.

## Model

| member | source | states |
|---|---|---|
| Pairing.MapNotation | rna_visual.py:92-105 | the stack walk succeeds exactly when no prefix closes more brackets than it opened; on success the table holds exactly the matched (`(`, `)`) pairs and every `)` is a value of it; on failure it names the first `)` that finds the stack empty |
| Pairing.MatchesShape | rna_visual.py:97-105 | the table built from matches pairs an earlier `(` with a later `)`, uses each position at most once (injective, no key is also a value), and its pairs nest without crossing |
| Pairing.MatchUnique | rna_visual.py:100-104 | an `(` has at most one matching `)` |
| Pairing.MatchInjective | rna_visual.py:100-104 | a `)` closes at most one `(` |
| Pairing.MatchCloses | rna_visual.py:100-104 | a match joins an `(` to a later `)` inside the string |
| Pairing.MatchNested | rna_visual.py:100-104 | a pair opened inside another pair closes inside it (no pseudoknots) |
| Pairing.CloseHasOpener | rna_visual.py:103-104 | when no prefix has excess closes, every `)` is the match of some `(` |
| Pairing.UnclosedOpenExample | rna_visual.py:97-105 | `((.)` is accepted and only its inner pair 1-3 is recorded; the unclosed outer `(` is dropped |
| Pairing.MinOf | rna_visual.py:258 | returns an element of the set no larger than any other |
| Pairing.SortKeys | rna_visual.py:257-258 | the positions list is strictly increasing and holds exactly the keys of the table |
| Hairpin.RunLength | rna_visual.py:225-227 | the inner while loop's run from a start index is at least one long, stays in bounds, is consecutive throughout and breaks at its end |
| Hairpin.EraseSpan | rna_visual.py:230 | the slice assignment sets positions a..b inclusive to `.`, keeps every other position, and keeps the length |
| Hairpin.EraseRun | rna_visual.py:228-233 | the two tests at the end of a run erase the span of the run's first member exactly when the run fires (length 1 under `ones`, length 2 under `twos`), and otherwise leave the string alone |
| Hairpin.CloseRun | rna_visual.py:221-233 | closing a run extends the erased positions from the runs before it to the runs up to its end, since only a run's first member can fire |
| Hairpin.HairpinCheck | rna_visual.py:211-246 | the result puts `.` at exactly the positions inside the span (opening to matching closing position) of the first member of a maximal run of consecutive opening positions that has length 1 under `ones` or length 2 under `twos`, and keeps every other character |
| Hairpin.HairpinNoFlags | rna_visual.py:228-233 | with both `ones` and `twos` off, the string is returned unchanged |
| Hairpin.HairpinIdempotent | rna_visual.py:228-233 | a second pass with the same positions, table and flags changes nothing more |
| Hairpin.HairpinOnlyDots | rna_visual.py:218-240 | the filter keeps the length and only ever writes `.` |
| Hairpin.SinglePairExample | rna_visual.py:213 | `....(.)....` becomes all dots under `ones`; under `twos` alone it is kept |
| Hairpin.DoubletExample | rna_visual.py:213 | `...((.))...` becomes all dots under `twos` |
| Hairpin.DoubletKeptExample | rna_visual.py:213 | under `ones` alone, `...((.))...` is kept unchanged |
| Hairpin.LongStemExample | rna_visual.py:225-233 | a stem of three stacked pairs survives both flags |
| Confidence.ParseHundredths | rna_visual.py:133 | a field that reads as a number is four characters of the form `d.dd`, with a value below 10.00 |
| Confidence.ParseFormat | rna_visual.py:133 | every value below 10.00 written as `d.dd` reads back as itself |
| Confidence.FormatParse | rna_visual.py:133 | every field that reads as a number is the `d.dd` spelling of its value |
| Confidence.Field | rna_visual.py:131-133 | a field is the four characters at offset 5·t of its row |
| Confidence.EndsIgnoreOrder | rna_visual.py:141-145 | two change lists with the same entries, in any order, erase the same positions, so sorting `changes` cannot change the result |
| Confidence.GateRedundant | rna_visual.py:133-139 | when row and field index form a pair, the field index is a key or a value, so the keys-or-values test never rejects a pair the inner branches would record |
| Confidence.RecordCell | rna_visual.py:133-140 | the ends recorded grow by the row and field index exactly when the value is measured and below the threshold and the two indices form a pair of the table in either direction; every recorded change is a pair of the table holding a non-zero value below the threshold |
| Confidence.ScanRow | rna_visual.py:130-140 | the scan of one row either finds every field read to be a number and extends the recorded ends to exactly the qualifying cells up to the end of that row, or stops at a field that is not a number |
| Confidence.ApplyChanges | rna_visual.py:142-145 | both ends of every recorded change become `.`, and every other position keeps its character |
| Confidence.BootstrapCheck | rna_visual.py:112-158 | more rows than positions fails; otherwise a field that is not a number fails; otherwise fewer rows than positions fails; otherwise the result puts `.` at exactly the ends of the pairs that have a field, at (row b, field a) or (row a, field b), holding a non-zero value below the threshold, and keeps every other character |
| Confidence.PairErasedIff | rna_visual.py:133-145 | when each position is in at most one pair, a pair loses both ends exactly when one of its two cells holds a non-zero value below the threshold |
| Confidence.UnpairedKept | rna_visual.py:133 | a position that is neither a key nor a value of the table is never erased |
| Confidence.ConfidenceExample | rna_visual.py:133-145 | pair 12-101 with 0.40 in row 101, field 12 under a threshold of 0.70 loses both ends; a 0.00 field never qualifies, whatever the threshold |
| Reactivity.SignedTokens | rna_visual.py:181-187 | every token kept is non-empty and starts with `+` or `-`, and there are no more of them than tokens |
| Reactivity.SignedTokensMembers | rna_visual.py:181-187 | the tokens kept are exactly the signed tokens of the input |
| Reactivity.SignedTokensAppend | rna_visual.py:179-187 | reading the tokens of consecutive lines keeps their order: the signed tokens of a concatenation are those of each part, in turn |
| Reactivity.ParseUnsigned | rna_visual.py:183 | an unsigned numeral reads as a non-negative value |
| Reactivity.UnsignedNoSign | rna_visual.py:183 | an unsigned numeral starts with neither `+` nor `-` |
| Reactivity.SignedValue | rna_visual.py:182-186 | after `+` the numeral's value is stored; after `-` its negation is stored |
| Reactivity.ReadReactivities | rna_visual.py:175-187 | the j-th signed token's value goes to slot j and the other slots stay 0; a token that is not a number fails as soon as it is met, and a token with no free slot fails after it is read |
| Reactivity.ReactivityCheck | rna_visual.py:167-208 | reading errors propagate; a pair whose closing end has no slot fails; otherwise the result puts `.` at exactly the ends of the pairs whose reactivities differ by more than the threshold, and keeps every other character |
| Reactivity.PairErasedIff | rna_visual.py:189-193 | when each position is in at most one pair, both ends of a pair are erased exactly when their reactivities differ by strictly more than the threshold |
| Reactivity.ReactivityExample | rna_visual.py:37 | pair 25-145 with reactivities 0.5 and 2.45 is erased under 1.0; with 0.5 and 1.2 it is kept |
| Reactivity.DifferenceExample | rna_visual.py:169 | pair 15-75 with reactivities 1.5 and 3.0 differs by 1.5: it is erased under 1.0 and kept under 1.5, the comparison being strict |
| Pipeline.Run | rna_visual.py:249-268 | an unbalanced `)` fails before any filter runs; otherwise the table is the set of matches, the positions list is its sorted keys, and the result is the chain of the enabled filters, each applied to the previous one's output and all using the table of the original string |
| Pipeline.ChainAllOff | rna_visual.py:262-268 | with every filter off, the string comes back unchanged |
| Pipeline.ChainHairpinsNoFlags | rna_visual.py:263-264 | the hairpin filter without `ones` or `twos` changes nothing |
| Pipeline.ChainHairpinsOnly | rna_visual.py:263-264 | the hairpin filter alone never fails |
| Pipeline.BootstrapOnlyDots | rna_visual.py:142-145 | a successful confidence pass keeps the length and only writes `.` |
| Pipeline.ReactivityOnlyDots | rna_visual.py:176-193 | a successful reactivity pass keeps the length and only writes `.` |
| Pipeline.ChainOnlyDots | rna_visual.py:262-268 | whatever filters run, a successful result has the input's length and differs from it only where a `.` was written |

## Left out

- Command-line parsing is not modelled; the switches and cut-offs are a `Pipeline.Config` value. Cut-offs are exact reals, and `float()` on the cut-off strings is not modelled.
- Reading `bpp.txt` and `reaccs_only.txt` is not modelled. The confidence rows are given as a sequence of lines, each including its line terminator when it has one, exactly as `groupby` hands them over.
- The reactivity file is given as its tokens after `split(' ')`, with line terminators already removed.
- Writes to `Dot_Bracket_Sequences.txt`, the prints, and the `check` flags that only choose which message is logged are left out. The returned string is the same either way.
- Floating point is left out. Values are exact reals, so a comparison that rounding would tip differently is not captured.
- Confidence.BootstrapCheck, Confidence.ParseHundredths: a field counts as a number only in the four-character form `d.dd`, where Python's `float()` also accepts forms such as ` 1.5` or `1e-2`. Such fields are an error here.
- Reactivity.ReadReactivities: tokens are read with an optional sign, digits and an optional `.` with digits. Exponents, `inf`, `nan`, underscores and surrounding blanks, which `float()` accepts, are errors here.
- `changes.sort(...)` in `bootstrap_check` is not performed. `Confidence.EndsIgnoreOrder` shows that the order of the changes does not affect the result.
- The scan over `bp_positions.items()` in `bootstrap_check` is modelled as a direct lookup of `position` in the table. This is the same test, since a key occurs once.
- Reactivity.ReactivityCheck: it visits the pairs in an arbitrary order rather than the dictionary's insertion order. Only the failing case can depend on that order, and every order fails with the same error.
- The unused `rna` argument is modelled only through its length.
