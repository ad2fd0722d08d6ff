# Antibody numbering wrapper, modelled in Dafny

This project models the numbering wrapper of `protein-ab-tools`: the glue code
around the external numbering engine (ANARCI) that

- cleans an antibody sequence (`strip()`, then every `-` removed), builds the
  record name and the chain allow-list, calls the engine and turns its "no
  numbering" answer into `Invalid sequence: <cleaned>` (`run_numbering`, and its
  older copy `numbering`);
- joins the numbered residues back into a string (`get_numbered_seq`);
- splits the numbered residues into the seven regions fwr1, cdr1, fwr2, cdr2,
  fwr3, cdr3, fwr4 using the IMGT or AHo breakpoint table (`extract_regions`).

The engine is a parameter of every operation that calls it (`RunNumbering`,
`GetNumberedSeq`, `ExtractRegions`, `LegacyNumbering.Numbering`). It has type
`Engine.Numberer`: a function from the request to the first domain's residue
list, or `None`. So every property holds for every engine.

Files:

- `wrappers.dfy`: `Option` and `Result`.
- `pystr.dfy`: Python's `str.strip`, `str.replace(c, '')` and `str.lower`.
- `engine.dfy`: residues, requests and the engine type.
- `numbering.dfy`: `run_numbering`, `get_numbered_seq` and `extract_regions`.
  The loop of `extract_regions` is the imperative method `FillRegions`, proved
  against the function `Bucket`.
- `legacy_numbering.dfy`: the older `numbering`.

The repository's tests (`tests/test_numbering.py`) expect more than the code
does. The model follows the code in `numbering.py`
(`src/protein_ab_tools/ab_analysis/numbering.py`):

- `tests/test_numbering.py:54-69` pass `germline=` and `species=` to
  `run_numbering`. Its signature (`numbering.py:5-10`) takes neither, so the
  model has no such options.
- `tests/test_numbering.py:138-236` call `extract_regions` with
  `scheme='kabat'` and `'chothia'`. `numbering.py:42-64` knows only `imgt` and
  `aho` and raises `Invalid numbering scheme` for anything else. `SelectTable`
  and `ExtractRegions` state that.
- `tests/test_numbering.py:154-155` and `:173-174` bound regions inclusively
  (`50 <= pos <= 65`). The code tests `v[0] <= number < v[1]`
  (`numbering.py:70`), that is half-open. `Interval.Contains` is half-open.
- `extract_regions` calls the engine before it checks the scheme name
  (`numbering.py:41-42`). So an unnumberable sequence reports `Invalid sequence`
  even when the scheme is unknown too. `ExtractRegions` states this order.

## Model

All source paths are in the repository. `numbering.py` below is
`src/protein_ab_tools/ab_analysis/numbering.py`.

| member | source | states |
|---|---|---|
| PyStr.Strip | src/protein_ab_tools/ab_analysis/numbering.py:14 | `strip()` is never longer than its input, and the result is empty or neither starts nor ends with whitespace |
| PyStr.StripSpec | src/protein_ab_tools/ab_analysis/numbering.py:14 | `strip()` returns the window of the input that starts after the leading whitespace; everything cut off on either side is whitespace (the 29 `str.isspace` code points); the result neither starts nor ends with whitespace |
| PyStr.StripKeeps | src/protein_ab_tools/ab_analysis/numbering.py:14 | a string whose two ends are not whitespace is its own `strip()` |
| PyStr.StripIdempotent | src/protein_ab_tools/ab_analysis/numbering.py:14 | `strip()` applied twice equals `strip()` applied once |
| PyStr.Remove | src/protein_ab_tools/ab_analysis/numbering.py:14 | `replace(c, '')` leaves no `c` and is never longer than its input |
| PyStr.RemoveCounts | src/protein_ab_tools/ab_analysis/numbering.py:14 | `replace(c, '')` keeps the count of every other character: the multiset of the result is the input's with `c` zeroed |
| PyStr.RemoveAppend | src/protein_ab_tools/ab_analysis/numbering.py:14 | removal distributes over concatenation, so the kept characters stay in order |
| PyStr.RemoveAbsent | src/protein_ab_tools/ab_analysis/numbering.py:14 | removing a character that does not occur changes nothing |
| PyStr.Lower | src/protein_ab_tools/ab_analysis/numbering.py:42-52 | `scheme.lower()` has the input's length, no upper-case letter `A`-`Z`, and each character is kept or is the lower-case form of an upper-case one |
| PyStr.LowerIdempotent | src/protein_ab_tools/ab_analysis/numbering.py:42-52 | lower-casing twice is lower-casing once |
| Numbering.Message | src/protein_ab_tools/ab_analysis/numbering.py:23-24 | `Invalid sequence: ` (18 characters) followed by exactly the cleaned sequence; the scheme error is the fixed text `Invalid numbering scheme` (line 64) |
| Numbering.MessageInjective | src/protein_ab_tools/ab_analysis/numbering.py:23-24 | two errors print the same message if and only if they are the same error, so the message names the offending sequence |
| Numbering.Clean | src/protein_ab_tools/ab_analysis/numbering.py:14 | the cleaned sequence holds no `-` and is no longer than the input |
| Numbering.CleanKeepsResidues | src/protein_ab_tools/ab_analysis/numbering.py:14 | cleaning only deletes; every character that is neither `-` nor whitespace keeps its count |
| Numbering.CleanNotIdempotent | src/protein_ab_tools/ab_analysis/numbering.py:14 | because the strip runs before the gaps are removed, `"- A"` cleans to `" A"`, which cleans again to `"A"`: cleaning is not idempotent |
| Numbering.CleanFixesCleanInput | src/protein_ab_tools/ab_analysis/numbering.py:14 | an input without `-` and without outer whitespace is passed to the engine unchanged |
| Numbering.DefaultName | src/protein_ab_tools/ab_analysis/numbering.py:15-16 | a given name is used as it is; otherwise the name is the chain, one `-`, then the scheme |
| Numbering.DefaultNameParts | src/protein_ab_tools/ab_analysis/numbering.py:15-16 | a given name is kept; the default name is `chain`, `-`, `scheme`, and splitting it at the first `-` gives back chain and scheme when the chain holds no `-` |
| Numbering.ExpandChain | src/protein_ab_tools/ab_analysis/numbering.py:18-21 | `H` becomes `['H']`, `L` becomes `['K', 'L']`, any other chain value is handed on as it is |
| Numbering.ExpandChainInjective | src/protein_ab_tools/ab_analysis/numbering.py:18-21 | different chain values never reach the engine as the same `allow` argument |
| Numbering.RunNumbering | src/protein_ab_tools/ab_analysis/numbering.py:5-25 | fails exactly when the engine answers `None`, with `Invalid sequence: ` followed by the cleaned sequence; otherwise returns the engine's residues unchanged |
| Numbering.Prepare | src/protein_ab_tools/ab_analysis/numbering.py:14-22 | the engine is asked about exactly the cleaned sequence (so it holds no `-` and is no longer than the input), under the given name or `chain-scheme`, with the scheme as given and the allow-list `['H']` for `H`, `['K', 'L']` for `L`, the chain itself otherwise |
| Numbering.Sequence | src/protein_ab_tools/ab_analysis/numbering.py:32 | the joined string has one character per residue |
| Numbering.SequenceAt | src/protein_ab_tools/ab_analysis/numbering.py:32 | character `i` of the joined string is the amino acid (or gap) of residue `i` |
| Numbering.GetNumberedSeq | src/protein_ab_tools/ab_analysis/numbering.py:28-32 | fails exactly when `run_numbering` fails, with the same error; otherwise returns one character per residue, in order, insertion codes dropped |
| Numbering.SelectTable | src/protein_ab_tools/ab_analysis/numbering.py:42-64 | a table is chosen if and only if `scheme.lower()` is `imgt` or `aho`; it has one interval per region name, starts at 1 and ends before 129 (IMGT), 150 (AHo, `H`) or 149 (AHo, other chains) |
| Numbering.SchemeAccepted | src/protein_ab_tools/ab_analysis/numbering.py:42-64 | a table is chosen exactly when the scheme lower-cases to `imgt` or `aho`, in any letter case |
| Numbering.TablesContiguous | src/protein_ab_tools/ab_analysis/numbering.py:43-62 | both tables, for either chain, are seven non-empty back-to-back intervals; IMGT spans [1, 129), AHo [1, 150) on `H` and [1, 149) otherwise |
| Numbering.RegionFrom | src/protein_ab_tools/ab_analysis/numbering.py:69-70 | the search from index `k` answers an index between `k` and the table's end; `RegionOf` is the search from 0 |
| Numbering.RegionFromSpec | src/protein_ab_tools/ab_analysis/numbering.py:69-70 | the search answers the first interval that contains the position, and `None` exactly when no interval does |
| Numbering.RegionExact | src/protein_ab_tools/ab_analysis/numbering.py:69-70 | in a contiguous table a position lands in region `i` if and only if interval `i` contains it |
| Numbering.RegionCoverage | src/protein_ab_tools/ab_analysis/numbering.py:69-71 | in a contiguous table a residue is kept if and only if its position lies in the table's span |
| Numbering.SchemeCoverage | src/protein_ab_tools/ab_analysis/numbering.py:43-71 | IMGT keeps exactly positions 1 to 128; AHo keeps 1 to 149 on a heavy chain and 1 to 148 otherwise |
| Numbering.AhoPosition149 | src/protein_ab_tools/ab_analysis/numbering.py:61 | AHo position 149 is heavy-chain fwr4 and is dropped on a light chain |
| Numbering.RegionMonotone | src/protein_ab_tools/ab_analysis/numbering.py:69-70 | in a contiguous table a later position never lands in an earlier region |
| Numbering.BucketsTotalLength | src/protein_ab_tools/ab_analysis/numbering.py:68-72 | the seven region strings hold together exactly one character per kept residue |
| Numbering.SamePositionBucket | src/protein_ab_tools/ab_analysis/numbering.py:68-72 | residues that all share one position, whatever their insertion codes, each add their character, in order, to that position's region |
| Numbering.RegionLongerThanInterval | src/protein_ab_tools/ab_analysis/numbering.py:68-72 | so a region string can be longer than its interval is wide: 13 residues at IMGT position 27 give cdr1, which spans 12 positions, 13 characters |
| Numbering.RegionsReassemble | src/protein_ab_tools/ab_analysis/numbering.py:66-72 | for a contiguous table and residues in position order inside its span, the regions read in table order spell the whole residue string |
| Numbering.Prefix | src/protein_ab_tools/ab_analysis/numbering.py:65 | the prefix has two characters, starts with `v`, is `vh` if and only if the chain is `H`, and is `vl` for every other chain |
| Numbering.Key | src/protein_ab_tools/ab_analysis/numbering.py:67 | a key is the prefix, one `_`, then the region name |
| Numbering.KeyInjective | src/protein_ab_tools/ab_analysis/numbering.py:65-67 | the seven prefixed keys are pairwise different |
| Numbering.EmptyRegions | src/protein_ab_tools/ab_analysis/numbering.py:67 | the initial map has exactly the seven prefixed keys, each mapped to `""` |
| Numbering.FillStep | src/protein_ab_tools/ab_analysis/numbering.py:68-72 | one loop turn keeps every region equal to its bucket of the residues seen so far |
| Numbering.FillRegions | src/protein_ab_tools/ab_analysis/numbering.py:66-73 | the loop returns the seven prefixed keys, each holding, in order, the characters of the residues whose position its interval is the first to contain |
| Numbering.ExtractRegions | src/protein_ab_tools/ab_analysis/numbering.py:35-73 | an engine failure gives `Invalid sequence`; otherwise an unknown scheme gives `Invalid numbering scheme`; otherwise the map has keys `vh_*` for `H` and `vl_*` otherwise, each value being that region's bucket |
| Numbering.RegionsRejoinNumberedSeq | src/protein_ab_tools/ab_analysis/numbering.py:28-73 | when the engine numbers in position order inside the table's span, the regions read fwr1 to fwr4 equal `get_numbered_seq`'s string |
| LegacyNumbering.Numbering | src/protein-ab-tools/ab_analysis/numbering.py:5-24 | the older copy asks the engine about the cleaned sequence with the same name and allow-list; it fails exactly on `None`, with `Invalid sequence: <cleaned>` |
| LegacyNumbering.AgreesWithRunNumbering | src/protein-ab-tools/ab_analysis/numbering.py:5-24 | the older `numbering` and `run_numbering` agree on every input and every engine |

## Left out

- The numbering engine (ANARCI) is not modelled; it is a parameter. Any exception it raises, and any non-determinism, is outside the model.
- Only the first domain's residue list of the engine's answer is modelled (`result[0][0][0][0]`). `run_numbering` really returns the whole nested result; `RunNumbering` returns that list.
- The `__main__` self-checks of `numbering.py` (lines 76-103) are not modelled. They need the engine's real output.
- The germline and species options, `extract_species`, `calc_percent_similarity` and the Chothia and Kabat tables are not part of this model. The numbering code modelled here has none of them, and the similarity score needs an external aligner and floating point.
- PyStr.Lower: lower-cases only `A`–`Z`. The only non-ASCII characters whose `str.lower()` yields ASCII letters are U+0130 and U+212A. Neither can make a scheme name equal `imgt` or `aho`, so the accepted scheme names are the same.
- Python's `str` of code points is modelled as a Dafny `string`. No encoding or normalisation is involved.
- The defaults `scheme='imgt'` and `chain='H'` (`numbering.py:8-9`, `29-30`, `36-37`) are not represented: every model operation takes the scheme and chain explicitly. Calling with the defaults is the call with `"imgt"` and `"H"`.
- The key order of the returned dict (`vh_fwr1` to `vh_fwr4`, set by `numbering.py:67`) is lost: the model returns a `map<string, string>`, which has no order. `RegionsReassemble` and `RegionsRejoinNumberedSeq` state the order through `RegionNames` instead.
