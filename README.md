# aa2cg core, modelled in Dafny

`aa2cg` turns an atomistic molecular structure into a coarse-grained one. A
mapping table (CSV rows `aa, cg, mass`) says which atoms make up each
coarse-grained bead and with what mass. For every residue of the input
structure and every bead of the table, the program emits one pseudo-atom at
the mass-weighted centroid of the bead's atoms, with the mass-weighted mean
velocity.

The model covers the two algorithms of `src/main.rs`:

- **Loading the mapping table** (`read_mapping`), module `Mapping`
  (`mapping.dfy`). `ReadMapping` is the loop that fills the bead map, one row
  at a time. `Group` is the fold it is proved against. `EntriesFor` is an
  independent filter definition of one bead's list. Name trimming is in
  module `Text` (`text.dfy`).
- **Coarse-graining** (the residue × bead loop in `main`), module
  `Aggregation` (`aggregation.dfy`). `Aggregate` is the outer pair of loops
  and `ReduceBead` the innermost accumulation. Both are proved against the
  specification functions `CoarseAtoms`, `Centroid`, `Moment` and
  `TotalMass`. `Offsets` is an independent definition of the weighted
  offsets Σ mᵢ·(vᵢ − p) that characterises the centroid.
- `Scenario` (`scenario.dfy`) runs one row and one residue through both
  parts.

Modelling choices:

- CSV decoding is outside the model. A table is a sequence of `Record`s:
  a decoded `AACGItem`, or `Undecodable` for a row that would make `record?`
  fail. A file that cannot be opened is `Unopenable`.
- `str::trim` strips the code points that `char::is_whitespace` accepts
  (Unicode `White_Space`). `Text.IsWhitespace` lists them.
- A `HashMap` iterates in an order that is fixed but unspecified. The model
  takes that order as a parameter: `beads`, a duplicate-free sequence holding
  exactly the map's keys (`Mapping.IsKeyOrder`).
- `f32` arithmetic is idealised as `real`. The division by the total mass
  is not guarded in the source. The model follows IEEE 754 there: the total
  starts at +0.0, so a zero total is always +0.0. Dividing by it gives +Inf,
  −Inf or NaN according to the sign of the dividend (`Aggregation.Quotient`).
  Output coordinates are therefore `Float` values.
- The `unwrap` of a missing atom panics, and nothing is printed. The model
  returns `Err(MissingAtom)` in that case.
- The structure is the plain record `Structure(title, residues, boxSize)`.
  Each residue is `Residue(number, name, atoms)`, with `atoms` a map from
  atom name to position and velocity.

A zero total mass is not treated as an error, although a coarse-graining
tool might be expected to reject it. The code performs the division anyway
and emits non-finite coordinates, and the model does the same
(`ZeroMassIsNotFinite`).

## Model

| member | source | states |
|---|---|---|
| `Text.Trim` | src/main.rs:30-31 | the trimmed name is a contiguous slice of the name; everything cut from either end is whitespace; and the slice neither starts nor ends with whitespace |
| `Text.TrimIdempotent` | src/main.rs:30-31 | trimming an already trimmed name changes nothing |
| `Mapping.ReadMapping` | src/main.rs:24-34 | an unopenable file gives `OpenFailed`; a table gives `Ok` exactly when every row decodes; otherwise the error names the first row that fails, with no partial map; on success the map is the grouping of all rows by trimmed bead name |
| `Mapping.GroupIsFilter` | src/main.rs:28-32 | a bead name is a key exactly when some row's reference list for it is non-empty; the key's list is exactly the (trimmed atom, mass) pairs of the rows whose trimmed `cg` equals it, in row order |
| `Mapping.GroupNonEmpty` | src/main.rs:30-31 | no key of the loaded map has an empty list |
| `Mapping.GroupKeys` | src/main.rs:28-30 | the keys of the loaded map are exactly the trimmed `cg` names of the rows |
| `Mapping.GroupCountsRows` | src/main.rs:28-32 | summed over any iteration order of the keys, the list lengths equal the number of rows: no row is lost or duplicated |
| `Mapping.KeyOrderSize` | src/main.rs:94 | iterating the map visits as many beads as the map has keys |
| `Aggregation.ReduceBead` | src/main.rs:95-115 | the bead can be reduced exactly when every listed atom is in the residue; its position and velocity are then Σ mᵢ·vᵢ divided by Σ mᵢ |
| `Aggregation.Aggregate` | src/main.rs:91-130 | succeeds exactly when every bead's atoms exist in every residue; the output keeps the input's title and box and holds the atoms of `CoarseAtoms` |
| `Aggregation.CoarseAtomsAt` | src/main.rs:93-125 | the atom at index r·B + b comes from residue r and bead b: residue number and name, bead name, atom number r·B + b + 1, and the bead's centroids |
| `Aggregation.CoarseAtomsNumbered` | src/main.rs:92-125 | the atom at index k carries atom number k + 1, so the numbers are 1..N with no gap or repeat |
| `Aggregation.CoarseAtomCount` | src/main.rs:93-94 | the output holds one atom per pair of a residue and a key of the map: the number of residues times the number of keys |
| `Aggregation.CentroidIsWeightedMean` | src/main.rs:99-115 | for a non-zero total mass, the result is the point p exactly when Σ mᵢ·(vᵢ − p) = 0, i.e. the mass-weighted mean |
| `Aggregation.TwoAtomCentroid` | src/main.rs:99-115 | for two atoms the result is (m₁·v₁ + m₂·v₂)/(m₁ + m₂) componentwise |
| `Aggregation.CentroidScaleInvariant` | src/main.rs:99-115 | a bead list whose masses are all those of another list times the same positive factor (`ScaledBy`) covers the same atoms and has the same centroid |
| `Aggregation.ZeroMassIsNotFinite` | src/main.rs:110-115 | with a zero total mass no component of the result is finite: the division is not guarded |
| `Scenario.SingleRowMapping` | src/main.rs:24-34 | the row (CA, BACKBONE, 12.0) loads as the single bead BACKBONE made of CA with mass 12 |
| `Scenario.SingleBeadScenario` | src/main.rs:91-130 | with that bead, residue 1 ALA with CA at (1, 2, 3) and at rest yields the single atom BACKBONE number 1 at (1, 2, 3) and at rest |

## Left out

- Command-line parsing and usage output with `getopts` (src/main.rs:36-69) are user-interface plumbing.
- Opening the CSV file and decoding records with the `csv` and `rustc_serialize` crates are foreign code. The model takes the already decoded rows, and it keeps the two failure outcomes: the file cannot be opened, or a row does not decode. The text of the error messages is not modelled.
- Reading, parsing and printing structures with the `groio` crate (src/main.rs:79-89, 128-130) are foreign code. The input is a plain `Structure` and the output a plain `CoarseStructure`. A failed read or parse panics through `unwrap` before the aggregation starts, and that panic is not modelled.
- The fixed-width layout and the units of the structure file belong to the `groio` writer.
- `f32` rounding is not modelled: sums and quotients are exact reals. For a zero total mass, only the sign of the exact dividend picks +Inf, −Inf or NaN.
- Aggregate: the running `atom_number` is an unbounded integer, so any overflow of the machine integer that `groio` uses is not modelled.
- Which order a `HashMap` actually iterates in is not modelled. Every result holds for any duplicate-free order of the keys.
