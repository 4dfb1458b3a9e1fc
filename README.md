# KZG domain builder and trusted setup (arkworks backend of rust-kzg)

This project models the two algorithms of `arkworks/src/kzg_proofs.rs` that
build the inputs of a KZG polynomial commitment scheme, and proves what they
compute:

- `expand_root_of_unity` turns a root of unity into the table
  `[1, root, root·root, …]` of its powers, closed at the first return to one,
  and rejects a root that does not close within the requested width
  (`CycleTooLong`) or closes at the wrong length (`InvalidScale`).
- `generate_trusted_setup` derives a secret scalar `s` from a 32-byte seed and
  produces the structured reference string `G1·s^i`, `G2·s^i` for `i < len`.

The records `FFTSettings` and `KZGSettings` are the datatypes `FftSettings` and
`KzgSettings`; the shared precomputation table is an `Option` of an abstract type.
`FftSettings.HasExpandedTable` ties a domain's expanded table to the builder's
result, and `KzgSettings.HasSrs` ties the two point sequences to a reference
string for a secret scalar.

The curve is kept abstract. Scalars, G1 points and G2 points are type
parameters. The field's identity and product travel in a `Field` value. Each
group's generator and scalar multiplication travel in a `Group` value. The
hash-to-field routine is a function parameter `hashToField`. No algebraic law
is assumed, so every result holds for any field and group engine. The one place
where a law matters is named as a hypothesis: `RootPowerIsPow` needs `one` to be
a left identity for the root.

Files:
- `wrappers.dfy`: `Option` and `Result`.
- `algebra.dfy`: module `Algebra`, with the abstract field and groups, the running power `Pow` (the trusted setup's `s_pow`) and the table element `RootPower`.
- `kzg_proofs.dfy`: module `KzgProofs`, with the records, both algorithms as loop methods, a reference definition for each, and the lemmas.

How the code differs from a plain reading of its description:
- The table's element 1 is `root` itself, not `one·root`. The table therefore grows by a factor `root` from index 1 on. It agrees with the powers `Pow(root, i)` when `one·root == root` (`RootPowerIsPow`).
- The width need not be positive. Width 0 always fails: with `CycleTooLong` if `root` is not one, and with `InvalidScale` if it is.
- The loop stops at the FIRST return to one. A successful table therefore has no one strictly inside it (`ExpandOk`). So the question whether the root is primitive for the width is settled by the loop itself. It does not have to be assumed of callers.

## Model

| member | source | states |
|---|---|---|
| `Algebra.RootPowerIsPow` | arkworks/src/kzg_proofs.rs:34-41 | if `one·root == root`, table element `i` equals the running power `root^i` used by the trusted setup, for every `i` |
| `KzgProofs.FirstReturn` | arkworks/src/kzg_proofs.rs:36-42 | the index it yields is in range, is one, and has no one before it; it yields none exactly when no index in range is one |
| `KzgProofs.FirstReturnIs` | arkworks/src/kzg_proofs.rs:36 | an index in range that is one with no earlier one is the first return |
| `KzgProofs.ExpandRootOfUnity` | arkworks/src/kzg_proofs.rs:33-49 | the loop's result equals `Expand` for every root and width; it appends at most `max(1, width) - 1` elements after the first two (none for width 0), and exactly `width - 1` on success |
| `KzgProofs.TooLongExit` | arkworks/src/kzg_proofs.rs:37-38 | a table of `n` elements, with `width < n <= max(1, width) + 1` (the length at which the loop's guard fires), that has not returned to one at any index `1..n-1` means the result is `CycleTooLong` |
| `KzgProofs.ClosedExit` | arkworks/src/kzg_proofs.rs:44-48 | a table of `n` elements, with `2 <= n <= max(1, width) + 1` (a length the loop reaches), that has just returned to one for the first time is the result if `n == width + 1`; otherwise the result is `InvalidScale` |
| `KzgProofs.ExpandOk` | arkworks/src/kzg_proofs.rs:34-48 | a successful table has `width + 1` elements, `t[0] == one`, `t[1] == root`, `t[width] == one`, `t[i+1] == t[i]·root` for `1 <= i < width`, and no one strictly between the ends |
| `KzgProofs.ExpandOkIff` | arkworks/src/kzg_proofs.rs:36-48 | success exactly when `width >= 1`, element `width` is one and no element `1..width-1` is one |
| `KzgProofs.ExpandTooLongIff` | arkworks/src/kzg_proofs.rs:36-39 | `CycleTooLong` exactly when no inspected index `1..max(1, width)` returns to one |
| `KzgProofs.ExpandInvalidScaleIff` | arkworks/src/kzg_proofs.rs:44-46 | `InvalidScale` exactly when the first return to one is at an inspected index `j <= max(1, width)` with `j != width`; a first return beyond `max(1, width)` is `CycleTooLong` instead |
| `KzgProofs.IdentityRoot` | arkworks/src/kzg_proofs.rs:34-46 | the identity as root gives `[one, one]` for width 1 and `InvalidScale` for every other width, for example 4 |
| `KzgProofs.GenerateTrustedSetup` | arkworks/src/kzg_proofs.rs:96-111 | both outputs have length `len`, and `s1[i] == G1·s^i` and `s2[i] == G2·s^i` with `s = hashToField(secret)`; the loop keeps `s_pow == s^i` |
| `KzgProofs.TrustedSetupUnique` | arkworks/src/kzg_proofs.rs:96-111 | two reference strings for the same length and scalar are equal, so the output is a function of `(len, seed)` |
| `KzgProofs.TrustedSetupEmpty` | arkworks/src/kzg_proofs.rs:100-110 | length 0 gives two empty sequences |
| `KzgProofs.DomainTableInvariant` | arkworks/src/kzg_proofs.rs:24-31 | an `FftSettings` whose expanded table is the builder's result for its root and width has `max_width >= 1`, `max_width + 1` elements, one at both ends, a factor `root_of_unity` between neighbours from index 1 on, and no one inside |
| `KzgProofs.SettingsSrsInvariant` | arkworks/src/kzg_proofs.rs:51-60 | a `KZGSettings` whose points are a reference string for some scalar holds `secret_g1` and `secret_g2` of equal length, whose first points are the generators scaled by one |
| `KzgProofs.TrustedSetupFirst` | arkworks/src/kzg_proofs.rs:98-105 | for length at least 1 the first points are the generators scaled by one |

## Left out

- `eval_poly` (lines 113-118): it only converts the coefficients and calls the polynomial library's evaluation, which is not part of this model.
- `pairings_verify` (lines 120-129): it negates a point, converts to affine form and calls the curve library's multi-pairing. All of that is elliptic-curve arithmetic in a foreign library, with no logic of its own.
- The `serde_arc_bgmw_table` module and the serde derives (lines 58, 62-94): serialization plumbing. The precomputation field is an `Option` of an abstract type.
- `ArkPrecomputationTable` and the `Arc` sharing (lines 59, 62-65): multi-scalar-multiplication internals from another crate, and memory management.
- `hash_to_bls_field` (line 97): the hash-to-field routine is an uninterpreted function parameter.
- BLS12-381 field and group arithmetic: `Fr`, `G1` and `G2` are abstract types with uninterpreted identity, product and scalar multiplication.
- The construction of `reverse_roots_of_unity` and `roots_of_unity`: that code is not part of this model. The records hold them as plain sequences.
- `ExpandRootOfUnity`: `width` is an unbounded `nat`, so behaviour at `width == usize::MAX` is not modelled. There, every table that closes reaches the computation of `width + 1` at line 44, however short the table is. That computation panics when overflow checks are on; otherwise it wraps to 0 and the result is InvalidScale. For `expand_root_of_unity(&one, usize::MAX)` the table closes at length 2, so it panics or returns InvalidScale. The model returns InvalidScale in both cases.
- `ExpandRootOfUnity`: also at `width == usize::MAX`, the guard at line 37 can never fire, so a root that never closes grows the vector until allocation fails. The model returns CycleTooLong there.
- `ExpandRootOfUnity`: the two error strings are the two constructors of `ExpandError`.
- `ExpandOk`: states the step `t[i+1] == t[i]·root` only from index 1. At index 0 it reads `root == one·root`, which holds only for a left identity (see `RootPowerIsPow`).
