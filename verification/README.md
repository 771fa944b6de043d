# Filament swap: index remapping

A Dafny model of the index remapping PrusaSlicer performs when the user swaps
two filament (extruder) slots. Three structures share the extruder key space
and each is relabelled by the same transposition (a b):

- the wipe-tower cost matrix, an n-by-n table stored row-major, where rows
  `idx_a` and `idx_b` are exchanged and then columns `idx_a` and `idx_b`,
  behind a guard that makes the call a no-op for equal indices, indices out of
  range or a buffer whose size is not n*n (`swap_wipe_matrix`);
- the custom G-code timeline, where each item's 1-based `extruder` reference
  equal to one of the two ids is rewritten to the other
  (`swap_custom_gcode_extruders`);
- per-extruder option vectors such as the colours, where two positions are
  exchanged (`std::swap` on `ConfigOptionStrings::values`).

Layout:

- `transposition.dfy` — `Transposition.Swap`, the relabelling (a b) on any key type.
- `exchange.dfy` — `SeqExchange.Exchange`, `std::swap` of two positions of a sequence.
- `wipe_matrix.dfy` — flat row-major indexing, the guard, the relabelling
  specification and the two-pass in-place swap with its loop invariants.
- `wipe_matrix_cases.dfy` — the 3x3, same-index and 2x2 cases of the tests.
- `custom_gcode.dfy` — timeline items, the one-pass extruder swap and its laws.
- `extruder_colours.dfy` — the colour-vector case.

In-place mutation of a `std::vector` is modelled as a method that takes the
vector as a sequence and returns its new contents. Matrix entries are a type
parameter, because costs are only moved and never computed with.

## Model

| member | source | states |
|---|---|---|
| Transposition.Swap | tests/libslic3r/test_swap_filaments.cpp:28-31 | the rewritten id is `b` exactly when the old one was `a`, `a` exactly when it was `b`, and any other id is kept |
| SeqExchange.Exchange | tests/libslic3r/test_swap_filaments.cpp:112 | `std::swap` of two positions: same length, same multiset of values, and position k now holds what position (p q)(k) held |
| SeqExchange.ExchangeInvolutive | tests/libslic3r/test_swap_filaments.cpp:112 | exchanging the same two positions twice restores the vector |
| WipeMatrix.Relabel | tests/libslic3r/test_swap_filaments.cpp:16-21 | the reference result of the row-then-column swap, built from the flat buffer: cost (i, j) of the result is cost ((a b)(i), (a b)(j)) of the input |
| WipeMatrix.SwapWipeMatrix | tests/libslic3r/test_swap_filaments.cpp:12-22 | the length never changes; when the guard rejects the call (equal indices, `n*n` differing from the size, an index `>= n`) the matrix is unchanged; otherwise the two in-place passes produce exactly the reference relabelling |
| WipeMatrix.RelabellingUnique | tests/libslic3r/test_swap_filaments.cpp:16-21 | any matrix whose entries are the input's relabelled by (a b) is the reference result, so the swap's outcome is fully determined by the matrix and the two indices |
| WipeMatrix.RelabelInvolutive | tests/libslic3r/test_swap_filaments.cpp:16-21 | relabelling a matrix by (a b) twice gives back the original matrix |
| WipeMatrix.RelabelSelf | tests/libslic3r/test_swap_filaments.cpp:55-60 | relabelling a filament with itself is the identity, so the `idx_a == idx_b` early return changes no outcome |
| WipeMatrix.RelabelSymmetric | tests/libslic3r/test_swap_filaments.cpp:16-21 | swapping (a, b) and swapping (b, a) produce the same matrix |
| WipeMatrix.RelabelKeepsOthers | tests/libslic3r/test_swap_filaments.cpp:17-21 | a cost whose row and column both differ from a and b is unchanged |
| WipeMatrix.RelabelMovesRows | tests/libslic3r/test_swap_filaments.cpp:17-21 | row a of the result is row b of the input read with columns a and b exchanged, and row b is row a likewise |
| WipeMatrix.SwapWipeMatrixTwice | tests/libslic3r/test_swap_filaments.cpp:12-22 | calling the swap twice with the same n, a, b always returns the original matrix, whether or not the guard lets it act |
| WipeMatrixCases.SwapThreeByThree | tests/libslic3r/test_swap_filaments.cpp:35-53 | swapping 0 and 2 in the 3x3 matrix 1..9 yields 9..1 |
| WipeMatrixCases.SwapSameIndex | tests/libslic3r/test_swap_filaments.cpp:55-60 | swapping 1 with 1 leaves the 3x3 matrix unchanged |
| WipeMatrixCases.SwapTwoByTwo | tests/libslic3r/test_swap_filaments.cpp:62-77 | swapping 0 and 1 in [0, 10, 20, 0] yields [0, 20, 10, 0] |
| CustomGCodeSwap.Retarget | tests/libslic3r/test_swap_filaments.cpp:28-31 | one item: its extruder is relabelled by (a b) and height, kind, colour and extra text are kept |
| CustomGCodeSwap.SwapExtruders | tests/libslic3r/test_swap_filaments.cpp:27-32 | the reference timeline: same length, and item k is item k of the input retargeted |
| CustomGCodeSwap.SwapCustomGCodeExtruders | tests/libslic3r/test_swap_filaments.cpp:25-33 | the one-pass loop matches the reference timeline; order and length are kept; only the extruder field is written; an item ends with `ext_b` exactly when it had `ext_a` and the reverse; items referring to other extruders are unchanged |
| CustomGCodeSwap.SwapExtrudersInvolutive | tests/libslic3r/test_swap_filaments.cpp:27-32 | swapping the same two extruders twice restores the timeline |
| CustomGCodeSwap.SwapExtrudersNoMatch | tests/libslic3r/test_swap_filaments.cpp:94-106 | a timeline with no item referring to either extruder is unchanged |
| CustomGCodeSwap.SwapExtrudersSelf | tests/libslic3r/test_swap_filaments.cpp:27-32 | swapping an extruder with itself leaves every timeline unchanged |
| CustomGCodeSwap.SwapExtrudersSymmetric | tests/libslic3r/test_swap_filaments.cpp:27-32 | the order of the two extruder ids does not matter |
| CustomGCodeSwap.SwapOneAndTwo | tests/libslic3r/test_swap_filaments.cpp:79-92 | swapping 1-based extruders 1 and 2 over items referring to 1, 2, 3 gives 2, 1, 3 with heights, kinds and colours kept |
| CustomGCodeSwap.SwapWithoutMatches | tests/libslic3r/test_swap_filaments.cpp:94-106 | swapping 1 and 2 over items referring to 3, 4, 5 leaves the timeline as it was |
| ExtruderColours.SwapFirstTwoColours | tests/libslic3r/test_swap_filaments.cpp:108-117 | exchanging the colours of extruders 0 and 1 swaps the first two entries and keeps the third |

## Left out

- `Plater::swap_filaments()` itself, which calls these steps together and converts the 0-based slot index to the 1-based timeline id, is not part of this model; only the helpers and the colour swap are modelled.
- WipeMatrix.SwapWipeMatrix: the guard computes `n * n` in unbounded arithmetic; the C++ `size_t` product can wrap for huge `n`, letting the guard accept a mismatched buffer. This is not modelled.
- The definitions of `CustomGCode::Item`, its type enumeration and `ConfigOptionStrings` are not part of this model; the item is a plain record with the fields the tests initialise, and the option is a sequence of strings.
- Item heights and matrix costs are `double` in C++; they are only carried, so heights are `real` and costs a type parameter, with no floating-point semantics.
- The Catch2 harness: each test case is a method whose postcondition is the test's expected outcome.
