# Majority Feedback Shift Register

This project is a Dafny model of a Majority Feedback Shift Register (MFSR).
The register is a 16-bit shift register. Where an LFSR would XOR a set of tap
positions, an MFSR takes a majority vote over an odd number of distinct taps
and inserts the inverted result. Each step computes the vote on the old
value: 1 when the zeros at the taps outnumber the ones, 0 otherwise. It then
shifts the register right by one and puts the vote into bit 15.

The model is made of two modules:

- `Bits` (bits.dfy) covers the unsigned 16-bit arithmetic the program uses,
  on natural numbers:
  - `Word` is a `uint16_t`;
  - `x >> 1` is `x / 2` and `x & 1` is `x % 2`;
  - `&` and `|` are `And` and `Or`, defined bit by bit;
  - `1 << t` is `Pow2(t)`;
  - `Bit(x, p)` reads bit `p`.

  `Weight` is the population count, defined as the number of positions among
  0 .. 15 that hold a 1. This is a definition independent of the shifting
  loop that computes it.
- `Mfsr` (mfsr.dfy) has two parts:
  - The specification of a step: `TapMask`, `CountTapped` (how many taps see
    a 1 or a 0), `Vote`, `Insert` and `Step`, with lemmas that say what they mean.
  - The three operations of the program, written the way the C code works
    and proved against that specification. `PopCount` and `MajorityVote` are
    loops. `Mfsr` updates a `Register` in place; the register is the cell
    the caller passes by pointer.

majority_vote's comment asks for taps that are distinct bit positions in
0 .. 15, and for an odd number of them. The code itself checks none of this:
it simply computes a vote. The model follows the code. `MajorityVote` and
`Mfsr` require only that the taps are bit positions. That bound keeps the
shifts meaningful. Their result is always the value of `Vote` and `Step`. The
meaning "inverted majority" is promised when the configuration is also
distinct and odd (`ValidTaps`), which is when the code's comment says it
holds. There is no error path for a bad configuration, because the code has
none.

## Model

| member | source | states |
|---|---|---|
| Mfsr.PopCount | mfsr.c:16-26 | The loop returns the number of 1 bits of x, as counted by position (`Weight`): at most 16, and 0 exactly when x is 0. It terminates because x decreases at each shift. |
| Bits.WeightShift | mfsr.c:20-24 | One iteration of the popcount loop keeps the count: the weight of x is its low bit plus the weight of x >> 1. |
| Bits.WeightZeroIff | mfsr.c:20 | A word has no 1 bits exactly when it is 0, which is why the loop stops at `x == 0`. |
| Mfsr.TapMaskBits | mfsr.c:35-42 | The mask built by or-ing `1 << tap` over the taps has bit p set exactly when p is one of the taps. |
| Mfsr.MaskedWeight | mfsr.c:43 | For distinct taps, popcount(mask & x) is the number of taps at which x holds a 1. |
| Mfsr.TapCountBound | mfsr.c:29 | Distinct taps in 0 .. 15 number at most 16. |
| Mfsr.NoTie | mfsr.c:29-31 | With an odd number of distinct taps, twice the number of tapped ones never equals the number of taps, so the vote never ties. |
| Mfsr.VoteIsInvertedMajority | mfsr.c:43-45 | For a valid configuration, the vote is 1 exactly when the tapped zeros outnumber the tapped ones, and 0 exactly when the ones do. |
| Mfsr.VoteReadsOnlyTaps | mfsr.c:38-43 | Two values that agree at every tap position get the same vote. |
| Mfsr.MajorityVote | mfsr.c:28-46 | The mask loop followed by popcount returns `Vote(x, taps)`; for a valid configuration, that is 1 iff the tapped zeros win and 0 iff the tapped ones win. |
| Mfsr.Insert | mfsr.c:52-53 | The new value built from a new bit v of 0 or 1 and the old value x is v * 2^15 + x / 2: below bit 15 it is x shifted right by one (bit p is old bit p+1), and bit 15 is v. |
| Mfsr.Step | mfsr.c:51-52 | The next value is vote * 2^15 + x / 2: its bits 0 .. 14 are the old bits 1 .. 15 (so its value mod 2^15 is x >> 1), and bit 15 is set iff the vote is 1. |
| Mfsr.InsertIsSum | mfsr.c:52 | Or-ing `bit << 15` with `x >> 1`, for a bit of 0 or 1, gives the sum of the two parts: they have no bit in common. |
| Mfsr.InsertedBits | mfsr.c:52-53 | The bits of the new value: old bit p+1 at position p below 15, and the new bit at the left end. |
| Mfsr.Mfsr | mfsr.c:48-54 | The register is updated in place to `Step` of its old value: bits 0 .. 14 are the old value shifted right, and for a valid configuration bit 15 is set iff the tapped zeros of the old value outnumber the tapped ones. |
| Mfsr.Register.constructor | mfsr.c:76 | A register starts with the seed it is given. |
| Mfsr.StepOfZero | mfsr.c:43-45 | From 0 no tap sees a 1, so the step gives 0x8000. |
| Mfsr.StepOfAllOnes | mfsr.c:43-45 | From 0xFFFF every tap of a valid configuration sees a 1, so the step gives 0x7FFF. |
| Mfsr.NoFixedPoint | mfsr.c:48-54 | With a valid configuration, no register value is left unchanged by a step. |
| Mfsr.DemoStep | mfsr.c:73-80 | With the demonstration's taps 0, 4, 7 and seed 0x95C1, the first step gives 0x4AE0. |
| Mfsr.DemoFirstStep | mfsr.c:73-80 | The same first step, run through the array-based operations on a fresh register. |

## Left out

- `print_uint16_bin` (mfsr.c:56-69) only prints a word in binary, so it is not modelled.
- `main` (mfsr.c:71-84) prints twenty successive register values. Only its first step is modelled (`DemoFirstStep`); the printed sequence is not.
- Integer widths. majority_vote's `x` is a `uint64_t`, but only `mask & x` is used, and that is below 2^16, so `x` is a `nat`. The C `char` counts and taps are `int` and `nat`: the counts never exceed 16.
- Machine bit operations are modelled by their arithmetic meaning (`And`, `Or`, `Pow2`, division by 2) rather than as bit-vector instructions.
- Taps outside 0 .. 15 are excluded by a precondition. In C they would shift out of the 16-bit mask or have undefined behaviour.
- Mfsr.MajorityVote: the "inverted majority" meaning is stated only for distinct taps of odd count. With repeated taps the code counts a repeated position once; the model gives this value through `Vote`, but no lemma describes it.
- The period and cycle structure of the sequence of register values is not analysed.
