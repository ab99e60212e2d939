# Quantum algorithm demos: the classical core

The repository holds small demo programs written against the `qip` quantum
circuit simulator. The simulator does all the work on amplitudes and
probabilities. This project models what the demos build themselves, and
proves properties of it:

- **`apply_if!`** (`src/lib.rs`, and the copy in `src/bin/deutsch_jozsa.rs`).
  This is the lazy conditional the oracles use to decide whether a gate is
  issued at all. It is module `Conditional`, and `Circuit.EmitIf` applies it
  to the gate log.
- **The circuit builder as the demos use it** (module `Circuit`).
  - `Builder` is a class whose `ops` field is the log of operations issued
    so far, in order, and whose `width` field is the number of qubits
    allocated. A qubit handle is its allocation index.
  - `Run` gives the log its textbook basis-state meaning: a new qubit is
    |0>, X flips a bit, and CNOT xors its control bit into its target.
- **Deutsch** (`src/bin/deutsch.rs`, module `Deutsch`).
  - The one-bit function chosen by `f(0)` and `f(1)`.
  - The 4x4 oracle matrix `U(f)`, with its real-to-complex copy loop.
  - The verdict printed after measurement.
  - An exact reference for the circuit `main` runs. It uses unnormalised
    integer amplitudes, so it shows which measured values can occur.
- **Deutsch-Jozsa** (`src/bin/deutsch_jozsa.rs`, module `DeutschJozsa`).
  - The `apply_oracle!` gate synthesis, for the Balanced and the Constant
    case, and the menu index to `Case` mapping.
  - The circuit `main` builds around the oracle.
  - What the oracle computes on basis states. The Balanced oracle computes
    parity(x xor b), a balanced function. The Constant oracle computes
    b == 1.
- **Bernstein-Vazirani** (`src/bin/bernstein_vazirani.rs`, module
  `BernsteinVazirani`).
  - The `bernstein_vazirani!` macro: ancilla and query preparation, the
    conditional CNOT oracle, the push-and-merge of the query register, and
    the final Hadamard.
  - What the oracle computes on basis states: a xor (x . b mod 2).
  - The bit reversal `main` applies to the measured value.
- Shared bit-level helpers are in module `Bits`: `{:0width$b}` formatting
  and parsing back, reversal, parity, inner products, and the enumeration
  and counting of all inputs of a given width.

Each method that issues gates works on a `Builder` and is proved to append
exactly the gates of a function that specifies it. The lemmas are stated
about those functions.

## Model

| member | source | states |
|---|---|---|
| Conditional.ApplyIf | src/lib.rs:3-9 | yields the action when the condition holds and the fallback value otherwise |
| Conditional.ApplyIfSameBranches | src/lib.rs:3-9 | when action and fallback are the same value, the result is that value whatever the condition |
| Circuit.EmitIf | src/bin/bernstein_vazirani.rs:28 | `apply_if!` around a gate call appends that gate when the condition holds and leaves the log unchanged otherwise, because only the chosen branch is evaluated |
| Circuit.Builder.NewQubit | src/bin/deutsch_jozsa.rs:62 | `l.qubit()` returns the next index, widens the builder by one and logs the allocation |
| Circuit.Builder.ApplyX | src/bin/deutsch_jozsa.rs:73 | `l.x(q)` logs X on an allocated qubit and changes nothing else |
| Circuit.Builder.ApplyH | src/bin/deutsch_jozsa.rs:77 | `l.h(r)` logs H on a register of allocated qubits |
| Circuit.Builder.ApplyCnot | src/bin/deutsch_jozsa.rs:30 | `l.cnot(c, t)` logs CNOT on two different allocated qubits |
| Circuit.RunAppend | src/bin/deutsch_jozsa.rs:29-31 | running two logs one after the other is running their concatenation |
| Circuit.OccurrencesAppend | src/bin/deutsch_jozsa.rs:20-21 | the number of times a gate occurs in a concatenation of logs is the sum of its counts in the parts |
| Bits.FormatBinaryBits | src/bin/deutsch_jozsa.rs:27-28 | for b < 2^width, `{:0width$b}` has exactly width characters, and character j is bit width-1-j of b (most significant first), so every index 0..width-1 is in range |
| Bits.FormatBinaryRoundTrip | src/bin/deutsch_jozsa.rs:27 | the zero-padded binary string reads back as b, for every width |
| Bits.BinaryDigits | src/bin/deutsch_jozsa.rs:27 | digit k of the unpadded binary string is the matching bit of b |
| Bits.BinaryFits | src/bin/deutsch_jozsa.rs:27 | b < 2^width needs at most width binary digits, so the padding is never negative |
| Bits.FormatBinaryFlags | src/bin/bernstein_vazirani.rs:21-22 | the '1'-flags of the formatted secret are its bits, most significant first |
| Bits.ReverseReverse | src/bin/bernstein_vazirani.rs:52-55 | reversing a string twice gives it back |
| Bits.ParityIsOddOnes | src/bin/deutsch_jozsa.rs:30 | the parity the CNOT layer accumulates is true exactly when an odd number of bits are set |
| Bits.InputsComplete | src/bin/deutsch_jozsa.rs:24-36 | every bit vector of width n occurs in the enumeration of inputs, at its rank |
| Bits.InputsDistinct | src/bin/deutsch_jozsa.rs:24-36 | the enumeration of inputs lists each vector once |
| Bits.XorParityBalanced | src/bin/deutsch_jozsa.rs:24-36 | parity(x xor c) is true on exactly 2^(n-1) of the 2^n inputs x of width n |
| Deutsch.Oracle | src/bin/deutsch.rs:22-28 | the closure returns f0 on input 0 and f1 on every other input |
| Deutsch.OracleIsOneBit | src/bin/deutsch.rs:8-28 | the closure built from two menu choices in {0, 1} is a one-bit function, constant exactly when the choices agree |
| Deutsch.RealMatToComplexMat | src/bin/deutsch.rs:83-89 | the result has the input's length, and element i has real part mat[i] and imaginary part 0 |
| Deutsch.U | src/bin/deutsch.rs:92-113 | `U(f)` is the 16-entry matrix built from f(0) and f(1) |
| Deutsch.RealEntriesLiteral | src/bin/deutsch.rs:96-113 | the entries are exactly the row-major literal 1-f0, f0, 0, 0, f0, 1-f0, 0, 0, 0, 0, 1-f1, f1, 0, 0, f1, 1-f1 |
| Deutsch.UEntry | src/bin/deutsch.rs:96-113 | row 2x+y has a 1 in column 2x+(y xor f(x)) and 0 everywhere else, so U maps basis state (x, y) to (x, y xor f(x)) |
| Deutsch.TargetInvolution | src/bin/deutsch.rs:96-113 | the basis map 2x+y to 2x+(y xor f(x)) is its own inverse |
| Deutsch.UEntriesAreBits | src/bin/deutsch.rs:92-113 | every entry of U(f) is 0 or 1 when f(0), f(1) are 0 or 1 |
| Deutsch.UBlockDiagonal | src/bin/deutsch.rs:99-110 | every entry linking rows or columns of x = 0 with those of x = 1 is 0 |
| Deutsch.UIsPermutation | src/bin/deutsch.rs:96-113 | each row and each column holds exactly one 1, at the basis map's image, and every other entry is 0 |
| Deutsch.USymmetric | src/bin/deutsch.rs:96-113 | U(f) equals its transpose |
| Deutsch.USelfInverse | src/bin/deutsch.rs:96-113 | U(f) times U(f) is the identity |
| Deutsch.UConstantZero | src/bin/deutsch.rs:97-112 | for f(0) = f(1) = 0, U(f) is the identity |
| Deutsch.URowTimes | src/bin/deutsch.rs:49 | row r of U(f) applied to a state picks that state's amplitude at the row's target |
| Deutsch.ApplyU | src/bin/deutsch.rs:49 | applying U(f) to a state permutes its amplitudes by the basis map |
| Deutsch.Verdict | src/bin/deutsch.rs:67-77 | the verdict is "constant" exactly when the measured result is 0, and "balanced" for every other result |
| Deutsch.Superposed | src/bin/deutsch.rs:35-43 | two new qubits, after X on the second and H on both, hold the unnormalised state (1, -1, 1, -1) |
| Deutsch.FinalStateApplies | src/bin/deutsch.rs:35-58 | the closed-form final state is the circuit `main` runs: prepare, U(f), then H on the first qubit |
| Deutsch.Kickback | src/bin/deutsch.rs:49 | U(f) on the prepared state kicks the phase (-1)^f(x) back onto each basis value x of the first qubit |
| Deutsch.PhaseKickback | src/bin/deutsch.rs:35-58 | the final amplitudes are sums and differences of the two kicked-back signs |
| Deutsch.ConstantReadsZero | src/bin/deutsch.rs:67-69 | for f(0) = f(1) the first qubit can read 0 and cannot read 1 |
| Deutsch.BalancedReadsOne | src/bin/deutsch.rs:67-69 | for f(0) != f(1) the first qubit can read 1 and cannot read 0 |
| Deutsch.DeutschDecides | src/bin/deutsch.rs:61-77 | for any result the circuit can produce, the printed verdict is "constant" exactly when f is constant |
| Deutsch.MainDecides | src/bin/deutsch.rs:8-77 | for the two menu choices, every outcome the circuit can produce prints "constant" exactly when f(0) == f(1) and "balanced" exactly when they differ |
| DeutschJozsa.CaseOf | src/bin/deutsch_jozsa.rs:56-59 | menu index 0 is Balanced and every other index is Constant |
| DeutschJozsa.HLayer | src/bin/deutsch_jozsa.rs:20 | one H per query qubit, in order |
| DeutschJozsa.CnotLayer | src/bin/deutsch_jozsa.rs:30 | a CNOT from every query qubit into the ancilla, whatever b is: exactly one per qubit, in index order |
| DeutschJozsa.XIf | src/bin/deutsch_jozsa.rs:29 | the conditional X layer issues only X gates, on query qubits |
| DeutschJozsa.ApplyHLayer | src/bin/deutsch_jozsa.rs:20 | appends exactly the Hadamard layer |
| DeutschJozsa.ApplyXIf | src/bin/deutsch_jozsa.rs:29 | appends exactly the conditional X layer for b_chars |
| DeutschJozsa.ApplyCnotLayer | src/bin/deutsch_jozsa.rs:30 | appends exactly the CNOT layer |
| DeutschJozsa.ApplyBalancedCore | src/bin/deutsch_jozsa.rs:29-31 | appends X layer, CNOT layer, X layer |
| DeutschJozsa.ApplyConstantCore | src/bin/deutsch_jozsa.rs:39 | appends X on the ancilla exactly when b == 1 |
| DeutschJozsa.ApplyOracle | src/bin/deutsch_jozsa.rs:18-47 | appends the Hadamards and then the case's gates, and returns the query qubits merged in order q1..qN and the ancilla |
| DeutschJozsa.Prepare | src/bin/deutsch_jozsa.rs:61-73 | allocates q1..q10 as qubits 0..9 and the ancilla as qubit 10, then X on the ancilla |
| DeutschJozsa.TenAllocations | src/bin/deutsch_jozsa.rs:62-71 | the ten allocations of `main` are the allocations of qubits 0..9 in order |
| DeutschJozsa.BuildCircuit | src/bin/deutsch_jozsa.rs:51-77 | builds preparation, oracle and the final H on the merged register, for the chosen case and hidden value |
| DeutschJozsa.PreparationRun | src/bin/deutsch_jozsa.rs:61-73 | from any start, the preparation leaves every query qubit at 0 and the ancilla at 1 |
| DeutschJozsa.AllocationsRun | src/bin/deutsch_jozsa.rs:62-71 | allocating a run of qubits sets exactly those to 0 |
| DeutschJozsa.OracleHadamardsOnce | src/bin/deutsch_jozsa.rs:20-21 | before the case's gates, each query qubit and the ancilla receives exactly one Hadamard |
| DeutschJozsa.HLayerOccurrences | src/bin/deutsch_jozsa.rs:20 | the Hadamard layer gives H to each of its qubits once and to no other |
| DeutschJozsa.XIfEmits | src/bin/deutsch_jozsa.rs:29 | X(q_i) is issued exactly when b_chars[i] == '1' |
| DeutschJozsa.XIfRun | src/bin/deutsch_jozsa.rs:29 | on basis states the X layer flips query bit i exactly when b_chars[i] == '1', and changes nothing else |
| DeutschJozsa.XIfRead | src/bin/deutsch_jozsa.rs:29 | after the X layer the query register reads x xor b |
| DeutschJozsa.XIfUndo | src/bin/deutsch_jozsa.rs:29-31 | the second X layer restores every query bit the first one flipped |
| DeutschJozsa.CnotLayerRun | src/bin/deutsch_jozsa.rs:30 | the CNOT layer xors the parity of the query bits into the ancilla and changes nothing else |
| DeutschJozsa.BalancedCoreRun | src/bin/deutsch_jozsa.rs:29-31 | the Balanced gates leave x unchanged and xor parity(x xor b) into the ancilla |
| DeutschJozsa.ConstantCoreRun | src/bin/deutsch_jozsa.rs:39 | the Constant gates xor b == 1 into the ancilla and touch no query qubit |
| DeutschJozsa.BalancedAncilla | src/bin/deutsch_jozsa.rs:24-36 | the Balanced oracle's ancilla output on input x is parity(x xor b) |
| DeutschJozsa.BalancedOracleIsBalanced | src/bin/deutsch_jozsa.rs:24-36 | the Balanced oracle outputs 1 on exactly 2^(n-1) of the 2^n inputs, for every b |
| DeutschJozsa.ConstantOracleIsConstant | src/bin/deutsch_jozsa.rs:37-43 | the Constant oracle's output is b == 1 on every input, so it is 1 on all inputs or on none |
| BernsteinVazirani.Queries | src/bin/bernstein_vazirani.rs:15-18 | the 20 query qubits are the qubits allocated after the ancilla, in order |
| BernsteinVazirani.CnotIf | src/bin/bernstein_vazirani.rs:26-29 | the oracle issues only CNOTs from query qubits into the ancilla |
| BernsteinVazirani.Prepare | src/bin/bernstein_vazirani.rs:11-18 | allocates the ancilla, applies X then H to it, then allocates each query qubit and gives it one H |
| BernsteinVazirani.PrepareQueries | src/bin/bernstein_vazirani.rs:15-18 | allocates n query qubits in order after those already present and gives each one H |
| BernsteinVazirani.PrepareQuery | src/bin/bernstein_vazirani.rs:16-17 | one query qubit: allocation, then H on it |
| BernsteinVazirani.ApplyCnotIf | src/bin/bernstein_vazirani.rs:26-29 | appends exactly the conditional CNOTs for b_chars |
| BernsteinVazirani.MergeInOrder | src/bin/bernstein_vazirani.rs:30-33 | the pushed register holds the query qubits in index order |
| BernsteinVazirani.BernsteinVaziraniMacro | src/bin/bernstein_vazirani.rs:9-39 | issues preparation, oracle and H on the merged query register, and returns that register and `b_str` of exactly N characters |
| BernsteinVazirani.CnotIfEmits | src/bin/bernstein_vazirani.rs:28 | CNOT(q_Q, a) is issued exactly when b_chars[Q] == '1' |
| BernsteinVazirani.PrepHadamardsOnce | src/bin/bernstein_vazirani.rs:11-18 | the ancilla and each query qubit receive exactly one Hadamard during preparation |
| BernsteinVazirani.QueryPrepHadamards | src/bin/bernstein_vazirani.rs:15-18 | query preparation gives H once to each qubit it allocates and to no other |
| BernsteinVazirani.CnotIfRun | src/bin/bernstein_vazirani.rs:25-29 | on basis states the conditional CNOTs leave every query bit unchanged and xor x . flags (mod 2) into the ancilla |
| BernsteinVazirani.OracleRun | src/bin/bernstein_vazirani.rs:20-29 | for b < 2^N the oracle maps (x, y) to (x, y xor (x . b mod 2)), with b's bits in the order of `b_str` |
| BernsteinVazirani.DecodeBits | src/bin/bernstein_vazirani.rs:51-55 | for result < 2^N the reversed string has N characters and character i is bit i of result |
| BernsteinVazirani.DecodeRoundTrip | src/bin/bernstein_vazirani.rs:51-55 | reversing the printed string again gives the most-significant-first formatting, which reads back as result |
| BernsteinVazirani.DecodeMatchesSecret | src/bin/bernstein_vazirani.rs:51-58 | the printed measurement equals the printed expectation `b_str` exactly when bit i of result is bit N-1-i of b for every i |
| BernsteinVazirani.FirstQubitHighMsbFirst | src/bin/bernstein_vazirani.rs:21-22 | the bits of b most significant first, read as a number with the first bit high, give b back |
| BernsteinVazirani.MeasuredIsSecret | src/bin/bernstein_vazirani.rs:26-36 | if the merged register reads with its first qubit high, query qubit Q holding character Q of `b_str` makes the measured value b |
| BernsteinVazirani.ReversedPrintDiffers | src/bin/bernstein_vazirani.rs:51-58 | with that order, secret 1 is measured as 1, and the reversed print differs from `b_str` |
| BernsteinVazirani.DecodeInOrderMatchesSecret | src/bin/bernstein_vazirani.rs:52 | the unreversed print equals `b_str` exactly when the measured value is b |
| BernsteinVazirani.InOrderPrintMatches | src/bin/bernstein_vazirani.rs:51-58 | with the first qubit high, the unreversed print of the measured value is `b_str` |

## Left out

- The `qip` simulator is not part of this model, with one exception. `measure`, `calculate_state` and `get_measurement` are not modelled, and neither are the amplitude effects of `h` and `apply_matrix` in Deutsch-Jozsa and Bernstein-Vazirani. There, gates are log entries with basis-state meaning; a Hadamard has none, so `Circuit.Run` is stated only for logs without one. The exception is the two-qubit Deutsch circuit: `Deutsch.HadamardFirst`, `Deutsch.HadamardSecond`, `Deutsch.ApplyMatrix` and `Deutsch.Impossible` are an exact reference for it, with integer amplitudes.
- Deutsch.FinalStateApplies: assumes that `qip` puts the first qubit of `merge_two_registers(q1, q2)` in the high bit of the basis index, and that `apply_matrix` reads `u_f` row-major. With the first qubit in the low bit, `U(f)` would flip q1 controlled by q2 and the circuit would always read 0. `Deutsch.DeutschDecides` and `Deutsch.MainDecides` rest on this assumption.
- Deutsch.FinalStateApplies: the Deutsch reference uses unnormalised integer amplitudes instead of `f64` ones. "Impossible" means a zero amplitude, and probabilities are not modelled.
- Deutsch.U: entries are integers (wrapped as complex numbers with integer parts) instead of `f64`. Every entry is 0 or 1, so no rounding can occur.
- The `peroxide` `Uniform` sampler is not modelled. The hidden value b is a parameter, with b < 2^N for Bernstein-Vazirani, 1 <= b < 2^N for Balanced and b <= 1 for Constant. These ranges contain every value the sampler can produce. `Uniform(0, 1)` cast to `usize` almost always gives 0, so in practice the Constant branch rarely issues X; the model covers both values.
- The `dialoguer` prompts, `println!` output and the `Display` text of `Case` are not modelled. `Deutsch.Verdict` keeps only the word chosen at line 77.
- Handle move semantics and ownership are not modelled. A qubit handle is its allocation index, and `merge_registers` is modelled only as the order of the merged qubits.
- `seq!` unrolling in `bernstein_vazirani!` is modelled as a loop over Q = 0..19. The push loop in `MergeInOrder` is modelled the same way.
- `teleport.rs`, `swap_test.rs` and `superdense.rs` are not part of this model. They are straight-line circuits whose meaning is a simulator probability.
- The `?` error path of `l.cnot` is not modelled. The model only issues CNOTs on two different allocated qubits, for which `qip` does not fail.

## Findings

| source | as written | input that shows it | evidently intended | confidence | as-written member | corrected member |
|---|---|---|---|---|---|---|
| src/bin/bernstein_vazirani.rs:51-55 | the measured value is formatted with N digits and then reversed before it is printed next to `b_str` | secret b = 1: if the merged register reads with its first qubit high, which the Deutsch demo needs (src/bin/deutsch.rs:46-49), the measured value is 1. Reversed, it prints "1" followed by 19 zeros, while `b_str` is 19 zeros followed by "1" | the printed measurement equals `b_str` | low: not executed; it depends on the qubit order of `qip`, which is not part of this model, and the source's comment calls the result little-endian | BernsteinVazirani.ReversedPrintDiffers | BernsteinVazirani.InOrderPrintMatches |
