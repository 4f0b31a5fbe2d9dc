# Quantum steganography detector, modelled in Dafny

The detector is a short demonstration script. It reads a text file, turns
every character into its code point in binary (eight digits, most
significant bit first) and keeps the first eight bits. From those bits it
builds two quantum circuits:

- a clean circuit with one basis flip (X) per bit holding '1';
- a tampered circuit that adds one phase flip (Z) on a randomly chosen qubit.

It simulates both circuits and computes the fidelity of the two final states.
It reports tampering when the fidelity is below 0.95.

The model has four modules, one per stage of that pipeline:

- `Encoding` (`encoding.dfy`) covers `text_to_bits` and the truncation to
  `max_bits`. Characters are code points (`nat`). The encoder is modelled as
  the code behaves: a code of 256 or more gives a numeral longer than eight
  digits, and nothing is cut or rejected.
- `Circuits` (`circuits.dfy`) covers `make_quantum_circuit`. A circuit is a
  qubit count plus a list of operations `X(i) | Z(i) | Save`. The random tamper
  position is a parameter `k`, constrained to the register when one is drawn.
- `Semantics` (`semantics.dfy`) gives exact semantics. Starting from the
  all-zero register, X and Z only ever produce a computational basis state
  times a global sign, so a state is a sign plus one bit per qubit. X flips a
  bit. Z negates the sign when its qubit holds 1. Fidelity is the squared
  inner product, which for such states is 1 or 0.
- `Detector` (`detector.dfy`) covers the comparison and the verdict in
  `main`, with the file handling and printing removed.

The central theorem is `Semantics.TamperedFidelityIsOne`. The phase flip
changes the tampered state at most by a global sign, so the fidelity between
the clean and the tampered state is exactly 1. `Detector.Detect` therefore
always reports the file as clean, for every text and every tamper position.

Two behaviours of the code that the model keeps as they are:

- Characters above 255 are encoded to longer numerals by `format(ord(c),
  '08b')`; they are not rejected.
- An empty bit string with tampering requested adds no phase flip and draws
  no random position (Detector.py:36-38). What the simulator library does
  with the resulting zero-qubit circuit is not modelled (see "## Left out").

## Model

| member | source | states |
|---|---|---|
| Detector.Ord | Detector.py:21 | `ord` gives, position by position, a Unicode scalar value (below 0x110000, not a surrogate) from which `chr` recovers the character |
| Detector.OrdInjective | Detector.py:21 | `ord` loses nothing: strings with the same code points are the same string, so working on code points is faithful to the text read |
| Encoding.Binary | Detector.py:21 | the minimal binary numeral of n: digits only, at least one digit, no leading zero, reads back as n, and n is at least 2^(length-1) when it has several digits |
| Encoding.PadBinary | Detector.py:21 | zero-padding to a width keeps the value, gives max(width, minimal length) digits, and exactly `width` digits when n < 2^width |
| Encoding.Format08b | Detector.py:21 | `format(code, '08b')` reads back as the code and has at least eight digits; it has exactly eight iff the code is below 256 |
| Encoding.BinaryFits | Detector.py:21 | the minimal numeral fits in `width` digits iff n < 2^width |
| Encoding.TextToBits | Detector.py:20-21 | the encoding of a text is only '0'/'1', at least eight digits per character, exactly 8 × length for byte texts |
| Encoding.BitsToText | Detector.py:20-21 | reading eight-digit chunks back gives one byte-sized code per chunk |
| Encoding.ChunkIsCharacter | Detector.py:21 | for a byte text, digits 8j..8j+7 of the encoding are exactly the eight-digit numeral of character j, in text order |
| Encoding.DecodeEncode | Detector.py:20-21 | decoding the encoding of a byte text gives the text back |
| Encoding.EncodeDecode | Detector.py:20-21 | encoding the decoding of any whole number of bytes gives the bits back |
| Encoding.Truncate | Detector.py:69-70 | `bit_string[:max_bits]` is a prefix of the bits of length min(length, max_bits) |
| Encoding.LeadingByte | Detector.py:65-70 | the first eight encoded bits are the first character's numeral (cut to eight digits for a wider character) |
| Circuits.EncodeOps | Detector.py:31-33 | the encoding loop appends only X operations, in strictly increasing qubit order, inside the register, flipping qubit i iff digit i is '1' |
| Circuits.EncodeOpsUnique | Detector.py:31-33 | any operation list with those properties is exactly the one the loop builds |
| Circuits.MakeCircuit | Detector.py:26-42 | the circuit has len(bits) qubits, every operation index is inside the register, it saves the state exactly once, as its last operation, and holds one Z iff tampered and non-empty, else none |
| Circuits.CleanCircuitShape | Detector.py:31-41 | untampered: the operations are the encoding of the bits followed by Save |
| Circuits.TamperedCircuitShape | Detector.py:36-41 | tampered, non-empty: the clean list with exactly one Z(k) inserted before Save; tampered, empty: identical to the clean circuit |
| Circuits.CleanIgnoresTamperIndex | Detector.py:36-37 | the untampered circuit does not depend on the random position |
| Semantics.Apply | Detector.py:33-38 | X(q) flips qubit q, keeps every other qubit and the sign; Z(q) keeps the basis and negates the sign iff qubit q holds 1; Save changes nothing |
| Semantics.RunOps | Detector.py:81-82 | running operations keeps the register size, and a list without Z keeps the sign |
| Semantics.Run | Detector.py:81-82 | the final state of a well-formed circuit, started from the all-zero register, has one bit per qubit of the circuit |
| Semantics.EncodeRun | Detector.py:31-33 | running the encoding of the first bits sets exactly the qubits holding '1' and keeps sign +1 |
| Semantics.CleanState | Detector.py:74-81 | the clean circuit prepares the basis state of the bits with sign +1 |
| Semantics.TamperedState | Detector.py:36-38 | the tampered circuit prepares the same basis state, with sign -1 iff the flipped qubit holds '1' |
| Semantics.Overlap | Detector.py:85 | the inner product of two signed basis states lies in {-1, 0, 1} and is non-zero iff the basis strings agree |
| Semantics.Fidelity | Detector.py:85 | fidelity lies in [0, 1] |
| Semantics.FidelityOneIff | Detector.py:85 | fidelity is 1 iff the states are equal up to a global sign, and 0 otherwise |
| Semantics.FidelitySymmetric | Detector.py:85 | fidelity is symmetric |
| Semantics.TamperedFidelityIsOne | Detector.py:74-85 | clean and tampered states are equal up to a global sign, identical iff no '1' was hit, and have fidelity exactly 1 |
| Detector.CompareCircuits | Detector.py:41-85 | comparison succeeds iff both circuits stay inside their registers, save their state exactly once as the last operation, and have equal qubit counts; the fidelity is in [0, 1] and is 1 iff the states agree up to a global sign |
| Detector.Detect | Detector.py:64-92 | the report carries the full bit length, len(text_to_bits(text)) (8 per byte character, at least 8 per character otherwise), a prefix of at most eight bits, fidelity 1 and the verdict clean, for every text and tamper position |
| Detector.Classify | Detector.py:89-92 | the verdict is clean iff the fidelity is at least 0.95, otherwise tampering |
| Detector.ClassifyThreshold | Detector.py:89-92 | exactly 0.95 and 1 are clean, anything below 0.95 is tampering, and the clean side is closed upwards |
| Detector.VerdictOfEquivalentStates | Detector.py:85-92 | two comparable circuits are classified clean iff their states agree up to a global sign |
| Detector.NumeralOfH | Detector.py:21 | the eight-digit numeral of 'H' (72) is 01001000 |
| Detector.SampleBits | Detector.py:53-70 | for the demo text "Hello Quantum World!" the eight bits kept are 01001000 |
| Detector.SampleReport | Detector.py:53-92 | on the demo text the run reports 160 bits, keeps 01001000 and says clean for every tamper position 0..7 |

## Left out

- File handling (Detector.py:50-59): checking for the demo file, creating it and reading it are I/O. `Detect` takes the text that was read, as code points. The demo content is the constant `SampleText`.
- Text decoding: how the file's bytes become characters is the platform's default decoding and is not modelled. Characters are Unicode scalar values; the lone surrogate code points a Python string can also hold are not modelled.
- Console output (Detector.py:39, 48, 61-62, 66, 71, 86, 90-94): only printing. The verdict and the printed quantities are fields of `Report` instead.
- Random choice of the tamper position (Detector.py:37): nondeterministic. It is the parameter `k` of `MakeCircuit` and `Detect`, with `0 <= k < n` required when a position is drawn.
- The simulator and `state_fidelity` (Detector.py:11-13, 78-85): foreign library calls on floating-point complex vectors. They are replaced by the exact signed-basis-state semantics in `Semantics`, which covers every state these circuits can reach. General superposed states are not modelled.
- Semantics.Fidelity: the fidelity is an exact real, while the library computes it in floating point; rounding (a result such as 0.9999999999) is not modelled. A fidelity of 1 is far above the 0.95 threshold, so such rounding cannot change the verdict.
- Detector.CompareCircuits: the library raises its errors at different moments (an out-of-range qubit when the gate is added, a dimension mismatch inside `state_fidelity`). The model reports both as a refused comparison. `main` never builds such circuits.
- The `QuantumCircuit` object and the internals of `save_statevector`: a library type. A circuit is only its qubit count and operation list, and `Save` changes nothing in the state.
- Detector.Detect: on an empty text the bit string is empty and both circuits have zero qubits. The model then reports fidelity 1 and a clean file. Whether the simulator library accepts saving and running a zero-qubit circuit is library behaviour and is not modelled; the library may refuse it instead.
- Detector.CompareCircuits: a circuit whose save marker is missing, repeated or followed by other operations is refused rather than modelled: without a marker there is no saved state to read, a repeated or early one would make the library read a state saved part-way through, and `main` never builds such a circuit.
