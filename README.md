# Ethash DAG Merkle proofs: encoding layer and dataset framing

This project models two parts of the Ethash Merkle-proof generator in Dafny:

- **The proof and leaf encoding helpers of the `mtree` package** (`mtree/util.go`). These are the wire contract an on-chain verifier rebuilds.
  - Packing a leaf-to-root list of sibling hashes into branch elements. Each element puts the odd-indexed hash first and the even-indexed one second. A missing partner becomes the all-zero hash.
  - Re-encoding a 128-byte DAG element into two 64-byte big-endian halves. Each 32-byte quarter is reversed in place.
  - Left-padding a byte string with zeros.
  - Reading bytes as a big-endian unsigned number.
- **The dataset framing of the proof generator** (`main.go`):
  - Reading an Ethash DAG file: an 8-byte magic number, then 128-byte records. Each record is handed to the tree with index 0, 1, 2, …; a short trailing record aborts with "Malformed dataset".
  - Deriving the tree depth from the dataset size and registering it as the tree's stored level.

Module `Mtree` (`mtree.dfy`) models `mtree/util.go`. Its class `DagTree` stands in for `mtree.DagTree`, whose internals are not part of this model: it records, in order, the `Insert` and `RegisterStoredLevel` calls made on it. Module `EthashproofMain` (`main.dfy`) models the framing loop of `processDuringRead` and lines 104-107 of `main`.

Each source operation has a partner that it is proved against:

- The branch loop is proved equal to a recursive reference pairing, `Branches`. `Unpack` then recovers the hash list from `Branches`.
- In-place `rev` is proved against the function `Reversed`.
- `conventionalWord` is proved against `Conventional`, which is its own inverse.
- `BytesToBig` has an inverse, `BigToBytes`, with both round trips proved.
- The framing loop is proved against the reference framing `Records` and the outcome function `ReadOutcome`.
- `%b` formatting (`FormatBinary`) has a parser, `ParseBinary`.

Modelling choices:

- The file is an in-memory byte sequence. `io.ReadFull` is a pure function over it. Each `log.Fatal` becomes an `Outcome` value `Fatal(reason)`.
- Go's fixed-width integers are written out:
  - The `uint32` record counter wraps (`Successor`).
  - `fullSize/128 - 1` is computed in `uint64` and wraps.
  - `msbPadding` starts its `uint32` loop counter at `uint32(len(a))`.
- A Go slice is a window onto an array, so `rev` is `Rev(a, lo, hi)` on the window `[lo, hi)` of an array.
- `conventionalWord` receives its `Word` by value. It reverses the quarters of that copy in place, and `first` and `second` are its two halves. The `append` in `conventionalWord` writes the already reversed bytes back onto themselves, because `first` is a slice of the copy with spare capacity.

The `uint32` counter `i` wraps after 2^32 records. The model keeps the wrap (`Successor`), and `DatasetIndices` proves the indices are exactly 0, 1, 2, … while the count fits in a `uint32`.

## Model

| member | source | states |
|---|---|---|
| `Mtree.HashesToBranchesArray` | mtree/util.go:7-24 | The indexed loop returns exactly the reference pairing `Branches(hashes)` |
| `Mtree.BranchesAt` | mtree/util.go:8-22 | There are ceil(len/2) elements, so empty input gives empty output. Element i has hashes[2i+1] first and hashes[2i] second. When hashes[2i] is the last hash, element i has the zero hash first and hashes[2i] second |
| `Mtree.HashPlacement` | mtree/util.go:9-22 | Hash k sits in element k/2: second when k is even, first when k is odd. So every hash lands in exactly one place, in input order by pair index |
| `Mtree.OddTail` | mtree/util.go:12-16 | With an odd count, the last element is (ZeroHash, last hash): the placeholder, not a duplicate of a real hash |
| `Mtree.UnpackBranches` | mtree/util.go:9-22 | Reading each element second-then-first and dropping the odd placeholder gives back the input list. Nothing is lost or reordered |
| `Mtree.Reversed` | mtree/util.go:41-46 | Reversal preserves length |
| `Mtree.ReversedIndex` | mtree/util.go:41-46 | Byte k after reversal is the old byte len-1-k |
| `Mtree.ReversedTwice` | mtree/util.go:41-46 | Reversing twice restores the original |
| `Mtree.Rev` | mtree/util.go:41-46 | Swapping with two converging indices leaves the window reversed and every byte outside the window unchanged |
| `Mtree.ConventionalAt` | mtree/util.go:33-38 | Byte k of quarter q of the layout is input byte q*32+31-k. Quarters 0 and 1 stay in the first half, quarters 2 and 3 in the second |
| `Mtree.ConventionalTwice` | mtree/util.go:33-38 | The leaf re-encoding is invertible: it is its own inverse |
| `Mtree.QuarterByQuarter` | mtree/util.go:33-38 | Reversing the four 32-byte quarters one after another, each in place, yields exactly the conventional layout |
| `Mtree.ConventionalWord` | mtree/util.go:33-38 | `first` and `second` are 64 bytes each, and together they are the conventional layout of the input element |
| `Mtree.MsbPadding` | mtree/util.go:48-55 | The result is zeros followed by `a`, with as many zeros as the `uint32` loop runs. For inputs shorter than 2^32 bytes it equals `PaddedTo(a, size)`. `a` itself is a value and is unchanged |
| `Mtree.PaddedTo` | mtree/util.go:48-55 | Intended padding: length max(len(a), size), ends with `a`, all-zero prefix |
| `Mtree.MsbPaddingOverpads` | mtree/util.go:51 | An input of exactly 2^32 bytes padded to width 1 gains a zero byte, while `PaddedTo` leaves it unchanged |
| `Mtree.BytesToBig` | mtree/util.go:26-31 | The big-endian value of `data` is below 256^len(data) |
| `Mtree.BytesToBigFirst` | mtree/util.go:26-31 | Big-endian weight: the first byte counts 256^(len-1) times, plus the value of the rest |
| `Mtree.BytesToBigLeadingZeros` | mtree/util.go:26-31 | Leading zero bytes do not change the value |
| `Mtree.PaddedValue` | mtree/util.go:48-55 | Left padding to any width keeps the `BytesToBig` value |
| `Mtree.BigToBytes` | mtree/util.go:26-31 | The inverse conversion writes a number below 256^width in exactly `width` bytes |
| `Mtree.BytesToBigOfBigToBytes` | mtree/util.go:26-31 | Writing a number out and reading it back gives the number |
| `Mtree.BigToBytesOfBytesToBig` | mtree/util.go:26-31 | Reading bytes and writing them back at the same width gives the bytes |
| `Mtree.DagTree.constructor` | main.go:99 | A new tree has recorded no insertions and no stored level |
| `Mtree.DagTree.Insert` | main.go:56 | Appends (leaf, index) to the insertion log and changes nothing else |
| `Mtree.DagTree.RegisterStoredLevel` | main.go:107 | Appends (depth, offset) to the stored-level log and changes nothing else |
| `EthashproofMain.ReadFull` | main.go:43 | io.ReadFull returns the next min(want, left) bytes. The error is nil iff all were read. It is EOF iff nothing was read, and a short read ends at the end of input |
| `EthashproofMain.ProcessDuringRead` | main.go:33-61 | Ends with `ReadOutcome(dataset)`: EOF or unexpected EOF when under 8 bytes, "Malformed dataset" on a trailing partial record, otherwise completed. The tree receives exactly `DatasetLeaves(dataset)` appended, and nothing else changes |
| `EthashproofMain.RecordsAt` | main.go:41-60 | The body yields floor(len/128) leaves. Leaf k is body bytes [128k, 128k+128) with index (start + k) mod 2^32 |
| `EthashproofMain.RecordsCoverBody` | main.go:53-56 | The inserted leaves concatenate to the body up to its last complete record. No byte of a partial record is inserted |
| `EthashproofMain.DatasetLeafAt` | main.go:35-56 | The magic number is consumed first. Leaf i is dataset bytes [8+128i, 8+128(i+1)) with index i mod 2^32 |
| `EthashproofMain.DatasetIndices` | main.go:41-60 | While the count fits a `uint32`, leaf i has index i: no gaps or repeats, strictly increasing |
| `EthashproofMain.OutcomeCoverage` | main.go:42-55 | On a clean end, (len-8)/128 leaves cover all bytes after the magic number. On a malformed end, only the (len-8) mod 128 trailing bytes are left out |
| `EthashproofMain.FormatBinary` | main.go:106 | `%b` yields at least one digit |
| `EthashproofMain.ParseFormatBinary` | main.go:106 | `%b` output holds only binary digits and parses back to the number |
| `EthashproofMain.FormatBinaryLength` | main.go:106 | A positive n has d digits with 2^(d-1) <= n < 2^d |
| `EthashproofMain.Uint64Digits` | main.go:106 | A `uint64` has at most 64 binary digits |
| `EthashproofMain.BranchDepth` | main.go:104-106 | The branch depth is between 1 and 64 |
| `EthashproofMain.BranchDepthFitsLeaves` | main.go:104-106 | For N >= 2 leaves, depth d satisfies 2^(d-1) < N <= 2^d: the least depth whose leaf indices hold all N leaves |
| `EthashproofMain.BranchDepthSmall` | main.go:104-106 | One leaf gives depth 1. Under one leaf, the `uint64` subtraction wraps and gives depth 64 |
| `EthashproofMain.RegisterBranchDepth` | main.go:104-107 | The stored level registered is (branchDepth, 0), and the insertion log is untouched |

## Left out

- File opening with the blocking 10-second retry, the `bufio` reader and process termination by `log.Fatal` (main.go:22-32): the input is an in-memory byte sequence and a fatal exit is an `Outcome`.
- I/O errors other than `io.EOF` and `io.ErrUnexpectedEOF` cannot arise from an in-memory stream. So two branches of the read loop are not modelled: the `continue` on zero bytes with a nil error, and the error check after `Insert`. The `log.Fatal(err)` for a non-EOF error on an empty read is kept in `ProcessDuringRead`, but it is unreachable, because `ReadFull` reports `io.EOF` whenever it reads nothing.
- The hash function, the layout of `Hash`/`DagData`, the packing that `BranchElementFromHash` and `Big()` perform, and `ToUint256Array` are not part of this model. A hash is an opaque value, and a branch element keeps its two hashes in argument order.
- `mtree.DagTree` internals (`RegisterIndex`, `Finalize`, root and proof computation) are not part of this model; `DagTree` only records the calls the reader makes.
- `ethash.Instance.GetVerificationIndices`, `MakeDAG`, `DAGSize` and `PathToDAG` are not part of this model: dataset size enters as a parameter.
- BranchDepth: `ethash.DAGSize` is not part of this model, and its result is taken to be a `uint64`. Only with an unsigned type does `fullSize/128 - 1` wrap to 64 digits; with a signed integer, `%b` of -1 would be the two characters `-1`.
- `HashHeaderNoNonce`, `RLPHash` and `RLPHeader` (util.go, utils.go) wrap RLP encoding and Keccak-512 and are not part of this model.
- Command-line parsing, header fetching over RPC, the epoch-cache fallback and the per-index proof loop of cmd/relayer/main.go, and JSON/hex output: orchestration and presentation.
- ConventionalWord: the returned halves alias the function's local copy in Go; Dafny sequences are values, so that sharing is not represented. `first` keeps capacity over the bytes of `second`, so a caller appending to `first` would overwrite `second`; the callers of `conventionalWord` are not part of this model.
- Rev: Go's `rev` also returns the slice it reversed; the model reverses the window in place and returns nothing, since the returned slice is the same window.

## Findings

| source | as written | input that shows it | evidently intended | confidence | as-written member | corrected member |
|---|---|---|---|---|---|---|
| mtree/util.go:51 | the loop counter starts at `uint32(len(a))`, which truncates lengths of 2^32 bytes or more | `a` of 2^32 bytes, `size` 1: one zero byte is prepended and the result is 2^32 + 1 bytes | pad only while `len(a) < size`, giving max(len(a), size) bytes | low: not executed, and it needs a slice of at least 4 GiB | `Mtree.MsbPadding`, `Mtree.MsbPaddingOverpads` | `Mtree.PaddedTo` |
