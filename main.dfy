/** Model of the dataset framing and tree set-up of the proof generator
    (main.go): reading an Ethash DAG file (an 8-byte magic number, then
    128-byte records) into the tree, and deriving the tree depth from the
    dataset size. The file is an in-memory byte sequence and a fatal log
    message is an `Outcome`. */
module EthashproofMain {
  import opened Mtree

  const MagicLength: nat := 8
  const RecordLength: nat := 128
  const Uint64Modulus: nat := 0x1_0000_0000_0000_0000

  /** Go's `uint64`. */
  type Uint64 = x: int | 0 <= x < 0x1_0000_0000_0000_0000

  // ---------------------------------------------------------------------------
  // Reading the dataset (processDuringRead)
  // ---------------------------------------------------------------------------

  /** The error value `io.ReadFull` reports: `nil`, `io.EOF` when it read
      nothing, `io.ErrUnexpectedEOF` when it read some but not all. */
  datatype IoError = Nil | EOF | UnexpectedEOF

  /** What one `io.ReadFull` call gives back: the bytes read and the error. */
  datatype ReadResult = ReadResult(bytes: seq<Byte>, err: IoError)

  /** Why processDuringRead stops the process. */
  datatype FatalReason = ReadFailed(err: IoError) | MalformedDataset

  /** How processDuringRead ends: it returns, or it calls `log.Fatal`. */
  datatype Outcome = Completed | Fatal(reason: FatalReason)

  /** `io.ReadFull(r, buf[:want])` on an in-memory stream whose reader stands
      at `pos`: as many bytes as are wanted and left. */
  function ReadFull(stream: seq<Byte>, pos: nat, want: nat): (r: ReadResult)
    requires pos <= |stream|
    ensures |r.bytes| <= want && pos + |r.bytes| <= |stream|
    ensures r.bytes == stream[pos..pos + |r.bytes|]
    ensures r.err == Nil <==> |r.bytes| == want
    ensures want > 0 ==> (r.err == EOF <==> |r.bytes| == 0)
    ensures |r.bytes| < want ==> pos + |r.bytes| == |stream|
  {
    var n := if |stream| - pos < want then |stream| - pos else want;
    ReadResult(stream[pos..pos + n], if n == want then Nil else if n == 0 then EOF else UnexpectedEOF)
  }

  /** The counter `i` of processDuringRead is a `uint32`: `i++` wraps. */
  function Successor(i: Uint32): Uint32
  {
    (i + 1) % Uint32Modulus
  }

  /** Reference framing of the dataset body (what follows the magic number):
      every complete 128-byte record in order, the first with index `next`,
      each following one with the next `uint32` index; an incomplete tail
      yields nothing. */
  function Records(body: seq<Byte>, next: Uint32): seq<Insertion>
    decreases |body|
  {
    if |body| < RecordLength then []
    else [Insertion(body[..RecordLength], next)] + Records(body[RecordLength..], Successor(next))
  }

  /** The leaves processDuringRead hands to the tree, in order. */
  function DatasetLeaves(dataset: seq<Byte>): seq<Insertion>
  {
    if |dataset| < MagicLength then [] else Records(dataset[MagicLength..], 0)
  }

  /** How processDuringRead ends on `dataset`. */
  function ReadOutcome(dataset: seq<Byte>): Outcome
  {
    if |dataset| == 0 then Fatal(ReadFailed(EOF))
    else if |dataset| < MagicLength then Fatal(ReadFailed(UnexpectedEOF))
    else if (|dataset| - MagicLength) % RecordLength != 0 then Fatal(MalformedDataset)
    else Completed
  }

  /** The record bytes of a list of insertions, concatenated. */
  function LeafBytes(leaves: seq<Insertion>): seq<Byte>
  {
    if |leaves| == 0 then [] else leaves[0].leaf + LeafBytes(leaves[1..])
  }

  lemma SuccessorPlus(next: Uint32, k: nat)
    ensures (Successor(next) + k) % Uint32Modulus == (next + k + 1) % Uint32Modulus
  {
    if next + 1 == Uint32Modulus {
      assert Successor(next) == 0;
      assert (next + k + 1) % Uint32Modulus == k % Uint32Modulus by {
        assert next + k + 1 == k + Uint32Modulus;
      }
    }
  }

  /** The framing yields floor(len/128) leaves; leaf `k` is bytes
      [128k, 128k + 128) of the body and carries index (next + k) mod 2^32. */
  lemma {:induction false} RecordsAt(body: seq<Byte>, next: Uint32)
    ensures |Records(body, next)| == |body| / RecordLength
    ensures forall k | 0 <= k < |Records(body, next)| ::
      RecordLength * k + RecordLength <= |body| &&
      Records(body, next)[k] == Insertion(body[RecordLength * k .. RecordLength * k + RecordLength], (next + k) % Uint32Modulus)
    decreases |body|
  {
    if |body| >= RecordLength {
      var rest := body[RecordLength..];
      RecordsAt(rest, Successor(next));
      var r := Records(body, next);
      forall k | 0 <= k < |r|
        ensures RecordLength * k + RecordLength <= |body|
        ensures r[k] == Insertion(body[RecordLength * k .. RecordLength * k + RecordLength], (next + k) % Uint32Modulus)
      {
        if k > 0 {
          assert r[k] == Records(rest, Successor(next))[k - 1];
          SuccessorPlus(next, k - 1);
          assert rest[RecordLength * (k - 1) .. RecordLength * (k - 1) + RecordLength]
              == body[RecordLength * k .. RecordLength * k + RecordLength];
        }
      }
    }
  }

  /** Nothing of an incomplete tail record reaches the tree: the inserted
      leaves, concatenated, are exactly the body up to its last complete record. */
  lemma {:induction false} RecordsCoverBody(body: seq<Byte>, next: Uint32)
    ensures LeafBytes(Records(body, next)) == body[..|body| / RecordLength * RecordLength]
    decreases |body|
  {
    if |body| >= RecordLength {
      var rest := body[RecordLength..];
      RecordsCoverBody(rest, Successor(next));
      var cut := |rest| / RecordLength * RecordLength;
      assert |body| / RecordLength * RecordLength == RecordLength + cut;
      calc {
        LeafBytes(Records(body, next));
        body[..RecordLength] + LeafBytes(Records(rest, Successor(next)));
        body[..RecordLength] + rest[..cut];
        { assert rest[..cut] == body[RecordLength..RecordLength + cut]; }
        body[..RecordLength + cut];
      }
    }
  }

  /** A slice of a suffix is a slice of the whole, shifted. */
  lemma SuffixSlice(s: seq<Byte>, off: nat, a: nat, b: nat)
    requires off <= |s| && a <= b <= |s| - off
    ensures s[off..][a..b] == s[off + a..off + b]
  {
  }

  /** One step of the framing from reader position `pos`: a full record is
      taken off the front, or nothing is taken when less than a record is left. */
  lemma RecordsStep(dataset: seq<Byte>, pos: nat, i: Uint32)
    requires pos <= |dataset|
    ensures |dataset| - pos < RecordLength ==> Records(dataset[pos..], i) == []
    ensures |dataset| - pos >= RecordLength ==>
      Records(dataset[pos..], i)
        == [Insertion(dataset[pos..pos + RecordLength], i)] + Records(dataset[pos + RecordLength..], Successor(i))
  {
    if |dataset| - pos >= RecordLength {
      assert dataset[pos..][RecordLength..] == dataset[pos + RecordLength..];
      SuffixSlice(dataset, pos, 0, RecordLength);
    }
  }

  /** The magic number is skipped and leaf `i` is dataset bytes
      [8 + 128i, 8 + 128(i+1)), inserted with index i mod 2^32. */
  lemma DatasetLeafAt(dataset: seq<Byte>, i: nat)
    requires |dataset| >= MagicLength && i < (|dataset| - MagicLength) / RecordLength
    ensures |DatasetLeaves(dataset)| == (|dataset| - MagicLength) / RecordLength
    ensures MagicLength + RecordLength * (i + 1) <= |dataset|
    ensures DatasetLeaves(dataset)[i]
         == Insertion(dataset[MagicLength + RecordLength * i .. MagicLength + RecordLength * (i + 1)], i % Uint32Modulus)
  {
    var body := dataset[MagicLength..];
    RecordsAt(body, 0);
    assert RecordLength * (i + 1) == RecordLength * i + RecordLength;
    SuffixSlice(dataset, MagicLength, RecordLength * i, RecordLength * i + RecordLength);
  }

  /** While the leaf count fits a `uint32`, the indices are 0, 1, 2, ...:
      consecutive, strictly increasing, with no gap and no repeat. */
  lemma DatasetIndices(dataset: seq<Byte>)
    requires |DatasetLeaves(dataset)| <= Uint32Modulus
    ensures forall i | 0 <= i < |DatasetLeaves(dataset)| :: DatasetLeaves(dataset)[i].index == i
  {
    if |dataset| >= MagicLength {
      RecordsAt(dataset[MagicLength..], 0);
    }
  }

  /** A clean end of input inserts (len - 8) / 128 leaves that cover every
      byte after the magic number; a malformed one inserts the complete
      records and leaves out exactly the (len - 8) mod 128 trailing bytes. */
  lemma OutcomeCoverage(dataset: seq<Byte>)
    requires |dataset| >= MagicLength
    ensures ReadOutcome(dataset) == Completed ==>
      |DatasetLeaves(dataset)| == (|dataset| - MagicLength) / RecordLength &&
      LeafBytes(DatasetLeaves(dataset)) == dataset[MagicLength..]
    ensures ReadOutcome(dataset) == Fatal(MalformedDataset) ==>
      LeafBytes(DatasetLeaves(dataset)) + dataset[|dataset| - (|dataset| - MagicLength) % RecordLength..] == dataset[MagicLength..] &&
      0 < (|dataset| - MagicLength) % RecordLength
  {
    var body := dataset[MagicLength..];
    RecordsAt(body, 0);
    RecordsCoverBody(body, 0);
    var cut := |body| / RecordLength * RecordLength;
    assert cut == |body| - |body| % RecordLength;
    assert body[..cut] + body[cut..] == body;
    assert body[cut..] == dataset[|dataset| - |body| % RecordLength..];
  }

  /** A length that falls strictly between two multiples of 128 is not a multiple of 128. */
  lemma ModRemainder(total: nat, count: nat)
    requires RecordLength * count < total < RecordLength * count + RecordLength
    ensures total % RecordLength != 0
  {
    var d := total - RecordLength * count;
    assert total == count * RecordLength + d && 0 < d < RecordLength;
  }

  /** A whole number of records is a multiple of 128. */
  lemma ModMultiple(count: nat)
    ensures (RecordLength * count) % RecordLength == 0
  {
  }

  /** Moving one leaf from the records still to read onto the inserted ones
      keeps their concatenation. */
  lemma AppendStep(inserted: seq<Insertion>, leaf: Insertion, rest: seq<Insertion>)
    ensures inserted + ([leaf] + rest) == (inserted + [leaf]) + rest
  {
  }

  /** main.go processDuringRead, after the file is open: skips the magic
      number, then hands every complete 128-byte record to `mt.Insert` with
      indices counting from 0, until a clean end of input or a short record. */
  method ProcessDuringRead(dataset: seq<Byte>, mt: DagTree) returns (outcome: Outcome)
    modifies mt
    ensures outcome == ReadOutcome(dataset)
    ensures mt.inserted == old(mt.inserted) + DatasetLeaves(dataset)
    ensures mt.storedLevels == old(mt.storedLevels)
  {
    var pos := 0;
    var magic := ReadFull(dataset, pos, MagicLength);
    if magic.err != Nil {
      return Fatal(ReadFailed(magic.err));
    }
    pos := pos + |magic.bytes|;
    var i: Uint32 := 0;
    ghost var count: nat := 0;
    while true
      invariant pos == MagicLength + RecordLength * count <= |dataset|
      invariant mt.inserted + Records(dataset[pos..], i) == old(mt.inserted) + DatasetLeaves(dataset)
      invariant mt.storedLevels == old(mt.storedLevels)
      decreases |dataset| - pos
    {
      var rd := ReadFull(dataset, pos, RecordLength);
      RecordsStep(dataset, pos, i);
      if |rd.bytes| == 0 {
        if rd.err == EOF {
          break;
        }
        return Fatal(ReadFailed(rd.err));
      }
      if |rd.bytes| != RecordLength {
        ModRemainder(|dataset| - MagicLength, count);
        return Fatal(MalformedDataset);
      }
      ghost var before := mt.inserted;
      mt.Insert(rd.bytes, i);
      AppendStep(before, Insertion(rd.bytes, i), Records(dataset[pos + RecordLength..], Successor(i)));
      pos := pos + RecordLength;
      i := Successor(i);
      count := count + 1;
    }
    ModMultiple(count);
    return Completed;
  }

  // ---------------------------------------------------------------------------
  // Tree depth from the dataset size (main)
  // ---------------------------------------------------------------------------

  function Pow2(k: nat): (p: nat)
    ensures p >= 1
  {
    if k == 0 then 1 else 2 * Pow2(k - 1)
  }

  lemma {:induction false} Pow2Monotone(a: nat, b: nat)
    requires a <= b
    ensures Pow2(a) <= Pow2(b)
    decreases b - a
  {
    if a < b {
      Pow2Monotone(a, b - 1);
    }
  }

  /** `fmt.Sprintf("%b", n)`: binary digits without leading zeros, "0" for zero. */
  function FormatBinary(n: nat): (s: string)
    ensures |s| >= 1
    decreases n
  {
    if n < 2 then [if n == 0 then '0' else '1']
    else FormatBinary(n / 2) + [if n % 2 == 0 then '0' else '1']
  }

  /** Reads a string of binary digits back as a number. */
  function ParseBinary(s: string): nat
    decreases |s|
  {
    if |s| == 0 then 0
    else 2 * ParseBinary(s[..|s| - 1]) + (if s[|s| - 1] == '1' then 1 else 0)
  }

  /** The formatting loses nothing: parsing the digits gives the number back,
      and every character is a binary digit. */
  lemma {:induction false} ParseFormatBinary(n: nat)
    ensures ParseBinary(FormatBinary(n)) == n
    ensures forall c | c in FormatBinary(n) :: c == '0' || c == '1'
    decreases n
  {
    if n >= 2 {
      ParseFormatBinary(n / 2);
      var s := FormatBinary(n);
      assert s[..|s| - 1] == FormatBinary(n / 2);
    }
  }

  /** A positive number has exactly d binary digits when 2^(d-1) <= n < 2^d. */
  lemma {:induction false} FormatBinaryLength(n: nat)
    requires n >= 1
    ensures Pow2(|FormatBinary(n)| - 1) <= n < Pow2(|FormatBinary(n)|)
    decreases n
  {
    if n >= 2 {
      FormatBinaryLength(n / 2);
    }
  }

  /** main.go lines 104-106: the digit count of fullSize/128 - 1, computed in
      `uint64` (so it wraps when the dataset holds no full leaf). */
  function BranchDepth(fullSize: Uint64): (d: nat)
    ensures 1 <= d <= 64
  {
    var leaves := fullSize / RecordLength;
    Uint64Digits((leaves + Uint64Modulus - 1) % Uint64Modulus);
    |FormatBinary((leaves + Uint64Modulus - 1) % Uint64Modulus)|
  }

  /** A `uint64` has at most 64 binary digits. */
  lemma Uint64Digits(m: Uint64)
    ensures |FormatBinary(m)| <= 64
  {
    if m >= 1 {
      var d := |FormatBinary(m)|;
      FormatBinaryLength(m);
      Pow2Value64();
      if d > 64 {
        Pow2Monotone(64, d - 1);
      }
    }
  }

  /** For a dataset of N >= 2 leaves the depth d is the least with N <= 2^d:
      2^(d-1) < N <= 2^d, so every leaf index below N fits in d bits. */
  lemma BranchDepthFitsLeaves(fullSize: Uint64)
    requires fullSize / RecordLength >= 2
    ensures Pow2(BranchDepth(fullSize) - 1) < fullSize / RecordLength <= Pow2(BranchDepth(fullSize))
  {
    var leaves := fullSize / RecordLength;
    assert (leaves + Uint64Modulus - 1) % Uint64Modulus == leaves - 1;
    FormatBinaryLength(leaves - 1);
  }

  /** The edge cases of the digit count: one leaf gives depth 1 (the digit of
      "0"), and a size below one leaf wraps to the 64 digits of 2^64 - 1. */
  lemma BranchDepthSmall(fullSize: Uint64)
    requires fullSize / RecordLength <= 1
    ensures BranchDepth(fullSize) == if fullSize / RecordLength == 1 then 1 else 64
  {
    if fullSize / RecordLength == 0 {
      var m := Uint64Modulus - 1;
      assert (fullSize / RecordLength + Uint64Modulus - 1) % Uint64Modulus == m;
      FormatBinaryLength(m);
      var d := |FormatBinary(m)|;
      assert Pow2(64) == Uint64Modulus by { Pow2Value64(); }
      if d < 64 {
        Pow2Monotone(d, 63);
      } else if d > 64 {
        Pow2Monotone(64, d - 1);
      }
    }
  }

  lemma Pow2Value64()
    ensures Pow2(64) == 0x1_0000_0000_0000_0000
  {
    assert Pow2(8) == 256;
    Pow2Double(8, 256);
    Pow2Double(16, 0x1_0000);
    Pow2Double(32, 0x1_0000_0000);
  }

  lemma Pow2Double(k: nat, v: nat)
    requires Pow2(k) == v
    ensures Pow2(k + k) == v * v
  {
    Pow2Add(k, k);
  }

  lemma {:induction false} Pow2Add(a: nat, b: nat)
    ensures Pow2(a + b) == Pow2(a) * Pow2(b)
    decreases b
  {
    if b > 0 {
      Pow2Add(a, b - 1);
      assert Pow2(a + b) == 2 * Pow2(a + b - 1);
    }
  }

  /** main.go lines 104-107: registers the stored level (branchDepth, 0) on
      the tree; the inserted leaves are untouched. */
  method RegisterBranchDepth(dt: DagTree, fullSize: Uint64)
    modifies dt
    ensures dt.storedLevels == old(dt.storedLevels) + [StoredLevel(BranchDepth(fullSize), 0)]
    ensures dt.inserted == old(dt.inserted)
  {
    var fullSizeIn128Resolution := fullSize / 128;
    var digits := FormatBinary((fullSizeIn128Resolution + Uint64Modulus - 1) % Uint64Modulus);
    var branchDepth := |digits|;
    assert branchDepth == BranchDepth(fullSize);
    dt.RegisterStoredLevel(branchDepth, 0);
  }
}
