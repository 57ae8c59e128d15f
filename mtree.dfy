/** Model of the proof and leaf encoding helpers of the Merkle-tree package
    (mtree/util.go): packing a leaf-to-root list of sibling hashes into branch
    elements, re-encoding a 128-byte dataset element into two big-endian
    halves, left-padding byte strings and reading them as big-endian numbers.
    The tree itself (mtree.DagTree) is only a stand-in that records the calls
    made on it. */
module Mtree {

  /** Go's `byte`. */
  type Byte = x: int | 0 <= x < 256

  const Uint32Modulus: nat := 0x1_0000_0000

  /** Go's `uint32`. */
  type Uint32 = x: int | 0 <= x < 0x1_0000_0000

  /** `mtree.Word`, a `[128]byte` dataset element: two consecutive 64-byte DAG items. */
  type Word = w: seq<Byte> | |w| == 128 witness seq(128, _ => 0)

  /** `n` zero bytes. */
  function Zeros(n: nat): seq<Byte>
  {
    seq(n, _ => 0)
  }

  // ---------------------------------------------------------------------------
  // Branch elements (HashesToBranchesArray)
  // ---------------------------------------------------------------------------

  /** A node hash of the tree. How its `DagData` is laid out is not part of this
      model; it is an opaque sequence of entries. */
  datatype Hash = Hash(entries: seq<nat>)

  /** The placeholder `Hash(DagData{0, ..., 0})`: sixteen zero entries. */
  const ZeroHash: Hash := Hash([0, 0, 0, 0, 0, 0, 0, 0, 0, 0, 0, 0, 0, 0, 0, 0])

  /** `BranchElementFromHash(a, b)`. How it packs the two hashes is not part of
      this model; the constructor keeps which hash was passed first and which second. */
  datatype BranchElement = BranchElementFromHash(first: Hash, second: Hash)

  /** Reference pairing of a leaf-to-root sibling list: every pair (h0, h1) of
      consecutive hashes becomes one element with h1 first and h0 second; an
      unpaired last hash goes second, behind the zero placeholder. */
  function Branches(hashes: seq<Hash>): seq<BranchElement>
    decreases |hashes|
  {
    if |hashes| == 0 then []
    else if |hashes| == 1 then [BranchElementFromHash(ZeroHash, hashes[0])]
    else [BranchElementFromHash(hashes[1], hashes[0])] + Branches(hashes[2..])
  }

  /** Element `i` as the indexed loop of HashesToBranchesArray writes it. */
  function PairAt(hashes: seq<Hash>, i: nat): BranchElement
    requires 2 * i < |hashes|
  {
    if 2 * i + 1 >= |hashes| then BranchElementFromHash(ZeroHash, hashes[2 * i])
    else BranchElementFromHash(hashes[2 * i + 1], hashes[2 * i])
  }

  /** The inverse of the packing: each element gives back its
      second hash, then its first; a list of `n` hashes stops after `n`, so the
      placeholder of an odd final element is dropped. */
  function Unpack(branches: seq<BranchElement>, n: nat): seq<Hash>
    decreases |branches|
  {
    if |branches| == 0 || n == 0 then []
    else if n == 1 then [branches[0].second]
    else [branches[0].second, branches[0].first] + Unpack(branches[1..], n - 2)
  }

  /** The element count is ceil(len/2), and element `i` is the pair the
      indexed loop builds: hashes[2i+1] first and hashes[2i] second, or the
      zero placeholder first when hashes[2i] is the last hash. */
  lemma {:induction false} BranchesAt(hashes: seq<Hash>)
    ensures |Branches(hashes)| == (|hashes| + 1) / 2
    ensures forall i | 0 <= i < |Branches(hashes)| :: 2 * i < |hashes| && Branches(hashes)[i] == PairAt(hashes, i)
    decreases |hashes|
  {
    if |hashes| >= 2 {
      var rest := hashes[2..];
      BranchesAt(rest);
      forall i | 0 <= i < |Branches(hashes)|
        ensures 2 * i < |hashes| && Branches(hashes)[i] == PairAt(hashes, i)
      {
        if i > 0 {
          assert Branches(hashes)[i] == Branches(rest)[i - 1];
          assert PairAt(rest, i - 1) == PairAt(hashes, i) by {
            assert rest[2 * (i - 1)] == hashes[2 * i];
            if 2 * i + 1 < |hashes| {
              assert rest[2 * (i - 1) + 1] == hashes[2 * i + 1];
            }
          }
        }
      }
    }
  }

  /** Every hash lands in exactly one place: hash `k` is the second hash of
      element k/2 when `k` is even and its first hash when `k` is odd. */
  lemma HashPlacement(hashes: seq<Hash>, k: nat)
    requires k < |hashes|
    ensures k / 2 < |Branches(hashes)|
    ensures k % 2 == 0 ==> Branches(hashes)[k / 2].second == hashes[k]
    ensures k % 2 == 1 ==> Branches(hashes)[k / 2].first == hashes[k]
  {
    BranchesAt(hashes);
    assert 2 * (k / 2) < |hashes|;
  }

  /** With an odd number of hashes the last element pairs the zero placeholder
      with the last hash, and does not repeat that hash. */
  lemma OddTail(hashes: seq<Hash>)
    requires |hashes| % 2 == 1
    ensures |Branches(hashes)| > 0
    ensures Branches(hashes)[|Branches(hashes)| - 1] == BranchElementFromHash(ZeroHash, hashes[|hashes| - 1])
  {
    BranchesAt(hashes);
    var last := |Branches(hashes)| - 1;
    assert 2 * last == |hashes| - 1;
  }

  /** The packing loses nothing and reorders nothing: unpacking the elements
      gives back the sibling list in its leaf-to-root order. */
  lemma {:induction false} UnpackBranches(hashes: seq<Hash>)
    ensures Unpack(Branches(hashes), |hashes|) == hashes
    decreases |hashes|
  {
    if |hashes| >= 2 {
      UnpackBranches(hashes[2..]);
      assert Branches(hashes)[1..] == Branches(hashes[2..]);
      assert hashes == [hashes[0], hashes[1]] + hashes[2..];
    }
  }

  /** mtree/util.go HashesToBranchesArray: appends one element per pair index
      `i` while `2i < len(hashes)`. */
  method HashesToBranchesArray(hashes: seq<Hash>) returns (result: seq<BranchElement>)
    ensures result == Branches(hashes)
  {
    result := [];
    var i := 0;
    while i * 2 < |hashes|
      invariant 2 * i <= |hashes| + 1
      invariant |result| == i
      invariant forall k | 0 <= k < i :: 2 * k < |hashes| && result[k] == PairAt(hashes, k)
    {
      if i * 2 + 1 >= |hashes| {
        result := result + [BranchElementFromHash(ZeroHash, hashes[i * 2])];
      } else {
        result := result + [BranchElementFromHash(hashes[i * 2 + 1], hashes[i * 2])];
      }
      i := i + 1;
    }
    BranchesAt(hashes);
  }

  // ---------------------------------------------------------------------------
  // Byte reversal and the conventional word layout (rev, conventionalWord)
  // ---------------------------------------------------------------------------

  /** `s` back to front. */
  function Reversed(s: seq<Byte>): (r: seq<Byte>)
    ensures |r| == |s|
    decreases |s|
  {
    if |s| == 0 then [] else [s[|s| - 1]] + Reversed(s[..|s| - 1])
  }

  /** Byte `k` of the reversal is byte `len - 1 - k` of the original. */
  lemma {:induction false} ReversedIndex(s: seq<Byte>)
    ensures forall k | 0 <= k < |s| :: Reversed(s)[k] == s[|s| - 1 - k]
    decreases |s|
  {
    if |s| > 0 {
      var init := s[..|s| - 1];
      ReversedIndex(init);
      forall k | 0 <= k < |s| ensures Reversed(s)[k] == s[|s| - 1 - k] {
        if k > 0 {
          assert Reversed(s)[k] == Reversed(init)[k - 1];
        }
      }
    }
  }

  /** Reversing twice restores the original. */
  lemma ReversedTwice(s: seq<Byte>)
    ensures Reversed(Reversed(s)) == s
  {
    ReversedIndex(s);
    ReversedIndex(Reversed(s));
  }

  /** mtree/util.go rev: reverses, in place, the slice a[lo:hi] of the
      array `a` (a Go slice is a window onto an array), with two indices
      converging from both ends. Nothing outside the window changes. */
  method Rev(a: array<Byte>, lo: nat, hi: nat)
    requires lo <= hi <= a.Length
    modifies a
    ensures a[..] == RevWindow(old(a[..]), lo, hi)
  {
    ghost var before := a[..];
    var i: int, j: int := lo, hi - 1;
    while i < j
      invariant lo <= i <= j + 1 && i + j == lo + hi - 1
      invariant forall k | lo <= k < i || j < k < hi :: a[k] == before[lo + hi - 1 - k]
      invariant forall k | 0 <= k < a.Length && !(lo <= k < i || j < k < hi) :: a[k] == before[k]
    {
      a[i], a[j] := a[j], a[i];
      i, j := i + 1, j - 1;
    }
    forall k | lo <= k < hi ensures a[..][k] == before[lo + hi - 1 - k] {
      if i <= k <= j {
        assert k == lo + hi - 1 - k;
      }
    }
    WindowReversed(before, a[..], lo, hi);
  }

  /** `s` with its window [lo, hi) reversed and the rest as it was. */
  function RevWindow(s: seq<Byte>, lo: nat, hi: nat): seq<Byte>
    requires lo <= hi <= |s|
  {
    s[..lo] + Reversed(s[lo..hi]) + s[hi..]
  }

  /** A sequence whose window [lo, hi) holds the old window back to front, and
      which agrees with the old one elsewhere, is the old one with that window
      reversed. */
  lemma WindowReversed(before: seq<Byte>, after: seq<Byte>, lo: nat, hi: nat)
    requires |before| == |after| && lo <= hi <= |before|
    requires forall k | lo <= k < hi :: after[k] == before[lo + hi - 1 - k]
    requires forall k | 0 <= k < |before| && !(lo <= k < hi) :: after[k] == before[k]
    ensures after == RevWindow(before, lo, hi)
  {
    var window := before[lo..hi];
    ReversedIndex(window);
    var expected := before[..lo] + Reversed(window) + before[hi..];
    forall k | 0 <= k < |after| ensures after[k] == expected[k] {
      if lo <= k < hi {
        assert expected[k] == Reversed(window)[k - lo] == window[hi - lo - 1 - (k - lo)];
      }
    }
  }

  /** The LeafWords layout of a dataset element: each 32-byte quarter is
      reversed on its own and the quarters keep their order. */
  function Conventional(data: Word): Word
  {
    Reversed(data[..32]) + Reversed(data[32..64]) + Reversed(data[64..96]) + Reversed(data[96..])
  }

  /** Where byte `j` of the layout comes from: byte k of quarter q (j = q*32 + k)
      is input byte q*32 + 31 - k. */
  function Mirror(j: nat): nat
  {
    j / 32 * 32 + 31 - j % 32
  }

  /** Byte `k` of quarter `q` of the layout. */
  lemma ConventionalQuarter(data: Word, q: nat, k: nat)
    requires q < 4 && k < 32
    ensures Conventional(data)[q * 32 + k] == data[q * 32 + 31 - k]
  {
    var part := data[q * 32 .. q * 32 + 32];
    ReversedIndex(part);
    var r0, r1, r2, r3 := Reversed(data[..32]), Reversed(data[32..64]), Reversed(data[64..96]), Reversed(data[96..]);
    assert Conventional(data) == r0 + r1 + r2 + r3;
    if q == 0 {
      assert data[..32] == part;
    } else if q == 1 {
      assert data[32..64] == part;
    } else if q == 2 {
      assert data[64..96] == part;
    } else {
      assert data[96..] == part;
    }
  }

  /** Every byte of the layout is the input byte its quarter mirrors onto it;
      quarters 0 and 1 stay in the first half, 2 and 3 in the second. */
  lemma ConventionalAt(data: Word)
    ensures forall j | 0 <= j < 128 :: Mirror(j) < 128 && j / 64 == Mirror(j) / 64 && Conventional(data)[j] == data[Mirror(j)]
  {
    forall j | 0 <= j < 128 ensures Mirror(j) < 128 && j / 64 == Mirror(j) / 64 && Conventional(data)[j] == data[Mirror(j)] {
      var q, k := j / 32, j % 32;
      assert j == q * 32 + k;
      ConventionalQuarter(data, q, k);
    }
  }

  /** The re-encoding is invertible: applying it twice gives the element back. */
  lemma ConventionalTwice(data: Word)
    ensures Conventional(Conventional(data)) == data
  {
    var c := Conventional(data);
    ConventionalAt(data);
    ConventionalAt(c);
    forall j | 0 <= j < 128 ensures Conventional(c)[j] == data[j] {
      MirrorTwice(j);
      assert Conventional(c)[j] == c[Mirror(j)];
      assert c[Mirror(j)] == data[Mirror(Mirror(j))];
    }
  }

  lemma MirrorTwice(j: nat)
    ensures Mirror(Mirror(j)) == j
  {
    var q, k := j / 32, j % 32;
    assert Mirror(j) == q * 32 + (31 - k);
    assert (q * 32 + (31 - k)) / 32 == q && (q * 32 + (31 - k)) % 32 == 31 - k;
  }

  /** Reversing the 32 bytes right after the quarters already done extends
      the done part by one reversed quarter. */
  lemma ReverseNextQuarter(done: seq<Byte>, rest: seq<Byte>)
    requires |rest| >= 32
    ensures RevWindow(done + rest, |done|, |done| + 32) == done + Reversed(rest[..32]) + rest[32..]
  {
    var s := done + rest;
    assert s[..|done|] == done;
    assert s[|done|..|done| + 32] == rest[..32];
    assert s[|done| + 32..] == rest[32..];
  }

  /** Reversing the four quarters one after the other, in place, gives the
      conventional layout. */
  lemma QuarterByQuarter(data: Word)
    ensures RevWindow(RevWindow(RevWindow(RevWindow(data, 0, 32), 32, 64), 64, 96), 96, 128) == Conventional(data)
  {
    var r0, r1, r2, r3 := Reversed(data[..32]), Reversed(data[32..64]), Reversed(data[64..96]), Reversed(data[96..]);
    assert data[..0] == [] && data[0..32] == data[..32];
    var s1 := RevWindow(data, 0, 32);
    assert s1 == r0 + data[32..];
    ReverseNextQuarter(r0, data[32..]);
    assert data[32..][..32] == data[32..64] && data[32..][32..] == data[64..];
    var s2 := RevWindow(s1, 32, 64);
    assert s2 == (r0 + r1) + data[64..];
    ReverseNextQuarter(r0 + r1, data[64..]);
    assert data[64..][..32] == data[64..96] && data[64..][32..] == data[96..];
    var s3 := RevWindow(s2, 64, 96);
    assert s3 == (r0 + r1 + r2) + data[96..];
    ReverseNextQuarter(r0 + r1 + r2, data[96..]);
    assert data[96..][..32] == data[96..] && data[96..][32..] == [];
  }

  /** mtree/util.go conventionalWord: the `Word` argument is a copy, whose four
      quarters `rev` reverses in place; `first` is its bytes 0..64 and `second`
      its bytes 64..128. */
  method ConventionalWord(data: Word) returns (first: seq<Byte>, second: seq<Byte>)
    ensures |first| == 64 && |second| == 64
    ensures first + second == Conventional(data)
  {
    var a := new Byte[128](i requires 0 <= i < 128 => data[i]);
    assert a[..] == data;
    Rev(a, 0, 32);
    Rev(a, 32, 64);
    Rev(a, 64, 96);
    Rev(a, 96, 128);
    QuarterByQuarter(data);
    // appending the reversed second quarter to `first` writes the same bytes
    // back into the copy, because `first` is a slice of it with room to grow
    first := a[..64];
    second := a[64..];
    assert first + second == a[..];
  }

  // ---------------------------------------------------------------------------
  // Left padding (msbPadding)
  // ---------------------------------------------------------------------------

  /** How many zeros the loop of msbPadding prepends: its `uint32` counter
      starts at `len(a)` truncated to 32 bits and counts up to `size`. */
  function PadCountAsWritten(length: nat, size: Uint32): nat
  {
    var start := length % Uint32Modulus;
    if start < size then size - start else 0
  }

  /** mtree/util.go msbPadding: copies `a`, then prepends one zero byte per
      step of its counter. The result ends with `a` and starts with zeros; for
      any `a` shorter than 2^32 bytes it is exactly PaddedTo(a, size). */
  method MsbPadding(a: seq<Byte>, size: Uint32) returns (result: seq<Byte>)
    ensures result == Zeros(PadCountAsWritten(|a|, size)) + a
    ensures |a| < Uint32Modulus ==> result == PaddedTo(a, size)
  {
    result := a;
    var i: Uint32 := |a| % Uint32Modulus;
    while i < size
      invariant |a| % Uint32Modulus <= i
      invariant i <= size || i == |a| % Uint32Modulus
      invariant result == Zeros(i - |a| % Uint32Modulus) + a
    {
      result := [0] + result;
      i := i + 1;
    }
  }

  /** Left padding as intended: `a` behind zeros, up to `size` bytes. */
  function PaddedTo(a: seq<Byte>, size: nat): (r: seq<Byte>)
    ensures |r| == if |a| < size then size else |a|
    ensures r[|r| - |a|..] == a
    ensures forall k | 0 <= k < |r| - |a| :: r[k] == 0
  {
    if |a| < size then Zeros(size - |a|) + a else a
  }

  /** A byte string of exactly 2^32 bytes, padded to width 1, gets one zero
      byte in front although it is already wider than 1. */
  lemma MsbPaddingOverpads(a: seq<Byte>)
    requires |a| == Uint32Modulus
    ensures |Zeros(PadCountAsWritten(|a|, 1)) + a| == |a| + 1
    ensures |PaddedTo(a, 1)| == |a|
  {
  }

  // ---------------------------------------------------------------------------
  // Big-endian numbers (BytesToBig)
  // ---------------------------------------------------------------------------

  function Pow256(k: nat): (p: nat)
    ensures p >= 1
  {
    if k == 0 then 1 else 256 * Pow256(k - 1)
  }

  /** m < p and b < 256 imply m * 256 + b < p * 256. */
  lemma AppendDigitBound(m: nat, b: Byte, p: nat)
    requires m < p
    ensures m * 256 + b < p * 256
  {
    assert m * 256 <= (p - 1) * 256;
  }

  /** mtree/util.go BytesToBig (big.Int.SetBytes): the bytes read as a
      big-endian unsigned number, so below 256^len(data). */
  function BytesToBig(data: seq<Byte>): (n: nat)
    ensures n < Pow256(|data|)
    decreases |data|
  {
    if |data| == 0 then 0
    else
      AppendDigitBound(BytesToBig(data[..|data| - 1]), data[|data| - 1], Pow256(|data| - 1));
      BytesToBig(data[..|data| - 1]) * 256 + data[|data| - 1]
  }

  /** Big-endian weight: the first byte counts 256^(len-1) times. */
  lemma {:induction false} BytesToBigFirst(data: seq<Byte>)
    requires |data| > 0
    ensures BytesToBig(data) == data[0] * Pow256(|data| - 1) + BytesToBig(data[1..])
    decreases |data|
  {
    var n := |data|;
    if n > 1 {
      var init, tail := data[..n - 1], data[1..];
      BytesToBigFirst(init);
      assert init[1..] == tail[..n - 2];
      var x := BytesToBig(init[1..]);
      assert BytesToBig(tail) == x * 256 + data[n - 1];
      assert BytesToBig(data) == (data[0] * Pow256(n - 2) + x) * 256 + data[n - 1];
      ShiftDigit(data[0], Pow256(n - 2), x, data[n - 1]);
    }
  }

  lemma ShiftDigit(a: nat, p: nat, x: nat, b: nat)
    ensures (a * p + x) * 256 + b == a * (256 * p) + (x * 256 + b)
  {
    assert (a * p + x) * 256 == a * p * 256 + x * 256;
    assert a * p * 256 == a * (256 * p);
  }

  /** Leading zero bytes, as msbPadding adds them, do not change the value. */
  lemma {:induction false} BytesToBigLeadingZeros(k: nat, a: seq<Byte>)
    ensures BytesToBig(Zeros(k) + a) == BytesToBig(a)
    decreases |a|, k
  {
    if |a| == 0 {
      assert Zeros(k) + a == Zeros(k);
      if k > 0 {
        assert Zeros(k)[..k - 1] == Zeros(k - 1) + [];
        BytesToBigLeadingZeros(k - 1, []);
      }
    } else {
      var init := a[..|a| - 1];
      assert (Zeros(k) + a)[..|Zeros(k) + a| - 1] == Zeros(k) + init;
      BytesToBigLeadingZeros(k, init);
    }
  }

  /** Padding to any width keeps the value. */
  lemma PaddedValue(a: seq<Byte>, size: nat)
    ensures BytesToBig(PaddedTo(a, size)) == BytesToBig(a)
  {
    if |a| < size {
      BytesToBigLeadingZeros(size - |a|, a);
    }
  }

  /** The inverse of BytesToBig: `n` written big-endian in `width` bytes. */
  function BigToBytes(n: nat, width: nat): (r: seq<Byte>)
    requires n < Pow256(width)
    ensures |r| == width
    decreases width
  {
    if width == 0 then []
    else BigToBytes(n / 256, width - 1) + [n % 256]
  }

  /** Writing a number out and reading it back gives the number. */
  lemma {:induction false} BytesToBigOfBigToBytes(n: nat, width: nat)
    requires n < Pow256(width)
    ensures BytesToBig(BigToBytes(n, width)) == n
    decreases width
  {
    if width > 0 {
      BytesToBigOfBigToBytes(n / 256, width - 1);
      var r := BigToBytes(n, width);
      assert r[..width - 1] == BigToBytes(n / 256, width - 1);
    }
  }

  /** Reading bytes and writing the number back at the same width gives the bytes. */
  lemma {:induction false} BigToBytesOfBytesToBig(data: seq<Byte>)
    ensures BigToBytes(BytesToBig(data), |data|) == data
    decreases |data|
  {
    if |data| > 0 {
      var init := data[..|data| - 1];
      BigToBytesOfBytesToBig(init);
      var m, b := BytesToBig(init), data[|data| - 1];
      assert (m * 256 + b) / 256 == m && (m * 256 + b) % 256 == b;
      assert data == init + [b];
    }
  }

  // ---------------------------------------------------------------------------
  // The tree, as the dataset reader sees it
  // ---------------------------------------------------------------------------

  /** One `Insert(word, index)` call made on the tree. */
  datatype Insertion = Insertion(leaf: Word, index: Uint32)

  /** One `RegisterStoredLevel(depth, offset)` call made on the tree. */
  datatype StoredLevel = StoredLevel(depth: Uint32, offset: Uint32)

  /** Stand-in for mtree.DagTree, whose internals are not part of this model:
      it records, in order, the calls the dataset reader makes on it. */
  class DagTree {
    var inserted: seq<Insertion>
    var storedLevels: seq<StoredLevel>

    constructor ()
      ensures inserted == [] && storedLevels == []
    {
      inserted := [];
      storedLevels := [];
    }

    method Insert(leaf: Word, index: Uint32)
      modifies this
      ensures inserted == old(inserted) + [Insertion(leaf, index)]
      ensures storedLevels == old(storedLevels)
    {
      inserted := inserted + [Insertion(leaf, index)];
    }

    method RegisterStoredLevel(depth: Uint32, offset: Uint32)
      modifies this
      ensures storedLevels == old(storedLevels) + [StoredLevel(depth, offset)]
      ensures inserted == old(inserted)
    {
      storedLevels := storedLevels + [StoredLevel(depth, offset)];
    }
  }
}
