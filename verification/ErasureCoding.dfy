/** Erasure coding of objects (gateway_ec.c): splitting, XOR parity, and decoding by fragment map. */
module ErasureCoding {

  type Block = seq<bv8>

  const MAX_FRAGMENTS := 20

  predicate Accepted(k: int, m: int) {
    k > 0 && m >= 0 && k + m <= MAX_FRAGMENTS
  }

  // ---------- sizes ----------

  function CeilDiv(n: nat, k: nat): nat
    requires k > 0
  {
    (n + k - 1) / k
  }

  function FragmentSize(n: nat, k: nat): nat
    requires k > 0
  {
    (CeilDiv(n, k) + 63) / 64 * 64
  }

  lemma CeilDivCovers(n: nat, k: nat)
    requires k > 0
    ensures n <= k * CeilDiv(n, k) < n + k
  {
    var q := CeilDiv(n, k);
    assert n + k - 1 == k * q + (n + k - 1) % k;
  }

  /** Fragments are whole multiples of 64, together hold the object, and waste less than 64 bytes each. */
  lemma SizeBounds(n: nat, k: nat)
    requires k > 0
    ensures FragmentSize(n, k) % 64 == 0
    ensures n <= k * FragmentSize(n, k)
    ensures n <= k * CeilDiv(n, k) < n + k
    ensures CeilDiv(n, k) <= FragmentSize(n, k) < CeilDiv(n, k) + 64
  {
    CeilDivCovers(n, k);
    var q, size := CeilDiv(n, k), FragmentSize(n, k);
    assert q <= size;
    assert k * q <= k * size by { MulMono(k, q, size); }
  }

  lemma MulMono(k: nat, a: nat, b: nat)
    requires a <= b
    ensures k * a <= k * b
  {
  }

  // ---------- coefficients ----------

  /** The encode matrix: identity rows for data, an 8-bit product for parity. */
  function Coefficient(k: nat, i: nat, j: nat): nat {
    if i < k then (if i == j then 1 else 0) else ((i - k + 1) * (j + 1)) % 256
  }

  /** No parity coefficient is cut by the 8-bit cast and none is zero. */
  lemma CoefficientRange(k: nat, m: nat, i: nat, j: nat)
    requires Accepted(k, m) && k <= i < k + m && j < k
    ensures 1 <= Coefficient(k, i, j) == (i - k + 1) * (j + 1) <= 100
  {
    var a, b := i - k + 1, j + 1;
    assert a + b <= 20;
    ProductBound(a, b);
  }

  /** Both ends of the range are reached, the upper one with all 20 fragments in use. */
  lemma CoefficientRangeReached()
    ensures Accepted(1, 1) && Coefficient(1, 1, 0) == 1
    ensures Accepted(10, 10) && !Accepted(10, 11) && Coefficient(10, 19, 9) == 100
  {
  }

  lemma ProductBound(a: nat, b: nat)
    requires 1 <= a && 1 <= b && a + b <= 20
    ensures 1 <= a * b <= 100
  {
    assert a * b <= a * (20 - a) by { MulMono(a, b, 20 - a); }
    assert a * (20 - a) == 100 - (a - 10) * (a - 10);
  }

  // ---------- encoding on values ----------

  function ByteAt(data: Block, p: nat): bv8 {
    if p < |data| then data[p] else 0
  }

  /** The i-th data fragment: a slice of the object, padded with zeros. */
  function DataFragment(data: Block, size: nat, i: nat): Block {
    seq(size, b requires 0 <= b < size => ByteAt(data, i * size + b))
  }

  function DataFragments(data: Block, size: nat, k: nat): (r: seq<Block>)
    ensures |r| == k && forall i :: 0 <= i < k ==> r[i] == DataFragment(data, size, i)
  {
    if k == 0 then [] else DataFragments(data, size, k - 1) + [DataFragment(data, size, k - 1)]
  }

  function Xor(col: Block): bv8 {
    if col == [] then 0 else Xor(col[..|col| - 1]) ^ col[|col| - 1]
  }

  predicate Uniform(fs: seq<Block>, size: nat) {
    forall i :: 0 <= i < |fs| ==> |fs[i]| == size
  }

  /** Byte b of every fragment. */
  function Column(fs: seq<Block>, size: nat, b: nat): Block
    requires Uniform(fs, size) && b < size
  {
    seq(|fs|, i requires 0 <= i < |fs| => fs[i][b])
  }

  function Parity(fs: seq<Block>, size: nat): (r: Block)
    requires Uniform(fs, size)
    ensures |r| == size
  {
    seq(size, b requires 0 <= b < size => Xor(Column(fs, size, b)))
  }

  /** Byte b of a parity row: the XOR of the first j data fragments whose coefficient is not zero. */
  function RowTo(fs: seq<Block>, size: nat, k: nat, i: nat, b: nat, j: nat): bv8
    requires Uniform(fs, size) && b < size && j <= |fs|
  {
    if j == 0 then 0
    else
      var x := RowTo(fs, size, k, i, b, j - 1);
      if Coefficient(k, i, j - 1) == 0 then x else x ^ fs[j - 1][b]
  }

  function Row(fs: seq<Block>, size: nat, k: nat, i: nat): (r: Block)
    requires Uniform(fs, size)
    ensures |r| == size
  {
    seq(size, b requires 0 <= b < size => RowTo(fs, size, k, i, b, |fs|))
  }

  function Rows(fs: seq<Block>, size: nat, k: nat, m: nat): (r: seq<Block>)
    requires Uniform(fs, size)
    ensures |r| == m && Uniform(r, size) && forall i :: 0 <= i < m ==> r[i] == Row(fs, size, k, k + i)
  {
    if m == 0 then [] else Rows(fs, size, k, m - 1) + [Row(fs, size, k, k + m - 1)]
  }

  /** All fragments: the data, then the parity rows of the encode matrix. */
  function Encode(data: Block, k: nat, m: nat): (r: seq<Block>)
    requires k > 0
    ensures |r| == k + m && Uniform(r, FragmentSize(|data|, k))
  {
    var size := FragmentSize(|data|, k);
    var fs := DataFragments(data, size, k);
    fs + Rows(fs, size, k, m)
  }

  lemma {:induction false} RowToIsXor(fs: seq<Block>, size: nat, k: nat, m: nat, i: nat, b: nat, j: nat)
    requires Accepted(k, m) && k <= i < k + m && |fs| == k
    requires Uniform(fs, size) && b < size && j <= k
    ensures RowTo(fs, size, k, i, b, j) == Xor(Column(fs, size, b)[..j])
  {
    hide Coefficient;
    if j > 0 {
      RowToIsXor(fs, size, k, m, i, b, j - 1);
      CoefficientRange(k, m, i, j - 1);
      assert Column(fs, size, b)[..j][..j - 1] == Column(fs, size, b)[..j - 1];
    }
  }

  /** No coefficient being zero, every row of the matrix is the XOR of all data fragments. */
  lemma RowIsParity(fs: seq<Block>, size: nat, k: nat, m: nat, i: nat)
    requires Accepted(k, m) && k <= i < k + m && |fs| == k && Uniform(fs, size)
    ensures Row(fs, size, k, i) == Parity(fs, size)
  {
    hide Xor, RowTo;
    forall b | 0 <= b < size ensures Row(fs, size, k, i)[b] == Parity(fs, size)[b] {
      RowToIsXor(fs, size, k, m, i, b, k);
      assert Column(fs, size, b)[..k] == Column(fs, size, b);
    }
  }

  /** Every parity fragment is the XOR of all data fragments. */
  lemma ParityRow(data: Block, k: nat, m: nat, i: nat)
    requires Accepted(k, m) && k <= i < k + m
    ensures Uniform(Encode(data, k, m)[..k], FragmentSize(|data|, k))
    ensures Encode(data, k, m)[i] == Parity(Encode(data, k, m)[..k], FragmentSize(|data|, k))
  {
    hide FragmentSize, DataFragments, Parity, Row;
    var fs := DataFragments(data, FragmentSize(|data|, k), k);
    assert Encode(data, k, m)[..k] == fs;
    RowIsParity(fs, FragmentSize(|data|, k), k, m, i);
  }

  lemma DataRow(data: Block, k: nat, m: nat, i: nat)
    requires i < k
    ensures Encode(data, k, m)[i] == DataFragment(data, FragmentSize(|data|, k), i)
  {
  }

  // ---------- decoding on values ----------

  /** The first list position whose fragment index is i, or the list's length. */
  function FirstWith(fmap: seq<int>, i: int, j: nat): (r: nat)
    requires j <= |fmap|
    ensures j <= r <= |fmap| && (r < |fmap| ==> fmap[r] == i)
    ensures forall x :: j <= x < r ==> fmap[x] != i
    decreases |fmap| - j
  {
    if j == |fmap| then j else if fmap[j] == i then j else FirstWith(fmap, i, j + 1)
  }

  /** The output up to data fragment n: found fragments, and what the buffer held where none is found. */
  function Decode(fs: seq<Block>, fmap: seq<int>, size: nat, n: nat, out: Block): Block
    requires |fmap| == |fs| && n * size <= |out|
  {
    if n == 0 then []
    else
      assert n * size == (n - 1) * size + size;
      var j := FirstWith(fmap, n - 1, 0);
      Decode(fs, fmap, size, n - 1, out)
      + (if j < |fs| then fs[j] else out[(n - 1) * size..n * size])
  }

  function Zeros(n: nat): Block {
    seq(n, _ => 0)
  }

  /** The object followed by zeros up to a length. */
  function Padded(data: Block, n: nat): Block {
    seq(n, p requires 0 <= p < n => ByteAt(data, p))
  }

  lemma PaddedIsDataThenZeros(data: Block, n: nat)
    requires |data| <= n
    ensures Padded(data, n) == data + Zeros(n - |data|)
  {
  }

  lemma PaddedNext(data: Block, size: nat, i: nat)
    ensures Padded(data, (i + 1) * size) == Padded(data, i * size) + DataFragment(data, size, i)
  {
    assert (i + 1) * size == i * size + size;
  }

  /** The listed fragments are fragments of this object. */
  ghost predicate FromEncoding(data: Block, k: nat, m: nat, fs: seq<Block>, fmap: seq<int>)
    requires k > 0
  {
    |fmap| == |fs| && forall j :: 0 <= j < |fs| ==> 0 <= fmap[j] < k + m && fs[j] == Encode(data, k, m)[fmap[j]]
  }

  lemma {:induction false} DecodeUpTo(data: Block, k: nat, m: nat, fs: seq<Block>, fmap: seq<int>, n: nat, out: Block)
    requires k > 0 && FromEncoding(data, k, m, fs, fmap)
    requires n <= k && n * FragmentSize(|data|, k) <= |out|
    requires forall i :: 0 <= i < n ==> i in fmap
    ensures Decode(fs, fmap, FragmentSize(|data|, k), n, out) == Padded(data, n * FragmentSize(|data|, k))
  {
    hide Padded, DataFragment, FragmentSize, Row;
    var size := FragmentSize(|data|, k);
    if n == 0 {
      PaddedEmpty(data);
      assert n * size == 0;
    } else {
      assert n * size == (n - 1) * size + size;
      DecodeUpTo(data, k, m, fs, fmap, n - 1, out);
      var j := FirstWith(fmap, n - 1, 0);
      assert n - 1 in fmap;
      assert fs[j] == DataFragment(data, size, n - 1);
      PaddedNext(data, size, n - 1);
    }
  }

  lemma PaddedEmpty(data: Block)
    ensures Padded(data, 0) == []
  {
  }

  /**
   Decoding any list of fragments that covers all data indices, in any order, with duplicates and
   with parity mixed in, gives the object followed by zeros, whatever was in the buffer.
   */
  lemma DecodeRecovers(data: Block, k: nat, m: nat, fs: seq<Block>, fmap: seq<int>, out: Block)
    requires k > 0 && FromEncoding(data, k, m, fs, fmap)
    requires k * FragmentSize(|data|, k) <= |out|
    requires forall i :: 0 <= i < k ==> i in fmap
    ensures |data| <= k * FragmentSize(|data|, k)
    ensures Decode(fs, fmap, FragmentSize(|data|, k), k, out)
            == data + Zeros(k * FragmentSize(|data|, k) - |data|)
  {
    hide Decode, FragmentSize, Encode;
    SizeBounds(|data|, k);
    DecodeUpTo(data, k, m, fs, fmap, k, out);
    PaddedIsDataThenZeros(data, k * FragmentSize(|data|, k));
  }

  /** Whatever the output buffer held, decoding gives the object followed by zeros. */
  ghost predicate AlwaysRecovers(data: Block, k: nat, fs: seq<Block>, fmap: seq<int>)
    requires k > 0 && |fmap| == |fs|
  {
    var size := FragmentSize(|data|, k);
    forall out: Block :: k * size <= |out| ==> Decode(fs, fmap, size, k, out) == Padded(data, k * size)
  }

  /** Where no fragment is listed, the buffer keeps what it held. */
  lemma {:induction false} DecodeMissing(fs: seq<Block>, fmap: seq<int>, size: nat, n: nat, out: Block, i: nat, b: nat)
    requires |fmap| == |fs| && Uniform(fs, size) && n * size <= |out|
    requires i < n && i !in fmap && b < size
    ensures 0 <= i * size + b < n * size == |Decode(fs, fmap, size, n, out)|
    ensures Decode(fs, fmap, size, n, out)[i * size + b] == out[i * size + b]
  {
    DecodeLength(fs, fmap, size, n, out);
    BlockInside(size, i, n, b);
    assert n * size == (n - 1) * size + size;
    DecodeLength(fs, fmap, size, n - 1, out);
    if i < n - 1 {
      DecodeMissing(fs, fmap, size, n - 1, out, i, b);
    }
  }

  lemma {:induction false} DecodeLength(fs: seq<Block>, fmap: seq<int>, size: nat, n: nat, out: Block)
    requires |fmap| == |fs| && Uniform(fs, size) && n * size <= |out|
    ensures |Decode(fs, fmap, size, n, out)| == n * size
  {
    if n > 0 {
      assert n * size == (n - 1) * size + size;
      DecodeLength(fs, fmap, size, n - 1, out);
    }
  }

  lemma BlockInside(size: nat, i: nat, n: nat, b: nat)
    requires i < n && b < size
    ensures i * size + b < n * size
  {
    MulMono(size, i + 1, n);
  }

  /**
   The decoder does not use parity: decoding a non-empty object from any list of its fragments gives
   the object followed by zeros, whatever was in the buffer, exactly when every data index is listed.
   */
  lemma DecodeRecoversIff(data: Block, k: nat, m: nat, fs: seq<Block>, fmap: seq<int>)
    requires k > 0 && data != [] && FromEncoding(data, k, m, fs, fmap)
    ensures AlwaysRecovers(data, k, fs, fmap) <==> forall i :: 0 <= i < k ==> i in fmap
  {
    hide Decode, FragmentSize, Encode, Padded, ByteAt;
    var size := FragmentSize(|data|, k);
    SizeBounds(|data|, k);
    if i :| 0 <= i < k && i !in fmap {
      SizePositive(|data|, k);
      var out: Block := Other(ByteAt(data, i * size), k * size);
      assert Uniform(fs, size);
      DecodeMissing(fs, fmap, size, k, out, i, 0);
      PaddedAt(data, k * size, i * size);
      assert Decode(fs, fmap, size, k, out)[i * size] != Padded(data, k * size)[i * size];
    } else {
      forall out: Block | k * size <= |out| ensures Decode(fs, fmap, size, k, out) == Padded(data, k * size) {
        DecodeUpTo(data, k, m, fs, fmap, k, out);
      }
    }
  }

  /** A buffer filled with another byte. */
  function Other(x: bv8, n: nat): (r: Block)
    ensures |r| == n && forall i :: 0 <= i < n ==> r[i] != x
  {
    seq(n, _ => if x == 0 then 1 else 0)
  }

  lemma PaddedAt(data: Block, n: nat, p: nat)
    requires p < n
    ensures |Padded(data, n)| == n && Padded(data, n)[p] == ByteAt(data, p)
  {
  }

  lemma SizePositive(n: nat, k: nat)
    requires n > 0 && k > 0
    ensures FragmentSize(n, k) > 0
  {
    SizeBounds(n, k);
  }

  // ---------- what the fragments determine ----------

  lemma {:induction false} XorUpdate(col: Block, p: nat, v: bv8)
    requires p < |col|
    ensures Xor(col[p := v]) == Xor(col) ^ col[p] ^ v
  {
    var n := |col| - 1;
    if p == n {
      assert col[p := v][..n] == col[..n];
    } else {
      assert col[p := v][..n] == col[..n][p := v];
      XorUpdate(col[..n], p, v);
    }
  }

  /**
   Any one data fragment is the XOR of a parity fragment and the other data fragments: replace
   the lost fragment by the parity and take the parity of that.
   */
  lemma RecoverOne(data: Block, k: nat, m: nat, lost: nat, i: nat)
    requires Accepted(k, m) && lost < k <= i < k + m
    ensures var size, e := FragmentSize(|data|, k), Encode(data, k, m);
            Uniform(e[..k][lost := e[i]], size) && Parity(e[..k][lost := e[i]], size) == e[lost]
  {
    var size, e := FragmentSize(|data|, k), Encode(data, k, m);
    hide FragmentSize, DataFragment, Encode, Xor;
    ParityRow(data, k, m, i);
    var fs := e[..k];
    var gs := fs[lost := e[i]];
    forall b | 0 <= b < size ensures Parity(gs, size)[b] == e[lost][b] {
      var col := Column(fs, size, b);
      XorUpdate(col, lost, e[i][b]);
      assert Column(gs, size, b) == col[lost := e[i][b]];
      CancelXor(Xor(col), col[lost]);
    }
  }

  lemma CancelXor(x: bv8, y: bv8)
    ensures x ^ y ^ x == y
  {
  }

  /** The objects have the same fragments at the kept indices. */
  ghost predicate SameOn(x: Block, y: Block, k: nat, m: nat, kept: set<nat>)
    requires k > 0
  {
    forall i :: i in kept && i < k + m ==> Encode(x, k, m)[i] == Encode(y, k, m)[i]
  }

  /** The kept fragments tell objects of n bytes apart. */
  ghost predicate Determined(n: nat, k: nat, m: nat, kept: set<nat>)
    requires k > 0
  {
    forall x: Block, y: Block :: |x| == |y| == n && SameOn(x, y, k, m, kept) ==> x == y
  }

  /** The lost data fragments that hold bytes of an object of n bytes, not just padding. */
  ghost function Lost(n: nat, k: nat, kept: set<nat>): set<nat>
    requires k > 0
  {
    set i: nat | i < k && i * FragmentSize(n, k) < n && i !in kept
  }

  ghost predicate ParityKept(k: nat, m: nat, kept: set<nat>) {
    exists i :: i in kept && k <= i < k + m
  }

  /** An object of n bytes, all zero but for a one at the start of fragments p and q. */
  function Marked(n: nat, size: nat, p: nat, q: nat): Block {
    seq(n, x requires 0 <= x < n => if x == p * size || x == q * size then 1 else 0)
  }

  /** A position determines its fragment and its place there. */
  lemma BlockUnique(size: nat, i: nat, b: nat, p: nat)
    requires b < size
    ensures i * size + b == p * size <==> i == p && b == 0
  {
    if i < p { BlockInside(size, i, p, b); }
    if p < i { MulMono(size, p + 1, i); }
  }

  lemma MarkedFragment(n: nat, size: nat, p: nat, q: nat, i: nat, b: nat)
    requires p * size < n && q * size < n && b < size
    ensures DataFragment(Marked(n, size, p, q), size, i)[b] == if (i == p || i == q) && b == 0 then 1 else 0
  {
    var x := i * size + b;
    BlockUnique(size, i, b, p);
    BlockUnique(size, i, b, q);
    assert DataFragment(Marked(n, size, p, q), size, i)[b] == ByteAt(Marked(n, size, p, q), x);
  }

  lemma ZeroFragment(n: nat, size: nat, i: nat)
    ensures DataFragment(Zeros(n), size, i) == Zeros(size)
  {
    forall b | 0 <= b < size ensures DataFragment(Zeros(n), size, i)[b] == 0 {
      assert DataFragment(Zeros(n), size, i)[b] == ByteAt(Zeros(n), i * size + b);
    }
  }

  lemma MarkedElsewhere(n: nat, size: nat, p: nat, q: nat, i: nat)
    requires p * size < n && q * size < n && i != p && i != q
    ensures DataFragment(Marked(n, size, p, q), size, i) == Zeros(size)
  {
    var f := DataFragment(Marked(n, size, p, q), size, i);
    forall b | 0 <= b < size ensures f[b] == 0 { MarkedFragment(n, size, p, q, i, b); }
    assert f == Zeros(size);
  }

  /** Data fragments other than p and q do not show the marks. */
  lemma MarksHidden(n: nat, k: nat, m: nat, p: nat, q: nat, i: nat)
    requires p < k && q < k && i < k && i != p && i != q
    requires p * FragmentSize(n, k) < n && q * FragmentSize(n, k) < n
    ensures |Marked(n, FragmentSize(n, k), p, q)| == n == |Zeros(n)|
    ensures Encode(Zeros(n), k, m)[i] == Encode(Marked(n, FragmentSize(n, k), p, q), k, m)[i]
  {
    var size := FragmentSize(n, k);
    hide FragmentSize, Encode, DataFragment;
    var y := Marked(n, size, p, q);
    assert |y| == n == |Zeros(n)|;
    DataRow(Zeros(n), k, m, i);
    DataRow(y, k, m, i);
    ZeroFragment(n, size, i);
    MarkedElsewhere(n, size, p, q, i);
  }

  /** Two marks cancel in every parity fragment. */
  lemma MarksCancel(n: nat, k: nat, m: nat, p: nat, q: nat, i: nat)
    requires Accepted(k, m) && p < q < k <= i < k + m
    requires p * FragmentSize(n, k) < n && q * FragmentSize(n, k) < n
    ensures |Marked(n, FragmentSize(n, k), p, q)| == n == |Zeros(n)|
    ensures Encode(Zeros(n), k, m)[i] == Encode(Marked(n, FragmentSize(n, k), p, q), k, m)[i]
  {
    var size := FragmentSize(n, k);
    var x, y := Zeros(n), Marked(n, size, p, q);
    assert |y| == n == |x|;
    hide FragmentSize, Encode, DataFragment, Xor, Marked, Zeros;
    ParityRow(x, k, m, i);
    ParityRow(y, k, m, i);
    var f, g := Encode(x, k, m)[..k], Encode(y, k, m)[..k];
    forall j | 0 <= j < k ensures f[j] == DataFragment(x, size, j) && g[j] == DataFragment(y, size, j) {
      DataRow(x, k, m, j);
      DataRow(y, k, m, j);
    }
    forall b | 0 <= b < size ensures Parity(f, size)[b] == Parity(g, size)[b] {
      SameColumn(n, size, k, p, q, b, f, g);
    }
  }

  lemma SameColumn(n: nat, size: nat, k: nat, p: nat, q: nat, b: nat, f: seq<Block>, g: seq<Block>)
    requires p < q < k && b < size && |f| == |g| == k && Uniform(f, size) && Uniform(g, size)
    requires p * size < n && q * size < n
    requires forall i :: 0 <= i < k ==> f[i] == DataFragment(Zeros(n), size, i)
    requires forall i :: 0 <= i < k ==> g[i] == DataFragment(Marked(n, size, p, q), size, i)
    ensures Xor(Column(f, size, b)) == Xor(Column(g, size, b))
  {
    hide Xor, DataFragment, Marked;
    var col, v: bv8 := Column(f, size, b), if b == 0 then 1 else 0;
    forall i | 0 <= i < k ensures col[i] == 0 && Column(g, size, b)[i] == if i == p || i == q then v else 0 {
      ZeroFragment(n, size, i);
      MarkedFragment(n, size, p, q, i, b);
    }
    assert Column(g, size, b) == col[p := v][q := v];
    XorUpdate(col, p, v);
    XorUpdate(col[p := v], q, v);
    assert Xor(col) ^ 0 ^ v ^ 0 ^ v == Xor(col);
  }

  lemma MarkedDiffers(n: nat, size: nat, p: nat, q: nat)
    requires p * size < n
    ensures |Marked(n, size, p, q)| == n == |Zeros(n)| && Marked(n, size, p, q) != Zeros(n)
  {
    assert Marked(n, size, p, q)[p * size] == 1 && Zeros(n)[p * size] == 0;
  }

  /** Two lost data fragments, or one and all parity, leave two objects that cannot be told apart. */
  lemma Ambiguous(n: nat, k: nat, m: nat, kept: set<nat>, p: nat, q: nat)
    requires Accepted(k, m) && p in Lost(n, k, kept) && q in Lost(n, k, kept)
    requires p < q || (p == q && !ParityKept(k, m, kept))
    ensures !Determined(n, k, m, kept)
  {
    hide FragmentSize, Encode, Marked, Zeros;
    var x, y := Zeros(n), Marked(n, FragmentSize(n, k), p, q);
    MarkedDiffers(n, FragmentSize(n, k), p, q);
    forall i | i in kept && i < k + m ensures Encode(x, k, m)[i] == Encode(y, k, m)[i] {
      if i < k { MarksHidden(n, k, m, p, q, i); } else { MarksCancel(n, k, m, p, q, i); }
    }
    assert SameOn(x, y, k, m, kept);
  }

  /** Objects of one length with the same data fragments are the same. */
  lemma SameFragments(x: Block, y: Block, k: nat)
    requires k > 0 && |x| == |y|
    requires var size := FragmentSize(|x|, k); forall i :: 0 <= i < k ==> DataFragment(x, size, i) == DataFragment(y, size, i)
    ensures x == y
  {
    hide FragmentSize, DataFragment;
    var size := FragmentSize(|x|, k);
    SizeBounds(|x|, k);
    SamePadded(x, y, size, k);
    forall p | 0 <= p < |x| ensures x[p] == y[p] {
      assert x[p] == Padded(x, k * size)[p] && y[p] == Padded(y, k * size)[p];
    }
  }

  lemma {:induction false} SamePadded(x: Block, y: Block, size: nat, n: nat)
    requires forall i :: 0 <= i < n ==> DataFragment(x, size, i) == DataFragment(y, size, i)
    ensures Padded(x, n * size) == Padded(y, n * size)
  {
    hide DataFragment;
    if n == 0 {
      assert n * size == 0;
    } else {
      SamePadded(x, y, size, n - 1);
      PaddedNext(x, size, n - 1);
      PaddedNext(y, size, n - 1);
      assert (n - 1) + 1 == n;
    }
  }

  lemma PaddingFragment(x: Block, y: Block, size: nat, i: nat)
    requires |x| == |y| && |x| <= i * size
    ensures DataFragment(x, size, i) == DataFragment(y, size, i)
  {
    forall b | 0 <= b < size ensures DataFragment(x, size, i)[b] == DataFragment(y, size, i)[b] {
      assert ByteAt(x, i * size + b) == 0 == ByteAt(y, i * size + b);
    }
  }

  /** With at most one data fragment lost, and then some parity kept, the data fragments are determined. */
  lemma FragmentDetermined(x: Block, y: Block, k: nat, m: nat, kept: set<nat>, p: nat)
    requires Accepted(k, m) && |x| == |y| && SameOn(x, y, k, m, kept) && p < k
    requires forall i :: i in Lost(|x|, k, kept) ==> i == p && ParityKept(k, m, kept)
    ensures var size := FragmentSize(|x|, k); DataFragment(x, size, p) == DataFragment(y, size, p)
  {
    hide FragmentSize, Encode, DataFragment, Parity;
    var size := FragmentSize(|x|, k);
    DataRow(x, k, m, p);
    DataRow(y, k, m, p);
    if p in Lost(|x|, k, kept) {
      var i :| i in kept && k <= i < k + m;
      var f, g := Encode(x, k, m), Encode(y, k, m);
      RecoverOne(x, k, m, p, i);
      RecoverOne(y, k, m, p, i);
      forall j | 0 <= j < k && j != p ensures f[j] == g[j] {
        OtherFragment(x, y, k, m, kept, j);
      }
      assert f[..k][p := f[i]] == g[..k][p := g[i]];
    } else {
      OtherFragment(x, y, k, m, kept, p);
    }
  }

  lemma OtherFragment(x: Block, y: Block, k: nat, m: nat, kept: set<nat>, j: nat)
    requires k > 0 && |x| == |y| && SameOn(x, y, k, m, kept) && j < k && j !in Lost(|x|, k, kept)
    ensures Encode(x, k, m)[j] == Encode(y, k, m)[j]
  {
    hide FragmentSize, Encode, DataFragment;
    if j !in kept {
      DataRow(x, k, m, j);
      DataRow(y, k, m, j);
      PaddingFragment(x, y, FragmentSize(|x|, k), j);
    }
  }

  lemma CoveredIsDetermined(n: nat, k: nat, m: nat, kept: set<nat>)
    requires Accepted(k, m)
    requires |Lost(n, k, kept)| == 0 || (|Lost(n, k, kept)| == 1 && ParityKept(k, m, kept))
    ensures Determined(n, k, m, kept)
  {
    hide FragmentSize, Encode, DataFragment, Lost, ParityKept;
    forall x: Block, y: Block | |x| == |y| == n && SameOn(x, y, k, m, kept) ensures x == y {
      forall i | 0 <= i < k
        ensures DataFragment(x, FragmentSize(n, k), i) == DataFragment(y, FragmentSize(n, k), i)
      {
        if i !in Lost(n, k, kept) {
          OtherFragment(x, y, k, m, kept, i);
          DataRow(x, k, m, i);
          DataRow(y, k, m, i);
        } else {
          OnlyElement(Lost(n, k, kept), i);
          FragmentDetermined(x, y, k, m, kept, i);
        }
      }
      SameFragments(x, y, k);
    }
  }

  lemma OnlyElement(s: set<nat>, p: nat)
    requires |s| <= 1 && p in s
    ensures forall i :: i in s ==> i == p
  {
    assert |s - {p}| == 0;
    assert s == {p} + (s - {p});
  }

  lemma TwoElements(s: set<nat>) returns (p: nat, q: nat)
    requires |s| >= 2
    ensures p in s && q in s && p < q
  {
    var x :| x in s;
    assert |s - {x}| >= 1;
    var y :| y in s - {x};
    p, q := if x < y then x else y, if x < y then y else x;
  }

  /**
   For objects of any one length and any set of kept fragments, data or parity: the fragments
   determine the object exactly when no data fragment with bytes of the object is lost, or one is
   and some parity fragment is kept.
   */
  lemma DeterminedIff(n: nat, k: nat, m: nat, kept: set<nat>)
    requires Accepted(k, m)
    ensures Determined(n, k, m, kept)
            <==> |Lost(n, k, kept)| == 0 || (|Lost(n, k, kept)| == 1 && ParityKept(k, m, kept))
  {
    hide Determined, Lost, ParityKept;
    var lost := Lost(n, k, kept);
    if |lost| >= 2 {
      var p, q := TwoElements(lost);
      Ambiguous(n, k, m, kept, p, q);
    } else if |lost| == 1 && !ParityKept(k, m, kept) {
      var p :| p in lost;
      Ambiguous(n, k, m, kept, p, p);
    } else {
      CoveredIsDetermined(n, k, m, kept);
    }
  }

  /** The lost data fragments. */
  ghost function LostData(k: nat, kept: set<nat>): set<nat> {
    set i: nat | i < k && i !in kept
  }

  lemma Sixty4(k: nat)
    requires k > 0
    ensures FragmentSize(64 * k, k) == 64
  {
    assert 64 * k + k - 1 == 64 * k + (k - 1);
    assert CeilDiv(64 * k, k) == 64 by { DivExact(64, k, k - 1); }
  }

  lemma DivExact(q: nat, k: nat, r: nat)
    requires r < k
    ensures (q * k + r) / k == q
  {
    var x := (q * k + r) / k;
    assert q * k + r == x * k + (q * k + r) % k;
    if x < q {
      MulMono(k, x + 1, q);
    } else if x > q {
      MulMono(k, q + 1, x);
    }
  }

  /**
   The kept fragments determine objects of every length exactly when no data fragment is lost, or
   one is and some parity fragment is kept: the code stands one data loss, however much parity it has.
   */
  lemma AlwaysDeterminedIff(k: nat, m: nat, kept: set<nat>)
    requires Accepted(k, m)
    ensures (forall n :: Determined(n, k, m, kept))
            <==> |LostData(k, kept)| == 0 || (|LostData(k, kept)| == 1 && ParityKept(k, m, kept))
  {
    hide Determined, ParityKept;
    forall n ensures Determined(n, k, m, kept) <==>
                     |Lost(n, k, kept)| == 0 || (|Lost(n, k, kept)| == 1 && ParityKept(k, m, kept))
    {
      DeterminedIff(n, k, m, kept);
    }
    Sixty4(k);
    assert Lost(64 * k, k, kept) == LostData(k, kept);
    if Determined(64 * k, k, m, kept) {
      forall n ensures Determined(n, k, m, kept) { FewerLost(n, k, m, kept); }
    }
  }

  /** At any length no more is lost than the data fragments. */
  lemma FewerLost(n: nat, k: nat, m: nat, kept: set<nat>)
    requires Accepted(k, m)
    requires |LostData(k, kept)| == 0 || (|LostData(k, kept)| == 1 && ParityKept(k, m, kept))
    ensures Determined(n, k, m, kept)
  {
    hide Determined, ParityKept;
    SubsetSize(Lost(n, k, kept), LostData(k, kept));
    DeterminedIff(n, k, m, kept);
  }

  lemma {:induction false} SubsetSize(s: set<nat>, t: set<nat>)
    requires s <= t
    ensures |s| <= |t|
  {
    if s != {} {
      var x :| x in s;
      SubsetSize(s - {x}, t - {x});
    }
  }
}
