/** The erasure coding engine: matrix, fragment and output buffers filled in place. */
module ErasureEngine {
  import opened ErasureCoding

  class Engine {
    const k: nat
    const m: nat
    const matrix: array2<nat>

    ghost predicate Valid()
      reads this, matrix
    {
      && Accepted(k, m)
      && matrix.Length0 == k + m && matrix.Length1 == k
      && forall i, j :: 0 <= i < k + m && 0 <= j < k ==> matrix[i, j] == Coefficient(k, i, j)
    }

    constructor (k: nat, m: nat)
      requires Accepted(k, m)
      ensures Valid() && fresh(matrix) && this.k == k && this.m == m
    {
      this.k := k;
      this.m := m;
      var a := new nat[k + m, k]((_, _) => 0);
      matrix := a;
      new;
      FillIdentity(k, m, a);
      FillParity(k, m, a);
    }

    /** erasure_coding_encode: zeroed fragments, the data copied in, the parity accumulated. */
    method Encode(data: array<bv8>) returns (fragments: array2<bv8>)
      requires Valid()
      ensures fresh(fragments)
      ensures fragments.Length0 == k + m && fragments.Length1 == FragmentSize(data.Length, k)
      ensures forall i, b :: 0 <= i < k + m && 0 <= b < fragments.Length1 ==>
                fragments[i, b] == ErasureCoding.Encode(data[..], k, m)[i][b]
    {
      hide FragmentSize, Row, Parity;
      var size := FragmentSize(data.Length, k);
      fragments := new bv8[k + m, size]((_, _) => 0);
      CopyData(data, k, size, fragments);
      ghost var fs := DataFragments(data[..], size, k);
      var i := k;
      while i < k + m
        invariant k <= i <= k + m
        invariant forall r, b :: 0 <= r < k && 0 <= b < size ==> fragments[r, b] == fs[r][b]
        invariant forall r, b :: k <= r < i && 0 <= b < size ==> fragments[r, b] == Row(fs, size, k, r)[b]
        invariant forall r, b :: i <= r < k + m && 0 <= b < size ==> fragments[r, b] == 0
      {
        AccumulateRow(i, size, fragments, fs);
        i := i + 1;
      }
      forall r, b | 0 <= r < k + m && 0 <= b < size
        ensures fragments[r, b] == ErasureCoding.Encode(data[..], k, m)[r][b]
      {
        EncodeRows(data[..], k, m, r);
      }
    }

    /** One parity row: XOR in every data fragment whose coefficient is not zero. */
    method AccumulateRow(i: nat, size: nat, fragments: array2<bv8>, ghost fs: seq<Block>)
      requires Valid() && k <= i < k + m && matrix as object != fragments as object
      requires fragments.Length0 == k + m && fragments.Length1 == size
      requires |fs| == k && Uniform(fs, size)
      requires forall r, b :: 0 <= r < k && 0 <= b < size ==> fragments[r, b] == fs[r][b]
      requires forall b :: 0 <= b < size ==> fragments[i, b] == 0
      modifies fragments
      ensures forall b :: 0 <= b < size ==> fragments[i, b] == Row(fs, size, k, i)[b] == Parity(fs, size)[b]
      ensures forall r, b :: 0 <= r < k + m && r != i && 0 <= b < size ==> fragments[r, b] == old(fragments[r, b])
    {
      hide Parity, Coefficient, RowTo, Row;
      forall b | 0 <= b < size ensures RowTo(fs, size, k, i, b, 0) == 0 { RowToStart(fs, size, k, i, b); }
      var j := 0;
      while j < k
        invariant 0 <= j <= k && Valid()
        invariant forall b :: 0 <= b < size ==> fragments[i, b] == RowTo(fs, size, k, i, b, j)
        invariant forall r, b :: 0 <= r < k + m && r != i && 0 <= b < size ==> fragments[r, b] == old(fragments[r, b])
      {
        AccumulateOne(i, j, size, fragments, fs);
        j := j + 1;
      }
      RowIsParity(fs, size, k, m, i);
      forall b | 0 <= b < size ensures RowTo(fs, size, k, i, b, k) == Row(fs, size, k, i)[b] { RowToAll(fs, size, k, i, b); }
    }

    /** The body of the row loop: a zero coefficient skips the fragment. */
    method AccumulateOne(i: nat, j: nat, size: nat, fragments: array2<bv8>, ghost fs: seq<Block>)
      requires Valid() && j < k <= i < k + m
      requires fragments.Length0 == k + m && fragments.Length1 == size
      requires |fs| == k && Uniform(fs, size)
      requires forall b :: 0 <= b < size ==> fragments[j, b] == fs[j][b]
      requires forall b :: 0 <= b < size ==> fragments[i, b] == RowTo(fs, size, k, i, b, j)
      modifies fragments
      ensures forall b :: 0 <= b < size ==> fragments[i, b] == RowTo(fs, size, k, i, b, j + 1)
      ensures forall r, b :: 0 <= r < k + m && r != i && 0 <= b < size ==> fragments[r, b] == old(fragments[r, b])
    {
      hide RowTo, Coefficient;
      forall b | 0 <= b < size
        ensures RowTo(fs, size, k, i, b, j + 1)
                == if Coefficient(k, i, j) == 0 then RowTo(fs, size, k, i, b, j)
                   else RowTo(fs, size, k, i, b, j) ^ fs[j][b]
      {
        RowToNext(fs, size, k, i, b, j);
      }
      if matrix[i, j] != 0 {
        XorRow(i, j, size, fragments);
      }
    }

    /** The innermost loop: fragment i becomes its XOR with fragment j. */
    method XorRow(i: nat, j: nat, size: nat, fragments: array2<bv8>)
      requires i < fragments.Length0 && j < fragments.Length0 && i != j && fragments.Length1 == size
      modifies fragments
      ensures forall b :: 0 <= b < size ==> fragments[i, b] == old(fragments[i, b]) ^ old(fragments[j, b])
      ensures forall r, b :: 0 <= r < fragments.Length0 && r != i && 0 <= b < size ==>
                fragments[r, b] == old(fragments[r, b])
    {
      var b := 0;
      while b < size
        invariant 0 <= b <= size
        invariant forall c :: 0 <= c < b ==> fragments[i, c] == old(fragments[i, c]) ^ old(fragments[j, c])
        invariant forall c :: b <= c < size ==> fragments[i, c] == old(fragments[i, c])
        invariant forall r, c :: 0 <= r < fragments.Length0 && r != i && 0 <= c < size ==>
                    fragments[r, c] == old(fragments[r, c])
      {
        fragments[i, b] := fragments[i, b] ^ fragments[j, b];
        b := b + 1;
      }
    }

    /** erasure_coding_decode: each data fragment found in the list is copied to its place. */
    method Decode(fragments: seq<Block>, fmap: seq<int>, size: nat, out: array<bv8>) returns (length: nat)
      requires Valid() && |fragments| == |fmap| && Uniform(fragments, size) && k * size <= out.Length
      modifies out
      ensures length == k * size
      ensures out[..length] == ErasureCoding.Decode(fragments, fmap, size, k, old(out[..]))
      ensures out[length..] == old(out[length..])
    {
      hide ErasureCoding.Decode;
      ghost var o := out[..];
      var i := 0;
      assert 0 * size == 0;
      NothingDecoded(fragments, fmap, size, o);
      while i < k
        invariant 0 <= i <= k && i * size <= k * size
        invariant out[..i * size] == ErasureCoding.Decode(fragments, fmap, size, i, o)
        invariant out[i * size..] == o[i * size..]
      {
        BlockBounds(i, k, size);
        var found := FindFragment(fmap, i);
        ghost var before := out[..];
        if found >= 0 {
          CopyBlock(out, i * size, fragments[found]);
        }
        DecodeNext(fragments, fmap, size, i, o, before, out[..]);
        i := i + 1;
      }
      length := size * k;
      assert k * size == size * k;
    }

    method FindFragment(fmap: seq<int>, i: int) returns (found: int)
      ensures found == if FirstWith(fmap, i, 0) < |fmap| then FirstWith(fmap, i, 0) else -1
    {
      var j := 0;
      while j < |fmap|
        invariant 0 <= j <= |fmap|
        invariant FirstWith(fmap, i, 0) == FirstWith(fmap, i, j)
      {
        if fmap[j] == i {
          return j;
        }
        j := j + 1;
      }
      return -1;
    }
  }

  /** erasure_coding_engine_create: an engine exactly for the counts it accepts. */
  method Create(k: int, m: int) returns (e: Engine?)
    ensures e != null <==> Accepted(k, m)
    ensures e != null ==> fresh(e) && e.Valid() && e.k == k && e.m == m
  {
    if k <= 0 || m < 0 || k + m > MAX_FRAGMENTS {
      return null;
    }
    e := new Engine(k, m);
  }

  method FillIdentity(k: nat, m: nat, a: array2<nat>)
    requires a.Length0 == k + m && a.Length1 == k
    requires forall i, j :: 0 <= i < k + m && 0 <= j < k ==> a[i, j] == 0
    modifies a
    ensures forall i, j :: 0 <= i < k && 0 <= j < k ==> a[i, j] == Coefficient(k, i, j)
  {
    var i := 0;
    while i < k
      invariant 0 <= i <= k
      invariant forall r, j :: 0 <= r < i && 0 <= j < k ==> a[r, j] == Coefficient(k, r, j)
      invariant forall r, j :: i <= r < k + m && 0 <= j < k ==> a[r, j] == 0
    {
      a[i, i] := 1;
      i := i + 1;
    }
  }

  method FillParity(k: nat, m: nat, a: array2<nat>)
    requires a.Length0 == k + m && a.Length1 == k
    requires forall i, j :: 0 <= i < k && 0 <= j < k ==> a[i, j] == Coefficient(k, i, j)
    modifies a
    ensures forall i, j :: 0 <= i < k + m && 0 <= j < k ==> a[i, j] == Coefficient(k, i, j)
  {
    var i := k;
    while i < k + m
      invariant k <= i <= k + m
      invariant forall r, j :: 0 <= r < i && 0 <= j < k ==> a[r, j] == Coefficient(k, r, j)
    {
      var j := 0;
      while j < k
        invariant 0 <= j <= k
        invariant forall r, c :: 0 <= r < i && 0 <= c < k ==> a[r, c] == Coefficient(k, r, c)
        invariant forall c :: 0 <= c < j ==> a[i, c] == Coefficient(k, i, c)
      {
        a[i, j] := ((i - k + 1) * (j + 1)) % 256;
        j := j + 1;
      }
      i := i + 1;
    }
  }

  /** The copy loop: fragment i receives the object's bytes from i*size on, as many as there are. */
  method CopyData(data: array<bv8>, k: nat, size: nat, fragments: array2<bv8>)
    requires k <= fragments.Length0 && fragments.Length1 == size
    requires forall i, b :: 0 <= i < fragments.Length0 && 0 <= b < size ==> fragments[i, b] == 0
    modifies fragments
    ensures forall i, b :: 0 <= i < k && 0 <= b < size ==> fragments[i, b] == DataFragment(data[..], size, i)[b]
    ensures forall i, b :: k <= i < fragments.Length0 && 0 <= b < size ==> fragments[i, b] == 0
  {
    var i := 0;
    while i < k
      invariant 0 <= i <= k
      invariant forall r, b :: 0 <= r < i && 0 <= b < size ==> fragments[r, b] == DataFragment(data[..], size, r)[b]
      invariant forall r, b :: i <= r < fragments.Length0 && 0 <= b < size ==> fragments[r, b] == 0
    {
      var offset := i * size;
      var copy := if offset < data.Length
                  then (if data.Length - offset < size then data.Length - offset else size) else 0;
      var b := 0;
      while b < copy
        invariant 0 <= b <= copy
        invariant forall r, c :: 0 <= r < i && 0 <= c < size ==> fragments[r, c] == DataFragment(data[..], size, r)[c]
        invariant forall c :: 0 <= c < b ==> fragments[i, c] == data[offset + c]
        invariant forall c :: b <= c < size ==> fragments[i, c] == 0
        invariant forall r, c :: i < r < fragments.Length0 && 0 <= c < size ==> fragments[r, c] == 0
      {
        fragments[i, b] := data[offset + b];
        b := b + 1;
      }
      forall c | 0 <= c < size ensures fragments[i, c] == DataFragment(data[..], size, i)[c] {
        assert DataFragment(data[..], size, i)[c] == ByteAt(data[..], offset + c);
      }
      i := i + 1;
    }
  }

  lemma RowToStart(fs: seq<Block>, size: nat, k: nat, i: nat, b: nat)
    requires Uniform(fs, size) && b < size
    ensures RowTo(fs, size, k, i, b, 0) == 0
  {
  }

  lemma RowToNext(fs: seq<Block>, size: nat, k: nat, i: nat, b: nat, j: nat)
    requires Uniform(fs, size) && b < size && j < |fs|
    ensures RowTo(fs, size, k, i, b, j + 1)
            == if Coefficient(k, i, j) == 0 then RowTo(fs, size, k, i, b, j)
               else RowTo(fs, size, k, i, b, j) ^ fs[j][b]
  {
  }

  lemma RowToAll(fs: seq<Block>, size: nat, k: nat, i: nat, b: nat)
    requires Uniform(fs, size) && b < size
    ensures RowTo(fs, size, k, i, b, |fs|) == Row(fs, size, k, i)[b]
  {
  }

  lemma EncodeRows(data: Block, k: nat, m: nat, r: nat)
    requires k > 0 && r < k + m
    ensures var fs := DataFragments(data, FragmentSize(|data|, k), k);
            ErasureCoding.Encode(data, k, m)[r] == if r < k then fs[r] else Row(fs, FragmentSize(|data|, k), k, r)
  {
  }

  lemma BlockBounds(i: nat, k: nat, size: nat)
    requires i < k
    ensures i * size + size == (i + 1) * size <= k * size
  {
    MulMono(size, i + 1, k);
  }

  method CopyBlock(out: array<bv8>, at: nat, src: Block)
    requires at + |src| <= out.Length
    modifies out
    ensures out[..] == old(out[..at]) + src + old(out[at + |src|..])
  {
    var b := 0;
    while b < |src|
      invariant 0 <= b <= |src|
      invariant out[..] == old(out[..at]) + src[..b] + old(out[at + b..])
    {
      out[at + b] := src[b];
      b := b + 1;
    }
  }

  lemma NothingDecoded(fs: seq<Block>, fmap: seq<int>, size: nat, o: Block)
    requires |fs| == |fmap|
    ensures 0 * size == 0 && ErasureCoding.Decode(fs, fmap, size, 0, o) == []
  {
  }

  lemma DecodeStep(fs: seq<Block>, fmap: seq<int>, size: nat, i: nat, o: Block)
    requires |fs| == |fmap| && i * size <= (i + 1) * size <= |o|
    ensures var j := FirstWith(fmap, i, 0);
            ErasureCoding.Decode(fs, fmap, size, i + 1, o)
            == ErasureCoding.Decode(fs, fmap, size, i, o) + (if j < |fs| then fs[j] else o[i * size..(i + 1) * size])
  {
  }

  lemma DecodeNext(fs: seq<Block>, fmap: seq<int>, size: nat, i: nat, o: Block, before: Block, after: Block)
    requires |fs| == |fmap| && Uniform(fs, size) && (i + 1) * size <= |o| == |before| && i * size + size == (i + 1) * size
    requires before[..i * size] == ErasureCoding.Decode(fs, fmap, size, i, o)
    requires before[i * size..] == o[i * size..]
    requires var j := FirstWith(fmap, i, 0);
             after == if j < |fmap| then before[..i * size] + fs[j] + before[i * size + size..] else before
    ensures after[..(i + 1) * size] == ErasureCoding.Decode(fs, fmap, size, i + 1, o)
    ensures after[(i + 1) * size..] == o[(i + 1) * size..]
  {
    hide ErasureCoding.Decode;
    DecodeStep(fs, fmap, size, i, o);
    var at, to := i * size, (i + 1) * size;
    assert before[to..] == before[at..][size..] == o[at..][size..] == o[to..];
    assert before[at..to] == before[at..][..size] == o[at..to];
    assert before[..to] == before[..at] + before[at..to];
  }
}
