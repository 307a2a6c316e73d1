/** The strided N-dimensional array of nix (src/NDArray.cpp): a flat byte
    buffer addressed through row-major strides computed from the extents. */
module NDArrays {
  import opened Errors

  /** Largest value of `size_t` (and of the 64-bit `ndsize_t`) on the host. */
  const SIZE_MAX: nat := 0xFFFF_FFFF_FFFF_FFFF
  /** Modulus of unsigned 64-bit arithmetic. */
  const SIZE_MOD: nat := SIZE_MAX + 1

  /** A value of `size_t` / `ndsize_t`. */
  type Size = n: nat | n <= SIZE_MAX

  /** The element types an array can hold. */
  datatype DataType =
    | Bool | Char | Float | Double
    | Int8 | Int16 | Int32 | Int64
    | UInt8 | UInt16 | UInt32 | UInt64

  /** `data_type_to_size`: the byte width of one element (assumed, see README). */
  function TypeSize(d: DataType): (n: nat)
    ensures 1 <= n <= 8
  {
    match d
    case Bool => 1
    case Char => 1
    case Int8 => 1
    case UInt8 => 1
    case Int16 => 2
    case UInt16 => 2
    case Float => 4
    case Int32 => 4
    case UInt32 => 4
    case Double => 8
    case Int64 => 8
    case UInt64 => 8
  }

  /** `NDSize::nelms`: the number of elements, the product of the extents. */
  function Nelms(e: seq<Size>): nat
  {
    if e == [] then 1 else e[0] * Nelms(e[1..])
  }

  /** `NDSize::dot`: the dot product of two sizes of equal rank. */
  function Dot(a: seq<nat>, b: seq<nat>): nat
    requires |a| == |b|
  {
    if a == [] then 0 else a[0] * b[0] + Dot(a[1..], b[1..])
  }

  /** The number of bytes `allocate_space` asks for. */
  function Bytes(d: DataType, e: seq<Size>): nat
  {
    Nelms(e) * TypeSize(d)
  }

  /** Every subscript lies inside its axis. */
  predicate InBounds(sub: seq<nat>, e: seq<Size>)
  {
    |sub| == |e| && forall i :: 0 <= i < |e| ==> sub[i] < e[i]
  }

  /** Row-major strides in exact arithmetic: axis `i` advances by the
      number of elements of all axes after it. */
  function ExactStrides(e: seq<Size>): (r: seq<nat>)
    ensures |r| == |e|
  {
    seq(|e|, i requires 0 <= i < |e| => Nelms(e[i + 1..]))
  }

  /** The strides `calc_strides` stores: the exact strides reduced modulo
      2^64, because every product is taken in `size_t`. */
  function RowMajorStrides(e: seq<Size>): (r: seq<Size>)
    ensures |r| == |e|
  {
    seq(|e|, i requires 0 <= i < |e| => Nelms(e[i + 1..]) % SIZE_MOD)
  }

  /** `std::vector::resize`: keeps the first `n` bytes, zero-fills the rest. */
  function Resized(v: seq<bv8>, n: nat): (r: seq<bv8>)
    ensures |r| == n
    ensures forall i :: 0 <= i < n && i < |v| ==> r[i] == v[i]
    ensures forall i :: |v| <= i < n ==> r[i] == 0
  {
    if n <= |v| then v[..n] else v + seq(n - |v|, _ => 0)
  }

  class NDArray {
    var dataType: DataType
    var extents: seq<Size>
    var strides: seq<Size>
    var dstore: seq<bv8>

    /** The state a successful `allocate_space` leaves: the buffer holds one
        slot of `TypeSize` bytes per element and the strides match the extents. */
    ghost predicate Allocated()
      reads this
    {
      && Bytes(dataType, extents) <= SIZE_MAX
      && |dstore| == Bytes(dataType, extents)
      && strides == RowMajorStrides(extents)
    }

    /** The member initialisers of `NDArray(dtype, dims)`, before the body
        calls `allocate_space`. */
    constructor (dtype: DataType, dims: seq<Size>)
      ensures dataType == dtype && extents == dims
      ensures strides == [] && dstore == []
    {
      dataType, extents := dtype, dims;
      strides, dstore := [], [];
    }

    /** `NDArray(dtype, dims)`: construct, then allocate; the construction
        throws exactly when the byte count does not fit in `size_t`. */
    static method New(dtype: DataType, dims: seq<Size>) returns (r: Result<NDArray>)
      ensures r.Ok? <==> Bytes(dtype, dims) <= SIZE_MAX
      ensures r.Err? ==> r.error == AllocationTooLarge
      ensures r.Ok? ==> fresh(r.value) && r.value.Allocated()
      ensures r.Ok? ==> r.value.dataType == dtype && r.value.extents == dims
      ensures r.Ok? ==> r.value.dstore == seq(Bytes(dtype, dims), _ => 0)
    {
      var a := new NDArray(dtype, dims);
      var ok := a.AllocateSpace();
      if ok.Ok? {
        r := Ok(a);
      } else {
        r := Err(ok.error);
      }
    }

    /** `allocate_space`: size the buffer to element count times type size
        and recompute the strides.  The size check comes first, so a failure
        changes nothing. */
    method AllocateSpace() returns (r: Result<()>)
      modifies this`dstore, this`strides
      ensures r.Ok? <==> Bytes(dataType, extents) <= SIZE_MAX
      ensures r.Err? ==> r.error == AllocationTooLarge
      ensures r.Ok? ==> Allocated() && dstore == Resized(old(dstore), Bytes(dataType, extents))
      ensures r.Err? ==> dstore == old(dstore) && strides == old(strides)
    {
      var bytes := Nelms(extents) * TypeSize(dataType);
      if bytes > SIZE_MAX {
        return Err(AllocationTooLarge);
      }
      dstore := Resized(dstore, bytes);
      CalcStrides();
      r := Ok(());
    }

    /** `resize`: the new extents are stored before the allocation is tried,
        so after a failure the extents are new while the buffer and the
        strides are those of the old extents. */
    method Resize(newSize: seq<Size>) returns (r: Result<()>)
      modifies this`extents, this`dstore, this`strides
      ensures extents == newSize
      ensures r.Ok? <==> Bytes(dataType, newSize) <= SIZE_MAX
      ensures r.Err? ==> r.error == AllocationTooLarge
      ensures r.Ok? ==> Allocated() && dstore == Resized(old(dstore), Bytes(dataType, newSize))
      ensures r.Err? ==> dstore == old(dstore) && strides == old(strides)
    {
      extents := newSize;
      r := AllocateSpace();
    }

    /** `calc_strides`: start from all ones and fill the strides from the
        second-to-last axis down to the first. */
    method CalcStrides()
      modifies this`strides
      ensures strides == RowMajorStrides(extents)
    {
      var rank := |extents|;
      var spec := RowMajorStrides(extents);
      strides := seq(rank, _ => 1);
      if rank > 0 {
        LastStrideIsOne(extents);
      }
      var i := 1;
      while i < rank
        invariant 1 <= i && (rank > 0 ==> i <= rank)
        invariant |strides| == rank
        invariant forall j :: 0 <= j < rank && rank - i <= j ==> strides[j] == spec[j]
        invariant forall j :: 0 <= j < rank - i ==> strides[j] == 1
      {
        var lst := rank - i;
        var cur := lst - 1;
        StrideStep(extents, cur);
        strides := strides[cur := (strides[lst] * extents[lst]) % SIZE_MOD];
        i := i + 1;
      }
      if rank > 0 {
        LastStrideIsOne(extents);
      }
    }

    /** `sub2index`: the flat index of a subscript is its dot product with
        the strides; only the fit in `size_t` is checked, not the axes. */
    function Sub2Index(sub: seq<Size>): (r: Result<Size>)
      reads this
      ensures r.Ok? <==> |sub| == |strides| && Dot(strides, sub) <= SIZE_MAX
      ensures r.Ok? ==> r.value == Dot(strides, sub)
      ensures r.Err? ==> (r.error == RankMismatch <==> |sub| != |strides|)
      ensures r.Err? ==> r.error == RankMismatch || r.error == IndexTooLarge
    {
      if |sub| != |strides| then Err(RankMismatch)
      else
        var pos := Dot(strides, sub);
        if pos <= SIZE_MAX then Ok(pos) else Err(IndexTooLarge)
    }
  }

  // ---------------------------------------------------------------------
  // Index arithmetic

  lemma ModAddMultiple(x: nat, k: nat, m: nat)
    requires m > 0
    ensures (x + k * m) % m == x % m
  {
    var q, r := x / m, x % m;
    assert x + k * m == (q + k) * m + r;
    DivModUnique(x + k * m, q + k, r, m);
  }

  lemma DivModUnique(y: nat, q: nat, r: nat, m: nat)
    requires m > 0 && r < m && y == q * m + r
    ensures y / m == q && y % m == r
  {
    var q', r' := y / m, y % m;
    assert y == q' * m + r';
    if q < q' {
      MulMono(q + 1, q', m);
      assert false;
    } else if q' < q {
      MulMono(q' + 1, q, m);
      assert false;
    }
  }

  lemma MulMono(a: nat, b: nat, n: nat)
    requires a <= b
    ensures a * n <= b * n
  {
  }

  lemma ModMulLeft(a: nat, b: nat, m: nat)
    requires m > 0
    ensures (a % m * b) % m == (b * a) % m
  {
    var q, r := a / m, a % m;
    assert b * a == r * b + (q * b) * m by {
      assert a == q * m + r;
    }
    ModAddMultiple(r * b, q * b, m);
  }

  lemma ModSmall(x: nat, m: nat)
    requires x < m
    ensures x % m == x
  {
    DivModUnique(x, 0, x, m);
  }

  lemma LastStrideIsOne(e: seq<Size>)
    requires |e| > 0
    ensures RowMajorStrides(e)[|e| - 1] == 1
  {
    assert e[|e|..] == [];
    ModSmall(1, SIZE_MOD);
  }

  /** One step of `calc_strides`: a stride is the next stride times the
      next extent, in `size_t`. */
  lemma StrideStep(e: seq<Size>, i: nat)
    requires i + 1 < |e|
    ensures RowMajorStrides(e)[i] == (RowMajorStrides(e)[i + 1] * e[i + 1]) % SIZE_MOD
  {
    var a, b := Nelms(e[i + 2..]), e[i + 1];
    assert e[i + 1..][1..] == e[i + 2..];
    assert Nelms(e[i + 1..]) == b * a;
    ModMulLeft(a, b, SIZE_MOD);
  }

  /** The shape `calc_strides` promises: one stride per axis, the last one
      1, and each the next stride times the next extent (in `size_t`). */
  lemma StridesRecurrence(e: seq<Size>)
    ensures |RowMajorStrides(e)| == |e|
    ensures |e| > 0 ==> RowMajorStrides(e)[|e| - 1] == 1
    ensures forall i :: 0 <= i < |e| - 1 ==>
      RowMajorStrides(e)[i] == (RowMajorStrides(e)[i + 1] * e[i + 1]) % SIZE_MOD
  {
    if |e| > 0 {
      LastStrideIsOne(e);
    }
    forall i | 0 <= i < |e| - 1
      ensures RowMajorStrides(e)[i] == (RowMajorStrides(e)[i + 1] * e[i + 1]) % SIZE_MOD
    {
      StrideStep(e, i);
    }
  }

  lemma {:induction false} ExactStridesCons(e: seq<Size>)
    requires |e| > 0
    ensures ExactStrides(e) == [Nelms(e[1..])] + ExactStrides(e[1..])
  {
    var l, r := ExactStrides(e), [Nelms(e[1..])] + ExactStrides(e[1..]);
    forall i | 0 <= i < |e|
      ensures l[i] == r[i]
    {
      if i > 0 {
        assert e[1..][i..] == e[i + 1..];
      }
    }
  }

  /** With positive extents, every trailing product is at most the total. */
  lemma {:induction false} SuffixAtMostTotal(e: seq<Size>, j: nat)
    requires j <= |e|
    requires forall i :: 0 <= i < |e| ==> e[i] > 0
    ensures Nelms(e[j..]) <= Nelms(e)
  {
    if j > 0 {
      assert e[1..][j - 1..] == e[j..];
      SuffixAtMostTotal(e[1..], j - 1);
      MulMono(1, e[0], Nelms(e[1..]));
    } else {
      assert e[j..] == e;
    }
  }

  /** When the element count fits in `size_t` and no extent is zero, no
      stride product wraps: the stored strides are the exact ones. */
  lemma StridesExact(e: seq<Size>)
    requires forall i :: 0 <= i < |e| ==> e[i] > 0
    requires Nelms(e) <= SIZE_MAX
    ensures RowMajorStrides(e) == ExactStrides(e)
  {
    var r, x := RowMajorStrides(e), ExactStrides(e);
    forall i | 0 <= i < |e|
      ensures r[i] == x[i]
    {
      SuffixAtMostTotal(e, i + 1);
      ModSmall(Nelms(e[i + 1..]), SIZE_MOD);
    }
  }

  /** An in-bounds subscript addresses an element of the buffer. */
  lemma {:induction false} IndexBelowCount(e: seq<Size>, sub: seq<nat>)
    requires InBounds(sub, e)
    ensures Dot(ExactStrides(e), sub) < Nelms(e)
  {
    if e != [] {
      ExactStridesCons(e);
      var n1 := Nelms(e[1..]);
      assert InBounds(sub[1..], e[1..]);
      IndexBelowCount(e[1..], sub[1..]);
      assert ExactStrides(e)[1..] == ExactStrides(e[1..]);
      var d := Dot(ExactStrides(e[1..]), sub[1..]);
      assert Dot(ExactStrides(e), sub) == n1 * sub[0] + d;
      assert Nelms(e) == e[0] * n1;
      StepBelow(sub[0], d, n1, e[0]);
    }
  }

  lemma StepBelow(x: nat, d: nat, n: nat, m: nat)
    requires d < n && x < m
    ensures n * x + d < m * n
  {
    MulMono(x + 1, m, n);
    assert (x + 1) * n == x * n + n;
  }

  lemma QuotientUnique(x: nat, y: nat, r1: nat, r2: nat, n: nat)
    requires r1 < n && r2 < n
    requires x * n + r1 == y * n + r2
    ensures x == y
  {
    if x < y {
      MulMono(x + 1, y, n);
    } else if y < x {
      MulMono(y + 1, x, n);
    }
  }

  /** Row-major addressing is injective on in-bounds subscripts. */
  lemma {:induction false} IndexInjective(e: seq<Size>, a: seq<nat>, b: seq<nat>)
    requires InBounds(a, e) && InBounds(b, e)
    requires Dot(ExactStrides(e), a) == Dot(ExactStrides(e), b)
    ensures a == b
  {
    if e != [] {
      ExactStridesCons(e);
      var n1 := Nelms(e[1..]);
      assert InBounds(a[1..], e[1..]) && InBounds(b[1..], e[1..]);
      IndexBelowCount(e[1..], a[1..]);
      IndexBelowCount(e[1..], b[1..]);
      assert Dot(ExactStrides(e), a) == a[0] * n1 + Dot(ExactStrides(e[1..]), a[1..]);
      assert Dot(ExactStrides(e), b) == b[0] * n1 + Dot(ExactStrides(e[1..]), b[1..]);
      QuotientUnique(a[0], b[0], Dot(ExactStrides(e[1..]), a[1..]), Dot(ExactStrides(e[1..]), b[1..]), n1);
      IndexInjective(e[1..], a[1..], b[1..]);
      assert a == [a[0]] + a[1..] && b == [b[0]] + b[1..];
    }
  }

  lemma InBoundsPositive(sub: seq<nat>, e: seq<Size>)
    requires InBounds(sub, e)
    ensures forall i :: 0 <= i < |e| ==> e[i] > 0
  {
  }

  /** On an allocated array, `sub2index` of an in-bounds subscript succeeds
      and lands below the element count. */
  lemma Sub2IndexInBounds(a: NDArray, sub: seq<Size>)
    requires a.Allocated()
    requires InBounds(sub, a.extents)
    ensures a.Sub2Index(sub).Ok?
    ensures a.Sub2Index(sub).value == Dot(ExactStrides(a.extents), sub)
    ensures a.Sub2Index(sub).value < Nelms(a.extents)
  {
    InBoundsPositive(sub, a.extents);
    MulMono(1, TypeSize(a.dataType), Nelms(a.extents));
    StridesExact(a.extents);
    IndexBelowCount(a.extents, sub);
  }

  /** On an allocated array, distinct in-bounds subscripts never share an
      index. */
  lemma Sub2IndexInjective(a: NDArray, s1: seq<Size>, s2: seq<Size>)
    requires a.Allocated()
    requires InBounds(s1, a.extents) && InBounds(s2, a.extents)
    requires a.Sub2Index(s1) == a.Sub2Index(s2)
    ensures s1 == s2
  {
    Sub2IndexInBounds(a, s1);
    Sub2IndexInBounds(a, s2);
    IndexInjective(a.extents, s1, s2);
  }

  /** The worked example: extents [3,4,2] give strides [8,2,1] and the
      subscript [2,3,1] the index 2*8 + 3*2 + 1*1 = 23. */
  lemma StridesExample()
    ensures RowMajorStrides([3, 4, 2]) == [8, 2, 1]
    ensures Dot(RowMajorStrides([3, 4, 2]), [2, 3, 1]) == 23
  {
    var e: seq<Size> := [3, 4, 2];
    assert e[1..] == [4, 2] && e[2..] == [2] && e[3..] == [];
    assert Nelms(e[3..]) == 1 && Nelms(e[2..]) == 2 && Nelms(e[1..]) == 8;
    ModSmall(8, SIZE_MOD);
    ModSmall(2, SIZE_MOD);
    ModSmall(1, SIZE_MOD);
    var st := RowMajorStrides(e);
    assert st == [8, 2, 1];
    var sub: seq<nat> := [2, 3, 1];
    assert st[1..] == [2, 1] && sub[1..] == [3, 1];
    assert st[1..][1..] == [1] && sub[1..][1..] == [1];
    assert Dot(st[1..][1..], sub[1..][1..]) == 1;
    assert Dot(st[1..], sub[1..]) == 7;
    assert Dot(st, sub) == 23;
  }

  /** No axis is checked: with extents [2,3] the out-of-range subscript
      [0,4] gets the same index as the in-range [1,1]. */
  lemma UncheckedAxesAlias()
    ensures InBounds([1, 1], [2, 3]) && !InBounds([0, 4], [2, 3])
    ensures Dot(RowMajorStrides([2, 3]), [0, 4]) == Dot(RowMajorStrides([2, 3]), [1, 1]) == 4
  {
    var e: seq<Size> := [2, 3];
    assert e[1..] == [3] && e[2..] == [];
    assert Nelms(e[2..]) == 1 && Nelms(e[1..]) == 3;
  }
}
