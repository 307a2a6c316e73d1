/** `pandora::File`: the open mode, the root attributes the constructor
    fills in, block creation under the root group, and the random section
    and property ids.  The HDF5 file is modelled by the content it holds:
    root attributes, blocks by name, and the section tree. */
module Files {
  import opened Errors
  import opened Store

  // ---------------------------------------------------------------------
  // Root attributes

  /** The root attributes the constructor insists on, in its order. */
  const RootAttributes: seq<string> := ["format", "version", "created_at", "updated_at"]

  /** The attributes after `checkAttributes(names)`: every name of `names`
      that is missing is set to "default", in list order. */
  function WithDefaults(a: map<string, string>, names: seq<string>): (r: map<string, string>)
    ensures forall n :: n in r <==> n in a || n in names
    ensures forall n | n in a :: r[n] == a[n]
    ensures forall n | n in r && n !in a :: r[n] == "default"
  {
    if names == [] then a
    else
      var init := names[..|names| - 1];
      var n := names[|names| - 1];
      assert forall m :: m in names <==> m in init || m == n;
      var r := WithDefaults(a, init);
      if n in r then r else r[n := "default"]
  }

  /** Filling in defaults twice changes nothing the second time. */
  lemma WithDefaultsIdempotent(a: map<string, string>, names: seq<string>)
    ensures WithDefaults(WithDefaults(a, names), names) == WithDefaults(a, names)
  {
  }

  // ---------------------------------------------------------------------
  // Random ids

  /** glibc's `RAND_MAX`; `rand()` draws from 0 to this value inclusive. */
  const RAND_MAX: nat := 2147483647

  type Draw = r: nat | r <= RAND_MAX

  /** The characters of the 17-byte string literal "0123456789abcdef"
      including its terminating NUL. */
  const HexTable: string := HexDigits + ['\0']

  const HexDigits: string := "0123456789abcdef"

  /** The table index `(size_t)((double)r / RAND_MAX * 16)`.  The quotient
      is rounded to a double, but for operands below 2^31 no rounding
      reaches the next multiple of 1/16, and the product by 16 is exact,
      so the truncated value is the integer quotient of 16r by RAND_MAX. */
  function HexIndex(r: Draw): (k: nat)
    ensures k <= 16
    ensures k == 16 <==> r == RAND_MAX
  {
    r * 16 / RAND_MAX
  }

  /** The character one draw contributes to an id. */
  function IdChar(r: Draw): char
  {
    HexTable[HexIndex(r)]
  }

  /** The characters `createId` appends for `draws`, in draw order. */
  function IdChars(draws: seq<Draw>): (cs: string)
    ensures |cs| == |draws|
  {
    if draws == [] then ""
    else IdChars(draws[..|draws| - 1]) + [IdChar(draws[|draws| - 1])]
  }

  lemma HexTableShape()
    ensures |HexTable| == 17 && HexTable[..16] == HexDigits && HexTable[16] == '\0'
    ensures '\0' !in HexDigits
  {
  }

  /** A draw yields a hexadecimal digit exactly when it is below `RAND_MAX`;
      the draw `RAND_MAX` yields the terminating NUL. */
  lemma IdCharIsHex(r: Draw)
    ensures IdChar(r) in HexDigits <==> r < RAND_MAX
    ensures r == RAND_MAX ==> IdChar(r) == '\0'
  {
    HexTableShape();
    var k := HexIndex(r);
    if k < 16 {
      assert IdChar(r) == HexDigits[k];
    }
  }

  /** Every character of `IdChars(draws)` comes from the draw at the same
      position. */
  lemma {:induction false} IdCharsAt(draws: seq<Draw>, i: nat)
    requires i < |draws|
    ensures IdChars(draws)[i] == IdChar(draws[i])
    decreases |draws|
  {
    if i < |draws| - 1 {
      IdCharsAt(draws[..|draws| - 1], i);
    }
  }

  /** The id is all hexadecimal digits exactly when no draw is `RAND_MAX`. */
  lemma IdCharsAllHex(draws: seq<Draw>)
    ensures (forall i | 0 <= i < |draws| :: IdChars(draws)[i] in HexDigits)
        <==> (forall i | 0 <= i < |draws| :: draws[i] < RAND_MAX)
  {
    forall i | 0 <= i < |draws|
      ensures IdChars(draws)[i] in HexDigits <==> draws[i] < RAND_MAX
    {
      IdCharsAt(draws, i);
      IdCharIsHex(draws[i]);
    }
  }

  /** A draw of `RAND_MAX` among 32 puts a NUL into the id. */
  lemma RandMaxDrawYieldsNul(draws: seq<Draw>, i: nat)
    requires i < |draws| && draws[i] == RAND_MAX
    ensures IdChars(draws)[i] == '\0'
  {
    IdCharsAt(draws, i);
    IdCharIsHex(draws[i]);
  }

  /** The index the conversion evidently means: scaling by `RAND_MAX + 1`
      keeps every draw below 16. */
  function FixedHexIndex(r: Draw): (k: nat)
    ensures k < 16
    ensures k == HexIndex(r) || r == RAND_MAX
  {
    var k := r * 16 / (RAND_MAX + 1);
    FixedIndexAgrees(r, k);
    k
  }

  lemma FixedIndexAgrees(r: Draw, k: nat)
    requires k == r * 16 / (RAND_MAX + 1)
    ensures k < 16
    ensures k == HexIndex(r) || r == RAND_MAX
  {
    // k * 2^31 <= 16 r < (k + 1) * 2^31, and 16r / RAND_MAX differs from
    // that only when 16r reaches a multiple of RAND_MAX below a multiple of 2^31.
    var j := r * 16 / RAND_MAX;
    assert k * (RAND_MAX + 1) <= r * 16 < (k + 1) * (RAND_MAX + 1);
    assert j * RAND_MAX <= r * 16 < (j + 1) * RAND_MAX;
    if r < RAND_MAX {
      assert j < 16;
      assert j * RAND_MAX + j <= r * 16 by {
        assert r * 16 - j * RAND_MAX >= 0;
        assert 16 * (RAND_MAX - r) >= 16;
      }
    }
  }

  /** The corrected character table lookup: always a hexadecimal digit. */
  function FixedIdChar(r: Draw): (c: char)
    ensures c in HexDigits
    ensures r < RAND_MAX ==> c == IdChar(r)
  {
    HexTableShape();
    IdCharIsHex(r);
    HexDigits[FixedHexIndex(r)]
  }

  // ---------------------------------------------------------------------
  // The file

  /** How the constructor opens the HDF5 file. */
  datatype OpenMode = ReadOnly | Truncate

  /** What is stored at a path before it is opened. */
  datatype Content = Content(attrs: map<string, string>, blocks: map<string, string>, sections: Tree)

  class File {
    const path: string
    const mode: OpenMode
    const prefix: string
    var attrs: map<string, string>      // attributes of the root group
    var blocks: map<string, string>     // block groups of the root, name to type
    var sections: Tree                  // the section tree

    /** `File::File(name, prefix, mode)`: "r" opens the existing content
        read-only, any other mode truncates to an empty file; then the root
        attributes are checked. */
    constructor(name: string, prefix: string, mode: string, onDisk: Content)
      ensures path == name && this.prefix == prefix
      ensures this.mode == (if mode == "r" then ReadOnly else Truncate)
      ensures var start := if mode == "r" then onDisk else Content(map[], map[], map[]);
        && attrs == WithDefaults(start.attrs, RootAttributes)
        && blocks == start.blocks
        && sections == start.sections
      ensures forall n | n in RootAttributes :: n in attrs
    {
      path := name;
      this.prefix := prefix;
      if mode == "r" {
        this.mode := ReadOnly;
        attrs := onDisk.attrs;
        blocks := onDisk.blocks;
        sections := onDisk.sections;
      } else {
        this.mode := Truncate;
        attrs := map[];
        blocks := map[];
        sections := map[];
      }
      new;
      CheckAttributes(RootAttributes);
    }

    /** `File::checkAttributes`: set each missing attribute of `names` to
        "default"; present ones keep their value. */
    method CheckAttributes(names: seq<string>)
      modifies this`attrs
      ensures attrs == WithDefaults(old(attrs), names)
    {
      var i := 0;
      while i < |names|
        invariant 0 <= i <= |names|
        invariant attrs == WithDefaults(old(attrs), names[..i])
      {
        assert names[..i + 1][..i] == names[..i];
        if names[i] !in attrs {
          attrs := attrs[names[i] := "default"];
        }
        i := i + 1;
      }
      assert names[..i] == names;
    }

    /** `File::createBlock`: create the root group `name` and give it type
        `kind`; creating a group whose name is taken fails. */
    method CreateBlock(name: string, kind: string) returns (r: Result<string>)
      modifies this`blocks
      ensures name in old(blocks) ==> r == Err(GroupExists) && blocks == old(blocks)
      ensures name !in old(blocks) ==> r == Ok(name) && blocks == old(blocks)[name := kind]
    {
      if name in blocks {
        return Err(GroupExists);
      }
      blocks := blocks[name := kind];
      return Ok(name);
    }

    /** `File::createId`, with the 32 values of `rand()` passed in:
        the prefix, an underscore, then one table character per draw. */
    method CreateId(draws: seq<Draw>) returns (id: string)
      requires |draws| == 32
      ensures id == prefix + "_" + IdChars(draws)
      ensures |id| == |prefix| + 33
    {
      id := prefix + "_";
      var i := 0;
      while i < 32
        invariant 0 <= i <= 32
        invariant id == prefix + "_" + IdChars(draws[..i])
      {
        assert draws[..i + 1][..i] == draws[..i];
        id := id + [IdChar(draws[i])];
        i := i + 1;
      }
      assert draws[..32] == draws;
    }
  }
}
