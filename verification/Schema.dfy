/** The columns of the table, their layout in a row, and rows as values and as bytes. */
module Schema {
  import opened Pages

  datatype Kind = KInt | KBigint | KVarchar

  datatype Column = Column(name: string, kind: Kind, size: nat, offset: nat, isSystem: bool)

  /** One column value. A string is what precedes its terminating zero byte. */
  datatype Value = IntV(i: int) | BigV(b: int) | StrV(s: Bytes)

  /* ---------- layout ---------- */

  /** Where the first n columns end. */
  function EndOf(cols: seq<Column>, n: nat): nat
    requires n <= |cols|
  {
    if n == 0 then 0 else EndOf(cols, n - 1) + cols[n - 1].size
  }

  ghost predicate StartsAt(cols: seq<Column>, i: nat)
    requires i < |cols|
  {
    cols[i].offset == EndOf(cols, i)
  }

  /** Column extents tile the row: each starts where the one before it ends. */
  ghost predicate Tiled(cols: seq<Column>) {
    forall i :: 0 <= i < |cols| ==> StartsAt(cols, i)
  }

  ghost predicate SameSizes(a: seq<Column>, b: seq<Column>) {
    |a| == |b| && forall i :: 0 <= i < |a| ==> a[i].size == b[i].size
  }

  /** The first n columns with their offsets, which are 16-bit and wrap. */
  function Layout(cols: seq<Column>, n: nat): (out: seq<Column>)
    requires n <= |cols|
    ensures |out| == n
  {
    if n == 0 then [] else Layout(cols, n - 1) + [cols[n - 1].(offset := EndOf(cols, n - 1) % 0x1_0000)]
  }

  method ComputeLayout(cols: seq<Column>) returns (out: seq<Column>, rowSize: nat)
    ensures out == Layout(cols, |cols|)
    ensures rowSize == EndOf(cols, |cols|) % 0x1_0000
  {
    out := cols;
    var offset: nat := 0;
    var i := 0;
    while i < |cols|
      invariant 0 <= i <= |cols|
      invariant offset == EndOf(cols, i) % 0x1_0000
      invariant out == Layout(cols, i) + cols[i..]
    {
      LayoutStep(cols, out, i, offset);
      out := out[i := out[i].(offset := offset)];
      offset := (offset + cols[i].size) % 0x1_0000;
      i := i + 1;
    }
    rowSize := offset;
  }

  lemma {:induction false} LayoutStep(cols: seq<Column>, out: seq<Column>, i: nat, offset: nat)
    requires i < |cols| && out == Layout(cols, i) + cols[i..]
    requires offset == EndOf(cols, i) % 0x1_0000
    ensures |out| == |cols| && out[i := out[i].(offset := offset)] == Layout(cols, i + 1) + cols[i + 1..]
    ensures (offset + cols[i].size) % 0x1_0000 == EndOf(cols, i + 1) % 0x1_0000
  {
  }

  lemma {:induction false} LayoutAt(cols: seq<Column>, n: nat, k: nat)
    requires k < n <= |cols|
    ensures Layout(cols, n)[k] == cols[k].(offset := EndOf(cols, k) % 0x1_0000)
  {
    if k < n - 1 {
      LayoutAt(cols, n - 1, k);
    }
  }

  /** When the sizes add up to less than 65536 the layout tiles the row, whose size is their sum;
      otherwise the size that is kept is not the sum. */
  lemma {:induction false} LayoutTiles(cols: seq<Column>) returns (out: seq<Column>)
    ensures out == Layout(cols, |cols|)
    ensures EndOf(cols, |cols|) < 0x1_0000 ==> Tiled(out)
    ensures EndOf(cols, |cols|) < 0x1_0000 <==> EndOf(out, |cols|) == EndOf(cols, |cols|) % 0x1_0000
  {
    out := Layout(cols, |cols|);
    forall k | 0 <= k < |cols|
      ensures out[k].size == cols[k].size
    {
      LayoutAt(cols, |cols|, k);
    }
    SameEnds(cols, out, |cols|);
    if EndOf(cols, |cols|) < 0x1_0000 {
      forall k | 0 <= k < |cols|
        ensures StartsAt(out, k)
      {
        LayoutAt(cols, |cols|, k);
        SameEnds(cols, out, k);
        EndGrows(cols, k, |cols|);
      }
    }
  }

  lemma {:induction false} SameEnds(a: seq<Column>, b: seq<Column>, n: nat)
    requires SameSizes(a, b) && n <= |a|
    ensures EndOf(a, n) == EndOf(b, n)
  {
    if n > 0 {
      SameEnds(a, b, n - 1);
    }
  }

  lemma {:induction false} EndGrows(cols: seq<Column>, i: nat, n: nat)
    requires i <= n <= |cols|
    ensures EndOf(cols, i) <= EndOf(cols, n)
    ensures i < n ==> EndOf(cols, i) + cols[i].size <= EndOf(cols, n)
  {
    if i < n {
      EndGrows(cols, i, n - 1);
    }
  }

  /** No two columns share a byte of the row, and every column lies inside it. */
  lemma {:induction false} ExtentsDisjoint(cols: seq<Column>, i: nat, j: nat)
    requires Tiled(cols) && i < j < |cols|
    ensures cols[i].offset + cols[i].size <= cols[j].offset
    ensures cols[j].offset + cols[j].size <= EndOf(cols, |cols|)
  {
    assert StartsAt(cols, i) && StartsAt(cols, j);
    EndGrows(cols, i, j);
    EndGrows(cols, j, |cols|);
  }

  /* ---------- integers as bytes, lowest first ---------- */

  function Pow256(n: nat): (r: nat)
    ensures r >= 1
  {
    if n == 0 then 1 else 256 * Pow256(n - 1)
  }

  function ToBytes(u: nat, n: nat): (r: Bytes)
    ensures |r| == n
  {
    if n == 0 then [] else [u % 256] + ToBytes(u / 256, n - 1)
  }

  function FromBytes(s: Bytes): nat {
    if s == [] then 0 else s[0] + 256 * FromBytes(s[1..])
  }

  lemma {:induction false} BytesRoundTrip(u: nat, n: nat)
    requires u < Pow256(n)
    ensures FromBytes(ToBytes(u, n)) == u
  {
    if n > 0 {
      BytesRoundTrip(u / 256, n - 1);
      assert ToBytes(u, n)[1..] == ToBytes(u / 256, n - 1);
    }
  }

  lemma {:induction false} FromBytesBound(s: Bytes)
    ensures FromBytes(s) < Pow256(|s|)
  {
    if s != [] {
      FromBytesBound(s[1..]);
    }
  }

  lemma {:induction false} Digits(b: Byte, rest: nat)
    ensures (b + 256 * rest) % 256 == b && (b + 256 * rest) / 256 == rest
  {
  }

  lemma {:induction false} BytesDetermined(s: Bytes)
    ensures ToBytes(FromBytes(s), |s|) == s
  {
    if s != [] {
      BytesDetermined(s[1..]);
      Digits(s[0], FromBytes(s[1..]));
      assert s == [s[0]] + s[1..];
    }
  }

  /** Two's complement in n bytes. */
  function Unsigned(v: int, n: nat): nat
    requires Fits(v, n)
  {
    if v < 0 then v + Pow256(n) else v
  }

  function Signed(u: nat, n: nat): int {
    if 2 * u >= Pow256(n) then u - Pow256(n) else u
  }

  predicate Fits(v: int, n: nat) {
    0 <= 2 * v + Pow256(n) && 2 * v < Pow256(n)
  }

  lemma {:induction false} SignRoundTrip(v: int, n: nat)
    requires Fits(v, n)
    ensures Unsigned(v, n) < Pow256(n) && Signed(Unsigned(v, n), n) == v
  {
  }

  /** The integers that fit four and eight bytes. */
  lemma {:induction false} IntegerRange(v: int)
    ensures Fits(v, 4) <==> -0x8000_0000 <= v < 0x8000_0000
    ensures Fits(v, 8) <==> -0x8000_0000_0000_0000 <= v < 0x8000_0000_0000_0000
  {
    assert Pow256(4) == 0x1_0000_0000;
    assert Pow256(8) == 0x1_0000_0000_0000_0000;
  }

  /* ---------- one column ---------- */

  predicate ColumnOK(c: Column) {
    match c.kind
    case KInt => c.size == 4
    case KBigint => c.size == 8
    case KVarchar => 1 <= c.size <= 255
  }

  predicate NoZero(s: Bytes) {
    forall i :: 0 <= i < |s| ==> s[i] != 0
  }

  predicate ValueOK(c: Column, v: Value) {
    match c.kind
    case KInt => v.IntV? && Fits(v.i, 4)
    case KBigint => v.BigV? && Fits(v.b, 8)
    case KVarchar => v.StrV? && NoZero(v.s)
  }

  function Zeros(n: nat): (r: Bytes)
    ensures |r| == n && forall i :: 0 <= i < n ==> r[i] == 0
  {
    if n == 0 then [] else Zeros(n - 1) + [0]
  }

  /** A string longer than the column is cut so that its terminating zero still fits. */
  function Cut(c: Column, v: Value): (r: Value)
    requires ColumnOK(c)
    ensures !v.StrV? ==> r == v
    ensures v.StrV? ==> r.StrV? && r.s <= v.s && |r.s| == if |v.s| < c.size then |v.s| else c.size - 1
  {
    match v
    case StrV(s) => if |s| >= c.size then StrV(s[..c.size - 1]) else v
    case _ => v
  }

  function EncodeField(c: Column, v: Value): (r: Bytes)
    requires ColumnOK(c) && ValueOK(c, v)
    ensures |r| == c.size
  {
    match c.kind
    case KInt => ToBytes(Unsigned(v.i, 4), 4)
    case KBigint => ToBytes(Unsigned(v.b, 8), 8)
    case KVarchar => var s := Cut(c, v).s; s + Zeros(c.size - |s|)
  }

  /** What precedes the first zero byte. */
  function UpToZero(s: Bytes): (r: Bytes)
    ensures |r| <= |s| && r == s[..|r|] && NoZero(r)
    ensures |r| < |s| ==> s[|r|] == 0
  {
    if s == [] || s[0] == 0 then [] else [s[0]] + UpToZero(s[1..])
  }

  function DecodeField(c: Column, s: Bytes): Value
    requires ColumnOK(c) && |s| == c.size
  {
    match c.kind
    case KInt => IntV(Signed(FromBytes(s), 4))
    case KBigint => BigV(Signed(FromBytes(s), 8))
    case KVarchar => StrV(UpToZero(s))
  }

  /** An integer is read back as it was; of a string as much as leaves room for the terminating zero. */
  lemma {:induction false} FieldRoundTrip(c: Column, v: Value)
    requires ColumnOK(c) && ValueOK(c, v)
    ensures DecodeField(c, EncodeField(c, v)) == Cut(c, v)
    ensures c.kind != KVarchar ==> DecodeField(c, EncodeField(c, v)) == v
    ensures c.kind == KVarchar ==>
              var d := DecodeField(c, EncodeField(c, v));
              d.StrV? && d.s <= v.s && |d.s| == if |v.s| < c.size - 1 then |v.s| else c.size - 1
    ensures ValueOK(c, Cut(c, v)) && EncodeField(c, Cut(c, v)) == EncodeField(c, v)
  {
    match c.kind
    case KInt =>
      SignRoundTrip(v.i, 4);
      BytesRoundTrip(Unsigned(v.i, 4), 4);
    case KBigint =>
      SignRoundTrip(v.b, 8);
      BytesRoundTrip(Unsigned(v.b, 8), 8);
    case KVarchar =>
      var s := Cut(c, v).s;
      UpToTheZeros(s, Zeros(c.size - |s|));
  }

  lemma {:induction false} OrderTimes(d: nat, a: int, b: int)
    ensures a <= b ==> d * a <= d * b
  {
  }

  /** A number is divided in one way only. */
  lemma {:induction false} DividedOnce(u: int, d: nat, q: int, r: nat)
    requires u == d * q + r && r < d
    ensures u / d == q && u % d == r
  {
    var e := u / d;
    assert u == d * e + u % d;
    OrderTimes(d, e + 1, q);
    OrderTimes(d, q + 1, e);
    assert d * (e + 1) == d * e + d && d * (q + 1) == d * q + d;
  }

  lemma {:induction false} DivideTwice(u: nat, p: nat)
    requires p > 0
    ensures u / (256 * p) == u / 256 / p
  {
    var h := u / 256;
    assert u == 256 * (p * (h / p) + h % p) + u % 256;
    assert 256 * (p * (h / p)) == (256 * p) * (h / p);
    DividedOnce(u, 256 * p, h / p, 256 * (h % p) + u % 256);
  }

  lemma {:induction false} ByteOf(u: nat, n: nat, k: nat)
    requires k < n
    ensures ToBytes(u, n)[k] == u / Pow256(k) % 256
  {
    if k > 0 {
      ByteOf(u / 256, n - 1, k - 1);
      DivideTwice(u, Pow256(k - 1));
    }
  }

  lemma {:induction false} UnsignedIsModulo(v: int, n: nat)
    requires Fits(v, n)
    ensures Unsigned(v, n) == v % Pow256(n)
  {
    var p := Pow256(n);
    if v < 0 {
      assert v == p * (-1) + (v + p);
      DividedOnce(v, p, -1, v + p);
    } else {
      DividedOnce(v, p, 0, v);
    }
  }

  /** What byte k of a stored column is: of an integer in two's complement the k-th from the low end;
      of a string its k-th byte, as long as it fits in front of the last byte, and zero after that. */
  lemma {:induction false} StoredByte(c: Column, v: Value, k: nat)
    requires ColumnOK(c) && ValueOK(c, v) && k < c.size
    ensures c.kind == KInt ==> EncodeField(c, v)[k] == v.i % 0x1_0000_0000 / Pow256(k) % 256
    ensures c.kind == KBigint ==> EncodeField(c, v)[k] == v.b % 0x1_0000_0000_0000_0000 / Pow256(k) % 256
    ensures c.kind == KVarchar ==> EncodeField(c, v)[k] == if k < |v.s| && k < c.size - 1 then v.s[k] else 0
  {
    match c.kind
    case KInt =>
      UnsignedIsModulo(v.i, 4);
      assert Pow256(4) == 0x1_0000_0000;
      ByteOf(Unsigned(v.i, 4), 4, k);
    case KBigint =>
      UnsignedIsModulo(v.b, 8);
      assert Pow256(8) == 0x1_0000_0000_0000_0000;
      ByteOf(Unsigned(v.b, 8), 8, k);
    case KVarchar =>
  }

  lemma {:induction false} UpToTheZeros(s: Bytes, z: Bytes)
    requires NoZero(s) && z != [] && z[0] == 0
    ensures UpToZero(s + z) == s
  {
    if s != [] {
      UpToTheZeros(s[1..], z);
      assert (s + z)[1..] == s[1..] + z;
    } else {
      assert s + z == z;
    }
  }

  /* ---------- a row ---------- */

  predicate ColumnsOK(cols: seq<Column>) {
    forall i :: 0 <= i < |cols| ==> ColumnOK(cols[i])
  }

  predicate RowOK(cols: seq<Column>, vs: seq<Value>) {
    |vs| == |cols| && ColumnsOK(cols) && forall i :: 0 <= i < |cols| ==> ValueOK(cols[i], vs[i])
  }

  /** The first n of some byte strings, one after another. */
  function Concat(fs: seq<Bytes>, n: nat): Bytes
    requires n <= |fs|
  {
    if n == 0 then [] else Concat(fs, n - 1) + fs[n - 1]
  }

  /** One byte string for each column, as long as the column. */
  ghost predicate Fit(cols: seq<Column>, fs: seq<Bytes>) {
    |fs| == |cols| && forall i :: 0 <= i < |cols| ==> |fs[i]| == cols[i].size
  }

  lemma {:induction false} ConcatLength(cols: seq<Column>, fs: seq<Bytes>, n: nat)
    requires Fit(cols, fs) && n <= |cols|
    ensures |Concat(fs, n)| == EndOf(cols, n)
  {
    if n > 0 {
      ConcatLength(cols, fs, n - 1);
    }
  }

  lemma {:induction false} ConcatField(cols: seq<Column>, fs: seq<Bytes>, n: nat, i: nat)
    requires Fit(cols, fs) && i < n <= |cols|
    ensures EndOf(cols, i) + cols[i].size <= EndOf(cols, n) == |Concat(fs, n)|
    ensures Concat(fs, n)[EndOf(cols, i)..EndOf(cols, i) + cols[i].size] == fs[i]
  {
    ConcatLength(cols, fs, n);
    ConcatLength(cols, fs, n - 1);
    if i < n - 1 {
      ConcatField(cols, fs, n - 1, i);
      SliceOfPrefix(Concat(fs, n - 1), fs[n - 1], EndOf(cols, i), EndOf(cols, i) + cols[i].size);
    } else {
      SliceOfSuffix(Concat(fs, i), fs[i]);
    }
  }

  lemma {:induction false} SliceOfPrefix(a: Bytes, b: Bytes, i: nat, j: nat)
    requires i <= j <= |a|
    ensures (a + b)[i..j] == a[i..j]
  {
  }

  lemma {:induction false} SliceOfSuffix(a: Bytes, b: Bytes)
    ensures (a + b)[|a|..|a| + |b|] == b
  {
  }

  /** Byte strings that differ at one place differ, put together, in the bytes of that place alone. */
  lemma {:induction false} ConcatElsewhere(cols: seq<Column>, fs: seq<Bytes>, gs: seq<Bytes>, i: nat, n: nat, k: nat)
    requires Fit(cols, fs) && Fit(cols, gs) && i < |cols| && n <= |cols|
    requires forall j :: 0 <= j < n && j != i ==> fs[j] == gs[j]
    requires k < EndOf(cols, n) && !(EndOf(cols, i) <= k < EndOf(cols, i) + cols[i].size)
    ensures k < |Concat(fs, n)| && k < |Concat(gs, n)| && Concat(fs, n)[k] == Concat(gs, n)[k]
  {
    ConcatLength(cols, fs, n);
    ConcatLength(cols, gs, n);
    ConcatLength(cols, fs, n - 1);
    ConcatLength(cols, gs, n - 1);
    if k < EndOf(cols, n - 1) {
      ConcatElsewhere(cols, fs, gs, i, n - 1, k);
    }
  }

  function Fields(cols: seq<Column>, vs: seq<Value>): (fs: seq<Bytes>)
    requires RowOK(cols, vs)
    ensures |fs| == |cols| && forall i :: 0 <= i < |cols| ==> fs[i] == EncodeField(cols[i], vs[i])
    ensures Fit(cols, fs)
  {
    seq(|cols|, i requires 0 <= i < |cols| => EncodeField(cols[i], vs[i]))
  }

  function Encode(cols: seq<Column>, vs: seq<Value>): (r: Bytes)
    requires RowOK(cols, vs)
    ensures |r| == EndOf(cols, |cols|)
  {
    ConcatLength(cols, Fields(cols, vs), |cols|);
    Concat(Fields(cols, vs), |cols|)
  }

  /** The bytes of column i. */
  function Field(cols: seq<Column>, buf: Bytes, i: nat): (r: Bytes)
    requires i < |cols| && |buf| == EndOf(cols, |cols|)
    ensures |r| == cols[i].size
  {
    EndGrows(cols, i, |cols|);
    buf[EndOf(cols, i)..EndOf(cols, i) + cols[i].size]
  }

  /** The first n columns of a stored row, as values. */
  function DecodeFirst(cols: seq<Column>, buf: Bytes, n: nat): (vs: seq<Value>)
    requires ColumnsOK(cols) && |buf| == EndOf(cols, |cols|) && n <= |cols|
    ensures |vs| == n
  {
    if n == 0 then [] else DecodeFirst(cols, buf, n - 1) + [DecodeField(cols[n - 1], Field(cols, buf, n - 1))]
  }

  function Decode(cols: seq<Column>, buf: Bytes): (vs: seq<Value>)
    requires ColumnsOK(cols) && |buf| == EndOf(cols, |cols|)
    ensures |vs| == |cols|
  {
    DecodeFirst(cols, buf, |cols|)
  }

  lemma {:induction false} DecodeAt(cols: seq<Column>, buf: Bytes, n: nat, i: nat)
    requires ColumnsOK(cols) && |buf| == EndOf(cols, |cols|) && i < n <= |cols|
    ensures DecodeFirst(cols, buf, n)[i] == DecodeField(cols[i], Field(cols, buf, i))
  {
    if i < n - 1 {
      DecodeAt(cols, buf, n - 1, i);
    }
  }

  function CutRow(cols: seq<Column>, vs: seq<Value>): (r: seq<Value>)
    requires RowOK(cols, vs)
    ensures |r| == |vs| && forall i :: 0 <= i < |vs| ==> r[i] == Cut(cols[i], vs[i])
  {
    seq(|vs|, i requires 0 <= i < |vs| => Cut(cols[i], vs[i]))
  }

  lemma {:induction false} ColumnRoundTrip(cols: seq<Column>, vs: seq<Value>, i: nat)
    requires RowOK(cols, vs) && i < |cols|
    ensures Field(cols, Encode(cols, vs), i) == EncodeField(cols[i], vs[i])
    ensures DecodeField(cols[i], Field(cols, Encode(cols, vs), i)) == Cut(cols[i], vs[i])
  {
    ConcatField(cols, Fields(cols, vs), |cols|, i);
    FieldRoundTrip(cols[i], vs[i]);
  }

  /** Reading back what was written gives the same integers and each string cut to its column. */
  lemma {:induction false} RowRoundTrip(cols: seq<Column>, vs: seq<Value>)
    requires RowOK(cols, vs)
    ensures Decode(cols, Encode(cols, vs)) == CutRow(cols, vs)
    ensures forall i :: 0 <= i < |cols| && cols[i].kind != KVarchar ==> Decode(cols, Encode(cols, vs))[i] == vs[i]
    ensures forall i :: 0 <= i < |cols| && cols[i].kind == KVarchar ==>
              var d := Decode(cols, Encode(cols, vs))[i];
              d.StrV? && d.s <= vs[i].s && |d.s| == if |vs[i].s| < cols[i].size - 1 then |vs[i].s| else cols[i].size - 1
  {
    forall i | 0 <= i < |cols|
      ensures Decode(cols, Encode(cols, vs))[i] == CutRow(cols, vs)[i]
    {
      DecodeAt(cols, Encode(cols, vs), |cols|, i);
      ColumnRoundTrip(cols, vs, i);
    }
  }

  /** An UPDATE of column i reads a stored row, replaces one value and writes the row back: every
      other column still decodes to what it did, and every byte outside the column is what it was. */
  lemma {:induction false} UpdateIsLocal(cols: seq<Column>, vs: seq<Value>, i: nat, v: Value) returns (back: seq<Value>)
    requires RowOK(cols, vs) && i < |cols| && ValueOK(cols[i], v)
    ensures back == Decode(cols, Encode(cols, vs))[i := v] && RowOK(cols, back)
    ensures Decode(cols, Encode(cols, back)) == Decode(cols, Encode(cols, vs))[i := Cut(cols[i], v)]
    ensures cols[i].kind != KVarchar ==> Decode(cols, Encode(cols, back))[i] == v
    ensures cols[i].kind == KVarchar ==>
              var d := Decode(cols, Encode(cols, back))[i];
              d.StrV? && d.s <= v.s && |d.s| == if |v.s| < cols[i].size - 1 then |v.s| else cols[i].size - 1
    ensures forall k :: 0 <= k < EndOf(cols, |cols|) && !(EndOf(cols, i) <= k < EndOf(cols, i) + cols[i].size) ==>
              Encode(cols, back)[k] == Encode(cols, vs)[k]
  {
    RowRoundTrip(cols, vs);
    back := CutRow(cols, vs)[i := v];
    CutTwice(cols, vs, i, v);
    RowRoundTrip(cols, back);
    forall k | 0 <= k < EndOf(cols, |cols|) && !(EndOf(cols, i) <= k < EndOf(cols, i) + cols[i].size)
      ensures Encode(cols, back)[k] == Encode(cols, vs)[k]
    {
      ConcatElsewhere(cols, Fields(cols, vs), Fields(cols, back), i, |cols|, k);
    }
  }

  lemma {:induction false} CutAgain(cols: seq<Column>, vs: seq<Value>)
    requires RowOK(cols, vs)
    ensures RowOK(cols, CutRow(cols, vs)) && Encode(cols, CutRow(cols, vs)) == Encode(cols, vs)
  {
    forall j | 0 <= j < |cols|
      ensures ValueOK(cols[j], Cut(cols[j], vs[j]))
      ensures EncodeField(cols[j], Cut(cols[j], vs[j])) == EncodeField(cols[j], vs[j])
    {
      FieldRoundTrip(cols[j], vs[j]);
    }
    assert Fields(cols, CutRow(cols, vs)) == Fields(cols, vs);
  }

  lemma {:induction false} CutTwice(cols: seq<Column>, vs: seq<Value>, i: nat, v: Value)
    requires RowOK(cols, vs) && i < |cols| && ValueOK(cols[i], v)
    ensures RowOK(cols, CutRow(cols, vs)[i := v])
    ensures CutRow(cols, CutRow(cols, vs)[i := v]) == CutRow(cols, vs)[i := Cut(cols[i], v)]
    ensures forall j :: 0 <= j < |cols| && j != i ==>
              Fields(cols, vs)[j] == Fields(cols, CutRow(cols, vs)[i := v])[j]
  {
    forall j | 0 <= j < |cols|
      ensures ValueOK(cols[j], Cut(cols[j], vs[j]))
      ensures Cut(cols[j], Cut(cols[j], vs[j])) == Cut(cols[j], vs[j])
      ensures EncodeField(cols[j], Cut(cols[j], vs[j])) == EncodeField(cols[j], vs[j])
    {
      FieldRoundTrip(cols[j], vs[j]);
    }
  }

  /* ---------- the loops that fill and read the buffer ---------- */

  /** The bytes the loop copies for a column: for a string, without the zeros that pad it. */
  function Payload(c: Column, v: Value): (r: Bytes)
    requires ColumnOK(c) && ValueOK(c, v)
    ensures |r| <= c.size && EncodeField(c, v) == r + Zeros(c.size - |r|)
  {
    match c.kind
    case KInt => assert Zeros(0) == []; EncodeField(c, v)
    case KBigint => assert Zeros(0) == []; EncodeField(c, v)
    case KVarchar => Cut(c, v).s
  }

  /** The buffer with the first n byte strings written and zeros behind them. */
  ghost predicate Written(cols: seq<Column>, fs: seq<Bytes>, n: nat, buf: Bytes)
    requires n <= |cols| == |fs|
  {
    |buf| == EndOf(cols, |cols|) && EndOf(cols, n) <= |buf| &&
    buf == Concat(fs, n) + Zeros(|buf| - EndOf(cols, n))
  }

  method Serialize(cols: seq<Column>, vs: seq<Value>) returns (buf: Bytes)
    requires RowOK(cols, vs) && Tiled(cols)
    ensures buf == Encode(cols, vs)
  {
    ghost var fs;
    buf := Zeros(EndOf(cols, |cols|));
    fs := NothingWritten(cols, vs, buf);
    var i := 0;
    while i < |cols|
      invariant 0 <= i <= |cols| == |fs| && Written(cols, fs, i, buf)
    {
      ghost var after := SerializeStep(cols, vs, fs, i, buf);
      buf := Overwrite(buf, cols[i].offset, Payload(cols[i], vs[i]));
      i := i + 1;
    }
    AllWritten(cols, vs, fs, buf);
  }

  lemma {:induction false} NothingWritten(cols: seq<Column>, vs: seq<Value>, buf: Bytes) returns (fs: seq<Bytes>)
    requires RowOK(cols, vs) && buf == Zeros(EndOf(cols, |cols|))
    ensures fs == Fields(cols, vs) && Written(cols, fs, 0, buf)
  {
    fs := Fields(cols, vs);
    EndGrows(cols, 0, |cols|);
  }

  lemma {:induction false} AllWritten(cols: seq<Column>, vs: seq<Value>, fs: seq<Bytes>, buf: Bytes)
    requires RowOK(cols, vs) && fs == Fields(cols, vs) && Written(cols, fs, |cols|, buf)
    ensures buf == Encode(cols, vs)
  {
    ConcatLength(cols, fs, |cols|);
    assert Zeros(0) == [];
  }

  lemma {:induction false} SerializeStep(cols: seq<Column>, vs: seq<Value>, fs: seq<Bytes>, i: nat, buf: Bytes) returns (after: Bytes)
    requires RowOK(cols, vs) && Tiled(cols) && i < |cols| && fs == Fields(cols, vs) && Written(cols, fs, i, buf)
    ensures cols[i].offset + |Payload(cols[i], vs[i])| <= |buf|
    ensures after == Overwrite(buf, cols[i].offset, Payload(cols[i], vs[i])) && Written(cols, fs, i + 1, after)
  {
    EndGrows(cols, i, |cols|);
    assert StartsAt(cols, i);
    after := OneField(cols, fs, i, buf, Payload(cols[i], vs[i]));
  }

  lemma {:induction false} ZerosSplit(m: nat, n: nat)
    ensures Zeros(m + n) == Zeros(m) + Zeros(n)
  {
    var z, w := Zeros(m + n), Zeros(m) + Zeros(n);
    assert forall k :: 0 <= k < m + n ==> z[k] == w[k];
  }

  /** The bytes behind the payload are still zero, so the whole field is in place. */
  lemma {:induction false} OneField(cols: seq<Column>, fs: seq<Bytes>, i: nat, buf: Bytes, p: Bytes) returns (after: Bytes)
    requires Fit(cols, fs) && i < |cols| && Written(cols, fs, i, buf)
    requires |p| <= cols[i].size && fs[i] == p + Zeros(cols[i].size - |p|)
    requires EndOf(cols, i) + cols[i].size <= |buf|
    ensures after == Overwrite(buf, EndOf(cols, i), p) && Written(cols, fs, i + 1, after)
  {
    ConcatLength(cols, fs, i);
    after := OverwriteZeros(Concat(fs, i), p, cols[i].size - |p|, |buf| - EndOf(cols, i) - cols[i].size, buf);
  }

  lemma {:induction false} OverwriteZeros(done: Bytes, p: Bytes, pad: nat, rest: nat, buf: Bytes) returns (after: Bytes)
    requires buf == done + Zeros(|p| + pad + rest)
    ensures after == Overwrite(buf, |done|, p) == done + (p + Zeros(pad)) + Zeros(rest)
  {
    after := Overwrite(buf, |done|, p);
    ZerosSplit(|p|, pad + rest);
    ZerosSplit(pad, rest);
    var a, b, c := Zeros(|p|), Zeros(pad), Zeros(rest);
    assert done + (a + (b + c)) == (done + a) + (b + c);
    assert (done + a)[..|done|] == done;
    assert ((done + a) + (b + c))[|done + a|..] == b + c;
    assert (done + p) + (b + c) == done + (p + b) + c;
  }

  method Deserialize(cols: seq<Column>, buf: Bytes) returns (vs: seq<Value>)
    requires ColumnsOK(cols) && Tiled(cols) && |buf| == EndOf(cols, |cols|)
    ensures vs == Decode(cols, buf)
  {
    vs := [];
    var i := 0;
    while i < |cols|
      invariant 0 <= i <= |cols| && vs == DecodeFirst(cols, buf, i)
    {
      DeserializeStep(cols, buf, i);
      vs := vs + [DecodeField(cols[i], buf[cols[i].offset..cols[i].offset + cols[i].size])];
      i := i + 1;
    }
  }

  lemma {:induction false} DeserializeStep(cols: seq<Column>, buf: Bytes, i: nat)
    requires ColumnsOK(cols) && Tiled(cols) && |buf| == EndOf(cols, |cols|) && i < |cols|
    ensures cols[i].offset + cols[i].size <= |buf|
    ensures DecodeFirst(cols, buf, i + 1)
         == DecodeFirst(cols, buf, i) + [DecodeField(cols[i], buf[cols[i].offset..cols[i].offset + cols[i].size])]
  {
    EndGrows(cols, i, |cols|);
    assert StartsAt(cols, i);
  }
}
