/** The WHERE clause, against a row of values. */
module Predicates {
  import opened Pages
  import opened Schema
  import opened Ordering
  import opened TreeDescent

  datatype CompareOp = OpEq | OpNe | OpLt | OpGt | OpLe | OpGe

  /** The text of a literal: what it reads as, for each kind of column. */
  datatype Literal = Literal(asInt: int, asBig: int, asStr: Bytes)

  datatype Predicate =
    | Everything
    | IdIs(id: nat)
    | IdRange(bounds: Bounds)
    | FieldIs(field: string, op: CompareOp, literal: Literal)

  predicate LiteralOK(l: Literal) {
    Fits(l.asInt, 4) && Fits(l.asBig, 8) && NoZero(l.asStr) && |l.asStr| <= 255
  }

  /** An unsigned 64-bit number taken for a signed one. */
  function AsSigned64(u: nat): int {
    if u >= 0x8000_0000_0000_0000 then u - 0x1_0000_0000_0000_0000 else u
  }

  /** The six operators on the sign of a comparison. */
  function Apply(cmp: int, op: CompareOp): bool {
    match op
    case OpEq => cmp == 0
    case OpNe => cmp != 0
    case OpLt => cmp < 0
    case OpGt => cmp > 0
    case OpLe => cmp <= 0
    case OpGe => cmp >= 0
  }

  function FindColumnFrom(cols: seq<Column>, name: string, i: nat): (r: int)
    requires i <= |cols|
    ensures r == -1 || (i <= r < |cols| && cols[r].name == name)
    ensures r == -1 ==> forall j :: i <= j < |cols| ==> cols[j].name != name
    ensures r >= 0 ==> forall j :: i <= j < r ==> cols[j].name != name
    decreases |cols| - i
  {
    if i == |cols| then -1 else if cols[i].name == name then i else FindColumnFrom(cols, name, i + 1)
  }

  /** The first column of that name. */
  method FindColumn(cols: seq<Column>, name: string) returns (r: int)
    ensures r == FindColumnFrom(cols, name, 0)
  {
    var i := 0;
    while i < |cols|
      invariant 0 <= i <= |cols| && FindColumnFrom(cols, name, i) == FindColumnFrom(cols, name, 0)
    {
      if cols[i].name == name {
        return i;
      }
      i := i + 1;
    }
    r := -1;
  }

  function MatchField(c: Column, v: Value, op: CompareOp, l: Literal): bool
    requires ValueOK(c, v)
  {
    match c.kind
    case KInt => Apply(v.i - l.asInt, op)
    case KBigint => Apply(v.b - l.asBig, op)
    case KVarchar => Apply(StrCmp(v.s, l.asStr), op)
  }

  /** Ids are compared as signed numbers here, and as unsigned ones in the tree. */
  function MatchPredicate(cols: seq<Column>, vs: seq<Value>, p: Predicate): bool
    requires RowOK(cols, vs) && |cols| > 0 && cols[0].kind == KBigint
  {
    match p
    case Everything => true
    case IdIs(id) => assert ValueOK(cols[0], vs[0]); vs[0].b == AsSigned64(id)
    case IdRange(b) =>
      assert ValueOK(cols[0], vs[0]);
      && (b.hasLo ==> !(if b.loInclusive then vs[0].b < AsSigned64(b.lo) else vs[0].b <= AsSigned64(b.lo)))
      && (b.hasHi ==> !(if b.hiInclusive then vs[0].b > AsSigned64(b.hi) else vs[0].b >= AsSigned64(b.hi)))
    case FieldIs(field, op, l) =>
      var i := FindColumnFrom(cols, field, 0);
      i >= 0 && MatchField(cols[i], vs[i], op, l)
  }

  /** A condition on an integer column compares as numbers. Column i is the first of that name. */
  lemma {:induction false} IntegerFieldMeans(cols: seq<Column>, vs: seq<Value>, field: string, op: CompareOp, l: Literal, i: nat)
    requires RowOK(cols, vs) && |cols| > 0 && cols[0].kind == KBigint
    requires i < |cols| && cols[i].name == field && forall j :: 0 <= j < i ==> cols[j].name != field
    requires cols[i].kind != KVarchar
    ensures (cols[i].kind == KInt ==> vs[i].IntV?) && (cols[i].kind == KBigint ==> vs[i].BigV?)
    ensures var a, b := if cols[i].kind == KInt then vs[i].i else vs[i].b, if cols[i].kind == KInt then l.asInt else l.asBig;
            MatchPredicate(cols, vs, FieldIs(field, op, l)) <==>
              match op
              case OpEq => a == b
              case OpNe => a != b
              case OpLt => a < b
              case OpGt => a > b
              case OpLe => a <= b
              case OpGe => a >= b
  {
    assert ValueOK(cols[i], vs[i]) && FindColumnFrom(cols, field, 0) == i;
  }

  /** A condition on a string column compares byte by byte. */
  lemma {:induction false} StringFieldMeans(cols: seq<Column>, vs: seq<Value>, field: string, op: CompareOp, l: Literal, i: nat)
    requires RowOK(cols, vs) && |cols| > 0 && cols[0].kind == KBigint && LiteralOK(l)
    requires i < |cols| && cols[i].name == field && forall j :: 0 <= j < i ==> cols[j].name != field
    requires cols[i].kind == KVarchar
    ensures vs[i].StrV?
    ensures var a, b := vs[i].s, l.asStr;
            MatchPredicate(cols, vs, FieldIs(field, op, l)) <==>
              match op
              case OpEq => a == b
              case OpNe => a != b
              case OpLt => Before(a, b)
              case OpGt => Before(b, a)
              case OpLe => a == b || Before(a, b)
              case OpGe => a == b || Before(b, a)
  {
    assert ValueOK(cols[i], vs[i]) && FindColumnFrom(cols, field, 0) == i;
    StrCmpMeans(vs[i].s, l.asStr);
  }

  /** A condition on a column that does not exist holds of no row. */
  lemma {:induction false} NoSuchField(cols: seq<Column>, vs: seq<Value>, field: string, op: CompareOp, l: Literal)
    requires RowOK(cols, vs) && |cols| > 0 && cols[0].kind == KBigint
    requires forall j :: 0 <= j < |cols| ==> cols[j].name != field
    ensures !MatchPredicate(cols, vs, FieldIs(field, op, l))
  {
    assert FindColumnFrom(cols, field, 0) == -1;
  }

  predicate BeyondSigned(has: bool, bound: nat) {
    has && bound >= 0x8000_0000_0000_0000
  }

  /** The predicate picks a row just when the tree finds its id within the bounds, exactly if no bound,
      or both, lie beyond the signed range, or the other bound keeps the row out anyway. */
  lemma {:induction false} RangeMeansBounds(cols: seq<Column>, vs: seq<Value>, b: Bounds, id: nat)
    requires RowOK(cols, vs) && |cols| > 0 && cols[0].kind == KBigint && vs[0] == BigV(id) && id < 0x8000_0000_0000_0000
    requires b.lo < KEY_LIMIT && b.hi < KEY_LIMIT
    ensures (MatchPredicate(cols, vs, IdRange(b)) <==> InBounds(b, id)) <==>
              if BeyondSigned(b.hasLo, b.lo) == BeyondSigned(b.hasHi, b.hi) then true
              else if BeyondSigned(b.hasLo, b.lo) then !BelowHi(b, id) else !AboveLo(b, id)
  {
  }

  /** A lower bound of 2^63 lies above every id in the tree but below every one in a scan. */
  lemma {:induction false} RangeDiffersBeyond(cols: seq<Column>, vs: seq<Value>, id: nat)
    requires RowOK(cols, vs) && |cols| > 0 && cols[0].kind == KBigint && vs[0] == BigV(id) && id < 0x8000_0000_0000_0000
    ensures var b := Bounds(true, 0x8000_0000_0000_0000, true, false, 0, false);
            MatchPredicate(cols, vs, IdRange(b)) && !InBounds(b, id)
  {
  }

  /* ---------- values given in a statement ---------- */

  function FromLiteral(kind: Kind, l: Literal): Value {
    match kind
    case KInt => IntV(l.asInt)
    case KBigint => BigV(l.asBig)
    case KVarchar => StrV(l.asStr)
  }

  /** What a column that was given no value holds. */
  function ZeroValue(kind: Kind): Value {
    FromLiteral(kind, Literal(0, 0, []))
  }

  /** Column 0 is the id; the others take the literals in order, as far as they go. */
  function NewRow(cols: seq<Column>, id: nat, ls: seq<Literal>): (vs: seq<Value>)
    ensures |vs| == |cols|
    ensures forall i :: 0 <= i < |cols| ==>
              vs[i] == if i == 0 then BigV(id) else if i - 1 < |ls| then FromLiteral(cols[i].kind, ls[i - 1]) else ZeroValue(cols[i].kind)
  {
    seq(|cols|, i requires 0 <= i < |cols| =>
      if i == 0 then BigV(id) else if i - 1 < |ls| then FromLiteral(cols[i].kind, ls[i - 1]) else ZeroValue(cols[i].kind))
  }

  /** What a value is that was given by a literal: the number it reads as in an integer column, its
      text in a string column. */
  lemma {:induction false} LiteralMeans(c: Column, l: Literal)
    requires ColumnOK(c) && LiteralOK(l)
    ensures ValueOK(c, FromLiteral(c.kind, l))
    ensures c.kind == KInt ==> FromLiteral(c.kind, l) == IntV(l.asInt)
    ensures c.kind == KBigint ==> FromLiteral(c.kind, l) == BigV(l.asBig)
    ensures c.kind == KVarchar ==> FromLiteral(c.kind, l) == StrV(l.asStr)
  {
  }

  lemma {:induction false} NewRowOK(cols: seq<Column>, id: nat, ls: seq<Literal>)
    requires ColumnsOK(cols) && |cols| > 0 && cols[0].kind == KBigint && id < 0x8000_0000_0000_0000
    requires forall i :: 0 <= i < |ls| ==> LiteralOK(ls[i])
    ensures RowOK(cols, NewRow(cols, id, ls))
  {
    var vs := NewRow(cols, id, ls);
    assert Pow256(8) == 0x1_0000_0000_0000_0000;
    assert Pow256(4) == 0x1_0000_0000;
    forall i | 0 <= i < |cols|
      ensures ValueOK(cols[i], vs[i])
    {
    }
  }
}
