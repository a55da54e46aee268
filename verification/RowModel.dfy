// A row of typed values as bytes: null bitmap, fixed part, offsets, text data.
module RowModel {
  import opened Sequences
  import opened Bytes
  import opened Results

  datatype ColumnType = TypeInt | TypeFloat | TypeText | TypeBool

  const INT_MIN: int := -0x8000_0000
  const INT_MAX: int := 0x7fff_ffff

  /** A float is its 64 bits, a text its bytes. */
  datatype Value = Null | IntValue(n: int) | FloatValue(bits: nat) | TextValue(text: seq<Byte>) | BoolValue(b: bool)

  type Schema = seq<ColumnType>

  predicate HasType(v: Value, c: ColumnType) {
    match v
    case Null => true
    case IntValue(n) => c == TypeInt && INT_MIN <= n <= INT_MAX
    case FloatValue(bits) => c == TypeFloat && bits < TWO64
    case TextValue(_) => c == TypeText
    case BoolValue(_) => c == TypeBool
  }

  predicate Typed(values: seq<Value>, schema: Schema) {
    |values| == |schema| && forall i :: 0 <= i < |values| ==> HasType(values[i], schema[i])
  }

  function ColFixedSize(c: ColumnType): nat {
    match c
    case TypeInt => 4
    case TypeFloat => 8
    case TypeText => 2
    case TypeBool => 1
  }

  // ----- bits -----

  /** Bit k of b, counted from the lowest. */
  predicate Bit(b: nat, k: nat) {
    if k == 0 then b % 2 == 1 else Bit(b / 2, k - 1)
  }

  /** b with bit k set. */
  function SetBit(b: nat, k: nat): nat {
    if k == 0 then b / 2 * 2 + 1 else SetBit(b / 2, k - 1) * 2 + b % 2
  }

  lemma {:induction false} SetBitIs(b: nat, k: nat, j: nat)
    ensures Bit(SetBit(b, k), j) <==> j == k || Bit(b, j)
  {
    if k > 0 && j > 0 {
      SetBitIs(b / 2, k - 1, j - 1);
    }
  }

  lemma SetBitInByte(b: Byte, k: nat)
    requires k < 8
    ensures SetBit(b, k) < 256
  {
    SetBitBelow(b, k, 8);
  }

  lemma {:induction false} SetBitBelow(b: nat, k: nat, w: nat)
    requires k < w <= 8 && b < Pow2(w)
    ensures SetBit(b, k) < Pow2(w)
  {
    var half := Pow2(w - 1);
    assert Pow2(w) == 2 * half;
    if k > 0 {
      SetBitBelow(b / 2, k - 1, w - 1);
      var r := SetBit(b / 2, k - 1);
      assert r + 1 <= half;
      assert SetBit(b, k) == r * 2 + b % 2;
    }
  }

  function Pow2(k: nat): (p: nat)
    ensures p > 0
  {
    if k == 0 then 1 else 2 * Pow2(k - 1)
  }

  // ----- the null bitmap -----

  function BitmapSize(n: nat): nat { (n + 7) / 8 }

  /** A bitmap with the bit of column i set. */
  function WithNull(b: seq<Byte>, i: nat): (r: seq<Byte>)
    requires i / 8 < |b|
    ensures |r| == |b|
  {
    SetBitInByte(b[i / 8], i % 8);
    b[i / 8 := SetBit(b[i / 8], i % 8)]
  }

  /** Whether the bitmap at the front of b has the bit of column i set. */
  predicate IsNull(b: seq<Byte>, i: nat)
    requires i / 8 < |b|
  {
    Bit(b[i / 8], i % 8)
  }

  lemma WithNullIs(b: seq<Byte>, i: nat, j: nat)
    requires i / 8 < |b| && j / 8 < |b|
    ensures IsNull(WithNull(b, i), j) <==> j == i || IsNull(b, j)
  {
    if i / 8 == j / 8 {
      SetBitIs(b[i / 8], i % 8, j % 8);
    }
  }

  lemma {:induction false} NoBits(k: nat)
    ensures !Bit(0, k)
  {
    if k > 0 {
      NoBits(k - 1);
    }
  }

  /** The bitmap of the nulls among the first n values. */
  function Bitmap(values: seq<Value>, n: nat): (b: seq<Byte>)
    requires n <= |values|
    ensures |b| == BitmapSize(|values|)
  {
    if n == 0 then Zeros(BitmapSize(|values|))
    else if values[n - 1].Null? then WithNull(Bitmap(values, n - 1), n - 1)
    else Bitmap(values, n - 1)
  }

  lemma {:induction false} BitmapIs(values: seq<Value>, n: nat, j: nat)
    requires n <= |values| && j / 8 < BitmapSize(|values|)
    ensures IsNull(Bitmap(values, n), j) <==> j < n && values[j].Null?
  {
    if n == 0 {
      NoBits(j % 8);
    } else {
      BitmapIs(values, n - 1, j);
      WithNullIs(Bitmap(values, n - 1), n - 1, j);
    }
  }

  // ----- the encoding -----

  function FixedPos(schema: Schema, i: nat): nat
    requires i <= |schema|
  {
    if i == 0 then 0 else FixedPos(schema, i - 1) + ColFixedSize(schema[i - 1])
  }

  /** How many bytes of text data the first n values have. */
  function TextSize(values: seq<Value>, n: nat): nat
    requires n <= |values|
  {
    if n == 0 then 0
    else TextSize(values, n - 1) + if values[n - 1].TextValue? then 2 + |values[n - 1].text| else 0
  }

  /** A uint32 that holds an int32. */
  function Unsigned(n: int): (u: nat)
    requires INT_MIN <= n <= INT_MAX
    ensures u < TWO32
  {
    if n < 0 then n + TWO32 else n
  }

  function Signed(u: nat): (n: int)
    requires u < TWO32
    ensures INT_MIN <= n <= INT_MAX
  {
    if u > INT_MAX then u - TWO32 else u
  }

  /** The bytes of a value in the fixed part; a text has the offset of its bytes there, as a uint16. */
  function FixedBytes(v: Value, c: ColumnType, offset: nat): (b: seq<Byte>)
    requires HasType(v, c)
    ensures |b| == ColFixedSize(c)
  {
    match v
    case Null => Zeros(ColFixedSize(c))
    case IntValue(n) => LittleEndian(Unsigned(n), 4)
    case FloatValue(bits) => LittleEndian(bits, 8)
    case TextValue(_) => LittleEndian(offset % TWO16, 2)
    case BoolValue(b) => if b then [1] else [0]
  }

  function FixedPart(values: seq<Value>, schema: Schema, n: nat): (b: seq<Byte>)
    requires Typed(values, schema) && n <= |values|
    ensures |b| == FixedPos(schema, n)
  {
    if n == 0 then []
    else FixedPart(values, schema, n - 1) + FixedBytes(values[n - 1], schema[n - 1], TextSize(values, n - 1))
  }

  /** The length of a text, as a uint16, and its bytes. */
  function TextBytes(v: Value): seq<Byte> {
    if v.TextValue? then LittleEndian(|v.text| % TWO16, 2) + v.text else []
  }

  function TextData(values: seq<Value>, n: nat): (b: seq<Byte>)
    requires n <= |values|
    ensures |b| == TextSize(values, n)
  {
    if n == 0 then [] else TextData(values, n - 1) + TextBytes(values[n - 1])
  }

  /** The offsets once more, for every column. */
  function OffsetTable(values: seq<Value>, n: nat): (b: seq<Byte>)
    requires n <= |values|
    ensures |b| == 2 * n
  {
    if n == 0 then []
    else OffsetTable(values, n - 1) +
         LittleEndian(if values[n - 1].TextValue? then TextSize(values, n - 1) % TWO16 else 0, 2)
  }

  function Encode(values: seq<Value>, schema: Schema): (b: seq<Byte>)
    requires Typed(values, schema)
  {
    Bitmap(values, |values|) + FixedPart(values, schema, |values|) +
    OffsetTable(values, |values|) + TextData(values, |values|)
  }

  // ----- the decoding -----

  /** The text at a position; nothing if it is cut short. */
  function TextAt(data: seq<Byte>, at: nat): Value {
    if at + 2 > |data| then Null
    else
      var n := FromLittleEndian(data[at..at + 2]);
      if at + 2 + n > |data| then Null else TextValue(data[at + 2..at + 2 + n])
  }

  /** Where the fixed part of column i starts. */
  function CellPos(schema: Schema, i: nat): nat
    requires i <= |schema|
  {
    BitmapSize(|schema|) + FixedPos(schema, i)
  }

  /** The bytes reach over the fixed part of every column that is not null. */
  predicate LongEnough(data: seq<Byte>, schema: Schema) {
    && BitmapSize(|schema|) <= |data|
    && forall i {:trigger schema[i]} :: 0 <= i < |schema| && !IsNull(data, i) ==>
         CellPos(schema, i) + ColFixedSize(schema[i]) <= |data|
  }

  function Cell(data: seq<Byte>, schema: Schema, i: nat): Value
    requires i < |schema| && BitmapSize(|schema|) <= |data|
    requires !IsNull(data, i) ==> CellPos(schema, i) + ColFixedSize(schema[i]) <= |data|
  {
    if IsNull(data, i) then Null
    else
      var pos := CellPos(schema, i);
      match schema[i]
      case TypeInt => IntValue(SignedOf(data[pos..pos + 4]))
      case TypeFloat => FloatValue(FromLittleEndian(data[pos..pos + 8]))
      case TypeBool => BoolValue(data[pos] == 1)
      case TypeText =>
        TextAt(data, CellPos(schema, |schema|) + 2 * |schema| + FromLittleEndian(data[pos..pos + 2]))
  }

  function SignedOf(b: seq<Byte>): (n: int)
    requires |b| == 4
    ensures INT_MIN <= n <= INT_MAX
  {
    Powers();
    ReadBound(b);
    Signed(FromLittleEndian(b))
  }

  function Decode(data: seq<Byte>, schema: Schema): (r: Result<seq<Value>>)
    ensures r.Ok? ==> Typed(r.value, schema)
  {
    if data == [] then Err(EmptyRow)
    else if !LongEnough(data, schema) then Err(RowCutShort)
    else
      Powers();
      var values := seq(|schema|, i requires 0 <= i < |schema| => Cell(data, schema, i));
      assert Typed(values, schema) by {
        forall i | 0 <= i < |schema| ensures HasType(values[i], schema[i]) { CellTyped(data, schema, i); }
      }
      Ok(values)
  }

  lemma CellTyped(data: seq<Byte>, schema: Schema, i: nat)
    requires i < |schema| && LongEnough(data, schema)
    ensures HasType(Cell(data, schema, i), schema[i])
  {
    var pos := CellPos(schema, i);
    if !IsNull(data, i) && schema[i] == TypeFloat {
      Powers();
      ReadBound(data[pos..pos + 8]);
    }
  }

  // ----- reading back -----

  lemma {:induction false} FixedPosGrows(schema: Schema, i: nat, n: nat)
    requires i < n <= |schema|
    ensures FixedPos(schema, i) + ColFixedSize(schema[i]) <= FixedPos(schema, n)
  {
    if i < n - 1 {
      FixedPosGrows(schema, i, n - 1);
    }
  }

  /** Column i's bytes in the fixed part. */
  lemma {:induction false} FixedPartAt(values: seq<Value>, schema: Schema, i: nat, n: nat)
    requires Typed(values, schema) && i < n <= |values|
    ensures FixedPos(schema, i) + ColFixedSize(schema[i]) <= FixedPos(schema, n)
    ensures FixedPart(values, schema, n)[FixedPos(schema, i)..FixedPos(schema, i) + ColFixedSize(schema[i])] ==
            FixedBytes(values[i], schema[i], TextSize(values, i))
  {
    hide FixedBytes, ColFixedSize;
    FixedPosGrows(schema, i, n);
    if i < n - 1 {
      FixedPartAt(values, schema, i, n - 1);
      SliceOfFront(FixedPart(values, schema, n - 1), FixedBytes(values[n - 1], schema[n - 1], TextSize(values, n - 1)),
                   FixedPos(schema, i), FixedPos(schema, i) + ColFixedSize(schema[i]));
    }
  }

  lemma SliceOfFront<T>(a: seq<T>, b: seq<T>, lo: nat, hi: nat)
    requires lo <= hi <= |a|
    ensures (a + b)[lo..hi] == a[lo..hi]
  {
  }

  lemma SliceOfBack<T>(a: seq<T>, b: seq<T>, lo: nat, hi: nat)
    requires lo <= hi <= |b|
    ensures (a + b)[|a| + lo..|a| + hi] == b[lo..hi]
  {
  }

  /** The bytes of text i in the text data. */
  lemma {:induction false} TextDataAt(values: seq<Value>, i: nat, n: nat)
    requires i < n <= |values| && values[i].TextValue?
    ensures TextSize(values, i) + |TextBytes(values[i])| <= TextSize(values, n)
    ensures TextData(values, n)[TextSize(values, i)..TextSize(values, i) + |TextBytes(values[i])|] ==
            TextBytes(values[i])
  {
    if i < n - 1 {
      TextDataAt(values, i, n - 1);
      SliceOfFront(TextData(values, n - 1), TextBytes(values[n - 1]),
                   TextSize(values, i), TextSize(values, i) + |TextBytes(values[i])|);
    }
  }

  lemma SliceOfSlice<T>(s: seq<T>, a: nat, b: nat, lo: nat, hi: nat)
    requires a <= b <= |s| && lo <= hi <= b - a
    ensures s[a..b][lo..hi] == s[a + lo..a + hi]
  {
    var x, y := s[a..b][lo..hi], s[a + lo..a + hi];
    assert forall i :: 0 <= i < |x| ==> x[i] == y[i];
  }

  lemma TextAtReads(data: seq<Byte>, at: nat, n: nat, text: seq<Byte>)
    requires n < TWO16 && n <= |text| && at + 2 + |text| <= |data|
    requires data[at..at + 2 + |text|] == LittleEndian(n, 2) + text
    ensures TextAt(data, at) == TextValue(text[..n])
  {
    hide LittleEndian, FromLittleEndian;
    ReadsBack16(n);
    SliceOfSlice(data, at, at + 2 + |text|, 0, 2);
    SliceOfSlice(data, at, at + 2 + |text|, 2, 2 + n);
    SliceOfFront(LittleEndian(n, 2), text, 0, 2);
    SliceOfBack(LittleEndian(n, 2), text, 0, n);
  }

  /** The parts of an encoding and where they are. */
  lemma EncodeParts(values: seq<Value>, schema: Schema, i: nat)
    requires Typed(values, schema) && i < |schema|
    ensures var e, pos, base := Encode(values, schema), CellPos(schema, i), CellPos(schema, |schema|) + 2 * |schema|;
            && |e| == base + TextSize(values, |values|)
            && pos + ColFixedSize(schema[i]) <= CellPos(schema, |schema|)
            && (IsNull(e, i) <==> values[i].Null?)
            && e[pos..pos + ColFixedSize(schema[i])] == FixedBytes(values[i], schema[i], TextSize(values, i))
            && e[CellPos(schema, |schema|)..base] == OffsetTable(values, |values|)
            && e[base..] == TextData(values, |values|)
  {
    hide Bit, FixedBytes, TextBytes, ColFixedSize, Bitmap, FixedPart, OffsetTable, TextData, FixedPos, TextSize;
    var n := |values|;
    BitmapIs(values, n, i);
    FixedPartAt(values, schema, i, n);
    FourParts(Bitmap(values, n), FixedPart(values, schema, n), OffsetTable(values, n), TextData(values, n),
              i / 8, FixedPos(schema, i), FixedPos(schema, i) + ColFixedSize(schema[i]));
  }

  lemma FourParts<T>(a: seq<T>, b: seq<T>, c: seq<T>, d: seq<T>, i: nat, lo: nat, hi: nat)
    requires i < |a| && lo <= hi <= |b|
    ensures var e := a + b + c + d;
            && e[i] == a[i] && e[|a| + lo..|a| + hi] == b[lo..hi]
            && e[|a| + |b|..|a| + |b| + |c|] == c && e[|a| + |b| + |c|..] == d
  {
    SliceOfBack(a, b, lo, hi);
    SliceOfFront(a + b, c, |a| + lo, |a| + hi);
    SliceOfFront(a + b + c, d, |a| + lo, |a| + hi);
  }

  /** The data hold a text, behind its length, at position o. */
  predicate HoldsText(data: seq<Byte>, o: nat, text: seq<Byte>) {
    |text| < TWO16 && o + 2 + |text| <= |data| && data[o..o + 2 + |text|] == LittleEndian(|text|, 2) + text
  }

  /** Text i stands where its offset, counted as a uint16, points to. */
  predicate TextFound(values: seq<Value>, i: nat)
    requires i < |values|
  {
    values[i].TextValue? ==> HoldsText(TextData(values, |values|), TextSize(values, i) % TWO16, values[i].text)
  }

  lemma TextAtIff(data: seq<Byte>, at: nat, text: seq<Byte>)
    ensures TextAt(data, at) == TextValue(text) <==> HoldsText(data, at, text)
  {
    hide LittleEndian, FromLittleEndian;
    if HoldsText(data, at, text) {
      TextAtReads(data, at, |text|, text);
      assert text[..|text|] == text;
    }
    if TextAt(data, at) == TextValue(text) {
      var b := data[at..at + 2];
      ReadBound(b);
      WritesBack(b);
      assert Pow256(2) == TWO16;
      assert data[at..at + 2 + |text|] == b + data[at + 2..at + 2 + |text|];
    }
  }

  lemma HoldsBehind(front: seq<Byte>, data: seq<Byte>, o: nat, text: seq<Byte>)
    ensures HoldsText(front + data, |front| + o, text) <==> HoldsText(data, o, text)
  {
    hide LittleEndian;
    if o + 2 + |text| <= |data| {
      SliceOfBack(front, data, o, o + 2 + |text|);
    }
  }

  lemma CellReadsBack(values: seq<Value>, schema: Schema, i: nat)
    requires Typed(values, schema) && i < |schema|
    ensures var e := Encode(values, schema);
            && BitmapSize(|schema|) <= |e| && CellPos(schema, i) + ColFixedSize(schema[i]) <= |e|
            && (Cell(e, schema, i) == values[i] <==> TextFound(values, i))
  {
    hide Encode, IsNull, TextFound;
    EncodeParts(values, schema, i);
    match values[i]
    case Null => assert TextFound(values, i) by { NoText(values, i); }
    case IntValue(n) => ReadsBack32(Unsigned(n)); NoText(values, i);
    case FloatValue(bits) => ReadsBack64(bits); NoText(values, i);
    case BoolValue(_) =>
      var e, pos := Encode(values, schema), CellPos(schema, i);
      assert e[pos] == e[pos..pos + 1][0];
      NoText(values, i);
    case TextValue(text) => TextReadsBack(values, schema, i);
  }

  lemma NoText(values: seq<Value>, i: nat)
    requires i < |values| && !values[i].TextValue?
    ensures TextFound(values, i)
  {
  }

  lemma TextReadsBack(values: seq<Value>, schema: Schema, i: nat)
    requires Typed(values, schema) && i < |schema| && values[i].TextValue? && !IsNull(Encode(values, schema), i)
    requires CellPos(schema, i) + ColFixedSize(schema[i]) <= |Encode(values, schema)|
    ensures Cell(Encode(values, schema), schema, i) == values[i] <==> TextFound(values, i)
  {
    hide Encode, IsNull, TextData, LittleEndian, FromLittleEndian, TextAt, CellPos, HoldsText, TextSize;
    var e, text, o := Encode(values, schema), values[i].text, TextSize(values, i) % TWO16;
    var base := CellPos(schema, |schema|) + 2 * |schema|;
    assert HasType(values[i], schema[i]);
    EncodeParts(values, schema, i);
    ReadsBack16(o);
    assert e == e[..base] + e[base..];
    HoldsBehind(e[..base], e[base..], o, text);
    TextAtIff(e, base + o, text);
  }

  lemma BelowModulus(x: nat, m: nat)
    requires x < m
    ensures x % m == x
  {
  }

  /**
   A typed row reads back exactly if it has columns, and each text is shorter than 64K and found at its offset modulo
   64K.
   */
  lemma RowReadsBackIff(values: seq<Value>, schema: Schema)
    requires Typed(values, schema)
    ensures Decode(Encode(values, schema), schema) == Ok(values) <==>
            schema != [] && forall i {:trigger TextFound(values, i)} :: 0 <= i < |values| ==> TextFound(values, i)
  {
    hide Encode, Cell, IsNull, CellPos, ColFixedSize, TextFound;
    var e := Encode(values, schema);
    if schema == [] {
      NoColumnsNeverReadBack(values);
      return;
    }
    forall i {:trigger schema[i]} {:trigger TextFound(values, i)} | 0 <= i < |schema|
      ensures BitmapSize(|schema|) <= |e| && CellPos(schema, i) + ColFixedSize(schema[i]) <= |e|
      ensures Cell(e, schema, i) == values[i] <==> TextFound(values, i)
    {
      CellReadsBack(values, schema, i);
    }
    assert BitmapSize(|schema|) <= |e| && e != [] by { CellReadsBack(values, schema, 0); }
    assert LongEnough(e, schema);
    var cells := seq(|schema|, i requires 0 <= i < |schema| => Cell(e, schema, i));
    assert Decode(e, schema) == Ok(cells);
    assert cells == values <==> forall i :: 0 <= i < |values| ==> cells[i] == values[i];
  }

  /** Every typed row of at least one column whose texts take less than 64K reads back as it was. */
  lemma RowReadsBack(values: seq<Value>, schema: Schema)
    requires Typed(values, schema) && schema != [] && TextSize(values, |values|) < TWO16
    ensures Decode(Encode(values, schema), schema) == Ok(values)
  {
    hide Encode, Decode, TextData, TextSize, LittleEndian;
    forall i {:trigger TextFound(values, i)} | 0 <= i < |values| ensures TextFound(values, i) {
      if values[i].TextValue? {
        TextDataAt(values, i, |values|);
        BelowModulus(TextSize(values, i), TWO16);
        BelowModulus(|values[i].text|, TWO16);
      }
    }
    RowReadsBackIff(values, schema);
  }

  /** The texts of a row shorter than 64K take less than that. */
  lemma ShortRow(values: seq<Value>, schema: Schema)
    requires Typed(values, schema) && |Encode(values, schema)| < TWO16
    ensures TextSize(values, |values|) < TWO16
  {
    hide TextSize, TextData, Bitmap, FixedPart, OffsetTable;
  }

  /** No row of no columns reads back: it has no bytes. */
  lemma NoColumnsNeverReadBack(values: seq<Value>)
    requires Typed(values, [])
    ensures Encode(values, []) == [] && Decode(Encode(values, []), []) == Err(EmptyRow)
  {
  }

  /** A text longer than 64K loses what its uint16 length does not count: it reads back only below that. */
  lemma LongTextIsCut(text: seq<Byte>)
    ensures Typed([TextValue(text)], [TypeText]) && |Encode([TextValue(text)], [TypeText])| == |text| + 7
    ensures Decode(Encode([TextValue(text)], [TypeText]), [TypeText]) == Ok([TextValue(text[..|text| % TWO16])])
    ensures Decode(Encode([TextValue(text)], [TypeText]), [TypeText]) == Ok([TextValue(text)]) <==> |text| < TWO16
  {
    hide Encode, LittleEndian, FromLittleEndian, Bit, TextAt;
    var values, schema := [TextValue(text)], [TypeText];
    var e, n := Encode(values, schema), |text| % TWO16;
    EncodeParts(values, schema, 0);
    assert TextData(values, 1) == TextBytes(values[0]);
    assert FixedPos(schema, 1) == 2 && FixedPos(schema, 0) == 0;
    assert e[5..7 + |text|] == e[5..];
    TextAtReads(e, 5, n, text);
    ReadsBack16(0);
    assert Cell(e, schema, 0) == TextValue(text[..n]);
    assert LongEnough(e, schema);
    assert seq(1, i requires 0 <= i < 1 => Cell(e, schema, i)) == [TextValue(text[..n])];
    assert text[..n] == text <==> |text| < TWO16;
  }
}
