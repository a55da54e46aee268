// Writing and reading rows, with growing buffers and cursors.
module RowCodec {
  import opened Sequences
  import opened Bytes
  import opened Results
  import opened RowModel
  import opened RowLayout

  /** One value: its fixed bytes, its text data, the offset to note, and the next text offset (a uint16). */
  method SerializeColumn(v: Value, c: ColumnType, currentVarOffset: nat)
    returns (fixed: seq<Byte>, text: seq<Byte>, offset: nat, next: nat)
    requires HasType(v, c) && currentVarOffset < TWO16
    ensures fixed == FixedBytes(v, c, currentVarOffset) && text == TextBytes(v)
    ensures offset == if v.TextValue? then currentVarOffset else 0
    ensures next == (currentVarOffset + |TextBytes(v)|) % TWO16
  {
    hide LittleEndian, Unsigned;
    if v.Null? {
      return Zeros(ColFixedSize(c)), [], 0, currentVarOffset;
    }
    match c
    case TypeInt => return LittleEndian(Unsigned(v.n), 4), [], 0, currentVarOffset;
    case TypeFloat => return LittleEndian(v.bits, 8), [], 0, currentVarOffset;
    case TypeBool => return if v.b then [1] else [0], [], 0, currentVarOffset;
    case TypeText =>
      var strBytes := v.text;
      return LittleEndian(currentVarOffset, 2), LittleEndian(|strBytes| % TWO16, 2) + strBytes,
        currentVarOffset, (currentVarOffset + (2 + |strBytes|) % TWO16) % TWO16;
  }

  /** The bytes of a row; the values have the types of their columns. */
  method SerializeRow(values: seq<Value>, schema: Schema) returns (r: Result<seq<Byte>>)
    requires |values| == |schema| ==> Typed(values, schema)
    ensures r == if |values| == |schema| then Ok(Encode(values, schema)) else Err(WrongColumnCount)
    ensures r.Ok? ==> |values| == |schema| && LaidOut(r.value, values, schema)
  {
    hide LittleEndian, FixedBytes, TextBytes, ColFixedSize, WithNull, HasType, Zeros, LaidOut;
    if |values| != |schema| {
      return Err(WrongColumnCount);
    }
    var n := |schema|;
    var nullBitmap: seq<Byte> := Zeros((n + 7) / 8);
    var fixedPart: seq<Byte>, varData: seq<Byte> := [], [];
    var varOffsets: seq<nat> := [];
    var currentVarOffset := 0;
    for i := 0 to n
      invariant nullBitmap == Bitmap(values, i)
      invariant fixedPart == FixedPart(values, schema, i) && varData == TextData(values, i)
      invariant currentVarOffset == TextSize(values, i) % TWO16
      invariant varOffsets == TextOffsets(values, i)
    {
      if values[i].Null? {
        nullBitmap := WithNull(nullBitmap, i);
      }
      OffsetWraps(values[i], schema[i], TextSize(values, i));
      var fixed, text, offset, next := SerializeColumn(values[i], schema[i], currentVarOffset);
      fixedPart := fixedPart + fixed;
      varData := varData + text;
      varOffsets := varOffsets + [offset];
      currentVarOffset := next;
    }
    var result := nullBitmap + fixedPart;
    for i := 0 to n
      invariant result == nullBitmap + fixedPart + OffsetTable(values, i)
    {
      result := result + LittleEndian(varOffsets[i], 2);
      OffsetAt(values, i, n);
    }
    EncodeIsLaidOut(values, schema);
    return Ok(result + varData);
  }

  /** The noted offsets of the first n columns. */
  function TextOffsets(values: seq<Value>, n: nat): (s: seq<nat>)
    requires n <= |values|
    ensures |s| == n
  {
    if n == 0 then []
    else TextOffsets(values, n - 1) + [if values[n - 1].TextValue? then TextSize(values, n - 1) % TWO16 else 0]
  }

  lemma {:induction false} OffsetAt(values: seq<Value>, i: nat, n: nat)
    requires i < n <= |values|
    ensures TextOffsets(values, n)[i] == if values[i].TextValue? then TextSize(values, i) % TWO16 else 0
  {
    if i < n - 1 {
      OffsetAt(values, i, n - 1);
    }
  }

  lemma OffsetWraps(v: Value, c: ColumnType, offset: nat)
    requires HasType(v, c)
    ensures FixedBytes(v, c, offset % TWO16) == FixedBytes(v, c, offset)
    ensures (offset % TWO16 + |TextBytes(v)|) % TWO16 == (offset + |TextBytes(v)|) % TWO16
    ensures |TextBytes(v)| == if v.TextValue? then 2 + |v.text| else 0
  {
    hide LittleEndian, Unsigned;
    WrapsTwice(offset, 0);
    WrapsTwice(offset, |TextBytes(v)|);
  }

  lemma WrapsTwice(a: nat, b: nat)
    ensures (a % TWO16 + b) % TWO16 == (a + b) % TWO16
  {
    assert a == a / 0x1_0000 * 0x1_0000 + a % 0x1_0000;
    assert TWO16 == 0x1_0000;
  }

  /** The value of a column that is not null and reaches up to pos + its size; for a text, its offset instead. */
  method DeserializeColumn(data: seq<Byte>, schema: Schema, i: nat, pos: nat) returns (v: Value, offset: nat)
    requires i < |schema| && BitmapSize(|schema|) <= |data| && !IsNull(data, i)
    requires pos == CellPos(schema, i) && pos + ColFixedSize(schema[i]) <= |data|
    ensures schema[i] != TypeText ==> v == Cell(data, schema, i)
    ensures schema[i] == TypeText ==> v == Null && offset == OffsetOf(data, schema, i)
  {
    match schema[i]
    case TypeInt => return IntValue(SignedOf(data[pos..pos + 4])), 0;
    case TypeFloat => return FloatValue(FromLittleEndian(data[pos..pos + 8])), 0;
    case TypeBool => return BoolValue(data[pos] == 1), 0;
    case TypeText => return Null, FromLittleEndian(data[pos..pos + 2]);
  }

  method DeserializeText(data: seq<Byte>, dataStart: nat) returns (v: Value)
    ensures v == TextAt(data, dataStart)
  {
    if dataStart + 2 > |data| {
      return Null;
    }
    var strLen := FromLittleEndian(data[dataStart..dataStart + 2]);
    if dataStart + 2 + strLen > |data| {
      return Null;
    }
    return TextValue(data[dataStart + 2..dataStart + 2 + strLen]);
  }

  /** The texts are filled in from the collected offsets, in whatever order the map is walked. */
  method DeserializeRow(data: seq<Byte>, schema: Schema) returns (r: Result<seq<Value>>)
    ensures r == Decode(data, schema)
    ensures r.Ok? <==> data != [] && Complete(data, schema)
    ensures r.Ok? ==> Says(data, schema, r.value)
  {
    hide FromLittleEndian, IsNull, Cell, CellPos, OffsetOf, Says, Complete;
    DecodeSays(data, schema);
    if data == [] {
      return Err(EmptyRow);
    }
    var n := |schema|;
    var pos := (n + 7) / 8;
    if pos > |data| {
      return Err(RowCutShort);
    }
    assert pos == CellPos(schema, 0) by { CellPosNext(schema, 0); }
    var values: seq<Value> := [];
    var varOffsets: map<nat, nat> := map[];
    for i := 0 to n
      invariant pos == CellPos(schema, i) && |values| == i
      invariant forall j {:trigger schema[j]} :: 0 <= j < i && !IsNull(data, j) ==>
                CellPos(schema, j) + ColFixedSize(schema[j]) <= |data|
      invariant forall j :: j in varOffsets <==> 0 <= j < i && !IsNull(data, j) && schema[j] == TypeText
      invariant forall j :: j in varOffsets ==> varOffsets[j] == OffsetOf(data, schema, j)
      invariant forall j :: 0 <= j < i && j !in varOffsets ==> values[j] == Cell(data, schema, j)
      invariant forall j :: 0 <= j < i && j in varOffsets ==> values[j] == Null
    {
      if IsNull(data, i) {
        NullCell(data, schema, i);
        values := values + [Null];
      } else {
        if pos + ColFixedSize(schema[i]) > |data| {
          return Err(RowCutShort);
        }
        var v, offset := DeserializeColumn(data, schema, i, pos);
        values := values + [v];
        if schema[i] == TypeText {
          varOffsets := varOffsets[i := offset];
        }
      }
      pos := pos + ColFixedSize(schema[i]);
      CellPosNext(schema, i);
    }
    values := FillTexts(data, schema, values, varOffsets, pos + n * 2);
    assert values == seq(n, i requires 0 <= i < n => Cell(data, schema, i));
    return Ok(values);
  }

  lemma CellPosNext(schema: Schema, i: nat)
    requires i <= |schema|
    ensures CellPos(schema, 0) == BitmapSize(|schema|)
    ensures i < |schema| ==> CellPos(schema, i + 1) == CellPos(schema, i) + ColFixedSize(schema[i])
  {
  }

  lemma NullCell(data: seq<Byte>, schema: Schema, i: nat)
    requires i < |schema| && BitmapSize(|schema|) <= |data| && IsNull(data, i)
    ensures Cell(data, schema, i) == Null
  {
  }

  function OffsetOf(data: seq<Byte>, schema: Schema, j: nat): nat
    requires j < |schema| && CellPos(schema, j) + 2 <= |data|
  {
    FromLittleEndian(data[CellPos(schema, j)..CellPos(schema, j) + 2])
  }

  method FillTexts(data: seq<Byte>, schema: Schema, values: seq<Value>, varOffsets: map<nat, nat>, varDataPos: nat)
    returns (r: seq<Value>)
    requires LongEnough(data, schema) && |values| == |schema| && varDataPos == CellPos(schema, |schema|) + 2 * |schema|
    requires forall j :: j in varOffsets ==>
               j < |schema| && !IsNull(data, j) && schema[j] == TypeText && varOffsets[j] == OffsetOf(data, schema, j)
    requires forall j :: 0 <= j < |schema| && j !in varOffsets ==> values[j] == Cell(data, schema, j)
    ensures |r| == |schema| && forall j :: 0 <= j < |schema| ==> r[j] == Cell(data, schema, j)
  {
    hide FromLittleEndian, IsNull, TextAt, CellPos;
    r := values;
    var todo := varOffsets.Keys;
    while todo != {}
      invariant todo <= varOffsets.Keys && |r| == |schema|
      invariant forall j :: 0 <= j < |schema| && j !in todo ==> r[j] == Cell(data, schema, j)
      decreases |todo|
    {
      var colIdx :| colIdx in todo;
      todo := todo - {colIdx};
      var v := DeserializeText(data, varDataPos + varOffsets[colIdx]);
      r := r[colIdx := v];
    }
  }
}
