// The bytes of a row one by one, and what reading them gives.
module RowLayout {
  import opened Sequences
  import opened Bytes
  import opened ByteOrder
  import opened Results
  import opened RowModel

  /** Bit i of the bytes, the lowest bit of a byte first. */
  predicate BitSet(data: seq<Byte>, i: nat)
    requires i / 8 < |data|
  {
    data[i / 8] / Pow2(i % 8) % 2 == 1
  }

  /** Column i's cell: an int as four bytes, a float as the eight of its bits, a bool as 0 or 1. */
  ghost predicate CellLaidOut(e: seq<Byte>, values: seq<Value>, schema: Schema, i: nat)
    requires Typed(values, schema) && i < |schema|
  {
    var pos, table := CellPos(schema, i), CellPos(schema, |schema|);
    var texts, o := table + 2 * |schema|, TextSize(values, i);
    && table + 2 * i + 2 <= |e| && pos + ColFixedSize(schema[i]) <= |e|
    && match values[i]
       case Null => e[pos..pos + ColFixedSize(schema[i])] == Zeros(ColFixedSize(schema[i])) &&
         Word(e, table + 2 * i) == 0
       case IntValue(n) => Spells(e[pos..pos + 4], n) && Word(e, table + 2 * i) == 0
       case FloatValue(bits) => Spells(e[pos..pos + 8], bits) && Word(e, table + 2 * i) == 0
       case BoolValue(b) => e[pos] == (if b then 1 else 0) && Word(e, table + 2 * i) == 0
       case TextValue(t) =>
         && texts + o + 2 + |t| <= |e|
         && Word(e, pos) == Word(e, table + 2 * i) == o % TWO16
         && Word(e, texts + o) == |t| % TWO16 && e[texts + o + 2..texts + o + 2 + |t|] == t
  }

  /**
   A row in bytes: a bit for each null column, the cells, the text offsets, and the texts behind their lengths. A text's
   cell and offset count from the first text.
   */
  ghost predicate LaidOut(e: seq<Byte>, values: seq<Value>, schema: Schema)
    requires Typed(values, schema)
  {
    && |e| == CellPos(schema, |schema|) + 2 * |schema| + TextSize(values, |values|)
    && (forall i :: 0 <= i < 8 * CellPos(schema, 0) ==> (BitSet(e, i) <==> i < |values| && values[i].Null?))
    && (forall i :: 0 <= i < |schema| ==> CellLaidOut(e, values, schema, i))
  }

  /** Where the cells are: behind the bitmap, each behind the one before. */
  lemma CellsAreAt(schema: Schema, i: nat)
    requires i < |schema|
    ensures CellPos(schema, 0) == (|schema| + 7) / 8
    ensures CellPos(schema, i + 1) == CellPos(schema, i) +
              match schema[i] case TypeInt => 4 case TypeFloat => 8 case TypeText => 2 case TypeBool => 1
  {
  }

  lemma BitIs(b: Byte, k: nat)
    requires k < 8
    ensures Bit(b, k) <==> b / Pow2(k) % 2 == 1
  {
    assert Pow2(1) == 2 && Pow2(2) == 4 && Pow2(3) == 8;
    assert Pow2(4) == 16 && Pow2(5) == 32;
    assert Pow2(6) == 64 && Pow2(7) == 128;
    BitSteps(b, k);
  }

  lemma {:induction false} BitSteps(b: nat, k: nat)
    ensures Bit(b, k) <==> b / Pow2(k) % 2 == 1
  {
    if k > 0 {
      BitSteps(b / 2, k - 1);
      DivTwice(b, 2, Pow2(k - 1));
    }
  }

  /** The bytes of an int32 are those of the uint32 that stands for it. */
  lemma IntSpells(n: int)
    requires INT_MIN <= n <= INT_MAX
    ensures Spells(LittleEndian(Unsigned(n), 4), n)
  {
    Powers();
    TwosComplement(n, Unsigned(n), 4);
  }

  lemma {:induction false} OffsetTableAt(values: seq<Value>, i: nat, n: nat)
    requires i < n <= |values|
    ensures OffsetTable(values, n)[2 * i..2 * i + 2] ==
            LittleEndian(if values[i].TextValue? then TextSize(values, i) % TWO16 else 0, 2)
  {
    hide LittleEndian;
    if i < n - 1 {
      OffsetTableAt(values, i, n - 1);
    }
  }

  lemma WordInside(data: seq<Byte>, lo: nat, hi: nat, p: nat, n: nat)
    requires lo + p + 2 <= hi <= |data| && n < TWO16 && data[lo..hi][p..p + 2] == LittleEndian(n, 2)
    ensures Word(data, lo + p) == n
  {
    SliceOfSlice(data, lo, hi, p, p + 2);
    WordOf(data, lo + p, n);
  }

  lemma BitmapLaidOut(values: seq<Value>, schema: Schema, i: nat)
    requires Typed(values, schema) && i < 8 * CellPos(schema, 0)
    ensures i / 8 < |Encode(values, schema)|
    ensures BitSet(Encode(values, schema), i) <==> i < |values| && values[i].Null?
  {
    hide Bitmap, FixedPart, OffsetTable, TextData, Bit;
    BitmapIs(values, |values|, i);
    BitIs(Encode(values, schema)[i / 8], i % 8);
  }

  lemma EncodeCell(values: seq<Value>, schema: Schema, i: nat)
    requires Typed(values, schema) && i < |schema|
    ensures CellLaidOut(Encode(values, schema), values, schema, i)
  {
    hide Encode, LittleEndian, IsNull, Spells, OffsetTable, CellPos, Word, TextSize, TextData;
    var e, n, pos, table := Encode(values, schema), |schema|, CellPos(schema, i), CellPos(schema, |schema|);
    EncodeParts(values, schema, i);
    OffsetTableAt(values, i, n);
    var offset := if values[i].TextValue? then TextSize(values, i) % TWO16 else 0;
    WordInside(e, table, table + 2 * n, 2 * i, offset);
    match values[i]
    case Null =>
    case IntValue(k) => IntSpells(k);
    case FloatValue(bits) => LittleEndianSpells(bits, 8);
    case BoolValue(b) => assert e[pos] == e[pos..pos + 1][0];
    case TextValue(t) =>
      WordOf(e, pos, offset);
      TextLaidOut(values, i, e, table + 2 * n);
  }

  lemma TextLaidOut(values: seq<Value>, i: nat, e: seq<Byte>, texts: nat)
    requires i < |values| && values[i].TextValue? && texts <= |e| && e[texts..] == TextData(values, |values|)
    ensures var o, t := TextSize(values, i), values[i].text;
            && texts + o + 2 + |t| <= |e|
            && Word(e, texts + o) == |t| % TWO16 && e[texts + o + 2..texts + o + 2 + |t|] == t
  {
    hide LittleEndian, Word, TextData, TextSize;
    var o, t := TextSize(values, i), values[i].text;
    TextDataAt(values, i, |values|);
    var d, b := e[texts..], TextBytes(values[i]);
    assert d[o..o + |b|] == b;
    SliceOfSlice(e, texts, |e|, o, o + |b|);
    assert e[texts..|e|] == d;
    SliceOfSlice(e, texts + o, texts + o + |b|, 0, 2);
    SliceOfSlice(e, texts + o, texts + o + |b|, 2, 2 + |t|);
    WordOf(e, texts + o, |t| % TWO16);
  }

  /** The encoding is that form of the row, byte by byte. */
  lemma EncodeIsLaidOut(values: seq<Value>, schema: Schema)
    requires Typed(values, schema)
    ensures LaidOut(Encode(values, schema), values, schema)
  {
    hide Encode, CellLaidOut, BitSet, CellPos, TextSize;
    assert |Encode(values, schema)| == CellPos(schema, |schema|) + 2 * |schema| + TextSize(values, |values|) by {
      EncodeLength(values, schema);
    }
    forall i | 0 <= i < 8 * CellPos(schema, 0)
      ensures i / 8 < |Encode(values, schema)| &&
              (BitSet(Encode(values, schema), i) <==> i < |values| && values[i].Null?)
    {
      BitmapLaidOut(values, schema, i);
    }
    forall i | 0 <= i < |schema| ensures CellLaidOut(Encode(values, schema), values, schema, i) {
      EncodeCell(values, schema, i);
    }
  }

  lemma EncodeLength(values: seq<Value>, schema: Schema)
    requires Typed(values, schema)
    ensures |Encode(values, schema)| == CellPos(schema, |schema|) + 2 * |schema| + TextSize(values, |values|)
  {
    hide Bitmap, FixedPart, OffsetTable, TextData;
  }

  // ----- reading -----

  /** The text behind its length at position p; none if it would run past the end. */
  function TextFrom(data: seq<Byte>, p: nat): Value {
    if p + 2 > |data| || p + 2 + Word(data, p) > |data| then Null
    else TextValue(data[p + 2..p + 2 + Word(data, p)])
  }

  /** v is what column i of the bytes says. */
  ghost predicate CellSays(data: seq<Byte>, schema: Schema, i: nat, v: Value)
    requires i < |schema| && i / 8 < |data|
  {
    var pos := CellPos(schema, i);
    if BitSet(data, i) then v == Null
    else
      && pos + ColFixedSize(schema[i]) <= |data|
      && match schema[i]
         case TypeInt => v.IntValue? && INT_MIN <= v.n <= INT_MAX && Spells(data[pos..pos + 4], v.n)
         case TypeFloat => v.FloatValue? && v.bits < TWO64 && Spells(data[pos..pos + 8], v.bits)
         case TypeBool => v == BoolValue(data[pos] == 1)
         case TypeText => v == TextFrom(data, CellPos(schema, |schema|) + 2 * |schema| + Word(data, pos))
  }

  /** The bytes have a bit for every column, and the cell of every column whose bit is not set. */
  ghost predicate Complete(data: seq<Byte>, schema: Schema) {
    && CellPos(schema, 0) <= |data|
    && forall i {:trigger schema[i]} :: 0 <= i < |schema| ==>
         i / 8 < |data| && (BitSet(data, i) || CellPos(schema, i) + ColFixedSize(schema[i]) <= |data|)
  }

  lemma TextAtIsFrom(data: seq<Byte>, p: nat)
    ensures TextAt(data, p) == TextFrom(data, p)
  {
    hide FromLittleEndian, Word;
    if p + 2 <= |data| {
      WordIs(data, p);
    }
  }

  lemma ReadIntSpells(b: seq<Byte>)
    requires |b| == 4
    ensures Spells(b, SignedOf(b))
  {
    hide FromLittleEndian;
    Powers();
    ReadBound(b);
    ReadSpells(b);
    var u := FromLittleEndian(b);
    forall j | 0 <= j < 4 ensures u / Pow256(j) % 256 == SignedOf(b) / Pow256(j) % 256 {
      LowBytes(SignedOf(b), u, 4, j);
    }
  }

  lemma CellIs(data: seq<Byte>, schema: Schema, i: nat)
    requires LongEnough(data, schema) && i < |schema|
    ensures CellSays(data, schema, i, Cell(data, schema, i))
  {
    hide FromLittleEndian, Word, Spells, Bit, CellPos, SignedOf, TextFrom, TextAt;
    BitIs(data[i / 8], i % 8);
    var pos := CellPos(schema, i);
    if !IsNull(data, i) {
      match schema[i]
      case TypeInt => ReadIntSpells(data[pos..pos + 4]);
      case TypeFloat => Powers(); ReadBound(data[pos..pos + 8]); ReadSpells(data[pos..pos + 8]);
      case TypeBool =>
      case TypeText => WordIs(data, pos); TextAtIsFrom(data,
        CellPos(schema, |schema|) + 2 * |schema| + Word(data, pos));
    }
  }

  lemma CompleteIs(data: seq<Byte>, schema: Schema)
    ensures LongEnough(data, schema) <==> Complete(data, schema)
  {
    hide Bit, CellPos, ColFixedSize;
    assert CellPos(schema, 0) == BitmapSize(|schema|) by {
      if schema != [] {
        CellsAreAt(schema, 0);
      } else {
        NoCells();
      }
    }
    if BitmapSize(|schema|) <= |data| {
      forall i {:trigger schema[i]} | 0 <= i < |schema| ensures IsNull(data, i) <==> BitSet(data, i) {
        BitIs(data[i / 8], i % 8);
      }
    }
  }

  lemma NoCells()
    ensures CellPos([], 0) == 0
  {
  }

  /** The values are what the bytes say, column by column. */
  ghost predicate Says(data: seq<Byte>, schema: Schema, values: seq<Value>) {
    && |values| == |schema|
    && forall i :: 0 <= i < |values| ==> i / 8 < |data| && CellSays(data, schema, i, values[i])
  }

  /** What reading any bytes gives: an error exactly if they are empty or not complete, else what the cells say. */
  lemma DecodeSays(data: seq<Byte>, schema: Schema)
    ensures var r := Decode(data, schema);
            && (r.Ok? <==> data != [] && Complete(data, schema))
            && (r.Err? ==> r.error == if data == [] then EmptyRow else RowCutShort)
            && (r.Ok? ==> Says(data, schema, r.value))
  {
    hide Cell, LongEnough, Complete, CellSays;
    CompleteIs(data, schema);
    if Decode(data, schema).Ok? {
      var values := Decode(data, schema).value;
      forall i | 0 <= i < |values| ensures i / 8 < |data| && CellSays(data, schema, i, values[i]) {
        DecodedCell(data, schema, i);
      }
    }
  }

  lemma DecodedCell(data: seq<Byte>, schema: Schema, i: nat)
    requires Decode(data, schema).Ok? && i < |schema|
    ensures i / 8 < |data| && CellSays(data, schema, i, Decode(data, schema).value[i])
  {
    hide Cell, CellSays, CellPos;
    CellIs(data, schema, i);
  }
}
