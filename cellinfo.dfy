/**
 * `fetchCellInfo`: turns the device's list of radio-cell readings into the
 * JSON array sent to the server and the text shown on screen, then hands the
 * array to `sendToServer`.
 *
 * GSM and WCDMA readings become objects with `type`, `cellId`, `signalStrength`,
 * `locationAreaCode` and `operator`; LTE readings have `trackingAreaCode` in place
 * of `locationAreaCode`. A reading of any other technology still adds an object,
 * an empty one, and adds no text. A missing list becomes one error object.
 */
module CellInfo {
  import opened Wrappers
  import opened Json
  import Decimal
  import Delivery

  /** Kotlin's `Int`, the type of every identity and strength field the telephony API reports. */
  newtype Int32 = x: int | -0x8000_0000 <= x < 0x8000_0000

  /**
   * One radio-cell reading. `operator` is the platform's `mobileNetworkOperator`,
   * which is null when the operator is unknown. `Other` stands for every kind the
   * encoder does not handle (CDMA, NR, TD-SCDMA); none of their fields is read.
   */
  datatype CellReading =
    | Gsm(cid: Int32, dbm: Int32, lac: Int32, operator: Option<string>)
    | Lte(ci: Int32, dbm: Int32, tac: Int32, operator: Option<string>)
    | Wcdma(cid: Int32, dbm: Int32, lac: Int32, operator: Option<string>)
    | Other

  const NoCellInfo: string := "No cell info available"

  // The names of the members of a record, and the `type` values.
  const TypeKey: string := "type"
  const CellIdKey: string := "cellId"
  const SignalKey: string := "signalStrength"
  const LacKey: string := "locationAreaCode"
  const TacKey: string := "trackingAreaCode"
  const OperatorKey: string := "operator"
  const ErrorKey: string := "error"
  const GsmName: string := "GSM"
  const LteName: string := "LTE"
  const WcdmaName: string := "WCDMA"

  function TypeName(c: CellReading): string
    requires !c.Other?
  {
    match c
    case Gsm(_, _, _, _) => GsmName
    case Lte(_, _, _, _) => LteName
    case Wcdma(_, _, _, _) => WcdmaName
  }

  /** The identity the record calls `cellId`: `cid` for GSM and WCDMA, `ci` for LTE. */
  function CellId(c: CellReading): Int32
    requires !c.Other?
  {
    if c.Lte? then c.ci else c.cid
  }

  /** The area code: `lac` for GSM and WCDMA, `tac` for LTE. */
  function AreaCode(c: CellReading): Int32
    requires !c.Other?
  {
    if c.Lte? then c.tac else c.lac
  }

  function AreaKey(c: CellReading): string
    requires !c.Other?
  {
    if c.Lte? then TacKey else LacKey
  }

  function OperatorValue(op: Option<string>): Option<Value>
  {
    match op
    case None => None
    case Some(s) => Some(Str(s))
  }

  // ---------------------------------------------------------------------------
  // The JSON object of one reading

  /** The five `put` calls of one branch of the `when`, in source order; the operator may be null. */
  function PutFields(typeName: string, id: Int32, dbm: Int32, areaKey: string, area: Int32, op: Option<string>): Object
  {
    var o := Put([], TypeKey, Str(typeName));
    var o := Put(o, CellIdKey, Num(id as int));
    var o := Put(o, SignalKey, Num(dbm as int));
    var o := Put(o, areaKey, Num(area as int));
    PutNullable(o, OperatorKey, OperatorValue(op))
  }

  /** Each `put` adds a new name, so the members come out in call order; a null operator adds nothing. */
  lemma {:induction false} PutFieldsInOrder(typeName: string, id: Int32, dbm: Int32, areaKey: string, area: Int32, op: Option<string>)
    requires areaKey == LacKey || areaKey == TacKey
    ensures PutFields(typeName, id, dbm, areaKey, area, op) ==
      [(TypeKey, Str(typeName)), (CellIdKey, Num(id as int)), (SignalKey, Num(dbm as int)), (areaKey, Num(area as int))]
      + (if op.Some? then [(OperatorKey, Str(op.value))] else [])
  {
    var t, i, d, a := (TypeKey, Str(typeName)), (CellIdKey, Num(id as int)), (SignalKey, Num(dbm as int)), (areaKey, Num(area as int));
    assert Put([], t.0, t.1) == [t];
    assert !Has([t], i.0);
    PutPlacement([t], i.0, i.1);
    assert [t] + [i] == [t, i];
    assert !Has([t, i], d.0);
    PutPlacement([t, i], d.0, d.1);
    assert [t, i] + [d] == [t, i, d];
    assert !Has([t, i, d], a.0);
    PutPlacement([t, i, d], a.0, a.1);
    assert [t, i, d] + [a] == [t, i, d, a];
    assert !Has([t, i, d, a], OperatorKey);
    PutNullableAbsent([t, i, d, a], OperatorKey, OperatorValue(op));
  }

  /**
   * The JSON object built for one reading: for a handled kind its members in
   * insertion order, the operator last and only when it is known; for any
   * other kind the empty object.
   */
  function EncodeCell(c: CellReading): Object
  {
    match c
    case Gsm(cid, dbm, lac, op) => PutFields(GsmName, cid, dbm, LacKey, lac, op)
    case Lte(ci, dbm, tac, op) => PutFields(LteName, ci, dbm, TacKey, tac, op)
    case Wcdma(cid, dbm, lac, op) => PutFields(WcdmaName, cid, dbm, LacKey, lac, op)
    case Other => []
  }

  /** For a handled kind, the members in insertion order, the operator last and only when it is known. */
  lemma EncodeCellMembers(c: CellReading)
    ensures c.Other? ==> EncodeCell(c) == []
    ensures !c.Other? ==> (
      EncodeCell(c) ==
        [(TypeKey, Str(TypeName(c))), (CellIdKey, Num(CellId(c) as int)), (SignalKey, Num(c.dbm as int)),
         (AreaKey(c), Num(AreaCode(c) as int))]
        + (if c.operator.Some? then [(OperatorKey, Str(c.operator.value))] else []))
  {
    match c
    case Other =>
    case Gsm(cid, dbm, lac, op) => PutFieldsInOrder(GsmName, cid, dbm, LacKey, lac, op);
    case Lte(ci, dbm, tac, op) => PutFieldsInOrder(LteName, ci, dbm, TacKey, tac, op);
    case Wcdma(cid, dbm, lac, op) => PutFieldsInOrder(WcdmaName, cid, dbm, LacKey, lac, op);
  }

  /** No record holds a name twice. */
  lemma RecordKeysDistinct(c: CellReading)
    ensures DistinctKeys(EncodeCell(c))
  {
    if !c.Other? {
      var o1 := Put([], TypeKey, Str(TypeName(c)));
      var o2 := Put(o1, CellIdKey, Num(CellId(c) as int));
      var o3 := Put(o2, SignalKey, Num(c.dbm as int));
      var o4 := Put(o3, AreaKey(c), Num(AreaCode(c) as int));
      PutKeepsDistinct([], TypeKey, Str(TypeName(c)));
      PutKeepsDistinct(o1, CellIdKey, Num(CellId(c) as int));
      PutKeepsDistinct(o2, SignalKey, Num(c.dbm as int));
      PutKeepsDistinct(o3, AreaKey(c), Num(AreaCode(c) as int));
      if c.operator.Some? {
        PutKeepsDistinct(o4, OperatorKey, Str(c.operator.value));
      } else {
        RemoveKeepsDistinct(o4, OperatorKey);
      }
      assert EncodeCell(c) == PutNullable(o4, OperatorKey, OperatorValue(c.operator));
    }
  }

  /** The one object sent when the platform returns no list. */
  function ErrorRecord(): (r: Object)
    ensures r == [(ErrorKey, Str(NoCellInfo))]
  {
    Put([], ErrorKey, Str(NoCellInfo))
  }

  /** Reads a record back into a reading: the reference inverse of `EncodeCell`. */
  function DecodeRecord(r: Object): Option<CellReading>
  {
    if r == [] then Some(Other)
    else
      var id, dbm, op := AsInt32(Get(r, CellIdKey)), AsInt32(Get(r, SignalKey)), AsOperator(Get(r, OperatorKey));
      var lac, tac := AsInt32(Get(r, LacKey)), AsInt32(Get(r, TacKey));
      if id.None? || dbm.None? || op.None? then None
      else if Get(r, TypeKey) == Some(Str(GsmName)) && lac.Some? then Some(Gsm(id.value, dbm.value, lac.value, op.value))
      else if Get(r, TypeKey) == Some(Str(LteName)) && tac.Some? then Some(Lte(id.value, dbm.value, tac.value, op.value))
      else if Get(r, TypeKey) == Some(Str(WcdmaName)) && lac.Some? then Some(Wcdma(id.value, dbm.value, lac.value, op.value))
      else None
  }

  function AsInt32(v: Option<Value>): Option<Int32>
  {
    if v.Some? && v.value.Num? && -0x8000_0000 <= v.value.n < 0x8000_0000 then Some(v.value.n as Int32) else None
  }

  /** An absent `operator` member reads as the null operator; a number there is malformed. */
  function AsOperator(v: Option<Value>): Option<Option<string>>
  {
    match v
    case None => Some(None)
    case Some(Str(s)) => Some(Some(s))
    case Some(Num(_)) => None
  }

  /** Every name reads back what its last `put` stored; names never put are absent. */
  lemma PutFieldsGet(typeName: string, id: Int32, dbm: Int32, areaKey: string, area: Int32, op: Option<string>, k: string)
    ensures Get(PutFields(typeName, id, dbm, areaKey, area, op), k) ==
      if k == OperatorKey then OperatorValue(op)
      else if k == areaKey then Some(Num(area as int))
      else if k == SignalKey then Some(Num(dbm as int))
      else if k == CellIdKey then Some(Num(id as int))
      else if k == TypeKey then Some(Str(typeName))
      else None
  {
    var o1 := Put([], TypeKey, Str(typeName));
    var o2 := Put(o1, CellIdKey, Num(id as int));
    var o3 := Put(o2, SignalKey, Num(dbm as int));
    var o4 := Put(o3, areaKey, Num(area as int));
    PutGet([], TypeKey, Str(typeName), k);
    PutGet(o1, CellIdKey, Num(id as int), k);
    PutGet(o2, SignalKey, Num(dbm as int), k);
    PutGet(o3, areaKey, Num(area as int), k);
    PutNullableGet(o4, OperatorKey, OperatorValue(op), k);
  }

  /** The lookups `DecodeRecord` makes in the record of a handled reading. */
  lemma FieldLookups(typeName: string, id: Int32, dbm: Int32, areaKey: string, area: Int32, op: Option<string>)
    requires areaKey == LacKey || areaKey == TacKey
    ensures Get(PutFields(typeName, id, dbm, areaKey, area, op), TypeKey) == Some(Str(typeName))
    ensures Get(PutFields(typeName, id, dbm, areaKey, area, op), CellIdKey) == Some(Num(id as int))
    ensures Get(PutFields(typeName, id, dbm, areaKey, area, op), SignalKey) == Some(Num(dbm as int))
    ensures Get(PutFields(typeName, id, dbm, areaKey, area, op), areaKey) == Some(Num(area as int))
    ensures Get(PutFields(typeName, id, dbm, areaKey, area, op), if areaKey == LacKey then TacKey else LacKey) == None
    ensures Get(PutFields(typeName, id, dbm, areaKey, area, op), OperatorKey) == OperatorValue(op)
  {
    PutFieldsGet(typeName, id, dbm, areaKey, area, op, TypeKey);
    PutFieldsGet(typeName, id, dbm, areaKey, area, op, CellIdKey);
    PutFieldsGet(typeName, id, dbm, areaKey, area, op, SignalKey);
    PutFieldsGet(typeName, id, dbm, areaKey, area, op, areaKey);
    PutFieldsGet(typeName, id, dbm, areaKey, area, op, if areaKey == LacKey then TacKey else LacKey);
    PutFieldsGet(typeName, id, dbm, areaKey, area, op, OperatorKey);
  }

  /** The three `type` values are different strings, and so are the two area names. */
  lemma NamesDistinct()
    ensures GsmName != LteName && GsmName != WcdmaName && LteName != WcdmaName
    ensures LacKey != TacKey
  {
    assert GsmName[0] == 'G' && LteName[0] == 'L' && |WcdmaName| == 5;
    assert LacKey[0] == 'l' && TacKey[0] == 't';
  }

  /** A record whose lookups give the fields of a handled reading decodes to that reading. */
  lemma DecodeFields(r: Object, c: CellReading)
    requires !c.Other?
    requires Get(r, TypeKey) == Some(Str(TypeName(c)))
    requires Get(r, CellIdKey) == Some(Num(CellId(c) as int))
    requires Get(r, SignalKey) == Some(Num(c.dbm as int))
    requires Get(r, AreaKey(c)) == Some(Num(AreaCode(c) as int))
    requires Get(r, if c.Lte? then LacKey else TacKey) == None
    requires Get(r, OperatorKey) == OperatorValue(c.operator)
    ensures DecodeRecord(r) == Some(c)
  {
    NamesDistinct();
  }

  /** The record of a reading holds every field of it: decoding gives the reading back. */
  lemma DecodeEncode(c: CellReading)
    ensures DecodeRecord(EncodeCell(c)) == Some(c)
  {
    match c
    case Other =>
    case Gsm(cid, dbm, lac, op) =>
      FieldLookups(GsmName, cid, dbm, LacKey, lac, op);
      DecodeFields(EncodeCell(c), c);
    case Lte(ci, dbm, tac, op) =>
      FieldLookups(LteName, ci, dbm, TacKey, tac, op);
      DecodeFields(EncodeCell(c), c);
    case Wcdma(cid, dbm, lac, op) =>
      FieldLookups(WcdmaName, cid, dbm, LacKey, lac, op);
      DecodeFields(EncodeCell(c), c);
  }

  // ---------------------------------------------------------------------------
  // The text shown on screen

  /** How Kotlin's string template renders a nullable operator name. */
  function OperatorText(op: Option<string>): string
  {
    match op
    case None => NullText
    case Some(s) => s
  }

  // The fixed parts of the text of one reading.
  const TypeLabel: string := "Type: "
  const CellIdLabel: string := "Cell ID: "
  const SignalLabel: string := "Signal Strength: "
  const DbmSuffix: string := " dBm"
  const OperatorLabel: string := "Operator: "
  const Colon: string := ": "
  const NewLine: string := "\n"
  const LacLabel: string := "Location Area Code"
  const TacLabel: string := "Tracking Area Code"
  const NullText: string := "null"

  /** What a `StringBuilder` holds after appending each piece in turn. */
  function Concat(pieces: seq<string>): string
  {
    if pieces == [] then "" else pieces[0] + Concat(pieces[1..])
  }

  /** The five strings appended for one handled reading; the last line is followed by a blank line. */
  function Appended(typeName: string, id: int, dbm: int, areaLabel: string, area: int, operator: string): seq<string>
  {
    [TypeLabel + typeName + NewLine,
     CellIdLabel + Decimal.IntToString(id) + NewLine,
     SignalLabel + Decimal.IntToString(dbm) + DbmSuffix + NewLine,
     areaLabel + Colon + Decimal.IntToString(area) + NewLine,
     OperatorLabel + operator + NewLine + NewLine]
  }

  function Lines(typeName: string, id: int, dbm: int, areaLabel: string, area: int, operator: string): string
  {
    Concat(Appended(typeName, id, dbm, areaLabel, area, operator))
  }

  /** What one reading appends to the `StringBuilder`. */
  function Block(c: CellReading): string
  {
    match c
    case Gsm(cid, dbm, lac, op) => Lines(GsmName, cid as int, dbm as int, LacLabel, lac as int, OperatorText(op))
    case Lte(ci, dbm, tac, op) => Lines(LteName, ci as int, dbm as int, TacLabel, tac as int, OperatorText(op))
    case Wcdma(cid, dbm, lac, op) => Lines(WcdmaName, cid as int, dbm as int, LacLabel, lac as int, OperatorText(op))
    case Other => ""
  }

  /** The whole text: the blocks of the readings, in order. */
  function Display(cs: seq<CellReading>): string
  {
    if cs == [] then "" else Block(cs[0]) + Display(cs[1..])
  }

  /** The last piece appended is at the end of the builder. */
  lemma {:induction false} ConcatLast(pieces: seq<string>)
    requires pieces != []
    ensures Concat(pieces) == Concat(pieces[..|pieces| - 1]) + pieces[|pieces| - 1]
    decreases |pieces|
  {
    if |pieces| == 1 {
      assert pieces[..0] == [];
      assert Concat(pieces) == pieces[0] + "";
    } else {
      var init := pieces[..|pieces| - 1];
      ConcatLast(pieces[1..]);
      assert pieces[1..][..|pieces| - 2] == init[1..];
      assert init[0] == pieces[0];
    }
  }

  /** The text of a handled reading opens with the type line and ends with a blank line. */
  lemma LinesShape(typeName: string, id: int, dbm: int, areaLabel: string, area: int, operator: string)
    ensures |TypeLabel| < |Lines(typeName, id, dbm, areaLabel, area, operator)|
    ensures Lines(typeName, id, dbm, areaLabel, area, operator)[..|TypeLabel|] == TypeLabel
    ensures Lines(typeName, id, dbm, areaLabel, area, operator)[|Lines(typeName, id, dbm, areaLabel, area, operator)| - 2..]
            == NewLine + NewLine
  {
    var pieces := Appended(typeName, id, dbm, areaLabel, area, operator);
    var b := Concat(pieces);
    var first := pieces[0];
    assert b == first + Concat(pieces[1..]);
    assert b[..|TypeLabel|] == first[..|TypeLabel|];
    ConcatLast(pieces);
    var last := pieces[4];
    assert b == Concat(pieces[..4]) + last;
    assert b[|b| - 2..] == last[|last| - 2..];
  }

  /**
   * A block is empty exactly for an unhandled kind; otherwise it opens with
   * the type line and ends with a blank line.
   */
  lemma BlockShape(c: CellReading)
    ensures Block(c) == "" <==> c.Other?
    ensures !c.Other? ==> |TypeLabel| < |Block(c)| && Block(c)[..|TypeLabel|] == TypeLabel
    ensures !c.Other? ==> Block(c)[|Block(c)| - 2..] == NewLine + NewLine
  {
    match c
    case Other =>
    case Gsm(cid, dbm, lac, op) => LinesShape(GsmName, cid as int, dbm as int, LacLabel, lac as int, OperatorText(op));
    case Lte(ci, dbm, tac, op) => LinesShape(LteName, ci as int, dbm as int, TacLabel, tac as int, OperatorText(op));
    case Wcdma(cid, dbm, lac, op) => LinesShape(WcdmaName, cid as int, dbm as int, LacLabel, lac as int, OperatorText(op));
  }

  /** How a JSON value prints in a string template; an absent member prints as null. */
  function Show(v: Option<Value>): string
  {
    match v
    case None => NullText
    case Some(Str(s)) => s
    case Some(Num(n)) => Decimal.IntToString(n)
  }

  /**
   * The block a record would produce if the text were printed from the record
   * alone: the area line is labelled by whichever area name the record holds.
   */
  function RenderRecord(r: Object): string
  {
    if Get(r, TypeKey).None? then ""
    else if Get(r, TacKey).Some? then
      Lines(Show(Get(r, TypeKey)), NumOr(Get(r, CellIdKey)), NumOr(Get(r, SignalKey)),
            TacLabel, NumOr(Get(r, TacKey)), Show(Get(r, OperatorKey)))
    else
      Lines(Show(Get(r, TypeKey)), NumOr(Get(r, CellIdKey)), NumOr(Get(r, SignalKey)),
            LacLabel, NumOr(Get(r, LacKey)), Show(Get(r, OperatorKey)))
  }

  function NumOr(v: Option<Value>): int
  {
    if v.Some? && v.value.Num? then v.value.n else 0
  }

  /** The screen and the server agree: each block is exactly the rendering of the record sent for that reading. */
  lemma BlockShowsRecord(c: CellReading)
    ensures Block(c) == RenderRecord(EncodeCell(c))
  {
    match c
    case Other =>
    case Gsm(cid, dbm, lac, op) =>
      FieldLookups(GsmName, cid, dbm, LacKey, lac, op);
    case Lte(ci, dbm, tac, op) =>
      FieldLookups(LteName, ci, dbm, TacKey, tac, op);
    case Wcdma(cid, dbm, lac, op) =>
      FieldLookups(WcdmaName, cid, dbm, LacKey, lac, op);
  }

  /** The text of a non-empty list: the first block, then the rest. */
  lemma DisplayCons(first: CellReading, rest: seq<CellReading>)
    ensures Display([first] + rest) == Block(first) + Display(rest)
  {
    assert ([first] + rest)[1..] == rest;
  }

  /** Text concatenation regroups freely. */
  lemma AppendAssoc(a: string, b: string, c: string)
    ensures a + (b + c) == (a + b) + c
  {
  }

  /** Appending a reading appends its block. */
  lemma {:induction false} DisplayAppend(cs: seq<CellReading>, c: CellReading)
    ensures Display(cs + [c]) == Display(cs) + Block(c)
    decreases |cs|
  {
    if cs == [] {
      assert [] + [c] == [c] + [];
      DisplayCons(c, []);
    } else {
      var first, rest := cs[0], cs[1..];
      assert cs == [first] + rest;
      assert cs + [c] == [first] + (rest + [c]);
      DisplayCons(first, rest + [c]);
      DisplayCons(first, rest);
      DisplayAppend(rest, c);
      AppendAssoc(Block(first), Display(rest), Block(c));
    }
  }

  /** One more reading of the list, one more block of text. */
  lemma DisplayPrefix(cs: seq<CellReading>, i: nat)
    requires i < |cs|
    ensures Display(cs[..i + 1]) == Display(cs[..i]) + Block(cs[i])
  {
    assert cs[..i + 1] == cs[..i] + [cs[i]];
    DisplayAppend(cs[..i], cs[i]);
  }

  /** The readings of kinds the encoder handles. */
  function Handled(cs: seq<CellReading>): (hs: seq<CellReading>)
    ensures |hs| <= |cs|
    ensures forall h :: h in hs <==> h in cs && !h.Other?
  {
    if cs == [] then [] else (if cs[0].Other? then [] else [cs[0]]) + Handled(cs[1..])
  }

  /** Filtering keeps the order: the handled readings of a concatenation are those of each part, in turn. */
  lemma {:induction false} HandledAppend(a: seq<CellReading>, b: seq<CellReading>)
    ensures Handled(a + b) == Handled(a) + Handled(b)
    decreases |a|
  {
    if a == [] {
      assert a + b == b;
    } else {
      var head: seq<CellReading> := if a[0].Other? then [] else [a[0]];
      assert (a + b)[0] == a[0];
      assert (a + b)[1..] == a[1..] + b;
      HandledAppend(a[1..], b);
      assert Handled(a + b) == head + (Handled(a[1..]) + Handled(b));
      assert head + (Handled(a[1..]) + Handled(b)) == (head + Handled(a[1..])) + Handled(b);
    }
  }

  /** Unhandled kinds add nothing to the text. */
  lemma {:induction false} DisplaySkipsOther(cs: seq<CellReading>)
    ensures Display(cs) == Display(Handled(cs))
    decreases |cs|
  {
    if cs != [] {
      var rest := Handled(cs[1..]);
      DisplaySkipsOther(cs[1..]);
      if cs[0].Other? {
        assert Handled(cs) == [] + rest == rest;
        assert Block(cs[0]) == "";
        assert Display(cs) == "" + Display(cs[1..]);
      } else {
        var hs := [cs[0]] + rest;
        assert Handled(cs) == hs;
        assert hs != [] && hs[0] == cs[0] && hs[1..] == rest;
        assert Display(hs) == Block(cs[0]) + Display(rest);
      }
    }
  }

  // ---------------------------------------------------------------------------
  // fetchCellInfo

  /** The JSON array of the records of the readings, in order. */
  function EncodeAll(cs: seq<CellReading>): seq<Object>
  {
    if cs == [] then [] else EncodeAll(cs[..|cs| - 1]) + [EncodeCell(cs[|cs| - 1])]
  }

  /** Encoding one more reading appends its record. */
  lemma EncodeAllPrefix(cs: seq<CellReading>, i: nat)
    requires i < |cs|
    ensures EncodeAll(cs[..i + 1]) == EncodeAll(cs[..i]) + [EncodeCell(cs[i])]
  {
    assert cs[..i + 1][..i] == cs[..i];
  }

  /** The array has one record per reading, each the encoding of the reading at the same position. */
  lemma {:induction false} EncodeAllAt(cs: seq<CellReading>)
    ensures |EncodeAll(cs)| == |cs|
    ensures forall i :: 0 <= i < |cs| ==> EncodeAll(cs)[i] == EncodeCell(cs[i])
  {
    if cs != [] {
      var init := cs[..|cs| - 1];
      EncodeAllAt(init);
      forall i | 0 <= i < |cs|
        ensures EncodeAll(cs)[i] == EncodeCell(cs[i])
      {
        if i < |cs| - 1 {
          assert EncodeAll(cs)[i] == EncodeAll(init)[i];
          assert init[i] == cs[i];
        }
      }
    }
  }

  /**
   * The `for` loop over the list: one object per reading appended to the array,
   * one block per reading appended to the text.
   */
  method BuildCellInfo(cells: seq<CellReading>) returns (payload: seq<Object>, text: string)
    ensures |payload| == |cells|
    ensures forall i :: 0 <= i < |cells| ==> payload[i] == EncodeCell(cells[i])
    ensures text == Display(cells)
  {
    payload := [];
    text := "";
    for i := 0 to |cells|
      invariant payload == EncodeAll(cells[..i])
      invariant text == Display(cells[..i])
    {
      var cellInfoJson := EncodeCell(cells[i]);
      DisplayPrefix(cells, i);
      EncodeAllPrefix(cells, i);
      text := text + Block(cells[i]);
      payload := payload + [cellInfoJson];
    }
    assert cells[..|cells|] == cells;
    EncodeAllAt(cells);
  }

  /** What one call produces: the text handed to the screen callback, the array handed to `sendToServer`, and what the upload did. */
  datatype Fetched = Fetched(shown: string, sent: Delivery.Payload, trace: seq<Delivery.Event>)

  /**
   * One call of `fetchCellInfo`. Without the location permission nothing happens.
   * A missing list sends the single error object and shows the error text.
   * The upload runs on its own thread in the source; here it runs to completion
   * within the call.
   */
  method FetchCellInfo(permissionGranted: bool, cellInfoList: Option<seq<CellReading>>, net: nat -> Delivery.Exchange)
    returns (r: Option<Fetched>)
    ensures r.None? <==> !permissionGranted
    ensures permissionGranted && cellInfoList.None? ==>
      r == Some(Fetched(NoCellInfo, [[(ErrorKey, Str(NoCellInfo))]], Delivery.Run([[(ErrorKey, Str(NoCellInfo))]], net, 0)))
    ensures permissionGranted && cellInfoList.Some? ==>
      r.Some? && |r.value.sent| == |cellInfoList.value| &&
      (forall i :: 0 <= i < |cellInfoList.value| ==> r.value.sent[i] == EncodeCell(cellInfoList.value[i])) &&
      r.value.shown == Display(cellInfoList.value) &&
      r.value.trace == Delivery.Run(r.value.sent, net, 0)
  {
    if !permissionGranted {
      return None;
    }
    if cellInfoList.Some? {
      var cellInfoJsonArray, cellInfoString := BuildCellInfo(cellInfoList.value);
      var trace, _ := Delivery.SendToServer(cellInfoJsonArray, net);
      r := Some(Fetched(cellInfoString, cellInfoJsonArray, trace));
    } else {
      var errorJson := [ErrorRecord()];
      var trace, _ := Delivery.SendToServer(errorJson, net);
      r := Some(Fetched(NoCellInfo, errorJson, trace));
    }
  }
}
