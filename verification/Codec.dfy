/** Encoding field values into typed column values, what a column keeps of them, and
    reading them back. */
module Codec {
  import opened Wrappers
  import opened DomainSchema
  import opened Content
  import opened Validator
  import opened SchemaAst
  import Builder

  // ----- column values ------------------------------------------------------------------

  /** A JSON document as it comes from the two maps that are stored as JSON. */
  datatype JsonEntry = JsonText(text: string) | JsonTagged(value: PrimitiveValue)

  datatype Json = JsonNull | JsonObject(entries: map<string, JsonEntry>)

  datatype SqlValue =
    | SqlString(text: Option<string>)
    | SqlUuid(uuid: Option<nat>)
    | SqlSmallInt(small: Option<int>)
    | SqlInt(integer: Option<int>)
    | SqlBigInt(big: Option<int>)
    | SqlDecimal(decimal: Option<real>)
    | SqlBool(boolean: Option<bool>)
    | SqlDate(days: Option<int>)
    | SqlTimestamp(nanos: Option<int>)
    | SqlJson(json: Option<Json>)
  {
    predicate IsNull() {
      match this
      case SqlString(v) => v.None?
      case SqlUuid(v) => v.None?
      case SqlSmallInt(v) => v.None?
      case SqlInt(v) => v.None?
      case SqlBigInt(v) => v.None?
      case SqlDecimal(v) => v.None?
      case SqlBool(v) => v.None?
      case SqlDate(v) => v.None?
      case SqlTimestamp(v) => v.None?
      case SqlJson(v) => v.None?
    }
  }

  datatype StorageError = StorageError

  // ----- encoding -------------------------------------------------------------------------

  /** `x as i16`: the low bits, read as two's complement. */
  function AsI16(x: int): (r: int)
    ensures -I16_MAX - 1 <= r <= I16_MAX
    ensures r == x <==> -I16_MAX - 1 <= x <= I16_MAX
  {
    (x + 0x8000) % 0x1_0000 - 0x8000
  }

  /** `x as i32`. */
  function AsI32(x: int): (r: int)
    ensures -I32_MAX - 1 <= r <= I32_MAX
    ensures r == x <==> -I32_MAX - 1 <= x <= I32_MAX
  {
    (x + 0x8000_0000) % 0x1_0000_0000 - 0x8000_0000
  }

  function TypedNull(ft: FieldType): (v: SqlValue)
    ensures v.IsNull()
  {
    match ft
    case Primitive(Text) => SqlString(None)
    case Primitive(Uid) => SqlString(None)
    case Primitive(Uuid) => SqlUuid(None)
    case Primitive(Integer(I16)) => SqlSmallInt(None)
    case Primitive(Integer(I32)) => SqlInt(None)
    case Primitive(Integer(I64)) => SqlBigInt(None)
    case Primitive(Decimal(_, _)) => SqlDecimal(None)
    case Primitive(Boolean) => SqlBool(None)
    case Primitive(Date) => SqlDate(None)
    case Primitive(DateTime) => SqlTimestamp(None)
    case Email => SqlString(None)
    case Url => SqlString(None)
    case LocalizedText => SqlJson(None)
    case Json => SqlJson(None)
  }

  function EncodePrimitive(p: PrimitiveValue, ft: FieldType): SqlValue {
    match p
    case TextValue(s) => SqlString(Some(s))
    case UidValue(s) => SqlString(Some(s))
    case UuidValue(u) => SqlUuid(Some(u))
    case IntegerValue(n) =>
      if ft == Primitive(Integer(I16)) then SqlSmallInt(Some(AsI16(n)))
      else if ft == Primitive(Integer(I32)) then SqlInt(Some(AsI32(n)))
      else SqlBigInt(Some(n))
    case DecimalValue(d) => SqlDecimal(Some(d))
    case BooleanValue(b) => SqlBool(Some(b))
    case DateValue(d) => SqlDate(Some(d))
    case DateTimeValue(t) => SqlTimestamp(Some(t))
  }

  function ToSeaValue(v: ContentValue, ft: FieldType): Result<SqlValue, StorageError> {
    match v
    case Null => Ok(TypedNull(ft))
    case Localized(texts) =>
      if ft.LocalizedText? then Ok(SqlJson(Some(JsonObject(map l | l in texts :: JsonText(texts[l])))))
      else Err(StorageError)
    case Scalar(JsonOf(entries)) =>
      if ft.Json? then Ok(SqlJson(Some(JsonObject(map k | k in entries :: JsonTagged(entries[k])))))
      else Err(StorageError)
    case Scalar(EmailOf(s)) => if ft.Email? then Ok(SqlString(Some(s))) else Err(StorageError)
    case Scalar(UrlOf(s)) => if ft.Url? then Ok(SqlString(Some(s))) else Err(StorageError)
    case Scalar(PrimitiveOf(p)) => Ok(EncodePrimitive(p, ft))
  }

  // ----- what a column keeps ----------------------------------------------------------------

  function Pow10(n: nat): (r: int)
    ensures r > 0
  {
    if n == 0 then 1 else 10 * Pow10(n - 1)
  }

  function Round(x: real): int {
    if x >= 0.0 then (x + 0.5).Floor else -((-x + 0.5).Floor)
  }

  /** The value as NUMERIC(precision, scale) holds it, unless it has too many digits. */
  function StoreNumeric(d: real, precision: nat, scale: nat): Option<real> {
    StoreUnits(d, Pow10(scale) as real, Pow10(precision))
  }

  function Scaled(d: real, unit: real): real { d * unit }

  /** The nearest whole number of `1/unit`s. */
  function UnitsIn(d: real, unit: real): int { Round(Scaled(d, unit)) }

  function FromUnits(units: int, unit: real): real
    requires unit > 0.0
  {
    units as real / unit
  }

  predicate WholeUnits(d: real, unit: real, cap: int) {
    var units := Scaled(d, unit);
    units.Floor as real == units && -cap < units.Floor < cap
  }

  /** `d` rounded to a whole number of `1/unit`s, if fewer than `cap` of them. */
  function StoreUnits(d: real, unit: real, cap: int): Option<real>
    requires unit > 0.0
  {
    var units := UnitsIn(d, unit);
    if -cap < units < cap then Some(FromUnits(units, unit)) else None
  }

  const MICRO := 1000

  /** The microsecond a time is sent as: the rest is cut off, towards the year 2000. */
  function Micros(nanos: int): int {
    if nanos >= 0 then nanos / MICRO * MICRO else 0 - (0 - nanos) / MICRO * MICRO
  }

  // The ranges of dates, in days, and of timestamps, in nanoseconds, from the start of 2000.
  const DATE_MIN: int := 0 - 2_451_545
  const DATE_END: int := 2_145_031_949
  const TIMESTAMP_MIN: int := 0 - 211_813_488_000_000_000_000
  const TIMESTAMP_END: int := 9_223_371_331_200_000_000_000

  /** No text holds the character U+0000. */
  predicate Clean(s: string) { '\0' !in s }

  predicate CleanEntry(e: JsonEntry) {
    match e
    case JsonText(s) => Clean(s)
    case JsonTagged(TextValue(s)) => Clean(s)
    case JsonTagged(UidValue(s)) => Clean(s)
    case JsonTagged(_) => true
  }

  predicate CleanJson(j: Json) { j.JsonObject? ==> forall k | k in j.entries :: Clean(k) && CleanEntry(j.entries[k]) }

  predicate Blank(s: string) { forall c | c in s :: c == ' ' }

  /** A text column of limited length cuts off blanks that are too many, and refuses a text
      that is too long otherwise. */
  function StoreLimited(s: string, n: nat): Option<string> {
    if !Clean(s) then None
    else if |s| <= n then Some(s)
    else if Blank(s[n..]) then Some(s[..n])
    else None
  }

  /** A column of this type, given a value: texts with U+0000, texts that are too long and
      dates out of range are refused, decimals are rounded to their scale, timestamps keep
      microseconds. A value of another kind than the column's is refused. */
  function StoreIn(v: SqlValue, column: SqlColumnType): Result<SqlValue, StorageError> {
    match (column, v)
    case (Varchar(Some(n)), SqlString(Some(s))) =>
      (match StoreLimited(s, n) case Some(kept) => Ok(SqlString(Some(kept))) case None => Err(StorageError))
    case (DecimalColumn(p, s), SqlDecimal(Some(d))) =>
      (match StoreNumeric(d, p, s) case Some(kept) => Ok(SqlDecimal(Some(kept))) case None => Err(StorageError))
    case (Timestamptz, SqlTimestamp(Some(t))) =>
      if TIMESTAMP_MIN <= Micros(t) < TIMESTAMP_END then Ok(SqlTimestamp(Some(Micros(t)))) else Err(StorageError)
    case _ => if Takes(column, v) then Ok(v) else Err(StorageError)
  }

  predicate Takes(column: SqlColumnType, v: SqlValue) {
    match column
    case TextColumn => v.SqlString? && (v.text.Some? ==> Clean(v.text.value))
    case Varchar(_) => v.SqlString? && (v.text.Some? ==> Clean(v.text.value))
    case UuidColumn => v.SqlUuid?
    case SmallInt => v.SqlSmallInt?
    case IntegerColumn => v.SqlInt?
    case BigInt => v.SqlBigInt?
    case DecimalColumn(_, _) => v.SqlDecimal?
    case BooleanColumn => v.SqlBool?
    case DateColumn => v.SqlDate? && (v.days.Some? ==> DATE_MIN <= v.days.value < DATE_END)
    case Timestamptz => v.SqlTimestamp?
    case Jsonb => v.SqlJson? && (v.json.Some? ==> CleanJson(v.json.value))
  }

  /** The column that the schema builder makes for a field of this type. */
  function Store(v: SqlValue, ft: FieldType): Result<SqlValue, StorageError> {
    StoreIn(v, Builder.MapFieldTypeToSql(ft))
  }

  // ----- reading back ------------------------------------------------------------------------

  function OfOption<T>(v: Option<T>, wrap: T -> PrimitiveValue): ContentValue {
    match v
    case Some(x) => Scalar(PrimitiveOf(wrap(x)))
    case None => Null
  }

  function ReadInteger(v: Option<int>): Result<ContentValue, StorageError> {
    match v
    case None => Ok(Null)
    case Some(n) => if -I64_MAX - 1 <= n <= I64_MAX then Ok(Scalar(PrimitiveOf(IntegerValue(n)))) else Err(StorageError)
  }

  function ReadContentValue(v: SqlValue, ft: FieldType): Result<ContentValue, StorageError> {
    match (ft, v)
    case (Primitive(Text), SqlString(s)) => Ok(OfOption(s, x => TextValue(x)))
    case (Primitive(Uid), SqlString(s)) => Ok(OfOption(s, x => UidValue(x)))
    case (Primitive(Uuid), SqlUuid(u)) => Ok(OfOption(u, x => UuidValue(x)))
    case (Primitive(Integer(I16)), SqlSmallInt(n)) => ReadInteger(n)
    case (Primitive(Integer(I32)), SqlInt(n)) => ReadInteger(n)
    case (Primitive(Integer(I64)), SqlBigInt(n)) => ReadInteger(n)
    case (Primitive(Decimal(_, _)), SqlDecimal(d)) => Ok(OfOption(d, x => DecimalValue(x)))
    case (Primitive(Boolean), SqlBool(b)) => Ok(OfOption(b, x => BooleanValue(x)))
    case (Primitive(Date), SqlDate(d)) => Ok(OfOption(d, x => DateValue(x)))
    case (Primitive(DateTime), SqlTimestamp(t)) => Ok(OfOption(t, x => DateTimeValue(x)))
    case (Email, SqlString(s)) => Ok(match s case Some(x) => Scalar(EmailOf(x)) case None => Null)
    case (Url, SqlString(s)) => Ok(match s case Some(x) => Scalar(UrlOf(x)) case None => Null)
    case (LocalizedText, SqlJson(j)) =>
      (match j
       case Some(JsonObject(entries)) =>
         if forall k | k in entries :: entries[k].JsonText?
         then Ok(Localized(map k | k in entries :: entries[k].text)) else Err(StorageError)
       case _ => Ok(Null))
    case (Json, SqlJson(j)) =>
      (match j
       case Some(JsonObject(entries)) =>
         if forall k | k in entries :: entries[k].JsonTagged?
         then Ok(Scalar(JsonOf(map k | k in entries :: entries[k].value))) else Err(StorageError)
       case _ => Ok(Null))
    case _ => Err(StorageError)
  }

  /** Encode, store, read. */
  function Through(v: ContentValue, ft: FieldType): Result<ContentValue, StorageError> {
    match ToSeaValue(v, ft)
    case Err(e) => Err(e)
    case Ok(encoded) =>
      match Store(encoded, ft)
      case Err(e) => Err(e)
      case Ok(stored) => ReadContentValue(stored, ft)
  }

  // ----- no loss ---------------------------------------------------------------------------------

  /** The value is of the type of the field, as a validated value is. */
  predicate TypeCorrect(v: ContentValue, ft: FieldType) {
    match v
    case Null => true
    case Scalar(s) => s.MatchesFieldType(ft)
    case Localized(_) => ft.LocalizedText?
  }

  /** What the validator does not ask but the column does: no U+0000 in any text, 255
      characters for uids and emails, no more decimal places or digits than declared, dates
      and times in range, whole microseconds. */
  predicate Fits(v: ContentValue, ft: FieldType) {
    match (ft, v)
    case (Primitive(Text), Scalar(PrimitiveOf(TextValue(s)))) => Clean(s)
    case (Primitive(Uid), Scalar(PrimitiveOf(UidValue(s)))) => Clean(s) && |s| <= 255
    case (Email, Scalar(EmailOf(s))) => Clean(s) && |s| <= 255
    case (Url, Scalar(UrlOf(s))) => Clean(s)
    case (LocalizedText, Localized(texts)) => forall l | l in texts :: Clean(l) && Clean(texts[l])
    case (Json, Scalar(JsonOf(entries))) => forall k | k in entries :: Clean(k) && CleanEntry(JsonTagged(entries[k]))
    case (Primitive(Decimal(p, s)), Scalar(PrimitiveOf(DecimalValue(d)))) => WholeUnits(d, Pow10(s) as real, Pow10(p))
    case (Primitive(Date), Scalar(PrimitiveOf(DateValue(d)))) => DATE_MIN <= d < DATE_END
    case (Primitive(DateTime), Scalar(PrimitiveOf(DateTimeValue(t)))) =>
      t % MICRO == 0 && TIMESTAMP_MIN <= t < TIMESTAMP_END
    case _ => true
  }

  lemma ValidIsTypeCorrect(rules: Rules, f: FieldDefinition, v: ContentValue)
    requires FieldValid(rules, f, v)
    ensures TypeCorrect(v, f.fieldType)
  {
  }

  lemma RoundExact(x: real)
    ensures Round(x) as real == x <==> x.Floor as real == x
    ensures x.Floor as real == x ==> Round(x) == x.Floor
  {
    if x.Floor as real == x {
      var n := x.Floor;
      assert (x + 0.5).Floor == n;
      assert (-x + 0.5).Floor == -n;
    }
  }

  lemma DivideBack(d: real, unit: real, units: int)
    requires unit > 0.0
    ensures FromUnits(units, unit) == d <==> units as real == Scaled(d, unit)
  {
    if units as real / unit == d {
      assert d * unit == units as real;
    }
  }

  lemma UnitsKept(d: real, unit: real, cap: int)
    requires unit > 0.0
    ensures StoreUnits(d, unit, cap) == Some(d) <==> WholeUnits(d, unit, cap)
  {
    hide Round, FromUnits;
    RoundExact(Scaled(d, unit));
    DivideBack(d, unit, UnitsIn(d, unit));
  }

  lemma UnitsOfUnits(d: real, unit: real, units: int)
    requires unit > 0.0 && d == FromUnits(units, unit)
    ensures UnitsIn(d, unit) == units
  {
    hide Round, FromUnits, Scaled;
    DivideBack(d, unit, units);
    assert (units as real).Floor == units;
    RoundExact(Scaled(d, unit));
  }

  lemma UnitsAreStable(d: real, unit: real, cap: int)
    requires unit > 0.0 && StoreUnits(d, unit, cap).Some?
    ensures StoreUnits(StoreUnits(d, unit, cap).value, unit, cap) == StoreUnits(d, unit, cap)
  {
    hide UnitsIn, FromUnits;
    UnitsOfUnits(StoreUnits(d, unit, cap).value, unit, UnitsIn(d, unit));
  }

  /** Every type-correct value encodes, narrowing casts included, and comes back unchanged
      exactly when it fits its column; one that does not fit is refused or comes back
      changed, never accepted silently as it was. */
  lemma CodecLossless(v: ContentValue, ft: FieldType)
    requires TypeCorrect(v, ft)
    ensures ToSeaValue(v, ft).Ok?
    ensures Through(v, ft) == Ok(v) <==> Fits(v, ft)
  {
    match v
    case Null =>
      hide Fits, Through;
      NullLossless(ft);
    case Localized(texts) =>
      hide Fits, Through;
      TextsLossless(texts);
    case Scalar(JsonOf(entries)) =>
      hide Fits, Through;
      EntriesLossless(entries);
    case Scalar(EmailOf(s)) =>
      hide Fits, Through;
      EmailLossless(s);
    case Scalar(UrlOf(s)) =>
      hide Fits, Through;
      UrlLossless(s);
    case Scalar(PrimitiveOf(p)) =>
      hide Fits, Through;
      PrimitiveLossless(p, ft.primitive);
  }

  lemma TextsLossless(texts: map<LocaleId, string>)
    ensures Through(Localized(texts), LocalizedText) == Ok(Localized(texts)) <==> Fits(Localized(texts), LocalizedText)
  {
    var doc := map l | l in texts :: JsonText(texts[l]);
    assert (map k | k in doc :: doc[k].text) == texts;
  }

  lemma EntriesLossless(entries: map<string, PrimitiveValue>)
    ensures var v := Scalar(JsonOf(entries)); Through(v, FieldType.Json) == Ok(v) <==> Fits(v, FieldType.Json)
  {
    var doc := map k | k in entries :: JsonTagged(entries[k]);
    assert (map k | k in doc :: doc[k].value) == entries;
  }

  lemma EmailLossless(s: string)
    ensures var v := Scalar(EmailOf(s)); Through(v, Email) == Ok(v) <==> Fits(v, Email)
  {
  }

  lemma UrlLossless(s: string)
    ensures var v := Scalar(UrlOf(s)); Through(v, Url) == Ok(v) <==> Fits(v, Url)
  {
  }

  lemma NullLossless(ft: FieldType)
    ensures Through(Null, ft) == Ok(Null) && Fits(Null, ft)
  {
  }

  lemma PrimitiveLossless(p: PrimitiveValue, pt: PrimitiveType)
    requires p.MatchesPrimitiveType(pt)
    ensures ToSeaValue(Scalar(PrimitiveOf(p)), Primitive(pt)).Ok?
    ensures Through(Scalar(PrimitiveOf(p)), Primitive(pt)) == Ok(Scalar(PrimitiveOf(p)))
            <==> Fits(Scalar(PrimitiveOf(p)), Primitive(pt))
  {
    if p.DecimalValue? {
      UnitsKept(p.decimal, Pow10(pt.scale) as real, Pow10(pt.precision));
      hide Pow10, StoreUnits, WholeUnits;
    }
  }

  // ----- what is in a column ----------------------------------------------------------------------

  /** A value that a column of this type can hold. */
  ghost predicate StoredCell(v: SqlValue, ft: FieldType) {
    && Store(v, ft) == Ok(v)
    && (v.SqlBigInt? && v.big.Some? ==> -I64_MAX - 1 <= v.big.value <= I64_MAX)
    && (v.SqlSmallInt? && v.small.Some? ==> -I16_MAX - 1 <= v.small.value <= I16_MAX)
    && (v.SqlInt? && v.integer.Some? ==> -I32_MAX - 1 <= v.integer.value <= I32_MAX)
    && (v.SqlJson? && v.json.Some? ==>
          && v.json.value.JsonObject?
          && (ft.LocalizedText? ==> forall k | k in v.json.value.entries :: v.json.value.entries[k].JsonText?)
          && (ft.Json? ==> forall k | k in v.json.value.entries :: v.json.value.entries[k].JsonTagged?))
  }

  /** Whatever is encoded and accepted by a column can be held by it. */
  lemma StoredValueIsStored(v: ContentValue, ft: FieldType)
    requires ToSeaValue(v, ft).Ok? && Store(ToSeaValue(v, ft).value, ft).Ok?
    ensures StoredCell(Store(ToSeaValue(v, ft).value, ft).value, ft)
  {
    if ft.Primitive? {
      hide StoredCell, ToSeaValue, Store;
      StoredPrimitive(v, ft.primitive);
    }
  }

  lemma StoredPrimitive(v: ContentValue, pt: PrimitiveType)
    requires ToSeaValue(v, Primitive(pt)).Ok? && Store(ToSeaValue(v, Primitive(pt)).value, Primitive(pt)).Ok?
    ensures StoredCell(Store(ToSeaValue(v, Primitive(pt)).value, Primitive(pt)).value, Primitive(pt))
  {
    if pt.Decimal? {
      if v.Scalar? && v.value.PrimitiveOf? && v.value.primitive.DecimalValue? {
        UnitsAreStable(v.value.primitive.decimal, Pow10(pt.scale) as real, Pow10(pt.precision));
      }
      hide Pow10, StoreUnits, StoreLimited, Micros;
    } else {
      hide StoreNumeric, CleanJson;
    }
  }

  /** Reading a column never fails, and encoding and storing what was read gives the same
      column value again. */
  lemma ReadThenStore(cell: SqlValue, ft: FieldType)
    requires StoredCell(cell, ft)
    ensures ReadContentValue(cell, ft).Ok?
    ensures ToSeaValue(ReadContentValue(cell, ft).value, ft).Ok?
    ensures Store(ToSeaValue(ReadContentValue(cell, ft).value, ft).value, ft) == Ok(cell)
    ensures TypeCorrect(ReadContentValue(cell, ft).value, ft)
  {
    hide StoreNumeric, StoreLimited, Micros, CleanJson;
    match ft
    case Primitive(pt) =>
      hide StoredCell, ReadContentValue, ToSeaValue, Store, TypeCorrect;
      ReadThenStorePrimitive(cell, pt);
    case LocalizedText =>
      if cell.json.Some? {
        var entries := cell.json.value.entries;
        var texts := map k | k in entries :: entries[k].text;
        assert (map l | l in texts :: JsonText(texts[l])) == entries;
      }
    case Json =>
      if cell.json.Some? {
        var entries := cell.json.value.entries;
        var values := map k | k in entries :: entries[k].value;
        assert (map l | l in values :: JsonTagged(values[l])) == entries;
      }
    case Email =>
    case Url =>
  }

  lemma ReadThenStorePrimitive(cell: SqlValue, pt: PrimitiveType)
    requires StoredCell(cell, Primitive(pt))
    ensures var read := ReadContentValue(cell, Primitive(pt));
            && read.Ok? && ToSeaValue(read.value, Primitive(pt)).Ok?
            && Store(ToSeaValue(read.value, Primitive(pt)).value, Primitive(pt)) == Ok(cell)
            && TypeCorrect(read.value, Primitive(pt))
  {
    hide StoreNumeric, StoreLimited, Micros, CleanJson;
  }

  /** Only null and primitive values are encoded whatever the field's type. */
  lemma EncodedIfTypeCorrect(v: ContentValue, ft: FieldType)
    ensures ToSeaValue(v, ft).Ok? <==> v.Null? || (v.Scalar? && v.value.PrimitiveOf?) || TypeCorrect(v, ft)
  {
  }

  // ----- how near to what was given -----------------------------------------------------------------

  /** A whole number of microseconds, less than one away, on the side of the year 2000. */
  predicate CutsTo(given: int, kept: int) {
    kept % MICRO == 0 && -MICRO < given - kept < MICRO && (0 <= kept <= given || given <= kept <= 0)
  }

  lemma MicrosCut(given: int, kept: int)
    ensures CutsTo(given, kept) <==> kept == Micros(given)
  {
  }

  /** The nearest whole number; of two equally near the one further from zero. */
  predicate Nearest(x: real, n: int) {
    var off := x - n as real;
    -0.5 <= off <= 0.5 && (off == 0.5 ==> n < 0) && (off == -0.5 ==> n > 0)
  }

  lemma RoundIsNearest(x: real, n: int)
    ensures Nearest(x, n) <==> n == Round(x)
  {
    if x >= 0.0 {
      var m := (x + 0.5).Floor;
      assert m as real <= x + 0.5 < m as real + 1.0;
    } else {
      var m := (-x + 0.5).Floor;
      assert m as real <= -x + 0.5 < m as real + 1.0;
    }
  }

  /** A decimal of the declared scale, at most half a unit of its last place away, with no
      more than the declared digits. */
  ghost predicate RoundsTo(given: real, kept: real, precision: nat, scale: nat) {
    exists n :: Units(given, kept, precision, scale, n)
  }

  ghost predicate Units(given: real, kept: real, precision: nat, scale: nat, n: int) {
    Scaled(kept, Pow10(scale) as real) == n as real && Nearest(Scaled(given, Pow10(scale) as real), n)
    && -Pow10(precision) < n < Pow10(precision)
  }

  lemma NumericRounds(given: real, precision: nat, scale: nat, kept: real)
    ensures StoreNumeric(given, precision, scale) == Some(kept) <==> RoundsTo(given, kept, precision, scale)
  {
    var unit, cap := Pow10(scale) as real, Pow10(precision);
    var x, n := Scaled(given, unit), UnitsIn(given, unit);
    forall m: int ensures Nearest(x, m) <==> m == n {
      RoundIsNearest(x, m);
    }
    DivideBack(kept, unit, n);
    hide Round, FromUnits, Nearest, Pow10, Scaled;
    assert Units(given, kept, precision, scale, n) <==> StoreUnits(given, unit, cap) == Some(kept);
  }

  /** At most `n` characters, but for blanks after them, which are cut off. */
  predicate CutsBlanks(given: string, kept: string, n: nat) {
    Clean(given) && if |given| <= n then kept == given else kept == given[..n] && Blank(given[n..])
  }

  /** What a column makes of a type-correct value: it keeps the value, a time to the
      microsecond, a decimal to its scale, a uid or email to its first 255 characters. */
  ghost predicate Keeps(ft: FieldType, given: ContentValue, kept: ContentValue) {
    match (ft, given, kept)
    case (Primitive(DateTime), Scalar(PrimitiveOf(DateTimeValue(t))), Scalar(PrimitiveOf(DateTimeValue(u)))) =>
      CutsTo(t, u) && TIMESTAMP_MIN <= u < TIMESTAMP_END
    case (Primitive(Decimal(p, s)), Scalar(PrimitiveOf(DecimalValue(d))), Scalar(PrimitiveOf(DecimalValue(e)))) =>
      RoundsTo(d, e, p, s)
    case (Primitive(Uid), Scalar(PrimitiveOf(UidValue(x))), Scalar(PrimitiveOf(UidValue(y)))) => CutsBlanks(x, y, 255)
    case (Email, Scalar(EmailOf(x)), Scalar(EmailOf(y))) => CutsBlanks(x, y, 255)
    case _ => kept == given && Fits(given, ft)
  }

  /** Encoding, storing and reading a type-correct value gives what the column keeps of it,
      and is refused exactly when there is no such value. */
  lemma ThroughKeeps(given: ContentValue, ft: FieldType, kept: ContentValue)
    requires TypeCorrect(given, ft)
    ensures Through(given, ft) == Ok(kept) <==> Keeps(ft, given, kept)
  {
    match given
    case Scalar(PrimitiveOf(p)) => PrimitiveKeeps(p, ft.primitive, kept);
    case Scalar(EmailOf(s)) =>
    case Null => NullLossless(ft);
    case Localized(texts) => TextsKept(texts, kept);
    case Scalar(JsonOf(entries)) => EntriesKept(entries, kept);
    case Scalar(UrlOf(s)) =>
  }

  lemma TextsKept(texts: map<LocaleId, string>, kept: ContentValue)
    ensures Through(Localized(texts), LocalizedText) == Ok(kept) <==>
            kept == Localized(texts) && Fits(Localized(texts), LocalizedText)
  {
    var doc := map l | l in texts :: JsonText(texts[l]);
    assert (map k | k in doc :: doc[k].text) == texts;
  }

  lemma EntriesKept(entries: map<string, PrimitiveValue>, kept: ContentValue)
    ensures var v := Scalar(JsonOf(entries));
            Through(v, FieldType.Json) == Ok(kept) <==> kept == v && Fits(v, FieldType.Json)
  {
    var doc := map k | k in entries :: JsonTagged(entries[k]);
    assert (map k | k in doc :: doc[k].value) == entries;
  }

  lemma PrimitiveKeeps(p: PrimitiveValue, pt: PrimitiveType, kept: ContentValue)
    requires p.MatchesPrimitiveType(pt)
    ensures Through(Scalar(PrimitiveOf(p)), Primitive(pt)) == Ok(kept) <==>
            Keeps(Primitive(pt), Scalar(PrimitiveOf(p)), kept)
  {
    hide CleanJson, Clean, AsI16, AsI32;
    if p.DecimalValue? {
      if kept.Scalar? && kept.value.PrimitiveOf? && kept.value.primitive.DecimalValue? {
        NumericRounds(p.decimal, pt.precision, pt.scale, kept.value.primitive.decimal);
      }
      hide StoreNumeric, RoundsTo;
    } else if p.DateTimeValue? {
      hide StoreNumeric, RoundsTo;
      if kept.Scalar? && kept.value.PrimitiveOf? && kept.value.primitive.DateTimeValue? {
        MicrosCut(p.nanos, kept.value.primitive.nanos);
      }
    } else {
      hide StoreNumeric, RoundsTo, Micros, CutsTo;
    }
  }

  /** Days from the start of 2000 to the start of a year, years before 1 counted 0, -1, ... */
  function DaysBefore(year: int): int {
    365 * (year - 2000) + LeapYearsBefore(year) - LeapYearsBefore(2000)
  }

  function LeapYearsBefore(year: int): int { (year - 1) / 4 - (year - 1) / 100 + (year - 1) / 400 }

  const DAY := 86_400_000_000_000

  /** Dates go from 24 November 4714 BC to the end of 5874897, timestamps from the same day to
      the end of 294276. */
  lemma RangesInYears()
    ensures DATE_MIN == DaysBefore(-4713) + 327 && DATE_END == DaysBefore(5_874_898)
    ensures TIMESTAMP_MIN == DATE_MIN * DAY && TIMESTAMP_END == DaysBefore(294_277) * DAY
  {
  }
}
