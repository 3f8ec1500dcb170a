/** Field values and how they match field types. */
module Content {
  import opened DomainSchema

  type LocaleId = string

  const I16_MAX: int := 0x7FFF
  const I32_MAX: int := 0x7FFF_FFFF
  const I64_MAX: int := 0x7FFF_FFFF_FFFF_FFFF

  type i64 = x: int | -I64_MAX - 1 <= x <= I64_MAX

  /** A DateTime counts nanoseconds and a Date days from the start of the year 2000; a Uuid
      is its 128-bit number. */
  datatype PrimitiveValue =
    | TextValue(text: string)
    | UidValue(uid: string)
    | UuidValue(uuid: nat)
    | IntegerValue(integer: i64)
    | DecimalValue(decimal: real)
    | DateValue(days: int)
    | DateTimeValue(nanos: int)
    | BooleanValue(boolean: bool)
  {
    predicate MatchesPrimitiveType(pt: PrimitiveType) {
      match (this, pt)
      case (TextValue(_), Text) => true
      case (UidValue(_), Uid) => true
      case (UuidValue(_), Uuid) => true
      case (IntegerValue(n), Integer(I16)) => -I16_MAX - 1 <= n <= I16_MAX
      case (IntegerValue(n), Integer(I32)) => -I32_MAX - 1 <= n <= I32_MAX
      case (IntegerValue(_), Integer(I64)) => true
      case (DecimalValue(_), Decimal(_, _)) => true
      case (DateValue(_), Date) => true
      case (DateTimeValue(_), DateTime) => true
      case (BooleanValue(_), Boolean) => true
      case _ => false
    }
  }

  /** Emails and URLs hold their sanitised text: an invalid one is never constructed. */
  datatype DomainValue =
    | PrimitiveOf(primitive: PrimitiveValue)
    | EmailOf(address: string)
    | UrlOf(url: string)
    | JsonOf(entries: map<string, PrimitiveValue>)
  {
    predicate MatchesFieldType(ft: FieldType) {
      match (this, ft)
      case (PrimitiveOf(p), Primitive(pt)) => p.MatchesPrimitiveType(pt)
      case (EmailOf(_), Email) => true
      case (UrlOf(_), Url) => true
      case (JsonOf(_), Json) => true
      case _ => false
    }
  }

  datatype ContentValue =
    | Scalar(value: DomainValue)
    | Localized(texts: map<LocaleId, string>)
    | Null

  type Fields = map<AttributeId, ContentValue>

  /** A declared field that is absent reads as null. */
  function ValueOf(fields: Fields, attr: AttributeId): ContentValue {
    if attr in fields then fields[attr] else Null
  }
}
