/** Content validation against a document type, and the constraints the loader lets in. */
module Validator {
  import opened Wrappers
  import opened DomainSchema
  import opened Content

  datatype Verdict = Matches | NoMatch | InvalidPattern

  /** The known locales, and what the regex engine says of a pattern and a text. */
  datatype Rules = Rules(locales: set<LocaleId>, regex: (string, string) -> Verdict)

  // ----- constraints ----------------------------------------------------------------

  predicate IsApplicableFor(c: FieldConstraint, ft: FieldType) {
    match c
    case Pattern(_) => ft in {Primitive(Text), Primitive(Uid), LocalizedText}
    case MinLength(_) => ft in {Primitive(Text), Primitive(Uid), LocalizedText}
    case MaxLength(_) => ft in {Primitive(Text), Primitive(Uid), LocalizedText}
    case MinInteger(_) => ft.Primitive? && ft.primitive.Integer?
    case MaxInteger(_) => ft.Primitive? && ft.primitive.Integer?
    case MinDecimal(_) => ft.Primitive? && ft.primitive.Decimal?
    case MaxDecimal(_) => ft.Primitive? && ft.primitive.Decimal?
  }

  predicate StringConstraint(c: FieldConstraint) { c.Pattern? || c.MinLength? || c.MaxLength? }

  /** What an evaluator makes of a constraint and a value: a pair that fits no arm is
      passed over. */
  datatype Evaluation = Skipped | Passed | Broken

  function Check(holds: bool): Evaluation { if holds then Passed else Broken }

  function EvaluateStr(rules: Rules, c: FieldConstraint, s: string): Evaluation {
    match c
    case MinLength(min) => Check(|s| >= min)
    case MaxLength(max) => Check(|s| <= max)
    case Pattern(p) => Check(rules.regex(p, s) == Matches)
    case _ => Skipped
  }

  function Evaluate(rules: Rules, c: FieldConstraint, v: DomainValue): Evaluation {
    match (c, v)
    case (_, PrimitiveOf(TextValue(s))) => if StringConstraint(c) then EvaluateStr(rules, c, s) else Skipped
    case (_, PrimitiveOf(UidValue(s))) => if StringConstraint(c) then EvaluateStr(rules, c, s) else Skipped
    case (MinInteger(min), PrimitiveOf(IntegerValue(n))) => Check(n >= min)
    case (MaxInteger(max), PrimitiveOf(IntegerValue(n))) => Check(n <= max)
    case (MinDecimal(min), PrimitiveOf(DecimalValue(d))) => Check(d >= min)
    case (MaxDecimal(max), PrimitiveOf(DecimalValue(d))) => Check(d <= max)
    case _ => Skipped
  }

  predicate BreaksStr(rules: Rules, c: FieldConstraint, s: string) { EvaluateStr(rules, c, s) == Broken }

  predicate Breaks(rules: Rules, c: FieldConstraint, v: DomainValue) { Evaluate(rules, c, v) == Broken }

  /** On a value of the right type the evaluator passes over exactly the constraints the
      loader refuses for that type. */
  lemma NoSilentSkip(rules: Rules, c: FieldConstraint, ft: FieldType, v: DomainValue)
    requires v.MatchesFieldType(ft)
    ensures Evaluate(rules, c, v) == Skipped <==> !IsApplicableFor(c, ft)
  {
  }

  /** The same for the texts of a localized field. */
  lemma NoSilentSkipInText(rules: Rules, c: FieldConstraint, s: string)
    ensures EvaluateStr(rules, c, s) == Skipped <==> !IsApplicableFor(c, LocalizedText)
  {
  }

  /** Bounds are inclusive, and a pattern passes what the engine says it matches. */
  lemma BoundsAreInclusive(rules: Rules, lo: nat, hi: nat, min: int, max: int, least: real, most: real, s: string,
                           n: i64, d: real)
    ensures !BreaksStr(rules, MinLength(lo), s) && !BreaksStr(rules, MaxLength(hi), s) <==> lo <= |s| <= hi
    ensures var v := PrimitiveOf(IntegerValue(n));
            !Breaks(rules, MinInteger(min), v) && !Breaks(rules, MaxInteger(max), v) <==> min <= n <= max
    ensures var v := PrimitiveOf(DecimalValue(d));
            !Breaks(rules, MinDecimal(least), v) && !Breaks(rules, MaxDecimal(most), v) <==> least <= d <= most
    ensures forall p :: BreaksStr(rules, Pattern(p), s) <==> rules.regex(p, s) in {NoMatch, InvalidPattern}
  {
  }

  // ----- what a constraint asks -------------------------------------------------------

  /** A constraint refuses a value of its own type and no other. */
  predicate Refuses(rules: Rules, c: FieldConstraint, v: DomainValue) {
    match (c, v)
    case (_, PrimitiveOf(TextValue(s))) => RefusesText(rules, c, s)
    case (_, PrimitiveOf(UidValue(s))) => RefusesText(rules, c, s)
    case (MinInteger(least), PrimitiveOf(IntegerValue(n))) => n < least
    case (MaxInteger(most), PrimitiveOf(IntegerValue(n))) => n > most
    case (MinDecimal(least), PrimitiveOf(DecimalValue(d))) => d < least
    case (MaxDecimal(most), PrimitiveOf(DecimalValue(d))) => d > most
    case _ => false
  }

  predicate RefusesText(rules: Rules, c: FieldConstraint, s: string) {
    match c
    case MinLength(n) => |s| < n
    case MaxLength(n) => |s| > n
    case Pattern(p) => rules.regex(p, s) != Matches
    case _ => false
  }

  lemma BreaksIsRefuses(rules: Rules, c: FieldConstraint, v: DomainValue, s: string)
    ensures Breaks(rules, c, v) <==> Refuses(rules, c, v)
    ensures BreaksStr(rules, c, s) <==> RefusesText(rules, c, s)
  {
  }

  // ----- what is wrong with some content ------------------------------------------------

  datatype Violation =
    | MissingRequired(attr: AttributeId)
    | TypeMismatch(attr: AttributeId)
    | ConstraintBroken(attr: AttributeId, index: nat, locale: Option<LocaleId>)
    | NotLocalizable(attr: AttributeId)
    | UnknownLocale(attr: AttributeId, unknown: LocaleId)
    | UnknownAttribute(attr: AttributeId)

  ghost predicate FieldViolates(rules: Rules, f: FieldDefinition, v: ContentValue, x: Violation) {
    match x
    case MissingRequired(a) => a == f.id && v.Null? && f.required
    case TypeMismatch(a) => a == f.id && v.Scalar? && !v.value.MatchesFieldType(f.fieldType)
    case ConstraintBroken(a, k, None) =>
      a == f.id && v.Scalar? && v.value.MatchesFieldType(f.fieldType)
      && k < |f.constraints| && Refuses(rules, f.constraints[k], v.value)
    case ConstraintBroken(a, k, Some(loc)) =>
      a == f.id && v.Localized? && f.fieldType.LocalizedText? && loc in v.texts && loc in rules.locales
      && k < |f.constraints| && RefusesText(rules, f.constraints[k], v.texts[loc])
    case NotLocalizable(a) => a == f.id && v.Localized? && !f.fieldType.LocalizedText?
    case UnknownLocale(a, loc) =>
      a == f.id && v.Localized? && f.fieldType.LocalizedText? && loc in v.texts && loc !in rules.locales
    case UnknownAttribute(_) => false
  }

  ghost predicate Violates(dt: DocumentType, fields: Fields, rules: Rules, x: Violation) {
    || (exists f | f in dt.fields :: FieldViolates(rules, f, ValueOf(fields, f.id), x))
    || (x.UnknownAttribute? && x.attr in fields && dt.GetField(x.attr).None?)
  }

  // ----- what it is for content to be valid -----------------------------------------------

  predicate FieldValid(rules: Rules, f: FieldDefinition, v: ContentValue) {
    match v
    case Null => !f.required
    case Scalar(s) =>
      s.MatchesFieldType(f.fieldType) && forall k | 0 <= k < |f.constraints| :: !Breaks(rules, f.constraints[k], s)
    case Localized(texts) =>
      && f.fieldType.LocalizedText?
      && texts.Keys <= rules.locales
      && forall loc, k | loc in texts && 0 <= k < |f.constraints| :: !BreaksStr(rules, f.constraints[k], texts[loc])
  }

  predicate ContentValid(dt: DocumentType, fields: Fields, rules: Rules) {
    && (forall a | a in fields :: dt.GetField(a).Some?)
    && forall f | f in dt.fields :: FieldValid(rules, f, ValueOf(fields, f.id))
  }

  lemma FieldValidIffNoViolation(rules: Rules, f: FieldDefinition, v: ContentValue)
    ensures FieldValid(rules, f, v) <==> forall x :: !FieldViolates(rules, f, v, x)
  {
    forall c, d: DomainValue, s
      ensures Breaks(rules, c, d) <==> Refuses(rules, c, d)
      ensures BreaksStr(rules, c, s) <==> RefusesText(rules, c, s)
    {
      BreaksIsRefuses(rules, c, d, s);
    }
    hide Breaks, BreaksStr, Refuses, RefusesText;
    if forall x :: !FieldViolates(rules, f, v, x) {
      assert !FieldViolates(rules, f, v, MissingRequired(f.id));
      assert !FieldViolates(rules, f, v, TypeMismatch(f.id));
      assert !FieldViolates(rules, f, v, NotLocalizable(f.id));
      if v.Scalar? {
        forall k | 0 <= k < |f.constraints|
          ensures v.value.MatchesFieldType(f.fieldType) ==> !Breaks(rules, f.constraints[k], v.value)
        {
          assert !FieldViolates(rules, f, v, ConstraintBroken(f.id, k, None));
        }
      }
      if v.Localized? {
        forall loc | loc in v.texts
          ensures f.fieldType.LocalizedText? ==> loc in rules.locales
        {
          assert !FieldViolates(rules, f, v, UnknownLocale(f.id, loc));
        }
        forall loc, k | loc in v.texts && 0 <= k < |f.constraints|
          ensures f.fieldType.LocalizedText? ==> !BreaksStr(rules, f.constraints[k], v.texts[loc])
        {
          assert !FieldViolates(rules, f, v, ConstraintBroken(f.id, k, Some(loc)));
        }
      }
    }
  }

  /** Content is valid exactly when nothing violates the type. */
  lemma ValidIffNoViolation(dt: DocumentType, fields: Fields, rules: Rules)
    ensures ContentValid(dt, fields, rules) <==> forall x :: !Violates(dt, fields, rules, x)
  {
    forall f | f in dt.fields
      ensures FieldValid(rules, f, ValueOf(fields, f.id)) <==>
              forall x :: !FieldViolates(rules, f, ValueOf(fields, f.id), x)
    {
      FieldValidIffNoViolation(rules, f, ValueOf(fields, f.id));
    }
    if forall x :: !Violates(dt, fields, rules, x) {
      forall a | a in fields ensures dt.GetField(a).Some? {
        assert !Violates(dt, fields, rules, UnknownAttribute(a));
      }
      forall f, x | f in dt.fields ensures !FieldViolates(rules, f, ValueOf(fields, f.id), x) {
        assert !Violates(dt, fields, rules, x);
      }
    }
  }

  // ----- the same, field type by field type ------------------------------------------------

  /** The text has a permitted length and the engine matches every pattern with it. */
  predicate TextWithin(rules: Rules, cs: seq<FieldConstraint>, s: string) {
    && (forall c | c in cs && c.MinLength? :: c.length <= |s|)
    && (forall c | c in cs && c.MaxLength? :: |s| <= c.length)
    && (forall c | c in cs && c.Pattern? :: rules.regex(c.pattern, s) == Matches)
  }

  predicate IntegerWithin(cs: seq<FieldConstraint>, n: int) {
    && (forall c | c in cs && c.MinInteger? :: c.integer <= n)
    && (forall c | c in cs && c.MaxInteger? :: n <= c.integer)
  }

  predicate DecimalWithin(cs: seq<FieldConstraint>, d: real) {
    && (forall c | c in cs && c.MinDecimal? :: c.decimal <= d)
    && (forall c | c in cs && c.MaxDecimal? :: d <= c.decimal)
  }

  /** The values of each field type, and which of them a field accepts. */
  predicate Accepts(rules: Rules, f: FieldDefinition, v: ContentValue) {
    match (f.fieldType, v)
    case (_, Null) => !f.required
    case (Primitive(Text), Scalar(PrimitiveOf(TextValue(s)))) => TextWithin(rules, f.constraints, s)
    case (Primitive(Uid), Scalar(PrimitiveOf(UidValue(s)))) => TextWithin(rules, f.constraints, s)
    case (LocalizedText, Localized(texts)) =>
      forall loc | loc in texts :: loc in rules.locales && TextWithin(rules, f.constraints, texts[loc])
    case (Primitive(Integer(size)), Scalar(PrimitiveOf(IntegerValue(n)))) =>
      InSize(size, n) && IntegerWithin(f.constraints, n)
    case (Primitive(Decimal(_, _)), Scalar(PrimitiveOf(DecimalValue(d)))) => DecimalWithin(f.constraints, d)
    case (Primitive(Uuid), Scalar(PrimitiveOf(UuidValue(_)))) => true
    case (Primitive(Date), Scalar(PrimitiveOf(DateValue(_)))) => true
    case (Primitive(DateTime), Scalar(PrimitiveOf(DateTimeValue(_)))) => true
    case (Primitive(Boolean), Scalar(PrimitiveOf(BooleanValue(_)))) => true
    case (Email, Scalar(EmailOf(_))) => true
    case (Url, Scalar(UrlOf(_))) => true
    case (Json, Scalar(JsonOf(_))) => true
    case _ => false
  }

  predicate InSize(size: IntegerSize, n: int) {
    match size
    case I16 => -0x8000 <= n < 0x8000
    case I32 => -0x8000_0000 <= n < 0x8000_0000
    case I64 => -0x8000_0000_0000_0000 <= n < 0x8000_0000_0000_0000
  }

  lemma TextBreaks(rules: Rules, cs: seq<FieldConstraint>, s: string)
    ensures TextWithin(rules, cs, s) <==> forall k | 0 <= k < |cs| :: !BreaksStr(rules, cs[k], s)
    ensures TextWithin(rules, cs, s) <==> forall k | 0 <= k < |cs| :: !Breaks(rules, cs[k], PrimitiveOf(TextValue(s)))
    ensures TextWithin(rules, cs, s) <==> forall k | 0 <= k < |cs| :: !Breaks(rules, cs[k], PrimitiveOf(UidValue(s)))
  {
    forall c ensures Breaks(rules, c, PrimitiveOf(TextValue(s))) <==> BreaksStr(rules, c, s)
      ensures Breaks(rules, c, PrimitiveOf(UidValue(s))) <==> BreaksStr(rules, c, s)
    {
    }
    hide Breaks;
    forall c | c in cs ensures exists k :: 0 <= k < |cs| && cs[k] == c {
    }
  }

  lemma NumberBreaks(rules: Rules, cs: seq<FieldConstraint>, n: i64, d: real)
    ensures IntegerWithin(cs, n) <==> forall k | 0 <= k < |cs| :: !Breaks(rules, cs[k], PrimitiveOf(IntegerValue(n)))
    ensures DecimalWithin(cs, d) <==> forall k | 0 <= k < |cs| :: !Breaks(rules, cs[k], PrimitiveOf(DecimalValue(d)))
  {
    forall c | c in cs ensures exists k :: 0 <= k < |cs| && cs[k] == c {
    }
  }

  /** A field holds a value exactly when it accepts it: bounds are inclusive, lengths count
      characters, and a constraint of another type's values says nothing. */
  lemma ValidIsAccepted(rules: Rules, f: FieldDefinition, v: ContentValue)
    ensures FieldValid(rules, f, v) <==> Accepts(rules, f, v)
  {
    match v
    case Null =>
    case Localized(texts) =>
      hide BreaksStr, TextWithin;
      forall loc | loc in texts
        ensures TextWithin(rules, f.constraints, texts[loc]) <==>
                forall k | 0 <= k < |f.constraints| :: !BreaksStr(rules, f.constraints[k], texts[loc])
      {
        TextBreaks(rules, f.constraints, texts[loc]);
      }
    case Scalar(PrimitiveOf(TextValue(s))) =>
      TextBreaks(rules, f.constraints, s);
      hide Breaks, TextWithin;
    case Scalar(PrimitiveOf(UidValue(s))) =>
      TextBreaks(rules, f.constraints, s);
      hide Breaks, TextWithin;
    case Scalar(PrimitiveOf(IntegerValue(n))) =>
      NumberBreaks(rules, f.constraints, n, 0.0);
      hide Breaks, IntegerWithin;
    case Scalar(PrimitiveOf(DecimalValue(d))) =>
      NumberBreaks(rules, f.constraints, 0, d);
      hide Breaks, DecimalWithin;
    case Scalar(_) =>
  }

  /** Content is valid when every attribute is declared and every declared one accepted. */
  predicate ContentAccepted(dt: DocumentType, fields: Fields, rules: Rules) {
    && (forall a | a in fields :: exists f | f in dt.fields :: f.id == a)
    && forall f | f in dt.fields :: Accepts(rules, f, if f.id in fields then fields[f.id] else Null)
  }

  lemma ValidContentIsAccepted(dt: DocumentType, fields: Fields, rules: Rules)
    ensures ContentValid(dt, fields, rules) <==> ContentAccepted(dt, fields, rules)
  {
    forall f, v ensures FieldValid(rules, f, v) <==> Accepts(rules, f, v) {
      ValidIsAccepted(rules, f, v);
    }
    hide FieldValid, Accepts;
  }

  // ----- the algorithm -------------------------------------------------------------------

  lemma DistinctConcat<T>(xs: seq<T>, ys: seq<T>)
    requires NoDuplicates(xs) && NoDuplicates(ys) && forall y | y in ys :: y !in xs
    ensures NoDuplicates(xs + ys)
  {
    forall i, j | 0 <= i < j < |xs + ys|
      ensures (xs + ys)[i] != (xs + ys)[j]
    {
      assert j >= |xs| ==> (xs + ys)[j] in ys;
    }
  }

  /** Lists each violation once; the content passes when the list is empty. */
  method ValidateContent(dt: DocumentType, fields: Fields, rules: Rules) returns (errors: seq<Violation>)
    requires forall i, j | 0 <= i < j < |dt.fields| :: dt.fields[i].id != dt.fields[j].id
    ensures NoDuplicates(errors)
    ensures forall x :: x in errors <==> Violates(dt, fields, rules, x)
    ensures errors == [] <==> ContentAccepted(dt, fields, rules)
  {
    errors := [];

    // 1. Declared fields
    for i := 0 to |dt.fields|
      invariant NoDuplicates(errors)
      invariant forall x :: x in errors <==>
                  exists j | 0 <= j < i :: FieldViolates(rules, dt.fields[j], ValueOf(fields, dt.fields[j].id), x)
    {
      var f := dt.fields[i];
      var found := ValidateField(rules, f, ValueOf(fields, f.id));
      forall x | x in found ensures x !in errors {
        assert x.attr == f.id;
      }
      DistinctConcat(errors, found);
      errors := errors + found;
    }

    // 2. Undeclared fields
    ghost var declared := errors;
    var left := fields.Keys;
    while left != {}
      invariant left <= fields.Keys
      invariant NoDuplicates(errors)
      invariant forall x :: x in errors <==>
                  x in declared
                      || (x.UnknownAttribute? && x.attr in fields && x.attr !in left && dt.GetField(x.attr).None?)
      decreases |left|
    {
      var a :| a in left;
      if dt.GetField(a).None? {
        errors := errors + [UnknownAttribute(a)];
      }
      left := left - {a};
    }
    forall x ensures x in errors <==> Violates(dt, fields, rules, x) {
      if x in declared {
        var j :| 0 <= j < |dt.fields| && FieldViolates(rules, dt.fields[j], ValueOf(fields, dt.fields[j].id), x);
        assert dt.fields[j] in dt.fields;
      }
    }
    ValidIffNoViolation(dt, fields, rules);
    ValidContentIsAccepted(dt, fields, rules);
    if errors != [] {
      assert Violates(dt, fields, rules, errors[0]);
    }
  }

  method ValidateField(rules: Rules, f: FieldDefinition, v: ContentValue) returns (errors: seq<Violation>)
    ensures NoDuplicates(errors)
    ensures forall x :: x in errors <==> FieldViolates(rules, f, v, x)
  {
    match v
    case Null =>
      errors := if f.required then [MissingRequired(f.id)] else [];
    case Scalar(s) =>
      if !s.MatchesFieldType(f.fieldType) {
        errors := [TypeMismatch(f.id)];
      } else {
        errors := [];
        for k := 0 to |f.constraints|
          invariant NoDuplicates(errors)
          invariant forall x :: x in errors <==>
                      x.ConstraintBroken? && x.attr == f.id && x.locale.None? && x.index < k
                          && Refuses(rules, f.constraints[x.index], s)
        {
          BreaksIsRefuses(rules, f.constraints[k], s, "");
          if Breaks(rules, f.constraints[k], s) {
            errors := errors + [ConstraintBroken(f.id, k, None)];
          }
        }
      }
    case Localized(texts) =>
      if !f.fieldType.LocalizedText? {
        errors := [NotLocalizable(f.id)];
      } else {
        errors := ValidateTexts(rules, f, texts);
      }
  }

  method ValidateTexts(rules: Rules, f: FieldDefinition, texts: map<LocaleId, string>) returns (errors: seq<Violation>)
    requires f.fieldType.LocalizedText?
    ensures NoDuplicates(errors)
    ensures forall x :: x in errors <==> FieldViolates(rules, f, Localized(texts), x)
  {
    errors := [];
    var left := texts.Keys;
    while left != {}
      invariant left <= texts.Keys
      invariant NoDuplicates(errors)
      invariant forall x :: x in errors <==> FieldViolates(rules, f, Localized(texts), x) && LocaleOf(x) !in left
      decreases |left|
    {
      var loc :| loc in left;
      var found := [];
      if loc !in rules.locales {
        found := [UnknownLocale(f.id, loc)];
      } else {
        for k := 0 to |f.constraints|
          invariant NoDuplicates(found)
          invariant forall x :: x in found <==>
                      x.ConstraintBroken? && x.attr == f.id && x.locale == Some(loc) && x.index < k
                      && RefusesText(rules, f.constraints[x.index], texts[loc])
        {
          BreaksIsRefuses(rules, f.constraints[k], EmailOf(""), texts[loc]);
          if BreaksStr(rules, f.constraints[k], texts[loc]) {
            found := found + [ConstraintBroken(f.id, k, Some(loc))];
          }
        }
      }
      assert forall x | x in found :: LocaleOf(x) == loc;
      DistinctConcat(errors, found);
      errors := errors + found;
      left := left - {loc};
    }
  }

  function LocaleOf(x: Violation): LocaleId {
    match x
    case ConstraintBroken(_, _, Some(loc)) => loc
    case UnknownLocale(_, loc) => loc
    case _ => ""
  }

  // ----- constraints as the loader reads them ------------------------------------------------

  /** A numeric bound in a schema file: what each of the three parsers makes of it. */
  datatype RawBound = RawBound(asLength: Option<nat>, asInteger: Option<int>, asDecimal: Option<real>)

  datatype RawConstraint = RawConstraint(
    minLength: Option<nat>, maxLength: Option<nat>, pattern: Option<string>,
    min: Option<RawBound>, max: Option<RawBound>)

  datatype LoaderError = InapplicableConstraint

  /** The constraint a bound stands for depends on the type of the field. */
  function Bound(b: RawBound, ft: FieldType, lower: bool): (r: Option<FieldConstraint>)
    ensures r.Some? ==> IsApplicableFor(r.value, ft)
  {
    if ft.Primitive? && ft.primitive.Integer? then
      match b.asInteger { case Some(n) => Some(if lower then MinInteger(n) else MaxInteger(n)) case None => None }
    else if ft.Primitive? && ft.primitive.Decimal? then
      match b.asDecimal { case Some(d) => Some(if lower then MinDecimal(d) else MaxDecimal(d)) case None => None }
    else if ft in {Primitive(Text), Primitive(Uid), LocalizedText} then
      match b.asLength { case Some(n) => Some(if lower then MinLength(n) else MaxLength(n)) case None => None }
    else None
  }

  /** What one raw entry asks for, in order; None for a request that must be refused. */
  function Requests(rc: RawConstraint, ft: FieldType): seq<Option<FieldConstraint>> {
    (if rc.minLength.Some? then [Checked(MinLength(rc.minLength.value), ft)] else [])
    + (if rc.maxLength.Some? then [Checked(MaxLength(rc.maxLength.value), ft)] else [])
    + (if rc.pattern.Some? then [Checked(Pattern(rc.pattern.value), ft)] else [])
    + (if rc.min.Some? then [Bound(rc.min.value, ft, true)] else [])
    + (if rc.max.Some? then [Bound(rc.max.value, ft, false)] else [])
  }

  function Checked(c: FieldConstraint, ft: FieldType): (r: Option<FieldConstraint>)
    ensures r.Some? ==> IsApplicableFor(r.value, ft)
  {
    if IsApplicableFor(c, ft) then Some(c) else None
  }

  /** The types that length bounds and patterns are for. */
  predicate IsText(ft: FieldType) { ft.LocalizedText? || ft == Primitive(Text) || ft == Primitive(Uid) }

  /** The bound cannot be read as the field's type needs it, or the type has no bounds. */
  predicate Unreadable(b: RawBound, ft: FieldType) {
    if IsText(ft) then b.asLength.None?
    else
      match ft
      case Primitive(Integer(_)) => b.asInteger.None?
      case Primitive(Decimal(_, _)) => b.asDecimal.None?
      case _ => true
  }

  predicate Inapplicable(rc: RawConstraint, ft: FieldType) {
    || (!IsText(ft) && (rc.minLength.Some? || rc.maxLength.Some? || rc.pattern.Some?))
    || (rc.min.Some? && Unreadable(rc.min.value, ft))
    || (rc.max.Some? && Unreadable(rc.max.value, ft))
  }

  lemma RefusedRequests(rc: RawConstraint, ft: FieldType)
    ensures None in Requests(rc, ft) <==> Inapplicable(rc, ft)
  {
  }

  // What an entry of the schema file means, read by the type of the field.

  predicate AllowsText(rules: Rules, rc: RawConstraint, s: string) {
    && (rc.minLength.Some? ==> rc.minLength.value <= |s|)
    && (rc.maxLength.Some? ==> |s| <= rc.maxLength.value)
    && (rc.pattern.Some? ==> rules.regex(rc.pattern.value, s) == Matches)
    && (rc.min.Some? && rc.min.value.asLength.Some? ==> rc.min.value.asLength.value <= |s|)
    && (rc.max.Some? && rc.max.value.asLength.Some? ==> |s| <= rc.max.value.asLength.value)
  }

  predicate AllowsInteger(rc: RawConstraint, n: int) {
    && (rc.min.Some? && rc.min.value.asInteger.Some? ==> rc.min.value.asInteger.value <= n)
    && (rc.max.Some? && rc.max.value.asInteger.Some? ==> n <= rc.max.value.asInteger.value)
  }

  predicate AllowsDecimal(rc: RawConstraint, d: real) {
    && (rc.min.Some? && rc.min.value.asDecimal.Some? ==> rc.min.value.asDecimal.value <= d)
    && (rc.max.Some? && rc.max.value.asDecimal.Some? ==> d <= rc.max.value.asDecimal.value)
  }

  /** The constraints let through what every entry of the file allows, and nothing else. */
  ghost predicate MeansWhatIsWritten(raw: seq<RawConstraint>, ft: FieldType, cs: seq<FieldConstraint>) {
    && (IsText(ft) ==> forall rules: Rules, s: string {:trigger TextWithin(rules, cs, s)} ::
          TextWithin(rules, cs, s) <==> forall i | 0 <= i < |raw| :: AllowsText(rules, raw[i], s))
    && (ft.Primitive? && ft.primitive.Integer? ==> forall n: int {:trigger IntegerWithin(cs, n)} ::
          IntegerWithin(cs, n) <==> forall i | 0 <= i < |raw| :: AllowsInteger(raw[i], n))
    && (ft.Primitive? && ft.primitive.Decimal? ==> forall d: real {:trigger DecimalWithin(cs, d)} ::
          DecimalWithin(cs, d) <==> forall i | 0 <= i < |raw| :: AllowsDecimal(raw[i], d))
  }

  lemma EntryMeans(rc: RawConstraint, ft: FieldType, rules: Rules, s: string, n: int, d: real)
    requires !Inapplicable(rc, ft)
    ensures IsText(ft) ==>
              (AllowsText(rules, rc, s) <==> forall c | Some(c) in Requests(rc, ft) :: !RefusesText(rules, c, s))
    ensures ft.Primitive? && ft.primitive.Integer? ==>
              (AllowsInteger(rc, n) <==> forall c | Some(c) in Requests(rc, ft) :: AllowsIntegerBy(c, n))
    ensures ft.Primitive? && ft.primitive.Decimal? ==>
              (AllowsDecimal(rc, d) <==> forall c | Some(c) in Requests(rc, ft) :: AllowsDecimalBy(c, d))
  {
    forall c ensures Some(c) in Requests(rc, ft) <==> Asked(rc, ft, c) {
      RequestIs(rc, ft, c);
    }
    hide Requests;
    if IsText(ft) {
      TextEntryMeans(rc, ft, rules, s);
    } else {
      NumberEntryMeans(rc, ft, n, d);
    }
  }

  /** One of the requests of an entry. */
  predicate Asked(rc: RawConstraint, ft: FieldType, c: FieldConstraint) {
    || (rc.minLength.Some? && Checked(MinLength(rc.minLength.value), ft) == Some(c))
    || (rc.maxLength.Some? && Checked(MaxLength(rc.maxLength.value), ft) == Some(c))
    || (rc.pattern.Some? && Checked(Pattern(rc.pattern.value), ft) == Some(c))
    || (rc.min.Some? && Bound(rc.min.value, ft, true) == Some(c))
    || (rc.max.Some? && Bound(rc.max.value, ft, false) == Some(c))
  }

  lemma RequestIs(rc: RawConstraint, ft: FieldType, c: FieldConstraint)
    ensures Some(c) in Requests(rc, ft) <==> Asked(rc, ft, c)
  {
    hide Checked, Bound;
  }

  lemma TextEntryMeans(rc: RawConstraint, ft: FieldType, rules: Rules, s: string)
    requires !Inapplicable(rc, ft) && IsText(ft)
    ensures AllowsText(rules, rc, s) <==> forall c | Asked(rc, ft, c) :: !RefusesText(rules, c, s)
  {
    if forall c | Asked(rc, ft, c) :: !RefusesText(rules, c, s) {
      assert rc.minLength.Some? ==> Asked(rc, ft, MinLength(rc.minLength.value));
      assert rc.maxLength.Some? ==> Asked(rc, ft, MaxLength(rc.maxLength.value));
      assert rc.pattern.Some? ==> Asked(rc, ft, Pattern(rc.pattern.value));
      assert rc.min.Some? ==> Asked(rc, ft, MinLength(rc.min.value.asLength.value));
      assert rc.max.Some? ==> Asked(rc, ft, MaxLength(rc.max.value.asLength.value));
    }
  }

  lemma NumberEntryMeans(rc: RawConstraint, ft: FieldType, n: int, d: real)
    requires !Inapplicable(rc, ft)
    ensures ft.Primitive? && ft.primitive.Integer? ==>
              (AllowsInteger(rc, n) <==> forall c | Asked(rc, ft, c) :: AllowsIntegerBy(c, n))
    ensures ft.Primitive? && ft.primitive.Decimal? ==>
              (AllowsDecimal(rc, d) <==> forall c | Asked(rc, ft, c) :: AllowsDecimalBy(c, d))
  {
    if ft.Primitive? && ft.primitive.Integer? {
      if forall c | Asked(rc, ft, c) :: AllowsIntegerBy(c, n) {
        assert rc.min.Some? ==> Asked(rc, ft, MinInteger(rc.min.value.asInteger.value));
        assert rc.max.Some? ==> Asked(rc, ft, MaxInteger(rc.max.value.asInteger.value));
      }
    } else if ft.Primitive? && ft.primitive.Decimal? {
      if forall c | Asked(rc, ft, c) :: AllowsDecimalBy(c, d) {
        assert rc.min.Some? ==> Asked(rc, ft, MinDecimal(rc.min.value.asDecimal.value));
        assert rc.max.Some? ==> Asked(rc, ft, MaxDecimal(rc.max.value.asDecimal.value));
      }
    }
  }

  predicate AllowsIntegerBy(c: FieldConstraint, n: int) { IntegerWithin([c], n) }

  predicate AllowsDecimalBy(c: FieldConstraint, d: real) { DecimalWithin([c], d) }

  /** Constraints that are the requests of the entries mean what the entries say. */
  lemma RequestsMeanWhatIsWritten(raw: seq<RawConstraint>, ft: FieldType, cs: seq<FieldConstraint>)
    requires forall i | 0 <= i < |raw| :: !Inapplicable(raw[i], ft)
    requires forall c :: c in cs <==> exists i :: 0 <= i < |raw| && Some(c) in Requests(raw[i], ft)
    ensures MeansWhatIsWritten(raw, ft, cs)
  {
    hide Requests, Inapplicable, AllowsText, AllowsInteger, AllowsDecimal;
    forall rules: Rules, s: string | IsText(ft)
      ensures TextWithin(rules, cs, s) <==> forall i | 0 <= i < |raw| :: AllowsText(rules, raw[i], s)
    {
      forall i | 0 <= i < |raw|
        ensures AllowsText(rules, raw[i], s) <==>
                forall c | Some(c) in Requests(raw[i], ft) :: !RefusesText(rules, c, s)
      {
        EntryMeans(raw[i], ft, rules, s, 0, 0.0);
      }
      assert TextWithin(rules, cs, s) <==> forall c | c in cs :: !RefusesText(rules, c, s);
      hide TextWithin, RefusesText;
    }
    forall n: int | ft.Primitive? && ft.primitive.Integer?
      ensures IntegerWithin(cs, n) <==> forall i | 0 <= i < |raw| :: AllowsInteger(raw[i], n)
    {
      forall i | 0 <= i < |raw|
        ensures AllowsInteger(raw[i], n) <==> forall c | Some(c) in Requests(raw[i], ft) :: AllowsIntegerBy(c, n)
      {
        EntryMeans(raw[i], ft, Rules({}, (p, s) => Matches), "", n, 0.0);
      }
      assert IntegerWithin(cs, n) <==> forall c | c in cs :: AllowsIntegerBy(c, n) by { IntegerByEach(cs, n); }
      hide IntegerWithin, AllowsIntegerBy;
    }
    forall d: real | ft.Primitive? && ft.primitive.Decimal?
      ensures DecimalWithin(cs, d) <==> forall i | 0 <= i < |raw| :: AllowsDecimal(raw[i], d)
    {
      forall i | 0 <= i < |raw|
        ensures AllowsDecimal(raw[i], d) <==> forall c | Some(c) in Requests(raw[i], ft) :: AllowsDecimalBy(c, d)
      {
        EntryMeans(raw[i], ft, Rules({}, (p, s) => Matches), "", 0, d);
      }
      assert DecimalWithin(cs, d) <==> forall c | c in cs :: AllowsDecimalBy(c, d) by { DecimalByEach(cs, d); }
      hide DecimalWithin, AllowsDecimalBy;
    }
  }

  lemma IntegerByEach(cs: seq<FieldConstraint>, n: int)
    ensures IntegerWithin(cs, n) <==> forall c | c in cs :: AllowsIntegerBy(c, n)
  {
    forall c | c in cs ensures c in [c] {
    }
  }

  lemma DecimalByEach(cs: seq<FieldConstraint>, d: real)
    ensures DecimalWithin(cs, d) <==> forall c | c in cs :: AllowsDecimalBy(c, d)
  {
    forall c | c in cs ensures c in [c] {
    }
  }

  lemma RequestsApply(rc: RawConstraint, ft: FieldType, c: FieldConstraint)
    ensures Some(c) in Requests(rc, ft) ==> IsApplicableFor(c, ft)
  {
    hide IsApplicableFor;
  }

  lemma LetIn(raw: seq<RawConstraint>, ft: FieldType, cs: seq<FieldConstraint>)
    requires forall j | 0 <= j < |raw| :: None !in Requests(raw[j], ft)
    requires forall c :: c in cs <==> exists j | 0 <= j < |raw| :: Some(c) in Requests(raw[j], ft)
    ensures forall j | 0 <= j < |raw| :: !Inapplicable(raw[j], ft)
    ensures MeansWhatIsWritten(raw, ft, cs) && forall c | c in cs :: IsApplicableFor(c, ft)
  {
    hide Requests, IsApplicableFor, Inapplicable, MeansWhatIsWritten;
    forall c | c in cs ensures IsApplicableFor(c, ft) {
      var j :| 0 <= j < |raw| && Some(c) in Requests(raw[j], ft);
      RequestsApply(raw[j], ft, c);
    }
    forall j | 0 <= j < |raw| ensures !Inapplicable(raw[j], ft) {
      RefusedRequests(raw[j], ft);
    }
    RequestsMeanWhatIsWritten(raw, ft, cs);
  }

  /** Either every request is met, once, or the field is refused; and whatever is let in
      applies to the type of the field, so that the validator never passes it over. */
  method ConvertRawConstraints(raw: seq<RawConstraint>, ft: FieldType)
    returns (r: Result<seq<FieldConstraint>, LoaderError>)
    ensures r.Err? <==> exists i | 0 <= i < |raw| :: Inapplicable(raw[i], ft)
    ensures r.Ok? ==> MeansWhatIsWritten(raw, ft, r.value)
    ensures r.Ok? ==> NoDuplicates(r.value)
    ensures r.Ok? ==> forall c :: c in r.value <==> exists i | 0 <= i < |raw| :: Some(c) in Requests(raw[i], ft)
    ensures r.Ok? ==> forall c | c in r.value :: IsApplicableFor(c, ft)
  {
    hide Requests, IsApplicableFor, Inapplicable, MeansWhatIsWritten;
    var result: seq<FieldConstraint> := [];
    for i := 0 to |raw|
      invariant NoDuplicates(result)
      invariant forall j | 0 <= j < i :: None !in Requests(raw[j], ft)
      invariant forall c :: c in result <==> exists j | 0 <= j < i :: Some(c) in Requests(raw[j], ft)
    {
      var added := MeetRequests(result, Requests(raw[i], ft));
      match added {
        case Err(e) =>
          RefusedRequests(raw[i], ft);
          return Err(e);
        case Ok(more) => result := more;
      }
    }
    LetIn(raw, ft, result);
    return Ok(result);
  }

  method MeetRequests(before: seq<FieldConstraint>, requests: seq<Option<FieldConstraint>>)
    returns (r: Result<seq<FieldConstraint>, LoaderError>)
    requires NoDuplicates(before)
    ensures r.Err? <==> None in requests
    ensures r.Ok? ==> NoDuplicates(r.value) && forall c :: c in r.value <==> c in before || Some(c) in requests
  {
    var result := before;
    for k := 0 to |requests|
      invariant NoDuplicates(result)
      invariant None !in requests[..k]
      invariant forall c :: c in result <==> c in before || Some(c) in requests[..k]
    {
      assert requests[..k + 1] == requests[..k] + [requests[k]];
      match requests[k] {
        case None =>
          assert requests[k] in requests;
          return Err(InapplicableConstraint);
        case Some(c) =>
          if c !in result {
            result := result + [c];
          }
      }
    }
    assert requests[..|requests|] == requests;
    return Ok(result);
  }
}
