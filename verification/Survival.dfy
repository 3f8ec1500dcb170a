/** Whether what a field's rules accept is still accepted once its column has kept it: a
    decimal is rounded to a scale, a uid may lose blanks at its end. */
module Survival {
  import opened Wrappers
  import opened DomainSchema
  import opened Content
  import opened Validator
  import opened Codec
  import Builder

  /** A valid value that the column accepts reads back valid. */
  ghost predicate ReadsBackValid(rules: Rules, f: FieldDefinition, v: ContentValue) {
    FieldValid(rules, f, v) && Through(v, f.fieldType).Ok? ==> FieldValid(rules, f, Through(v, f.fieldType).value)
  }

  function OfDecimal(d: real): ContentValue { Scalar(PrimitiveOf(DecimalValue(d))) }

  function OfUid(s: string): ContentValue { Scalar(PrimitiveOf(UidValue(s))) }

  /** Every bound of a decimal field, where it is itself a valid value and has a place in the
      column, is still valid when rounded to the column's scale. */
  ghost predicate BoundsKept(rules: Rules, f: FieldDefinition) {
    forall c | c in f.constraints && (c.MinDecimal? || c.MaxDecimal?) :: ReadsBackValid(rules, f, OfDecimal(c.decimal))
  }

  /** The text meets every constraint of the field. */
  predicate Meets(rules: Rules, f: FieldDefinition, s: string) {
    forall c | c in f.constraints :: !BreaksStr(rules, c, s)
  }

  const UID_LENGTH := 255

  function Blanks(n: nat): string { seq(n, _ => ' ') }

  /** A uid of full length that meets the constraints with blanks after it meets them
      without. */
  ghost predicate CutKept(rules: Rules, f: FieldDefinition) {
    forall s: string, n: nat | |s| == UID_LENGTH && Clean(s) && Meets(rules, f, s + Blanks(n)) :: Meets(rules, f, s)
  }

  ghost predicate Survives(rules: Rules, f: FieldDefinition) {
    match f.fieldType
    case Primitive(Decimal(_, _)) => BoundsKept(rules, f)
    case Primitive(Uid) => CutKept(rules, f)
    case _ => true
  }

  // ----- decimals ----------------------------------------------------------------------------

  lemma RoundGrows(x: real, y: real)
    requires x <= y
    ensures Round(x) <= Round(y)
  {
  }

  lemma UnitsGrow(x: real, y: real, unit: real)
    requires x <= y && unit > 0.0
    ensures Scaled(x, unit) <= Scaled(y, unit)
    ensures UnitsIn(x, unit) <= UnitsIn(y, unit)
  {
    hide Round;
    RoundGrows(Scaled(x, unit), Scaled(y, unit));
  }

  lemma FromUnitsScaled(units: int, unit: real)
    requires unit > 0.0
    ensures Scaled(FromUnits(units, unit), unit) == units as real && UnitsIn(FromUnits(units, unit), unit) == units
  {
    hide Round;
    DivideBack(FromUnits(units, unit), unit, units);
    hide FromUnits;
    UnitsOfUnits(FromUnits(units, unit), unit, units);
  }

  /** Between a value and what it is rounded to, everything is rounded alike. */
  lemma RoundedAlike(d: real, b: real, unit: real)
    requires unit > 0.0
    requires var r := FromUnits(UnitsIn(d, unit), unit); r <= b <= d || d <= b <= r
    ensures UnitsIn(b, unit) == UnitsIn(d, unit)
  {
    var r := FromUnits(UnitsIn(d, unit), unit);
    FromUnitsScaled(UnitsIn(d, unit), unit);
    hide UnitsIn, FromUnits, Scaled;
    if r <= b <= d {
      UnitsGrow(r, b, unit);
      UnitsGrow(b, d, unit);
    } else {
      UnitsGrow(d, b, unit);
      UnitsGrow(b, r, unit);
    }
  }

  function Rounded(d: real, ft: FieldType): Option<real>
    requires ft.Primitive? && ft.primitive.Decimal?
  {
    StoreUnits(d, Pow10(ft.primitive.scale) as real, Pow10(ft.primitive.precision))
  }

  lemma ThroughRounds(d: real, ft: FieldType)
    requires ft.Primitive? && ft.primitive.Decimal?
    ensures Through(OfDecimal(d), ft)
            == match Rounded(d, ft) case Some(r) => Ok(OfDecimal(r)) case None => Err(StorageError)
  {
    hide StoreUnits, Pow10;
  }

  /** The bounds that a decimal has to keep. */
  predicate Within(f: FieldDefinition, d: real) {
    && (forall c | c in f.constraints && c.MinDecimal? :: c.decimal <= d)
    && (forall c | c in f.constraints && c.MaxDecimal? :: d <= c.decimal)
  }

  lemma DecimalValid(rules: Rules, f: FieldDefinition, d: real)
    requires f.fieldType.Primitive? && f.fieldType.primitive.Decimal?
    ensures FieldValid(rules, f, OfDecimal(d)) <==> Within(f, d)
  {
    var v := PrimitiveOf(DecimalValue(d));
    forall c ensures Breaks(rules, c, v) <==> (c.MinDecimal? && d < c.decimal) || (c.MaxDecimal? && d > c.decimal) {
    }
    hide Breaks;
    if Within(f, d) {
      forall k | 0 <= k < |f.constraints| ensures !Breaks(rules, f.constraints[k], v) {
        assert f.constraints[k] in f.constraints;
      }
    }
  }

  /** Of the constraints of one sort, one that ranks highest. */
  lemma {:induction false} Tightest(cs: seq<FieldConstraint>, sort: FieldConstraint -> bool,
                                    rank: FieldConstraint -> real, c: FieldConstraint)
    returns (b: FieldConstraint)
    requires c in cs && sort(c)
    ensures b in cs && sort(b) && forall x | x in cs && sort(x) :: rank(x) <= rank(b)
  {
    var n := |cs| - 1;
    assert cs == cs[..n] + [cs[n]];
    if x :| x in cs[..n] && sort(x) {
      b := Tightest(cs[..n], sort, rank, x);
      if sort(cs[n]) && rank(cs[n]) > rank(b) {
        b := cs[n];
      }
    } else {
      b := c;
    }
  }

  /** A bound between a valid value and what it is rounded to would not be kept itself. */
  lemma BoundBetween(rules: Rules, f: FieldDefinition, d: real, r: real, c: FieldConstraint)
    requires f.fieldType.Primitive? && f.fieldType.primitive.Decimal? && BoundsKept(rules, f)
    requires Rounded(d, f.fieldType) == Some(r)
    requires c in f.constraints && (c.MinDecimal? || c.MaxDecimal?) && Within(f, c.decimal)
    requires r <= c.decimal <= d || d <= c.decimal <= r
    ensures Within(f, r)
  {
    hide UnitsIn, FromUnits, Pow10, Within, Through;
    RoundedAlike(d, c.decimal, Pow10(f.fieldType.primitive.scale) as real);
    assert Rounded(c.decimal, f.fieldType) == Some(r);
    hide StoreUnits, Rounded, FieldValid;
    ThroughRounds(c.decimal, f.fieldType);
    DecimalValid(rules, f, c.decimal);
    DecimalValid(rules, f, r);
  }

  lemma DecimalSurvives(rules: Rules, f: FieldDefinition, d: real)
    requires f.fieldType.Primitive? && f.fieldType.primitive.Decimal? && BoundsKept(rules, f)
    requires Within(f, d) && Rounded(d, f.fieldType).Some?
    ensures Within(f, Rounded(d, f.fieldType).value)
  {
    hide BoundsKept, Rounded;
    var r := Rounded(d, f.fieldType).value;
    if c :| c in f.constraints && c.MinDecimal? && r < c.decimal {
      var b := Tightest(f.constraints, (x: FieldConstraint) => x.MinDecimal?,
                        (x: FieldConstraint) => if x.MinDecimal? then x.decimal else 0.0, c);
      BoundBetween(rules, f, d, r, b);
    } else if c :| c in f.constraints && c.MaxDecimal? && c.decimal < r {
      var b := Tightest(f.constraints, (x: FieldConstraint) => x.MaxDecimal?,
                        (x: FieldConstraint) => if x.MaxDecimal? then -x.decimal else 0.0, c);
      BoundBetween(rules, f, d, r, b);
    }
  }

  lemma DecimalFieldSurvives(rules: Rules, f: FieldDefinition)
    requires f.fieldType.Primitive? && f.fieldType.primitive.Decimal?
    ensures (forall v :: ReadsBackValid(rules, f, v)) <==> BoundsKept(rules, f)
  {
    if forall v :: ReadsBackValid(rules, f, v) {
      forall c | c in f.constraints && (c.MinDecimal? || c.MaxDecimal?)
        ensures ReadsBackValid(rules, f, OfDecimal(c.decimal))
      {
      }
    }
    if BoundsKept(rules, f) {
      hide BoundsKept, Through, FieldValid, Rounded;
      forall v | FieldValid(rules, f, v) && Through(v, f.fieldType).Ok?
        ensures FieldValid(rules, f, Through(v, f.fieldType).value)
      {
        if v.Null? {
          NullLossless(f.fieldType);
        } else {
          var d := DecimalIn(rules, f, v);
          ThroughRounds(d, f.fieldType);
          DecimalValid(rules, f, d);
          DecimalSurvives(rules, f, d);
          DecimalValid(rules, f, Rounded(d, f.fieldType).value);
        }
      }
    }
  }

  lemma DecimalIn(rules: Rules, f: FieldDefinition, v: ContentValue) returns (d: real)
    requires f.fieldType.Primitive? && f.fieldType.primitive.Decimal? && FieldValid(rules, f, v) && !v.Null?
    ensures v == OfDecimal(d)
  {
    d := v.value.primitive.decimal;
  }

  // ----- uids --------------------------------------------------------------------------------

  lemma UidValid(rules: Rules, f: FieldDefinition, s: string)
    requires f.fieldType == Primitive(Uid)
    ensures FieldValid(rules, f, OfUid(s)) <==> Meets(rules, f, s)
  {
    var v := PrimitiveOf(UidValue(s));
    assert forall c :: Breaks(rules, c, v) <==> BreaksStr(rules, c, s);
    hide Breaks, BreaksStr;
    if Meets(rules, f, s) {
      forall k | 0 <= k < |f.constraints| ensures !Breaks(rules, f.constraints[k], v) {
        assert f.constraints[k] in f.constraints;
      }
    }
  }

  lemma ThroughCuts(s: string)
    ensures Through(OfUid(s), Primitive(Uid))
            == match StoreLimited(s, UID_LENGTH) case Some(kept) => Ok(OfUid(kept)) case None => Err(StorageError)
  {
    hide StoreLimited;
  }

  lemma CutIsBlanks(s: string)
    requires |s| > UID_LENGTH && Blank(s[UID_LENGTH..])
    ensures s == s[..UID_LENGTH] + Blanks(|s| - UID_LENGTH)
  {
    var tail := s[UID_LENGTH..];
    assert forall i | 0 <= i < |tail| :: tail[i] in tail;
    assert tail == Blanks(|tail|);
    assert s == s[..UID_LENGTH] + tail;
  }

  lemma CutStored(s: string, n: nat)
    requires |s| == UID_LENGTH && Clean(s)
    ensures StoreLimited(s + Blanks(n), UID_LENGTH) == Some(s)
  {
    var t := s + Blanks(n);
    assert t[..UID_LENGTH] == s && t[UID_LENGTH..] == Blanks(n);
    assert n == 0 ==> t == s;
    assert '\0' !in Blanks(n);
  }

  lemma UidSurvives(rules: Rules, f: FieldDefinition, s: string)
    requires f.fieldType == Primitive(Uid) && CutKept(rules, f)
    requires Meets(rules, f, s) && StoreLimited(s, UID_LENGTH).Some?
    ensures Meets(rules, f, StoreLimited(s, UID_LENGTH).value)
  {
    hide Meets;
    if |s| > UID_LENGTH {
      CutIsBlanks(s);
      assert Clean(s[..UID_LENGTH]);
      assert Meets(rules, f, s[..UID_LENGTH] + Blanks(|s| - UID_LENGTH));
    }
  }

  lemma UidFieldSurvives(rules: Rules, f: FieldDefinition)
    requires f.fieldType == Primitive(Uid)
    ensures (forall v :: ReadsBackValid(rules, f, v)) <==> CutKept(rules, f)
  {
    hide Through, FieldValid, Meets, StoreLimited;
    if forall v :: ReadsBackValid(rules, f, v) {
      forall s: string, n: nat | |s| == UID_LENGTH && Clean(s) && Meets(rules, f, s + Blanks(n))
        ensures Meets(rules, f, s)
      {
        assert ReadsBackValid(rules, f, OfUid(s + Blanks(n)));
        UidValid(rules, f, s + Blanks(n));
        UidValid(rules, f, s);
        ThroughCuts(s + Blanks(n));
        CutStored(s, n);
      }
    }
    if CutKept(rules, f) {
      hide CutKept;
      forall v | FieldValid(rules, f, v) && Through(v, f.fieldType).Ok?
        ensures FieldValid(rules, f, Through(v, f.fieldType).value)
      {
        if v.Null? {
          NullLossless(f.fieldType);
        } else {
          var s := UidIn(rules, f, v);
          ThroughCuts(s);
          UidValid(rules, f, s);
          UidSurvives(rules, f, s);
          UidValid(rules, f, StoreLimited(s, UID_LENGTH).value);
        }
      }
    }
  }

  lemma UidIn(rules: Rules, f: FieldDefinition, v: ContentValue) returns (s: string)
    requires f.fieldType == Primitive(Uid) && FieldValid(rules, f, v) && !v.Null?
    ensures v == OfUid(s)
  {
    s := v.value.primitive.uid;
  }

  /** Some minimum length is above some maximum length: no text is valid. */
  ghost predicate LengthsClash(f: FieldDefinition) {
    exists c, e :: c in f.constraints && e in f.constraints && c.MinLength? && e.MaxLength? && e.length < c.length
  }

  lemma MeetsLengths(rules: Rules, f: FieldDefinition, s: string)
    requires forall c | c in f.constraints :: !c.Pattern?
    ensures Meets(rules, f, s) <==>
            && (forall c | c in f.constraints && c.MinLength? :: c.length <= |s|)
            && (forall c | c in f.constraints && c.MaxLength? :: |s| <= c.length)
  {
  }

  /** Without a pattern a uid field keeps its cut values valid exactly when no minimum length
      exceeds the column, or no text is valid at all. */
  lemma CutKeptByLengths(rules: Rules, f: FieldDefinition)
    requires forall c | c in f.constraints :: !c.Pattern?
    ensures CutKept(rules, f) <==>
            LengthsClash(f) || forall c | c in f.constraints && c.MinLength? :: c.length <= UID_LENGTH
  {
    hide Meets;
    forall s: string ensures Meets(rules, f, s) <==>
            && (forall c | c in f.constraints && c.MinLength? :: c.length <= |s|)
            && (forall c | c in f.constraints && c.MaxLength? :: |s| <= c.length)
    {
      MeetsLengths(rules, f, s);
    }
    if c :| c in f.constraints && c.MinLength? && c.length > UID_LENGTH {
      if !LengthsClash(f) {
        var b := Tightest(f.constraints, (x: FieldConstraint) => x.MinLength?,
                          (x: FieldConstraint) => if x.MinLength? then x.length as real else 0.0, c);
        assert forall x | x in f.constraints && x.MinLength? :: x.length as real <= b.length as real;
        var s := seq(UID_LENGTH, _ => 'a');
        assert Clean(s) && |s + Blanks(b.length - UID_LENGTH)| == b.length;
        assert Meets(rules, f, s + Blanks(b.length - UID_LENGTH)) && !Meets(rules, f, s);
      }
    }
  }

  // ----- all types -----------------------------------------------------------------------------

  /** Whatever a field of any other type accepts, and its column too, is valid when read. */
  lemma OtherFieldSurvives(rules: Rules, f: FieldDefinition, v: ContentValue)
    requires !(f.fieldType.Primitive? && f.fieldType.primitive.Decimal?) && f.fieldType != Primitive(Uid)
    ensures ReadsBackValid(rules, f, v)
  {
    if FieldValid(rules, f, v) && Through(v, f.fieldType).Ok? {
      ValidIsTypeCorrect(rules, f, v);
      CodecLossless(v, f.fieldType);
      hide FieldValid, Through;
      if v.Null? {
        NullLossless(f.fieldType);
      } else if f.fieldType.Email? {
        EmailSurvives(rules, f, v);
      } else if f.fieldType == Primitive(DateTime) {
        TimeSurvives(rules, f, v);
      } else {
        AcceptedFits(v, f.fieldType);
      }
    }
  }

  lemma EmailSurvives(rules: Rules, f: FieldDefinition, v: ContentValue)
    requires f.fieldType.Email? && !v.Null? && FieldValid(rules, f, v) && Through(v, f.fieldType).Ok?
    ensures FieldValid(rules, f, Through(v, f.fieldType).value)
  {
  }

  lemma TimeSurvives(rules: Rules, f: FieldDefinition, v: ContentValue)
    requires f.fieldType == Primitive(DateTime) && !v.Null? && FieldValid(rules, f, v) && Through(v, f.fieldType).Ok?
    ensures FieldValid(rules, f, Through(v, f.fieldType).value)
  {
  }

  lemma AcceptedFits(v: ContentValue, ft: FieldType)
    requires TypeCorrect(v, ft) && Through(v, ft).Ok?
    requires !(ft.Primitive? && ft.primitive in {Uid, DateTime}) && !(ft.Primitive? && ft.primitive.Decimal?)
             && !ft.Email?
    ensures Fits(v, ft)
  {
  }

  /** The valid values of a field that its column accepts all read back valid exactly when
      its rules survive its column. */
  lemma SurvivesExactly(rules: Rules, f: FieldDefinition)
    ensures (forall v :: ReadsBackValid(rules, f, v)) <==> Survives(rules, f)
  {
    hide ReadsBackValid, BoundsKept, CutKept;
    if f.fieldType == Primitive(Uid) {
      UidFieldSurvives(rules, f);
    } else if f.fieldType.Primitive? && f.fieldType.primitive.Decimal? {
      DecimalFieldSurvives(rules, f);
    } else {
      forall v ensures ReadsBackValid(rules, f, v) {
        OtherFieldSurvives(rules, f, v);
      }
    }
  }

  // ----- a field whose rules do not survive --------------------------------------------------------

  /** Two decimal places, and at least a thousandth. */
  const PRICE := FieldDefinition("price", Primitive(Decimal(10, 2)), true, false, [MinDecimal(0.001)])

  /** The least valid price is accepted, stored as nothing, and then not valid. */
  lemma LeastPriceIsLost(rules: Rules)
    ensures FieldValid(rules, PRICE, OfDecimal(0.001))
    ensures Through(OfDecimal(0.001), PRICE.fieldType) == Ok(OfDecimal(0.0))
    ensures !FieldValid(rules, PRICE, OfDecimal(0.0))
    ensures !Survives(rules, PRICE)
  {
    assert PRICE.constraints[0] in PRICE.constraints;
    DecimalValid(rules, PRICE, 0.001);
    DecimalValid(rules, PRICE, 0.0);
    hide FieldValid, Through;
    ThroughRounds(0.001, PRICE.fieldType);
    PriceUnits();
    assert !ReadsBackValid(rules, PRICE, OfDecimal(0.001));
  }

  lemma PriceUnits()
    ensures Rounded(0.001, PRICE.fieldType) == Some(0.0)
  {
    assert Pow10(2) == 10 * Pow10(1) && Pow10(1) == 10 * Pow10(0);
    assert Pow10(2) == 100;
    assert Scaled(0.001, 100.0) == 0.1;
    assert Round(0.1) == 0;
  }
}
