/**
 The measured table of comparable scalars, by families of types, and the two verdicts that do
 not depend on it.
 */
module ComparisonTable {
  import opened ChTypes
  import opened Comparison
  import opened ComparisonProofs

  datatype Family =
    | NumberFamily | DecimalFamily | EnumFamily | TextFamily | DayFamily | SecondFamily | FractionFamily
    | SpanFamily | UuidFamily | AddressFamily

  /** The families that one family compares with. */
  function Partners(f: Family): set<Family> {
    match f
    case NumberFamily => {NumberFamily, DecimalFamily, EnumFamily, SecondFamily, FractionFamily, SpanFamily}
    case DecimalFamily => {NumberFamily, DecimalFamily, FractionFamily}
    case EnumFamily => {NumberFamily, EnumFamily, TextFamily, SecondFamily, FractionFamily, SpanFamily}
    case TextFamily => {TextFamily, EnumFamily}
    case DayFamily => {DayFamily, SecondFamily, FractionFamily}
    case SecondFamily => {NumberFamily, EnumFamily, DayFamily, SecondFamily, FractionFamily, SpanFamily}
    case FractionFamily => {NumberFamily, DecimalFamily, EnumFamily, DayFamily, SecondFamily, FractionFamily}
    case SpanFamily => {NumberFamily, EnumFamily, SecondFamily, SpanFamily}
    case UuidFamily => {UuidFamily}
    case AddressFamily => {AddressFamily}
  }

  predicate InFamily(k: Kind, f: Family) {
    match f
    case NumberFamily => k.UInt? || k.Int? || k.Float32? || k.Float64? || k.Bool?
    case DecimalFamily => k.Decimal? || k.SizedDecimal?
    case EnumFamily => k.Enum?
    case TextFamily => k.String? || k.FixedString?
    case DayFamily => k.Date? || k.Date32?
    case SecondFamily => k.DateTime?
    case FractionFamily => k.DateTime64?
    case SpanFamily => k.Interval?
    case UuidFamily => k.UUID?
    case AddressFamily => k.IPv4? || k.IPv6?
  }

  lemma TableIsSymmetric(f: Family, g: Family)
    ensures g in Partners(f) <==> f in Partners(g)
  {
  }

  lemma ScalarIsItself(t: CHType, f: Family)
    requires InFamily(t.kind, f)
    ensures Structural(t).kind == t.kind && Structural(t).literals == t.literals
    ensures SplitWrappers(Structural(t)).base == Structural(t) && !IsMarker(Structural(t))
  {
  }

  lemma RefusalsAre(l: CHType, r: CHType, f: Family, g: Family)
    requires InFamily(l.kind, f) && InFamily(r.kind, g)
    ensures RefusedPair(l, r) <==>
            || (f.SpanFamily? && g in {DayFamily, FractionFamily, DecimalFamily})
            || (g.SpanFamily? && f in {DayFamily, FractionFamily, DecimalFamily})
    ensures RefusedScalarPair(l, r) <==>
            (f in {SecondFamily, EnumFamily} && g.DecimalFamily?) || (g in {SecondFamily, EnumFamily} && f.DecimalFamily?)
  {
  }

  lemma ClassesAre(t: CHType, f: Family)
    requires InFamily(t.kind, f)
    ensures Numeric in ClassesOf(t) <==>
            f in {NumberFamily, DecimalFamily, EnumFamily, SecondFamily, FractionFamily, SpanFamily}
    ensures StringLike in ClassesOf(t) <==> f in {EnumFamily, TextFamily}
    ensures Temporal in ClassesOf(t) <==> f in {DayFamily, SecondFamily, FractionFamily}
    ensures Uuid in ClassesOf(t) <==> f.UuidFamily?
    ensures Ip in ClassesOf(t) <==> f.AddressFamily?
    ensures ClassesOf(t) <= {Numeric, StringLike, Temporal, Uuid, Ip}
  {
  }

  lemma ClassesMeet(l: CHType, r: CHType, f: Family, g: Family)
    requires InFamily(l.kind, f) && InFamily(r.kind, g)
    ensures ClassesOf(l) != {} && ClassesOf(r) != {}
    ensures ClassesOf(l) !! ClassesOf(r) <==>
            !exists c :: c in [Numeric, StringLike, Temporal, Uuid, Ip] && c in ClassesOf(l) && c in ClassesOf(r)
  {
    ClassesAre(l, f);
    ClassesAre(r, g);
    hide ClassesOf, InFamily;
  }

  lemma ScalarKinds(t: CHType, f: Family)
    requires InFamily(t.kind, f)
    ensures t.kind !in {JSON, Variant, Array, Tuple, Map}
  {
  }

  lemma ScalarStep(l: CHType, r: CHType, f: Family, g: Family)
    requires InFamily(l.kind, f) && InFamily(r.kind, g)
    ensures StepOf(l, r) == Decided(g in Partners(f))
  {
    RefusalsAre(l, r, f, g);
    ClassesAre(l, f);
    ClassesAre(r, g);
    ClassesMeet(l, r, f, g);
    ScalarKinds(l, f);
    ScalarKinds(r, g);
    hide Known, ClassesOf, InFamily, RefusedPair, RefusedScalarPair;
  }

  lemma ScalarIsKnown(t: CHType, f: Family)
    requires InFamily(t.kind, f)
    ensures Known(t)
  {
    ScalarIsItself(t, f);
    ScalarKinds(Structural(t), f);
    ClassesMeet(Structural(t), Structural(t), f, f);
    hide Structural, SplitWrappers, Weight, ClassesOf, InFamily;
  }

  /** Main result: a pair of scalars is confirmed exactly when the table lists their families. */
  lemma ScalarsCompareIff(common: (CHType, CHType) -> bool, l: CHType, r: CHType, f: Family, g: Family)
    requires InFamily(l.kind, f) && InFamily(r.kind, g)
    ensures VerdictOf(common, l, r) == if g in Partners(f) then Confirmed else Invalid
    ensures Comparable(common, l, r) <==> g in Partners(f)
  {
    ScalarIsItself(l, f);
    ScalarIsItself(r, g);
    ScalarIsKnown(l, f);
    ScalarIsKnown(r, g);
    ScalarStep(Structural(l), Structural(r), f, g);
    NotState(l.kind, f);
    NotState(r.kind, g);
    hide Known, Structural, StepOf, Partners, InFamily, Weight;
    DecidedCompares(common, l, r);
  }

  lemma NotState(k: Kind, f: Family)
    requires InFamily(k, f)
    ensures k != AggregateFunction && k != Named("")
  {
  }

  /** A state is refused against every type, also against one that no measurement covers. */
  lemma StateIsInvalid(common: (CHType, CHType) -> bool, state: CHType, t: CHType)
    requires state.kind == AggregateFunction
    ensures VerdictOf(common, state, t) == Invalid && VerdictOf(common, t, state) == Invalid
  {
  }

  /** A type without a name compares with everything. */
  lemma UnnamedCompares(common: (CHType, CHType) -> bool, unnamed: CHType, t: CHType)
    requires unnamed.kind == Named("")
    ensures Comparable(common, unnamed, t) && Comparable(common, t, unnamed)
  {
  }

  /** A container is covered by measurements exactly when all its members are. */
  lemma ContainerIsKnownIff(t: CHType)
    requires t.kind in {Array, Tuple, Map, Variant}
    ensures Known(t) <==> forall i :: 0 <= i < |t.params| ==> Known(t.params[i])
  {
    ContainerReads(t);
    ParamsAre(t);
    var members := StructuralAll(t.params);
    AllKnownIs(Structural(t));
    hide *;
    forall i | 0 <= i < |t.params| ensures Known(members[i]) == Known(t.params[i]) {
      StructuralKnown(t.params[i]);
    }
  }

  lemma ContainerIsItself(t: CHType)
    requires t.kind in {Array, Tuple, Map, Variant}
    ensures SplitWrappers(Structural(t)).base == Structural(t) && !IsMarker(Structural(t))
    ensures Structural(t).kind == t.kind && ClassesOf(Structural(t)) != {}
  {
  }

  lemma ContainerReads(t: CHType)
    requires t.kind in {Array, Tuple, Map, Variant}
    ensures Known(t) <==> AllKnown(Structural(t))
  {
    ContainerIsItself(t);
    hide Structural, Weight, AllKnown, SplitWrappers, ClassesOf, IsMarker;
  }

  lemma ParamsAre(t: CHType)
    requires !IsGeometry(t.kind)
    ensures Structural(t).params == StructuralAll(t.params)
  {
    hide StructuralAll;
  }

  lemma AllKnownIs(t: CHType)
    ensures AllKnown(t) <==> forall i :: 0 <= i < |t.params| ==> Known(t.params[i])
  {
    hide Known;
  }

  /** A marker is as covered as the type that it marks, and a state and Dynamic always are. */
  lemma OthersAreKnownIff(t: CHType)
    ensures t.kind == Dynamic || t.kind == AggregateFunction || t.kind == JSON ==> Known(t)
    ensures IsMarker(t) ==> (Known(t) <==> Known(t.params[1]))
    ensures t.kind.Named? ==> !Known(t)
  {
    if IsMarker(t) {
      MarkerReads(t);
    } else {
      OtherReads(t);
    }
  }

  lemma OtherReads(t: CHType)
    ensures t.kind == Dynamic || t.kind == AggregateFunction || t.kind == JSON ==> Known(t)
    ensures t.kind.Named? ==> !Known(t)
  {
    if t.kind in {Dynamic, AggregateFunction, JSON} || t.kind.Named? {
      OtherIsItself(t);
    }
    hide Weight, Structural, SplitWrappers, AllKnown;
  }

  lemma OtherIsItself(t: CHType)
    requires t.kind in {Dynamic, AggregateFunction, JSON} || t.kind.Named?
    ensures SplitWrappers(Structural(t)).base == Structural(t) && Structural(t).kind == t.kind
  {
    hide StructuralAll;
  }

  lemma MarkerReads(t: CHType)
    requires IsMarker(t)
    ensures Known(t) <==> Known(t.params[1])
  {
    MarkerIsItself(t);
    var inner := t.params[1];
    StructuralKnown(inner);
    hide Structural, Weight, SplitWrappers, ClassesOf, AllKnown;
  }

  lemma MarkerIsItself(t: CHType)
    requires IsMarker(t)
    ensures SplitWrappers(Structural(t)).base == Structural(t) && IsMarker(Structural(t))
    ensures Structural(t).params[1] == Structural(t.params[1])
  {
    ParamsAre(t);
    hide StructuralAll;
  }
}
