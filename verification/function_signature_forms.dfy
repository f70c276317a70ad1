/** The forms that the program gives to its functions, and the arities that they accept. */
module SignatureForms {
  import opened Wrappers
  import opened FunctionSignature

  /** genSpec: a call shape; maxArity -1 is no upper limit, and then the last sort repeats. */
  datatype CallShape = CallShape(minArity: nat, maxArity: int, sorts: seq<Sort>)

  /** What the registry demands of a shape; without sorts no position has one. */
  predicate IsShape(shape: CallShape) {
    && (shape.maxArity == -1 || shape.maxArity >= shape.minArity)
    && (shape.sorts == [] ==> shape.maxArity == 0)
  }

  function FixedForm(sorts: seq<Sort>): Form {
    Form(sorts, [], [], 0, 0)
  }

  function Repeated(group: seq<Sort>): Form {
    Form([], group, [], 0, -1)
  }

  /** The sorts of the first n positions; the last one goes on. */
  function Positions(sorts: seq<Sort>, n: nat): (r: seq<Sort>)
    requires sorts != [] || n == 0
    ensures |r| == n
  {
    seq(n, p requires 0 <= p < n => if p < |sorts| then sorts[p] else sorts[|sorts| - 1])
  }

  function FixedForms(shape: CallShape, n: nat): seq<Form>
    requires shape.sorts != [] || shape.minArity + n <= 1
  {
    if n == 0 then [] else FixedForms(shape, n - 1) + [FixedForm(Positions(shape.sorts, shape.minArity + n - 1))]
  }

  function ShapeForms(shape: CallShape): seq<Form>
    requires IsShape(shape)
  {
    if shape.maxArity == -1 then
      var last := |shape.sorts| - 1;
      [Form(shape.sorts[..last], [shape.sorts[last]], [], shape.minArity - last, -1)]
    else FixedForms(shape, shape.maxArity - shape.minArity + 1)
  }

  /** signatureFromGenSpec */
  method SignatureFromGenSpec(shape: CallShape) returns (forms: seq<Form>)
    requires IsShape(shape)
    ensures forms == ShapeForms(shape)
  {
    if shape.maxArity == -1 {
      var last := shape.sorts[|shape.sorts| - 1];
      var prefix := shape.sorts[..|shape.sorts| - 1];
      var minRepeats := shape.minArity - |prefix|;
      return [Form(prefix, [last], [], minRepeats, -1)];
    }
    forms := [];
    for arity := shape.minArity to shape.maxArity + 1
      invariant forms == FixedForms(shape, arity - shape.minArity)
    {
      var sorts := [];
      for position := 0 to arity
        invariant |sorts| == position
        invariant forall p :: 0 <= p < position ==> sorts[p] == Positions(shape.sorts, arity)[p]
      {
        var sortIndex := position;
        if sortIndex >= |shape.sorts| {
          sortIndex := |shape.sorts| - 1;
        }
        sorts := sorts + [shape.sorts[sortIndex]];
      }
      assert sorts == Positions(shape.sorts, arity);
      forms := forms + [FixedForm(sorts)];
    }
  }

  /** The names of date shifts, addDays and its kin. */
  const TEMPORAL_SHIFTS: set<string> := {
    "adddays", "subtractdays", "addweeks", "subtractweeks", "addmonths", "subtractmonths",
    "addquarters", "subtractquarters", "addyears", "subtractyears", "addhours", "subtracthours",
    "addminutes", "subtractminutes", "addseconds", "subtractseconds"
  }

  /** applyFunctionSignatureOverride: the argument forms of the functions that a shape does not fit. */
  function OverriddenForms(name: string, forms: seq<Form>): seq<Form> {
    if name in TEMPORAL_SHIFTS then [FixedForm([Value, Offset])]
    else if name in {"array", "tuple", "cityhash64", "concat", "rank", "dense_rank", "row_number"} then
      [Repeated([Value])]
    else if name == "map" then [Repeated([Value, Value])]
    else if name == "count" then [FixedForm([]), FixedForm([Value])]
    else if name in {"laginframe", "leadinframe"} then
      [FixedForm([Value]), FixedForm([Value, ConstInt]), FixedForm([Value, ConstInt, Value])]
    else if name == "now" then [FixedForm([]), FixedForm([ConstString])]
    else if name == "today" then [FixedForm([])]
    else if name == "now64" then [FixedForm([]), FixedForm([ConstInt]), FixedForm([ConstInt, ConstString])]
    else if name in {"datediff", "date_diff"} then forms + [FixedForm([ConstString, Value, Value, ConstString])]
    else if name == "arraysort" then [FixedForm([Value]), FixedForm([Lambda, Value])]
    else if name == "tostartofinterval" then [FixedForm([Value, Interval])]
    else if name == "substring" then [FixedForm([Value, Offset]), FixedForm([Value, Offset, Offset])]
    else if name == "arrayslice" then [FixedForm([Value, Index]), FixedForm([Value, Index, Index])]
    else if name == "arrayresize" then [FixedForm([Value, Number]), FixedForm([Value, Number, Value])]
    else if name == "arrayelement" then [FixedForm([Value, Index])]
    else if name in {"arraystringconcat", "todatetime", "tostartofday", "tostartofhour", "tostartofminute"} then
      [FixedForm([Value]), FixedForm([Value, ConstString])]
    else if name == "todatetime64" then [FixedForm([Value, ConstInt]), FixedForm([Value, ConstInt, ConstString])]
    else if name in {"todatetime64ornull", "todatetime64orzero"} then
      [FixedForm([Value]), FixedForm([Value, ConstInt]), FixedForm([Value, ConstInt, ConstString])]
    else forms
  }

  // ----- what a shape accepts -----

  lemma FixedAccepts(sorts: seq<Sort>, a: int)
    ensures Accepts(FixedForm(sorts), a) <==> a == |sorts|
    ensures IsValid(FixedForm(sorts)) && IsPlain(FixedForm(sorts))
  {
    assert a == |sorts| ==> AcceptsBy(FixedForm(sorts), a, 0);
  }

  lemma {:induction false} FixedFormsAccept(shape: CallShape, n: nat, a: int)
    requires shape.sorts != [] || shape.minArity + n <= 1
    ensures Accepted(FixedForms(shape, n), a) <==> shape.minArity <= a < shape.minArity + n
    ensures AllValid(FixedForms(shape, n)) && AllPlain(FixedForms(shape, n))
  {
    hide Accepts, IsValid, IsPlain, FixedForm, Positions;
    if n > 0 {
      FixedFormsAccept(shape, n - 1, a);
      var before, last := FixedForms(shape, n - 1), Positions(shape.sorts, shape.minArity + n - 1);
      FixedAccepts(last, a);
      AcceptedAppend(before, FixedForm(last), a);
    }
  }

  lemma AcceptedAppend(forms: seq<Form>, f: Form, a: int)
    ensures Accepted(forms + [f], a) <==> Accepted(forms, a) || Accepts(f, a)
  {
    hide Accepts;
    var all := forms + [f];
    if Accepted(forms, a) {
      var k :| 0 <= k < |forms| && Accepts(forms[k], a);
      assert Accepts(all[k], a);
    }
    if Accepts(f, a) {
      assert Accepts(all[|forms|], a);
    }
    if Accepted(all, a) {
      var k :| 0 <= k < |all| && Accepts(all[k], a);
      assert k < |forms| ==> Accepts(forms[k], a);
    }
  }

  predicate AllPlain(forms: seq<Form>) {
    forall k :: 0 <= k < |forms| ==> IsPlain(forms[k])
  }

  /** A shape accepts exactly the arities of its range, once its repetition limit is valid. */
  lemma ShapeAccepts(shape: CallShape, a: int)
    requires IsShape(shape) && AllValid(ShapeForms(shape))
    ensures Accepted(ShapeForms(shape), a) <==> shape.minArity <= a && (shape.maxArity == -1 || a <= shape.maxArity)
  {
    if shape.maxArity == -1 {
      var f := ShapeForms(shape)[0];
      assert IsValid(f);
      var n := a - |f.prefix|;
      assert n >= f.minRepeats ==> AcceptsBy(f, a, n);
      assert Accepted(ShapeForms(shape), a) <==> Accepts(f, a);
    } else {
      FixedFormsAccept(shape, shape.maxArity - shape.minArity + 1, a);
    }
  }

  lemma ShapeIsPlain(shape: CallShape)
    requires IsShape(shape)
    ensures AllPlain(ShapeForms(shape))
  {
    hide FixedForms;
    if shape.maxArity != -1 {
      FixedFormsAccept(shape, shape.maxArity - shape.minArity + 1, 0);
    }
  }

  lemma OverriddenIsPlain(name: string, forms: seq<Form>)
    requires AllPlain(forms)
    ensures AllPlain(OverriddenForms(name, forms))
  {
    hide TEMPORAL_SHIFTS;
  }

  /** Main result: for every registered function, each arity that a probe expects to be refused is refused. */
  lemma BoundaryOfFunctionIsRefused(name: string, shape: CallShape, low: int, top: int, a: int)
    requires IsShape(shape) && AllValid(OverriddenForms(name, ShapeForms(shape)))
    requires var forms := OverriddenForms(name, ShapeForms(shape));
             IsLeast(low, Representatives(forms)) && IsTop(forms, top) && IsBoundary(forms, low, top, a)
    ensures !Accepted(OverriddenForms(name, ShapeForms(shape)), a)
  {
    hide OverriddenForms, ShapeForms, IsLeast, IsTop, IsBoundary, Accepted, AllValid;
    ShapeIsPlain(shape);
    OverriddenIsPlain(name, ShapeForms(shape));
    PlainBoundaryIsRefused(OverriddenForms(name, ShapeForms(shape)), low, top, a);
  }
}
