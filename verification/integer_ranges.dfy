/** Whether the exact value of an integer expression fits the type inferred for it. */
module IntegerRanges {
  import opened Wrappers
  import opened ChTypes
  import opened Arithmetic

  /** Half the number of values of an integer of this size. */
  function Half(size: Size): (h: int)
    ensures h >= 128
  {
    match size
    case 1 => 0x80
    case 2 => 0x8000
    case 4 => 0x8000_0000
    case 8 => 0x8000_0000_0000_0000
    case 16 => 0x8000_0000_0000_0000_0000_0000_0000_0000
    case _ => 0x8000_0000_0000_0000_0000_0000_0000_0000_0000_0000_0000_0000_0000_0000_0000_0000
  }

  function Lowest(c: IntegerClass): int {
    if c.signed then -Half(c.size) else 0
  }

  function Highest(c: IntegerClass): int {
    if c.signed then Half(c.size) - 1 else 2 * Half(c.size) - 1
  }

  predicate InRange(v: int, c: IntegerClass) {
    Lowest(c) <= v <= Highest(c)
  }

  /** The remainder with the sign of the dividend. */
  function Remainder(a: int, b: int): int
    requires b != 0
  {
    var m := (if a < 0 then -a else a) % (if b < 0 then -b else b);
    if a < 0 then -m else m
  }

  function Exact(op: Operator, a: int, b: int): int
    requires op != Div && (op == Mod ==> b != 0)
  {
    match op
    case Add => a + b
    case Sub => a - b
    case Mul => a * b
    case Mod => Remainder(a, b)
  }

  /** The operands whose results always fit, decided from the two types alone. */
  predicate Fits(op: Operator, l: IntegerClass, r: IntegerClass) {
    if op == Mod then !(l.signed && !r.signed && r.size >= 8 && l.size > r.size)
    else l.size <= 4 && r.size <= 4
  }

  predicate Holds(op: Operator, l: IntegerClass, r: IntegerClass, a: int, b: int)
    requires op != Div
  {
    InRange(a, l) && InRange(b, r) && (op == Mod ==> b != 0) ==>
      InRange(Exact(op, a, b), IntegerResult(op, l, r))
  }

  // ----- sizes -----

  lemma SmallSizes(size: Size)
    requires size <= 4
    ensures 2 * Half(size) * Half(size) == Half(Promoted(size)) && Promoted(size) <= 8
    ensures 4 * Half(size) <= Half(Promoted(size))
  {
  }

  lemma HalfGrows(a: Size, b: Size)
    requires a <= b
    ensures Half(a) <= Half(b)
    ensures a < b ==> 4 * Half(a) <= Half(b)
  {
  }

  lemma Product(a: int, b: int, m: int, n: int)
    requires -m <= a <= m && -n <= b <= n
    ensures -(m * n) <= a * b <= m * n
  {
    assert (m - a) * (n + b) >= 0 && (m + a) * (n - b) >= 0;
    assert (m - a) * (n - b) >= 0 && (m + a) * (n + b) >= 0;
  }

  lemma ProductOf(a: int, b: int)
    requires a >= 0 && b >= 0
    ensures a * b >= 0
  {
  }

  // ----- +, - and * of small operands -----

  lemma SumsFit(op: Operator, l: IntegerClass, r: IntegerClass, a: int, b: int)
    requires op in {Add, Sub} && Fits(op, l, r) && InRange(a, l) && InRange(b, r)
    ensures InRange(Exact(op, a, b), IntegerResult(op, l, r))
  {
    var size := LargerSize(l.size, r.size);
    SmallSizes(size);
    HalfGrows(l.size, size);
    HalfGrows(r.size, size);
    hide Half, Promoted;
  }

  lemma ProductsFit(l: IntegerClass, r: IntegerClass, a: int, b: int)
    requires Fits(Mul, l, r) && InRange(a, l) && InRange(b, r)
    ensures InRange(a * b, IntegerResult(Mul, l, r))
  {
    var size := LargerSize(l.size, r.size);
    SmallSizes(size);
    HalfGrows(l.size, size);
    HalfGrows(r.size, size);
    hide Half, Promoted;
    var h := Half(size);
    if !l.signed && !r.signed {
      ProductOf(a, b);
      Product(a, b, 2 * h, 2 * h);
      UnsignedSquare(a, b, h);
    } else if !r.signed {
      SignedProduct(a, b, h);
    } else if !l.signed {
      SignedProduct(b, a, h);
    } else {
      SignedProduct(a, if b < 0 then -b else b, h);
      assert b < 0 ==> a * b == -(a * -b);
    }
  }

  lemma UnsignedSquare(a: int, b: int, h: int)
    requires 0 <= a <= 2 * h - 1 && 0 <= b <= 2 * h - 1
    ensures a * b <= 2 * (2 * h * h) - 1
  {
    Product(a, b, 2 * h - 1, 2 * h - 1);
    assert (2 * h - 1) * (2 * h - 1) == 2 * (2 * h * h) - 4 * h + 1;
  }

  /** One factor below h in magnitude, the other below 2h. */
  lemma SignedProduct(a: int, b: int, h: int)
    requires -h <= a <= h && 0 <= b <= 2 * h - 1 && h >= 1
    ensures -(2 * h * h) < a * b < 2 * h * h
  {
    Product(a, b, h, 2 * h - 1);
    assert h * (2 * h - 1) == 2 * h * h - h;
  }

  // ----- % -----

  lemma RemainderBounds(a: int, b: int)
    requires b != 0
    ensures var (m, n) := (Remainder(a, b), if b < 0 then -b else b);
            && -n < m < n
            && (a >= 0 ==> 0 <= m <= a) && (a < 0 ==> a <= m <= 0)
  {
    var n := if b < 0 then -b else b;
    var x := if a < 0 then -a else a;
    SmallRemainder(x, n);
  }

  lemma SmallRemainder(x: int, n: int)
    requires x >= 0 && n > 0
    ensures 0 <= x % n < n && x % n <= x
  {
    if x < n {
      assert x % n == x;
    }
  }

  lemma RemaindersFit(l: IntegerClass, r: IntegerClass, a: int, b: int)
    requires Fits(Mod, l, r) && InRange(a, l) && InRange(b, r) && b != 0
    ensures InRange(Remainder(a, b), IntegerResult(Mod, l, r))
  {
    RemainderBounds(a, b);
    PromotedGrows(r.size);
    if l.size <= r.size {
      HalfGrows(l.size, r.size);
    }
    hide Half, Promoted, Remainder;
  }

  lemma PromotedGrows(size: Size)
    ensures Half(size) <= Half(Promoted(size))
    ensures size < 8 ==> 4 * Half(size) <= Half(Promoted(size))
    ensures size >= 8 ==> Promoted(size) == size
  {
  }

  // ----- operands that overflow -----

  /** Two operands in range whose exact result is not. */
  function Witness(op: Operator, l: IntegerClass, r: IntegerClass): (w: (int, int)) {
    match op
    case Sub => if r.signed || (!l.signed && l.size >= r.size) then (Highest(l), Lowest(r)) else (Lowest(l), Highest(r))
    case Mod => (Highest(r) - 1, Highest(r))
    case _ => (Highest(l), Highest(r))
  }

  lemma WideOverflows(op: Operator, l: IntegerClass, r: IntegerClass)
    requires op != Div && !Fits(op, l, r)
    ensures var w := Witness(op, l, r); !Holds(op, l, r, w.0, w.1)
  {
    if op == Mod {
      WideRemainder(l, r);
    } else {
      var size := LargerSize(l.size, r.size);
      PromotedGrows(size);
      hide Half, Promoted;
      if op == Mul {
        WideProduct(l, r);
      } else if op == Sub {
        WideDifference(l, r);
      }
    }
  }

  lemma WideRemainder(l: IntegerClass, r: IntegerClass)
    requires !Fits(Mod, l, r)
    ensures !Holds(Mod, l, r, Highest(r) - 1, Highest(r))
  {
    HalfGrows(r.size, l.size);
    PromotedGrows(r.size);
    hide Half, Promoted;
    var n := Highest(r);
    assert (n - 1) % n == n - 1;
  }

  lemma WideDifference(l: IntegerClass, r: IntegerClass)
    requires !Fits(Sub, l, r)
    ensures var w := Witness(Sub, l, r); !Holds(Sub, l, r, w.0, w.1)
  {
    var size := LargerSize(l.size, r.size);
    PromotedGrows(size);
    hide Half, Promoted;
  }

  lemma WideProduct(l: IntegerClass, r: IntegerClass)
    requires !Fits(Mul, l, r)
    ensures !Holds(Mul, l, r, Highest(l), Highest(r))
  {
    var size := LargerSize(l.size, r.size);
    PromotedGrows(size);
    hide Half, Promoted;
    var (x, y) := (Highest(l), Highest(r));
    if l.size == size {
      Grows(x, y);
    } else {
      Grows(y, x);
      assert x * y == y * x;
    }
  }

  /** A factor of at least 127 leaves no room. */
  lemma Grows(x: int, y: int)
    requires x >= 127 && y >= 127
    ensures x * y > 2 * x + 1 && x * y >= 127 * x
  {
    ProductOf(x, y - 127);
    Distributes(x, y - 127, 127);
  }

  lemma Distributes(x: int, y: int, z: int)
    ensures x * (y + z) == x * y + x * z
  {
  }

  /** Main result: a node can leave the range of its type exactly when its types are too wide. */
  lemma NodeFitsIff(op: Operator, l: IntegerClass, r: IntegerClass)
    requires op != Div
    ensures Fits(op, l, r) <==> forall a, b :: Holds(op, l, r, a, b)
  {
    hide Holds;
    if Fits(op, l, r) {
      forall a, b ensures Holds(op, l, r, a, b) {
        NodeFits(op, l, r, a, b);
      }
    } else {
      WideOverflows(op, l, r);
    }
  }

  lemma NodeFits(op: Operator, l: IntegerClass, r: IntegerClass, a: int, b: int)
    requires op != Div && Fits(op, l, r)
    ensures Holds(op, l, r, a, b)
  {
    hide InRange, IntegerResult;
    if InRange(a, l) && InRange(b, r) && (op == Mod ==> b != 0) {
      match op
      case Mod => RemaindersFit(l, r, a, b);
      case Mul => ProductsFit(l, r, a, b);
      case _ => SumsFit(op, l, r, a, b);
    }
  }

  // ----- literals -----

  /** integerLiteralCHType on an integer spelling: its sign mark and its digits as a number. */
  function LiteralClass(negative: bool, magnitude: nat): Option<IntegerClass> {
    if negative then
      if magnitude <= Half(1) then Some(IntegerClass(true, 1))
      else if magnitude <= Half(2) then Some(IntegerClass(true, 2))
      else if magnitude <= Half(4) then Some(IntegerClass(true, 4))
      else if magnitude <= Half(8) then Some(IntegerClass(true, 8))
      else None
    else if magnitude < 2 * Half(1) then Some(IntegerClass(false, 1))
    else if magnitude < 2 * Half(2) then Some(IntegerClass(false, 2))
    else if magnitude < 2 * Half(4) then Some(IntegerClass(false, 4))
    else if magnitude < 2 * Half(8) then Some(IntegerClass(false, 8))
    else None
  }

  function LiteralValue(negative: bool, magnitude: nat): int {
    if negative then 0 - magnitude else magnitude
  }

  /** A literal takes the smallest type of its sign that holds it. */
  lemma LiteralIsSmallest(negative: bool, magnitude: nat, size: Size)
    requires LiteralClass(negative, magnitude).Some?
    ensures var c := LiteralClass(negative, magnitude).value;
            && c.signed == negative && InRange(LiteralValue(negative, magnitude), c)
            && (InRange(LiteralValue(negative, magnitude), IntegerClass(negative, size)) ==> c.size <= size)
  {
  }

  // ----- expression trees -----

  datatype Tree = Literal(negative: bool, magnitude: nat) | Column(of: CHType, value: int) | Node(op: Operator, left: Tree, right: Tree)

  /** The type inferred for a tree: a literal leaf is typed by its value. */
  function TypeOf(e: Tree): Option<CHType> {
    match e
    case Literal(negative, magnitude) =>
      var c := LiteralClass(negative, magnitude);
      if c.None? then None else Some(TypeOfClass(c.value))
    case Column(t, _) => Some(t)
    case Node(op, left, right) =>
      var l, r := TypeOf(left), TypeOf(right);
      if l.None? || r.None? then None else ResultType(op, l.value, r.value)
  }

  /** The exact value of a tree; None where it divides by zero. */
  function ValueOf(e: Tree): Option<int> {
    match e
    case Literal(negative, magnitude) => Some(LiteralValue(negative, magnitude))
    case Column(_, value) => Some(value)
    case Node(op, left, right) =>
      var a, b := ValueOf(left), ValueOf(right);
      if op == Div || a.None? || b.None? || (op == Mod && b.value == 0) then None
      else Some(Exact(op, a.value, b.value))
  }

  /** Columns hold values of their types, and every node passes the test on its types. */
  predicate Narrow(e: Tree) {
    match e
    case Literal(_, _) => true
    case Column(t, value) => ClassOf(t).Some? && InRange(value, ClassOf(t).value)
    case Node(op, left, right) =>
      && Narrow(left) && Narrow(right)
      && (TypeOf(left).Some? && TypeOf(right).Some? ==>
            var l, r := ClassOf(TypeOf(left).value), ClassOf(TypeOf(right).value);
            l.Some? && r.Some? ==> Fits(op, l.value, r.value))
  }

  lemma ClassOfType(c: IntegerClass)
    ensures ClassOf(TypeOfClass(c)) == Some(c)
  {
  }

  lemma IntegerResultType(op: Operator, left: CHType, right: CHType)
    requires op != Div && ClassOf(left).Some? && ClassOf(right).Some?
    ensures ResultType(op, left, right) ==
            Some(TypeOfClass(IntegerResult(op, ClassOf(left).value, ClassOf(right).value)))
  {
    hide IntegerResult, TypeOfClass;
  }

  /** Main result: the exact value of a tree lies in the range of its inferred type. */
  lemma {:induction false} TreeFits(e: Tree)
    requires Narrow(e) && TypeOf(e).Some? && ValueOf(e).Some?
    ensures ClassOf(TypeOf(e).value).Some?
    ensures InRange(ValueOf(e).value, ClassOf(TypeOf(e).value).value)
  {
    match e
    case Literal(negative, magnitude) =>
      LiteralIsSmallest(negative, magnitude, 1);
      ClassOfType(LiteralClass(negative, magnitude).value);
    case Column(_, _) =>
    case Node(op, left, right) =>
      TreeFits(left);
      TreeFits(right);
      var l, r := ClassOf(TypeOf(left).value).value, ClassOf(TypeOf(right).value).value;
      IntegerResultType(op, TypeOf(left).value, TypeOf(right).value);
      ClassOfType(IntegerResult(op, l, r));
      NodeFits(op, l, r, ValueOf(left).value, ValueOf(right).value);
      hide ResultType, IntegerResult, InRange, Exact, ClassOf, TypeOfClass, Fits;
  }
}
