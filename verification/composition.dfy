/**
 Finite query composition: the numbering of variants, and the switch that the
 generated code uses to pick one.

 A variant number holds one bit per option, and above them one digit per table choice
 in the radix of its table count.
 */
module Composition {
  import opened Division
  import opened Wrappers

  datatype TableChoice = TableChoice(name: string, tables: seq<string>)

  const LIMIT: nat := 32

  function Pow2(n: nat): (p: nat)
    ensures p >= 1
  {
    if n == 0 then 1 else 2 * Pow2(n - 1)
  }

  /** Number of table combinations; 0 when a choice has no table. */
  function Combinations(tables: seq<TableChoice>): nat {
    if tables == [] then 1 else |tables[0].tables| * Combinations(tables[1..])
  }

  function Names(tables: seq<TableChoice>): (names: seq<string>)
    ensures |names| == |tables|
    ensures forall k :: 0 <= k < |tables| ==> names[k] == tables[k].name
  {
    seq(|tables|, k requires 0 <= k < |tables| => tables[k].name)
  }

  predicate Distinct<T(==)>(s: seq<T>) {
    forall i, j :: 0 <= i < j < |s| ==> s[i] != s[j]
  }

  /** Choice names differ from each other and from every option. */
  predicate FreshNames(options: seq<string>, tables: seq<TableChoice>) {
    && Distinct(Names(tables))
    && forall k :: 0 <= k < |tables| ==> tables[k].name !in options
  }

  /** What the source admits: at most 32 variants, all of them nameable. */
  predicate Admissible(options: seq<string>, tables: seq<TableChoice>) {
    && |options| <= 5 && FreshNames(options, tables)
    && 0 < Combinations(tables) && Pow2(|options|) * Combinations(tables) <= LIMIT
  }

  function Count(options: seq<string>, tables: seq<TableChoice>): nat {
    Pow2(|options|) * Combinations(tables)
  }

  lemma {:induction false} CombinationsSplit(a: seq<TableChoice>, b: seq<TableChoice>)
    ensures Combinations(a + b) == Combinations(a) * Combinations(b)
  {
    if a == [] {
      assert a + b == b;
    } else {
      assert (a + b)[1..] == a[1..] + b;
      CombinationsSplit(a[1..], b);
      var n, x, y := |a[0].tables|, Combinations(a[1..]), Combinations(b);
      assert n * (x * y) == (n * x) * y;
    }
  }

  lemma {:induction false} PowGrows(a: nat, b: nat)
    requires a <= b
    ensures Pow2(a) <= Pow2(b)
    decreases b
  {
    if a < b {
      PowGrows(a, b - 1);
    }
  }

  method CompositionVariantCount(options: seq<string>, tables: seq<TableChoice>) returns (count: Option<nat>)
    ensures count == if Admissible(options, tables) then Some(Count(options, tables)) else None
  {
    if |options| > 5 {
      return None;
    }
    var n := Pow2(|options|);
    var names := options;
    PowGrows(|options|, 5);
    assert Pow2(5) == 2 * Pow2(4) == 4 * Pow2(3) == 32;
    var k := 0;
    while k < |tables|
      invariant k <= |tables|
      invariant names == options + Names(tables)[..k]
      invariant n == Pow2(|options|) * Combinations(tables[..k]) && 0 < n <= LIMIT
      invariant FreshNames(options, tables[..k])
    {
      var choice := tables[k];
      if choice.name in names {
        TakenName(options, tables, k);
        return None;
      }
      NextCount(options, tables, k);
      if |choice.tables| == 0 || n > LIMIT / |choice.tables| {
        return None;
      }
      NextName(options, tables, k);
      names := names + [choice.name];
      n := n * |choice.tables|;
      k := k + 1;
    }
    assert tables[..k] == tables;
    return Some(n);
  }

  lemma TakenName(options: seq<string>, tables: seq<TableChoice>, k: nat)
    requires k < |tables| && tables[k].name in options + Names(tables)[..k]
    ensures !FreshNames(options, tables)
  {
    var names := Names(tables);
    if tables[k].name !in options {
      var j :| 0 <= j < k && names[..k][j] == names[k];
      assert names[j] == names[k];
    }
  }

  lemma NextName(options: seq<string>, tables: seq<TableChoice>, k: nat)
    requires k < |tables| && tables[k].name !in options + Names(tables)[..k]
    requires FreshNames(options, tables[..k])
    ensures FreshNames(options, tables[..k + 1])
    ensures Names(tables)[..k + 1] == Names(tables)[..k] + [tables[k].name]
  {
    var next := Names(tables[..k + 1]);
    var was := Names(tables[..k]);
    forall i, j | 0 <= i < j < k + 1 ensures next[i] != next[j] {
      assert next[i] == Names(tables)[..k][i] == was[i];
      if j < k {
        assert next[j] == was[j];
      }
    }
    var upTo := tables[..k + 1];
    forall j | 0 <= j < |upTo| ensures upTo[j].name !in options {
      if j < k {
        assert upTo[j] == tables[..k][j];
      }
    }
  }

  /** The next choice multiplies the count, and decides a refusal for good. */
  lemma NextCount(options: seq<string>, tables: seq<TableChoice>, k: nat)
    requires k < |tables|
    requires 0 < Pow2(|options|) * Combinations(tables[..k])
    ensures var n, t := Pow2(|options|) * Combinations(tables[..k]), |tables[k].tables|;
            && Pow2(|options|) * Combinations(tables[..k + 1]) == n * t
            && (t == 0 || n > LIMIT / t ==> !Admissible(options, tables))
            && (t > 0 && n <= LIMIT / t ==> 0 < n * t <= LIMIT)
  {
    var p, c, t := Pow2(|options|), Combinations(tables[..k]), |tables[k].tables|;
    var rest := Combinations(tables[k + 1..]);
    CombinationsSplit(tables[..k], [tables[k]]);
    assert tables[..k + 1] == tables[..k] + [tables[k]];
    assert Combinations([tables[k]]) == t * Combinations([tables[k]][1..]) == t;
    CombinationsSplit(tables[..k + 1], tables[k + 1..]);
    assert tables == tables[..k + 1] + tables[k + 1..];
    hide Combinations, Pow2, FreshNames;
    assert Combinations(tables) == (c * t) * rest;
    Counting(p, c, t, rest);
  }

  lemma DivisionLimit(n: nat, t: nat)
    requires t > 0
    ensures n > LIMIT / t <==> n * t > LIMIT
  {
    var q := LIMIT / t;
    assert q * t <= LIMIT < q * t + t;
    if n > q {
      TimesGrows(q + 1, n, t);
    } else {
      TimesGrows(n, q, t);
    }
  }

  lemma Counting(p: nat, c: nat, t: nat, rest: nat)
    ensures p * (c * t) == (p * c) * t
    ensures t == 0 ==> (c * t) * rest == 0
    ensures t > 0 && p * c > LIMIT / t && (c * t) * rest > 0 ==> p * ((c * t) * rest) > LIMIT
    ensures t > 0 && p * c <= LIMIT / t && 0 < p * c ==> 0 < (p * c) * t <= LIMIT
  {
    TimesAssociates(p, c, t);
    var n, m := p * c, c * t;
    if t > 0 {
      DivisionLimit(n, t);
      if n > 0 {
        TimesGrows(1, n, t);
      }
      TimesAssociates(p, m, rest);
      if rest > 0 {
        TimesGrows(1, rest, p * m);
      }
    }
  }

  // ----- the variant numbers -----

  predicate Bit(mask: nat, bit: nat) {
    mask / Pow2(bit) % 2 == 1
  }

  function Bits(mask: nat, n: nat): (bits: seq<bool>)
    ensures |bits| == n
  {
    if n == 0 then [] else [mask % 2 == 1] + Bits(mask / 2, n - 1)
  }

  function Digit(index: nat, radix: nat): (d: nat)
    requires radix > 0
    ensures d < radix
  {
    index % radix
  }

  function Higher(index: nat, radix: nat): nat
    requires radix > 0
  {
    index / radix
  }

  lemma DigitAndHigher(index: nat, radix: nat)
    requires radix > 0
    ensures Digit(index, radix) + radix * Higher(index, radix) == index
  {
  }

  /** The digits of index, one per choice; every choice has a table. */
  function Digits(tables: seq<TableChoice>, index: nat): (digits: seq<nat>)
    requires forall k :: 0 <= k < |tables| ==> tables[k].tables != []
    ensures |digits| == |tables| && forall k :: 0 <= k < |tables| ==> digits[k] < |tables[k].tables|
  {
    if tables == [] then []
    else [Digit(index, |tables[0].tables|)] + Digits(tables[1..], Higher(index, |tables[0].tables|))
  }

  /** One choice for every option and every table slot. */
  datatype Assignment = Assignment(enabled: seq<bool>, picks: seq<nat>)

  predicate Fits(a: Assignment, n: nat, tables: seq<TableChoice>) {
    && |a.enabled| == n && |a.picks| == |tables|
    && forall k :: 0 <= k < |tables| ==> a.picks[k] < |tables[k].tables|
  }

  predicate AllNonempty(tables: seq<TableChoice>) {
    forall k :: 0 <= k < |tables| ==> tables[k].tables != []
  }

  function Decode(n: nat, tables: seq<TableChoice>, variant: nat): (a: Assignment)
    requires AllNonempty(tables)
    ensures Fits(a, n, tables)
  {
    Assignment(Bits(variant, n), Digits(tables, Higher(variant, Pow2(n))))
  }

  function BitsValue(bits: seq<bool>): nat {
    if bits == [] then 0 else (if bits[0] then 1 else 0) + 2 * BitsValue(bits[1..])
  }

  function DigitsValue(tables: seq<TableChoice>, picks: seq<nat>): nat
    requires |picks| == |tables|
  {
    if tables == [] then 0 else picks[0] + |tables[0].tables| * DigitsValue(tables[1..], picks[1..])
  }

  function Encode(tables: seq<TableChoice>, a: Assignment): nat
    requires |a.picks| == |tables|
  {
    BitsValue(a.enabled) + Pow2(|a.enabled|) * DigitsValue(tables, a.picks)
  }

  lemma QuotientBelow(v: nat, p: nat, c: nat)
    requires p > 0 && v < p * c
    ensures v / p < c
  {
    assert v % p + p * (v / p) == v;
    if c <= v / p {
      TimesGrows(c, v / p, p);
    }
  }

  lemma ValueBelow(low: nat, p: nat, high: nat, c: nat)
    requires low < p && high < c
    ensures low + p * high < p * c
  {
    Successor(p, high, c);
  }

  lemma {:induction false} BitsBelow(bits: seq<bool>)
    ensures BitsValue(bits) < Pow2(|bits|)
  {
    if bits != [] {
      BitsBelow(bits[1..]);
    }
  }

  lemma {:induction false} BitsRoundTrip(bits: seq<bool>, high: nat)
    ensures BitsValue(bits) < Pow2(|bits|)
    ensures Bits(BitsValue(bits) + Pow2(|bits|) * high, |bits|) == bits
  {
    BitsBelow(bits);
    if bits != [] {
      var b := if bits[0] then 1 else 0;
      var p, v := Pow2(|bits| - 1), BitsValue(bits[1..]);
      BitsRoundTrip(bits[1..], high);
      TimesAssociates(2, p, high);
      Divided(b, 2, v + p * high);
      assert BitsValue(bits) + Pow2(|bits|) * high == b + 2 * (v + p * high);
    }
  }

  function Halved(mask: nat, n: nat): nat {
    if n == 0 then mask else Halved(mask / 2, n - 1)
  }

  lemma {:induction false} BitsAndHalved(mask: nat, n: nat)
    ensures mask == BitsValue(Bits(mask, n)) + Pow2(n) * Halved(mask, n)
  {
    if n > 0 {
      BitsAndHalved(mask / 2, n - 1);
      assert Bits(mask, n)[1..] == Bits(mask / 2, n - 1);
      TimesAssociates(2, Pow2(n - 1), Halved(mask, n));
    }
  }

  lemma BitsValueOf(mask: nat, n: nat)
    ensures mask == BitsValue(Bits(mask, n)) + Pow2(n) * (mask / Pow2(n))
  {
    BitsAndHalved(mask, n);
    BitsBelow(Bits(mask, n));
    hide *;
    Divided(BitsValue(Bits(mask, n)), Pow2(n), Halved(mask, n));
  }

  lemma {:induction false} DigitsRoundTrip(tables: seq<TableChoice>, picks: seq<nat>)
    requires |picks| == |tables| && forall k :: 0 <= k < |tables| ==> picks[k] < |tables[k].tables|
    ensures DigitsValue(tables, picks) < Combinations(tables)
    ensures AllNonempty(tables) && Digits(tables, DigitsValue(tables, picks)) == picks
  {
    if tables != [] {
      var n := |tables[0].tables|;
      DigitsRoundTrip(tables[1..], picks[1..]);
      var v, c := DigitsValue(tables[1..], picks[1..]), Combinations(tables[1..]);
      Divided(picks[0], n, v);
      ValueBelow(picks[0], n, v, c);
      DigitsStep(tables, picks[0] + n * v);
    }
  }

  lemma DigitsStep(tables: seq<TableChoice>, index: nat)
    requires tables != [] && tables[0].tables != [] && AllNonempty(tables[1..])
    ensures var n := |tables[0].tables|;
            && AllNonempty(tables)
            && Digits(tables, index) == [index % n] + Digits(tables[1..], index / n)
  {
    assert forall k :: 1 <= k < |tables| ==> tables[k] == tables[1..][k - 1];
  }

  lemma {:induction false} DigitsValueOf(tables: seq<TableChoice>, index: nat)
    requires AllNonempty(tables) && index < Combinations(tables)
    ensures DigitsValue(tables, Digits(tables, index)) == index
  {
    if tables != [] {
      var n, rest := |tables[0].tables|, Combinations(tables[1..]);
      QuotientBelow(index, n, rest);
      DigitAndHigher(index, n);
      var higher := Higher(index, n);
      assert higher < rest;
      hide Digit, Higher;
      DigitsValueOf(tables[1..], higher);
      assert Digits(tables, index)[1..] == Digits(tables[1..], higher);
    }
  }

  /** Variant numbers below the count and assignments are in bijection. */
  lemma NumbersAreAssignments(n: nat, tables: seq<TableChoice>)
    requires AllNonempty(tables)
    ensures forall v: nat :: v < Pow2(n) * Combinations(tables) ==> Encode(tables, Decode(n, tables, v)) == v
    ensures forall a :: Fits(a, n, tables) ==>
              Encode(tables, a) < Pow2(n) * Combinations(tables) && Decode(n, tables, Encode(tables, a)) == a
  {
    forall v: nat | v < Pow2(n) * Combinations(tables) ensures Encode(tables, Decode(n, tables, v)) == v {
      DecodeEncode(n, tables, v);
    }
    forall a | Fits(a, n, tables)
      ensures Encode(tables, a) < Pow2(n) * Combinations(tables) && Decode(n, tables, Encode(tables, a)) == a
    {
      EncodeDecode(n, tables, a);
    }
  }

  lemma DecodeEncode(n: nat, tables: seq<TableChoice>, v: nat)
    requires AllNonempty(tables) && v < Pow2(n) * Combinations(tables)
    ensures Encode(tables, Decode(n, tables, v)) == v
  {
    hide Combinations, Bits, BitsValue, Digits, DigitsValue, Pow2;
    QuotientBelow(v, Pow2(n), Combinations(tables));
    BitsValueOf(v, n);
    DigitsValueOf(tables, v / Pow2(n));
  }

  lemma EncodeDecode(n: nat, tables: seq<TableChoice>, a: Assignment)
    requires AllNonempty(tables) && Fits(a, n, tables)
    ensures Encode(tables, a) < Pow2(n) * Combinations(tables)
    ensures Decode(n, tables, Encode(tables, a)) == a
  {
    hide Combinations, Bits, BitsValue, Digits, DigitsValue, Pow2;
    var p, high := Pow2(n), DigitsValue(tables, a.picks);
    DigitsRoundTrip(tables, a.picks);
    BitsRoundTrip(a.enabled, high);
    Divided(BitsValue(a.enabled), p, high);
    ValueBelow(BitsValue(a.enabled), p, high, Combinations(tables));
  }

  lemma {:induction false} BitsAre(mask: nat, n: nat, bit: nat)
    requires bit < n
    ensures Bits(mask, n)[bit] <==> Bit(mask, bit)
  {
    if bit > 0 {
      BitsAre(mask / 2, n - 1, bit - 1);
      assert Bits(mask, n)[bit] == Bits(mask / 2, n - 1)[bit - 1];
      DivideTwice(mask, bit);
    }
  }

  lemma DivideTwice(mask: nat, bit: nat)
    requires bit > 0
    ensures mask / 2 / Pow2(bit - 1) == mask / Pow2(bit)
  {
    var p := Pow2(bit - 1);
    assert Pow2(bit) == 2 * p;
    hide Pow2;
    QuotientAndRest(mask / 2, p);
    DivideByDouble(mask, mask / 2, mask % 2, p, mask / 2 / p, mask / 2 % p);
  }

  lemma QuotientAndRest(n: nat, p: nat)
    requires p > 0
    ensures n == n % p + p * (n / p) && n % p < p
  {
  }

  lemma DivideByDouble(mask: nat, half: nat, odd: nat, p: nat, q: nat, r: nat)
    requires mask == odd + 2 * half && odd < 2 && half == r + p * q && r < p
    ensures mask / (2 * p) == q
  {
    TimesAssociates(2, p, q);
    assert mask == (odd + 2 * r) + (2 * p) * q;
    Divided(odd + 2 * r, 2 * p, q);
  }
}
