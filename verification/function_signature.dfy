/** Which argument counts a function signature accepts, and which ones its probes try. */
module FunctionSignature {
  import opened Division
  import opened Wrappers

  /** argSort: the syntactic kind of an argument. */
  datatype Sort =
    | Value | Number | Offset | IntegerOffset | Index | Predicate
    | ConstString | ConstInt | ConstNumber | Interval | Lambda | TypeName

  /** A prefix, a group repeated a number of times, and a suffix; -1 is no upper limit. */
  datatype Form = Form(prefix: seq<Sort>, repeated: seq<Sort>, suffix: seq<Sort>, minRepeats: int, maxRepeats: int)

  /** validateForms */
  predicate IsValid(f: Form) {
    if f.repeated == [] then f.minRepeats == 0 && f.maxRepeats == 0
    else f.minRepeats >= 0 && (f.maxRepeats == -1 || f.maxRepeats >= f.minRepeats)
  }

  predicate AllValid(forms: seq<Form>) {
    forall k :: 0 <= k < |forms| ==> IsValid(forms[k])
  }

  predicate RepeatsAllowed(f: Form, n: int) {
    f.minRepeats <= n && (f.maxRepeats == -1 || n <= f.maxRepeats)
  }

  function Times(s: seq<Sort>, n: nat): (r: seq<Sort>)
    ensures |r| == n * |s|
  {
    if n == 0 then [] else Times(s, n - 1) + s
  }

  function Fixed(f: Form): nat {
    |f.prefix| + |f.suffix|
  }

  /** The sorts of a call with n repetitions. */
  function Sorts(f: Form, n: nat): (r: seq<Sort>)
    ensures |r| == Fixed(f) + n * |f.repeated|
  {
    f.prefix + Times(f.repeated, n) + f.suffix
  }

  /** The form has the arity with n repetitions. */
  predicate AcceptsBy(f: Form, arity: int, n: nat) {
    && arity == Fixed(f) + n * |f.repeated|
    && (if f.repeated == [] then n == 0 else RepeatsAllowed(f, n))
  }

  lemma Quotient(remaining: nat, k: nat)
    requires k > 0
    ensures remaining % k == 0 ==> (remaining / k) * k == remaining
    ensures forall n: nat :: n * k == remaining ==> remaining % k == 0 && remaining / k == n
  {
    assert remaining == (remaining / k) * k + remaining % k;
    forall n: nat | n * k == remaining ensures remaining % k == 0 && remaining / k == n {
      Divided(0, k, n);
    }
  }

  method SortsForArity(f: Form, arity: int) returns (sorts: Option<seq<Sort>>)
    ensures sorts.None? <==> forall n: nat :: !AcceptsBy(f, arity, n)
    ensures forall n: nat :: AcceptsBy(f, arity, n) ==> sorts == Some(Sorts(f, n)) && |sorts.value| == arity
  {
    var fixed := Fixed(f);
    if f.repeated == [] {
      if arity != fixed {
        return None;
      }
      assert AcceptsBy(f, arity, 0);
      assert Times([], 0) == [];
      assert f.prefix + [] + f.suffix == f.prefix + f.suffix;
      return Some(f.prefix + f.suffix);
    }
    var remaining := arity - fixed;
    if remaining < 0 {
      return None;
    }
    Quotient(remaining, |f.repeated|);
    if remaining % |f.repeated| != 0 {
      return None;
    }
    var repeats := remaining / |f.repeated|;
    if repeats < f.minRepeats || (f.maxRepeats != -1 && repeats > f.maxRepeats) {
      return None;
    }
    assert AcceptsBy(f, arity, repeats);
    var result := f.prefix;
    assert result == f.prefix + Times(f.repeated, 0);
    for index := 0 to repeats
      invariant result == f.prefix + Times(f.repeated, index)
    {
      assert f.prefix + (Times(f.repeated, index) + f.repeated) == (f.prefix + Times(f.repeated, index)) + f.repeated;
      result := result + f.repeated;
    }
    return Some(result + f.suffix);
  }

  ghost predicate Accepts(f: Form, arity: int) {
    exists n: nat :: AcceptsBy(f, arity, n)
  }

  ghost predicate Accepted(forms: seq<Form>, arity: int) {
    exists k :: 0 <= k < |forms| && Accepts(forms[k], arity)
  }

  method IsAccepted(forms: seq<Form>, arity: int) returns (accepted: bool)
    ensures accepted == Accepted(forms, arity)
  {
    for k := 0 to |forms|
      invariant forall j :: 0 <= j < k ==> !Accepts(forms[j], arity)
    {
      var sorts := SortsForArity(forms[k], arity);
      if sorts.Some? {
        assert Accepts(forms[k], arity);
        return true;
      }
    }
    return false;
  }

  // ----- the arities that probes use -----

  function Lowest(f: Form): int {
    Fixed(f) + if f.repeated == [] then 0 else f.minRepeats * |f.repeated|
  }

  predicate MayGrow(f: Form) {
    f.repeated != [] && (f.maxRepeats == -1 || f.maxRepeats > f.minRepeats)
  }

  /** In the order of the forms; the source sorts them. */
  function Representatives(forms: seq<Form>): seq<int> {
    if forms == [] then []
    else
      var f := forms[|forms| - 1];
      Representatives(forms[..|forms| - 1]) + [Lowest(f)] + if MayGrow(f) then [Lowest(f) + |f.repeated|] else []
  }

  method RepresentativeArities(forms: seq<Form>) returns (arities: seq<int>)
    ensures arities == Representatives(forms)
  {
    arities := [];
    for k := 0 to |forms|
      invariant arities == Representatives(forms[..k])
    {
      var f := forms[k];
      assert forms[..k + 1][..k] == forms[..k];
      var minimum := |f.prefix| + |f.suffix|;
      if |f.repeated| > 0 {
        minimum := minimum + f.minRepeats * |f.repeated|;
      }
      arities := arities + [minimum];
      if |f.repeated| > 0 && (f.maxRepeats == -1 || f.maxRepeats > f.minRepeats) {
        arities := arities + [minimum + |f.repeated|];
      }
    }
    assert forms[..|forms|] == forms;
  }

  lemma LowestIsAccepted(f: Form)
    requires IsValid(f)
    ensures Accepts(f, Lowest(f)) && (MayGrow(f) ==> Accepts(f, Lowest(f) + |f.repeated|))
    ensures forall a :: Accepts(f, a) ==> Lowest(f) <= a
  {
    assert AcceptsBy(f, Lowest(f), if f.repeated == [] then 0 else f.minRepeats);
    if MayGrow(f) {
      assert (f.minRepeats + 1) * |f.repeated| == f.minRepeats * |f.repeated| + |f.repeated|;
      assert AcceptsBy(f, Lowest(f) + |f.repeated|, f.minRepeats + 1);
    }
    forall a | Accepts(f, a) ensures Lowest(f) <= a {
      var n: nat :| AcceptsBy(f, a, n);
      if f.repeated != [] {
        assert (n - f.minRepeats) * |f.repeated| >= 0;
      }
    }
  }

  lemma {:induction false} RepresentativeIsAccepted(forms: seq<Form>, a: int)
    requires AllValid(forms) && a in Representatives(forms)
    ensures Accepted(forms, a)
  {
    var before, f := forms[..|forms| - 1], forms[|forms| - 1];
    LowestIsAccepted(f);
    hide Accepts, Lowest, MayGrow, IsValid;
    if a in Representatives(before) {
      RepresentativeIsAccepted(before, a);
      var k :| 0 <= k < |before| && Accepts(before[k], a);
      assert Accepts(forms[k], a);
    } else {
      assert Accepts(forms[|forms| - 1], a);
    }
  }

  lemma {:induction false} LowestIsRepresentative(forms: seq<Form>, k: nat)
    requires k < |forms|
    ensures Lowest(forms[k]) in Representatives(forms)
    ensures MayGrow(forms[k]) ==> Lowest(forms[k]) + |forms[k].repeated| in Representatives(forms)
    decreases |forms|
  {
    if k < |forms| - 1 {
      LowestIsRepresentative(forms[..|forms| - 1], k);
    }
  }

  // ----- the arities that probes expect to be refused -----

  predicate IsUnbounded(f: Form) {
    f.repeated != [] && f.maxRepeats == -1
  }

  ghost predicate Unbounded(forms: seq<Form>) {
    exists k :: 0 <= k < |forms| && IsUnbounded(forms[k])
  }

  predicate IsLeast(m: int, s: seq<int>) {
    m in s && forall k :: 0 <= k < |s| ==> m <= s[k]
  }

  predicate IsGreatest(m: int, s: seq<int>) {
    m in s && forall k :: 0 <= k < |s| ==> s[k] <= m
  }

  /** The first and the last of the arities, once they are sorted. */
  method Ends(s: seq<int>) returns (least: int, greatest: int)
    requires s != []
    ensures IsLeast(least, s) && IsGreatest(greatest, s)
  {
    least, greatest := s[0], s[0];
    for i := 1 to |s|
      invariant least in s && forall k :: 0 <= k < i ==> least <= s[k]
      invariant greatest in s && forall k :: 0 <= k < i ==> s[k] <= greatest
    {
      least, greatest := if s[i] < least then s[i] else least, if s[i] > greatest then s[i] else greatest;
    }
  }

  /** What the probes try: below the least arity, the gaps, and above the top. */
  ghost predicate IsBoundary(forms: seq<Form>, low: int, top: int, a: int) {
    || (a == low - 1 && low > 0)
    || (low <= a <= top && !Accepted(forms, a))
    || (a == top + 1 && !Unbounded(forms))
  }

  /** One past the least arity of a form that repeats a group, when that is refused. */
  ghost predicate IsPastGroup(forms: seq<Form>, a: int) {
    !Accepted(forms, a) && exists k :: 0 <= k < |forms| && PastGroup(forms[k]) == Some(a)
  }

  function PastGroup(f: Form): Option<int> {
    if |f.repeated| > 1 then Some(Lowest(f) + 1) else None
  }

  /** The top is the greatest of the representatives and of the arities past a group. */
  ghost predicate IsTop(forms: seq<Form>, top: int) {
    && (top in Representatives(forms) || IsPastGroup(forms, top))
    && (forall k :: 0 <= k < |Representatives(forms)| ==> Representatives(forms)[k] <= top)
    && (forall k :: 0 <= k < |forms| && PastGroup(forms[k]).Some? && !Accepted(forms, PastGroup(forms[k]).value) ==>
          PastGroup(forms[k]).value <= top)
  }

  lemma TopIsUnique(forms: seq<Form>, s: int, t: int)
    requires IsTop(forms, s) && IsTop(forms, t)
    ensures s == t
  {
    TopIsAbove(forms, s, t);
    TopIsAbove(forms, t, s);
  }

  lemma TopIsAbove(forms: seq<Form>, s: int, t: int)
    requires IsTop(forms, s) && IsTop(forms, t)
    ensures s <= t
  {
    hide Accepted, Representatives, PastGroup;
    if s in Representatives(forms) {
      var k :| 0 <= k < |Representatives(forms)| && Representatives(forms)[k] == s;
    }
  }

  lemma {:induction false} SomeRepresentative(forms: seq<Form>)
    requires forms != []
    ensures Representatives(forms) != []
  {
    LowestIsRepresentative(forms, 0);
  }

  lemma PastGroupIs(f: Form)
    ensures PastGroup(f) ==
            if |f.repeated| > 1 then Some(|f.prefix| + |f.suffix| + f.minRepeats * |f.repeated| + 1) else None
  {
  }

  method RejectedBoundaryArities(forms: seq<Form>) returns (candidates: set<int>, ghost low: int, ghost top: int)
    ensures forms == [] ==> candidates == {}
    ensures forms != [] ==> IsLeast(low, Representatives(forms)) && IsTop(forms, top)
    ensures forms != [] ==> forall a :: a in candidates <==> IsBoundary(forms, low, top, a)
  {
    hide Accepted, Representatives, PastGroup;
    candidates, low, top := {}, 0, 0;
    if forms == [] {
      return;
    }
    var representatives := RepresentativeArities(forms);
    SomeRepresentative(forms);
    var minimum, maximum := Ends(representatives);
    var unbounded := false;
    for k := 0 to |forms|
      invariant maximum in representatives || IsPastGroup(forms, maximum)
      invariant forall j :: 0 <= j < |representatives| ==> representatives[j] <= maximum
      invariant forall j :: 0 <= j < k && PastGroup(forms[j]).Some? && !Accepted(forms, PastGroup(forms[j]).value) ==>
                  PastGroup(forms[j]).value <= maximum
      invariant unbounded <==> exists j :: 0 <= j < k && IsUnbounded(forms[j])
    {
      var f := forms[k];
      if |f.repeated| > 0 && f.maxRepeats == -1 {
        unbounded := true;
      }
      PastGroupIs(f);
      if |f.repeated| > 1 {
        var candidate := |f.prefix| + |f.suffix| + f.minRepeats * |f.repeated| + 1;
        var accepted := IsAccepted(forms, candidate);
        if !accepted && candidate > maximum {
          maximum := candidate;
        }
      }
    }
    if minimum > 0 {
      candidates := {minimum - 1};
    }
    for arity := minimum to maximum + 1
      invariant forall a :: a in candidates <==>
                  (a == minimum - 1 && minimum > 0) || (minimum <= a < arity && !Accepted(forms, a))
    {
      var accepted := IsAccepted(forms, arity);
      if !accepted {
        candidates := candidates + {arity};
      }
    }
    if !unbounded {
      candidates := candidates + {maximum + 1};
    }
    low, top := minimum, maximum;
  }

  // ----- whether they are refused -----

  /** Everything but the arity above the top is refused, for every signature. */
  lemma BoundaryIsRefused(forms: seq<Form>, low: int, top: int, a: int)
    requires AllValid(forms) && IsLeast(low, Representatives(forms)) && IsBoundary(forms, low, top, a)
    ensures a != top + 1 ==> !Accepted(forms, a)
  {
    if Accepted(forms, a) {
      var k :| 0 <= k < |forms| && Accepts(forms[k], a);
      LowestIsAccepted(forms[k]);
      LowestIsRepresentative(forms, k);
    }
  }

  /** A form that a constructor of the program builds: fixed, or repeated without a limit. */
  predicate IsPlain(f: Form) {
    f.repeated == [] || f.maxRepeats == -1
  }

  /**
   Main result: when every form is fixed or repeated without a limit, all boundary arities
   are refused.
   */
  lemma PlainBoundaryIsRefused(forms: seq<Form>, low: int, top: int, a: int)
    requires AllValid(forms) && forall k :: 0 <= k < |forms| ==> IsPlain(forms[k])
    requires IsLeast(low, Representatives(forms)) && IsTop(forms, top) && IsBoundary(forms, low, top, a)
    ensures !Accepted(forms, a)
  {
    hide IsLeast, IsTop, Accepted, IsBoundary;
    BoundaryIsRefused(forms, low, top, a);
    if a == top + 1 {
      if Unbounded(forms) {
        AboveIsNoBoundary(forms, low, top);
      } else {
        PastTopIff(forms, top);
        forall k | 0 <= k < |forms| ensures !ReachesPast(forms[k], top + 1) {
          assert IsPlain(forms[k]) && !IsUnbounded(forms[k]);
        }
      }
    }
  }

  lemma AboveIsNoBoundary(forms: seq<Form>, low: int, top: int)
    requires Unbounded(forms) && IsLeast(low, Representatives(forms)) && IsTop(forms, top)
    ensures !IsBoundary(forms, low, top, top + 1)
  {
    hide Accepted, Representatives, IsPastGroup;
    var k :| 0 <= k < |Representatives(forms)| && Representatives(forms)[k] == low;
  }

  /** A bounded form repeats a group often enough, and exactly, to have the arity a. */
  predicate ReachesPast(f: Form, a: int) {
    && f.repeated != [] && f.maxRepeats != -1
    && a <= Fixed(f) + f.maxRepeats * |f.repeated|
    && (a - Fixed(f)) % |f.repeated| == 0
  }

  /**
   The exact condition for a bounded signature of any forms: the arity above the top is
   accepted when a form repeats its group past the top, and a repetition ends right there.
   */
  lemma PastTopIff(forms: seq<Form>, top: int)
    requires AllValid(forms) && !Unbounded(forms) && IsTop(forms, top)
    ensures Accepted(forms, top + 1) <==> exists k :: 0 <= k < |forms| && ReachesPast(forms[k], top + 1)
  {
    forall k | 0 <= k < |forms| ensures Accepts(forms[k], top + 1) <==> ReachesPast(forms[k], top + 1) {
      var f := forms[k];
      LowestIsRepresentative(forms, k);
      assert IsValid(f) && !IsUnbounded(f);
      assert Lowest(f) <= top;
      hide IsTop, Representatives, Unbounded, Accepted;
      FormReaches(f, top + 1);
    }
    hide Accepts, ReachesPast, IsTop, Unbounded;
  }

  lemma FormReaches(f: Form, a: int)
    requires IsValid(f) && !IsUnbounded(f) && Lowest(f) < a
    ensures Accepts(f, a) <==> ReachesPast(f, a)
  {
    if Accepts(f, a) {
      var n: nat :| AcceptsBy(f, a, n);
      if f.repeated != [] {
        Divided(0, |f.repeated|, n);
        TimesGrows(n, f.maxRepeats, |f.repeated|);
      }
    }
    if ReachesPast(f, a) {
      LowestCovers(f);
      Quotient(a - Fixed(f), |f.repeated|);
      var n := (a - Fixed(f)) / |f.repeated|;
      CountBetween(n, f.minRepeats, f.maxRepeats, |f.repeated|);
      assert AcceptsBy(f, a, n);
    }
  }

  lemma LowestCovers(f: Form)
    requires IsValid(f) && f.repeated != []
    ensures Lowest(f) == Fixed(f) + f.minRepeats * |f.repeated| >= Fixed(f)
  {
  }

  lemma CountBetween(n: nat, low: nat, high: nat, k: nat)
    requires k > 0 && low * k < n * k <= high * k
    ensures low <= n <= high
  {
    if n < low {
      TimesGrows(n, low, k);
    }
    if high < n {
      Successor(k, high, n);
    }
  }

  /** No constructor builds it: a form of up to two repetitions of one sort has its top at one. */
  lemma BoundedRepeatExample()
    ensures var f := Form([], [Value], [], 0, 2);
            IsValid(f) && IsTop([f], 1) && Accepted([f], 2)
  {
    var f := Form([], [Value], [], 0, 2);
    assert [f][..0] == [];
    assert Representatives([]) == [];
    assert Representatives([f]) == [] + [0] + [1];
    assert Representatives([f])[1] == 1;
    assert AcceptsBy(f, 2, 2);
    assert Accepts([f][0], 2);
  }
}
