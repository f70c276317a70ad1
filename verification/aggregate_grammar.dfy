/**
 The suffix grammar of aggregate combinators.  A name is a base aggregate followed by a
 chain of primitives, written without separators and read greedily from the left.
 */
module AggregateGrammar {
  import opened Wrappers

  datatype Primitive =
    | ArgMax | ArgMin | Array | Distinct | ForEach | If | Map | Merge | Null
    | OrDefault | OrNull | Resample | SimpleState | State

  /** The order in which the source tries them. */
  const CATALOG: seq<Primitive> :=
    [SimpleState, OrDefault, Distinct, Resample, ForEach, ArgMax, ArgMin,
     OrNull, Merge, State, Array, Null, Map, If]

  /** The spelling of the catalog, in lower case. */
  function Spelling(p: Primitive): string {
    match p
    case ArgMax => "argmax"
    case ArgMin => "argmin"
    case Array => "array"
    case Distinct => "distinct"
    case ForEach => "foreach"
    case If => "if"
    case Map => "map"
    case Merge => "merge"
    case Null => "null"
    case OrDefault => "ordefault"
    case OrNull => "ornull"
    case Resample => "resample"
    case SimpleState => "simplestate"
    case State => "state"
  }

  /** aggregatePrimitiveChainSuffix */
  function Suffix(chain: seq<Primitive>): string {
    if chain == [] then "" else Spelling(chain[0]) + Suffix(chain[1..])
  }

  predicate StartsWith(s: string, p: Primitive) {
    Spelling(p) <= s
  }

  function CharAt(s: string, i: nat): char {
    if i < |s| then s[i] else ' '
  }

  /** The only primitive that can stand at the head of s, from at most five of its bytes. */
  function Candidate(s: string): Primitive {
    match CharAt(s, 0)
    case 'a' =>
      if CharAt(s, 2) == 'r' then Array else if CharAt(s, 4) == 'a' then ArgMax else ArgMin
    case 'd' => Distinct
    case 'f' => ForEach
    case 'i' => If
    case 'm' => if CharAt(s, 1) == 'a' then Map else Merge
    case 'n' => Null
    case 'o' => if CharAt(s, 2) == 'd' then OrDefault else OrNull
    case 'r' => Resample
    case _ => if CharAt(s, 1) == 'i' then SimpleState else State
  }

  lemma HeadDecides(s: string, p: Primitive)
    requires StartsWith(s, p)
    ensures Candidate(s) == p
  {
    var w := Spelling(p);
    assert forall i :: 0 <= i < |w| ==> CharAt(s, i) == w[i];
  }

  /** No spelling is the head of another. */
  lemma HeadIsUnique(s: string, p: Primitive, q: Primitive)
    requires StartsWith(s, p) && StartsWith(s, q)
    ensures p == q
  {
    HeadDecides(s, p);
    HeadDecides(s, q);
  }

  lemma SpellingLength(p: Primitive)
    ensures 2 <= |Spelling(p)|
  {
  }

  /** The reference reading of a suffix: some primitive at its head, then the rest. */
  function Read(s: string): (chain: Option<seq<Primitive>>)
    decreases |s|
  {
    SpellingLength(Candidate(s));
    if s == "" then Some([])
    else if !StartsWith(s, Candidate(s)) then None
    else
      var rest := Read(s[|Spelling(Candidate(s))|..]);
      if rest.None? then None else Some([Candidate(s)] + rest.value)
  }

  /** Reading is the inverse of writing, in both directions. */
  lemma {:induction false} ReadIsInverse(s: string, chain: seq<Primitive>)
    ensures Read(s) == Some(chain) <==> Suffix(chain) == s
    decreases |s|
  {
    hide Candidate, Spelling;
    SpellingLength(Candidate(s));
    if s == "" {
      if chain != [] {
        SpellingLength(chain[0]);
      }
    } else if chain != [] {
      var w := Spelling(chain[0]);
      if StartsWith(s, chain[0]) {
        HeadDecides(s, chain[0]);
        ReadIsInverse(s[|w|..], chain[1..]);
        assert s == w + s[|w|..];
        TailOfSum(w, Suffix(chain[1..]));
        assert chain == [chain[0]] + chain[1..];
      } else {
        HeadOfSum(w, Suffix(chain[1..]));
        assert Suffix(chain) != s;
      }
    }
  }

  lemma HeadOfSum(w: string, rest: string)
    ensures w <= w + rest
  {
  }

  lemma TailOfSum(w: string, rest: string)
    ensures (w + rest)[|w|..] == rest
  {
  }

  predicate Complete(catalog: seq<Primitive>) {
    forall p: Primitive :: p in catalog
  }

  /** The loops of the source.  Any order of a complete catalog gives the same answer. */
  method ParsePrimitiveSuffix(text: string, catalog: seq<Primitive>) returns (chain: Option<seq<Primitive>>)
    requires Complete(catalog)
    ensures chain == if Read(text) == Some([]) then None else Read(text)
  {
    hide Candidate, Spelling, Suffix;
    var suffix, parsed := text, [];
    AfterNothing(Read(text));
    while suffix != ""
      invariant Read(text) == After(parsed, Read(suffix))
      decreases |suffix|
    {
      var found: Option<Primitive> := None;
      var k := 0;
      while k < |catalog| && found.None?
        invariant k <= |catalog|
        invariant found.None? ==> forall j :: 0 <= j < k ==> !StartsWith(suffix, catalog[j])
        invariant found.Some? ==> StartsWith(suffix, found.value)
      {
        if StartsWith(suffix, catalog[k]) {
          found := Some(catalog[k]);
        }
        k := k + 1;
      }
      if found.None? {
        assert Candidate(suffix) in catalog;
        return None;
      }
      HeadDecides(suffix, found.value);
      SpellingLength(found.value);
      AfterOne(parsed, found.value, Read(suffix[|Spelling(found.value)|..]));
      parsed := parsed + [found.value];
      suffix := suffix[|Spelling(found.value)|..];
    }
    assert parsed + [] == parsed;
    return if parsed == [] then None else Some(parsed);
  }

  function After(parsed: seq<Primitive>, rest: Option<seq<Primitive>>): Option<seq<Primitive>> {
    if rest.None? then None else Some(parsed + rest.value)
  }

  lemma AfterNothing(rest: Option<seq<Primitive>>)
    ensures After([], rest) == rest
  {
    if rest.Some? {
      assert [] + rest.value == rest.value;
    }
  }

  lemma AfterOne(parsed: seq<Primitive>, p: Primitive, rest: Option<seq<Primitive>>)
    ensures After(parsed, After([p], rest)) == After(parsed + [p], rest)
  {
    if rest.Some? {
      assert parsed + ([p] + rest.value) == (parsed + [p]) + rest.value;
    }
  }

  lemma CatalogIsComplete()
    ensures Complete(CATALOG)
  {
    forall p: Primitive ensures p in CATALOG {
      var i := match p
        case SimpleState => 0 case OrDefault => 1 case Distinct => 2 case Resample => 3
        case ForEach => 4 case ArgMax => 5 case ArgMin => 6 case OrNull => 7 case Merge => 8
        case State => 9 case Array => 10 case Null => 11 case Map => 12 case If => 13;
      assert CATALOG[i] == p;
    }
  }

  // ----- whole names -----

  datatype Base =
    | Sum | Min | Max | AnyValue | AnyLast | Avg | BaseArgMin | BaseArgMax | Count
    | Uniq | UniqExact | UniqCombined | Quantile | Median
    | GroupArray | GroupUniqArray | GroupArraySorted | GroupBitAnd | GroupBitOr | GroupBitXor

  function BaseName(b: Base): string {
    match b
    case Sum => "sum"
    case Min => "min"
    case Max => "max"
    case AnyValue => "any"
    case AnyLast => "anylast"
    case Avg => "avg"
    case BaseArgMin => "argmin"
    case BaseArgMax => "argmax"
    case Count => "count"
    case Uniq => "uniq"
    case UniqExact => "uniqexact"
    case UniqCombined => "uniqcombined"
    case Quantile => "quantile"
    case Median => "median"
    case GroupArray => "grouparray"
    case GroupUniqArray => "groupuniqarray"
    case GroupArraySorted => "grouparraysorted"
    case GroupBitAnd => "groupbitand"
    case GroupBitOr => "groupbitor"
    case GroupBitXor => "groupbitxor"
  }

  /** The shortest base that a name with this head can start with. */
  function Root(s: string): Base {
    match CharAt(s, 0)
    case 's' => Sum
    case 'a' =>
      (match CharAt(s, 1)
       case 'n' => AnyValue
       case 'v' => Avg
       case _ => if CharAt(s, 4) == 'a' then BaseArgMax else BaseArgMin)
    case 'c' => Count
    case 'u' => Uniq
    case 'q' => Quantile
    case 'm' => if CharAt(s, 1) == 'i' then Min else if CharAt(s, 1) == 'a' then Max else Median
    case _ =>
      (match CharAt(s, 5)
       case 'a' => GroupArray
       case 'u' => GroupUniqArray
       case _ =>
         if CharAt(s, 8) == 'a' then GroupBitAnd
         else if CharAt(s, 8) == 'o' then GroupBitOr else GroupBitXor)
  }

  /** A longer base, and the first byte by which it goes past its root. */
  function RootOf(b: Base): Base {
    match b
    case AnyLast => AnyValue
    case UniqExact => Uniq
    case UniqCombined => Uniq
    case GroupArraySorted => GroupArray
    case other => other
  }

  lemma NameDecidesRoot(s: string, b: Base)
    requires BaseName(b) <= s
    ensures Root(s) == RootOf(b)
  {
    var w := BaseName(b);
    assert forall i :: 0 <= i < |w| ==> CharAt(s, i) == w[i];
  }

  /** What follows the root of a longer base is no chain. */
  lemma LongerIsNoChain(s: string, b: Base)
    requires BaseName(b) <= s && RootOf(b) != b
    ensures |BaseName(RootOf(b))| < |s|
    ensures Read(s[|BaseName(RootOf(b))|..]) == None
  {
    var w, n := BaseName(b), |BaseName(RootOf(b))|;
    var rest := s[n..];
    assert rest[0] == w[n] && rest[1] == w[n + 1];
    assert CharAt(rest, 0) == w[n] && CharAt(rest, 1) == w[n + 1];
    NoSuchHead(rest);
  }

  lemma FirstBytes(s: string, p: Primitive)
    requires StartsWith(s, p)
    ensures s[0] !in {'l', 'e', 'c'} && (s[0] == 's' ==> s[1] != 'o')
  {
    var w := Spelling(p);
    assert s[0] == w[0] && s[1] == w[1];
  }

  lemma NoSuchHead(s: string)
    requires |s| >= 2
    requires s[0] in {'l', 'e', 'c'} || (s[0] == 's' && s[1] == 'o')
    ensures Read(s) == None
  {
    hide Spelling, Candidate;
    if StartsWith(s, Candidate(s)) {
      FirstBytes(s, Candidate(s));
    }
  }

  datatype Split = Split(base: Base, chain: seq<Primitive>)

  function NameOf(split: Split): string {
    BaseName(split.base) + Suffix(split.chain)
  }

  /** A split is what the source looks for: a base and at least one primitive. */
  predicate Splits(name: string, split: Split) {
    split.chain != [] && NameOf(split) == name
  }

  lemma SplitIsRead(name: string, split: Split)
    ensures Splits(name, split) <==>
            && split.chain != [] && BaseName(split.base) <= name
            && Read(name[|BaseName(split.base)|..]) == Some(split.chain)
  {
    hide Read, Suffix, BaseName;
    var w := BaseName(split.base);
    if w <= name {
      assert name == w + name[|w|..];
      ReadIsInverse(name[|w|..], split.chain);
      TailOfSum(w, Suffix(split.chain));
    } else {
      HeadOfSum(w, Suffix(split.chain));
    }
  }

  /** Main result: the grammar is unambiguous. */
  lemma OneSplit(name: string, a: Split, b: Split)
    requires Splits(name, a) && Splits(name, b)
    ensures a == b
  {
    SplitIsRead(name, a);
    SplitIsRead(name, b);
    hide Read, Suffix, BaseName, Root, Splits;
    NameDecidesRoot(name, a.base);
    NameDecidesRoot(name, b.base);
    if a.base != b.base {
      if a.base == RootOf(b.base) {
        LongerIsNoChain(name, b.base);
      } else if b.base == RootOf(a.base) {
        LongerIsNoChain(name, a.base);
      } else {
        SiblingsDiffer(name, a.base, b.base);
      }
    }
  }

  lemma SiblingsDiffer(name: string, a: Base, b: Base)
    requires RootOf(a) == RootOf(b) && RootOf(a) != a && RootOf(b) != b
    requires BaseName(a) <= name && BaseName(b) <= name
    ensures a == b
  {
    assert name[4] == BaseName(a)[4] && name[4] == BaseName(b)[4];
  }

  /** Tries the bases in any order; it stops at the first that leaves a chain. */
  method ParseChain(name: string, bases: seq<Base>, catalog: seq<Primitive>) returns (split: Option<Split>)
    requires Complete(catalog) && forall b: Base :: b in bases
    ensures split.Some? ==> Splits(name, split.value)
    ensures split.None? ==> forall s: Split :: !Splits(name, s)
  {
    hide Read, Suffix, BaseName, Splits;
    var k := 0;
    while k < |bases|
      invariant k <= |bases|
      invariant forall j, chain :: 0 <= j < k ==> !Splits(name, Split(bases[j], chain))
    {
      var w := BaseName(bases[k]);
      var chain: Option<seq<Primitive>> := None;
      NothingToRead();
      if w <= name && |w| < |name| {
        chain := ParsePrimitiveSuffix(name[|w|..], catalog);
      } else if w <= name {
        assert name[|w|..] == "";
      }
      if chain.Some? {
        SplitIsRead(name, Split(bases[k], chain.value));
        return Some(Split(bases[k], chain.value));
      }
      NoChainLeft(name, bases[k]);
      k := k + 1;
    }
    forall s: Split ensures !Splits(name, s) {
      assert s.base in bases;
      var j :| 0 <= j < |bases| && bases[j] == s.base;
      assert s == Split(bases[j], s.chain);
    }
    return None;
  }

  lemma NothingToRead()
    ensures Read("") == Some([])
  {
  }

  lemma NoChainLeft(name: string, b: Base)
    requires BaseName(b) <= name ==> var rest := name[|BaseName(b)|..]; Read(rest) == None || Read(rest) == Some([])
    ensures forall chain :: !Splits(name, Split(b, chain))
  {
    hide Read, Suffix, BaseName, Splits;
    forall chain ensures !Splits(name, Split(b, chain)) {
      SplitIsRead(name, Split(b, chain));
    }
  }
}
