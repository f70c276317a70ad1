/** The first place where two JSON trees differ, and comparison without source ranges. */
module JsonDiff {
  import opened Wrappers
  import opened JsonPointer

  // ----- the order of keys -----

  predicate Less(a: string, b: string) {
    if b == "" then false
    else if a == "" then true
    else a[0] < b[0] || (a[0] == b[0] && Less(a[1..], b[1..]))
  }

  lemma {:induction false} LessIsStrict(a: string, b: string, c: string)
    ensures !Less(a, a)
    ensures Less(a, b) && Less(b, c) ==> Less(a, c)
    ensures Less(a, b) || Less(b, a) || a == b
    decreases |a| + |b| + |c|
  {
    if a != "" && b != "" && c != "" {
      LessIsStrict(a[1..], b[1..], c[1..]);
      assert a == [a[0]] + a[1..] && b == [b[0]] + b[1..];
    } else if a != "" && b != "" {
      LessIsStrict(a[1..], b[1..], c);
      assert a == [a[0]] + a[1..] && b == [b[0]] + b[1..];
    } else if a != "" {
      LessIsStrict(a[1..], b, c);
    }
  }

  predicate IsSorted(keys: seq<string>) {
    forall i, j :: 0 <= i < j < |keys| ==> Less(keys[i], keys[j])
  }

  method InsertKey(keys: seq<string>, key: string) returns (r: seq<string>)
    requires IsSorted(keys) && key !in keys
    ensures IsSorted(r) && forall k :: k in r <==> k in keys || k == key
  {
    var i := 0;
    while i < |keys| && Less(keys[i], key)
      invariant i <= |keys|
      invariant forall j :: 0 <= j < i ==> Less(keys[j], key)
    {
      i := i + 1;
    }
    r := keys[..i] + [key] + keys[i..];
    forall j | i <= j < |keys| ensures Less(key, keys[j]) {
      LessIsStrict(keys[i], key, key);
      LessIsStrict(key, keys[i], keys[j]);
    }
    assert keys == keys[..i] + keys[i..];
  }

  /** slices.Sorted over the keys of both objects. */
  method SortedKeys(keys: set<string>) returns (sorted: seq<string>)
    ensures IsSorted(sorted) && forall k :: k in sorted <==> k in keys
  {
    sorted := [];
    var rest := keys;
    while rest != {}
      invariant rest <= keys && IsSorted(sorted)
      invariant forall k :: k in sorted <==> k in keys && k !in rest
      decreases |rest|
    {
      var key :| key in rest;
      sorted := InsertKey(sorted, key);
      rest := rest - {key};
    }
  }

  // ----- the first difference, stated without a search -----

  predicate SameContainer(l: Json, r: Json) {
    (l.Object? && r.Object?) || (l.Array? && r.Array? && |l.items| == |r.items|)
  }

  /**
   The tokens lead to the first difference: everything before them agrees, and at their end
   one side has no member, or the two values cannot be taken apart further.
   */
  ghost predicate FirstAt(l: Json, r: Json, tokens: seq<string>)
    decreases tokens
  {
    if tokens == [] then l != r && !SameContainer(l, r)
    else if !SameContainer(l, r) then false
    else if l.Object? then
      var key := tokens[0];
      && (forall k :: Less(k, key) ==> Child(l, k) == Child(r, k))
      && (if key in l.members && key in r.members then FirstAt(l.members[key], r.members[key], tokens[1..])
          else (key in l.members || key in r.members) && tokens == [key])
    else
      exists i :: 0 <= i < |l.items| && FirstItem(l, r, tokens, i)
  }

  ghost predicate FirstItem(l: Json, r: Json, tokens: seq<string>, i: int)
    requires tokens != [] && l.Array? && r.Array? && |l.items| == |r.items| && 0 <= i < |l.items|
    decreases tokens, 0
  {
    && tokens[0] == Itoa(i) && l.items[..i] == r.items[..i]
    && FirstAt(l.items[i], r.items[i], tokens[1..])
  }

  /** Section 4 of RFC 6901: the pointer evaluates to different values, or to one only. */
  lemma {:induction false} FirstSeparates(l: Json, r: Json, tokens: seq<string>)
    requires FirstAt(l, r, tokens)
    ensures At(l, tokens) != At(r, tokens)
    decreases tokens
  {
    if tokens != [] {
      if l.Object? {
        var key := tokens[0];
        if key in l.members && key in r.members {
          FirstSeparates(l.members[key], r.members[key], tokens[1..]);
        } else {
          assert tokens[1..] == [];
        }
      } else {
        var i :| 0 <= i < |l.items| && FirstItem(l, r, tokens, i);
        ItoaRoundTrip(i);
        FirstSeparates(l.items[i], r.items[i], tokens[1..]);
      }
    }
  }

  /** There is one such place. */
  lemma {:induction false} FirstIsUnique(l: Json, r: Json, a: seq<string>, b: seq<string>)
    requires FirstAt(l, r, a) && FirstAt(l, r, b)
    ensures a == b
    decreases a
  {
    if a != [] && b != [] {
      if l.Object? {
        LessIsStrict(a[0], b[0], b[0]);
        DiffersAt(l, r, a);
        DiffersAt(l, r, b);
        if a[0] == b[0] && a[0] in l.members && a[0] in r.members {
          FirstIsUnique(l.members[a[0]], r.members[a[0]], a[1..], b[1..]);
        }
      } else {
        var i :| 0 <= i < |l.items| && FirstItem(l, r, a, i);
        var j :| 0 <= j < |l.items| && FirstItem(l, r, b, j);
        FirstSeparates(l.items[i], r.items[i], a[1..]);
        FirstSeparates(l.items[j], r.items[j], b[1..]);
        SameItem(l, r, i, j);
        FirstIsUnique(l.items[i], r.items[i], a[1..], b[1..]);
      }
      assert a == [a[0]] + a[1..] && b == [b[0]] + b[1..];
    }
  }

  lemma DiffersAt(l: Json, r: Json, tokens: seq<string>)
    requires FirstAt(l, r, tokens) && l.Object? && tokens != []
    ensures Child(l, tokens[0]) != Child(r, tokens[0])
  {
    var key := tokens[0];
    if key in l.members && key in r.members {
      FirstSeparates(l.members[key], r.members[key], tokens[1..]);
    }
  }

  lemma SameItem(l: Json, r: Json, i: nat, j: nat)
    requires l.Array? && r.Array? && |l.items| == |r.items| && i < |l.items| && j < |l.items|
    requires l.items[i] != r.items[i] && l.items[..i] == r.items[..i]
    requires l.items[j] != r.items[j] && l.items[..j] == r.items[..j]
    ensures i == j
  {
    TakeAt(l.items, j, i);
    TakeAt(r.items, j, i);
    TakeAt(l.items, i, j);
    TakeAt(r.items, i, j);
  }

  lemma TakeAt(s: seq<Json>, n: nat, i: nat)
    ensures i < n <= |s| ==> s[..n][i] == s[i]
  {
  }

  // ----- the search -----

  function Shown(path: string): string {
    if path == "" then "/" else path
  }

  /** The answer is empty for equal trees, and else the pointer to the first difference. */
  method FirstDifference(left: Json, right: Json, path: string) returns (difference: string, ghost tokens: seq<string>)
    ensures difference == "" <==> left == right
    ensures left != right ==> FirstAt(left, right, tokens) && difference == Shown(path + Encode(tokens))
    decreases left
  {
    tokens := [];
    assert path + Encode([]) == path;
    if left == right {
      return "", [];
    }
    if left.Object? && right.Object? {
      var keys := SortedKeys(left.members.Keys + right.members.Keys);
      for i := 0 to |keys|
        invariant forall j :: 0 <= j < i ==> Child(left, keys[j]) == Child(right, keys[j])
      {
        var key := keys[i];
        Smaller(left, right, keys, i);
        EncodeOne(path, key);
        var childPath := path + "/" + Escape(key);
        if (key in left.members) != (key in right.members) {
          assert [key][1..] == [];
          return childPath, [key];
        }
        assert key in left.members && key in right.members;
        ghost var inner;
        difference, inner := FirstDifference(left.members[key], right.members[key], childPath);
        if difference != "" {
          tokens := [key] + inner;
          EncodeMore(path, key, inner);
          assert tokens[1..] == inner;
          return;
        }
      }
      AllChildren(left, right, keys);
      assert false;
    }
    if left.Array? && right.Array? && |left.items| == |right.items| {
      for i := 0 to |left.items|
        invariant left.items[..i] == right.items[..i]
      {
        ghost var inner;
        var token := Itoa(i);
        DigitsEscape(token);
        EncodeOne(path, token);
        difference, inner := FirstDifference(left.items[i], right.items[i], path + "/" + token);
        if difference != "" {
          tokens := [token] + inner;
          EncodeMore(path, token, inner);
          assert tokens[1..] == inner;
          assert FirstItem(left, right, tokens, i);
          return;
        }
        assert left.items[..i + 1] == left.items[..i] + [left.items[i]];
        assert right.items[..i + 1] == right.items[..i] + [right.items[i]];
      }
      AllItems(left, right);
      assert false;
    }
    return Shown(path), [];
  }

  lemma Smaller(l: Json, r: Json, keys: seq<string>, i: nat)
    requires l.Object? && r.Object? && i < |keys| && IsSorted(keys)
    requires forall k :: k in keys <==> k in l.members || k in r.members
    requires forall j :: 0 <= j < i ==> Child(l, keys[j]) == Child(r, keys[j])
    ensures forall k :: Less(k, keys[i]) ==> Child(l, k) == Child(r, k)
  {
    forall k | Less(k, keys[i]) ensures Child(l, k) == Child(r, k) {
      if k in keys {
        var j :| 0 <= j < |keys| && keys[j] == k;
        LessIsStrict(keys[i], k, keys[i]);
      }
    }
  }

  lemma AllItems(l: Json, r: Json)
    requires l.Array? && r.Array? && |l.items| == |r.items| && l.items[..|l.items|] == r.items[..|l.items|]
    ensures l == r
  {
    assert l.items == l.items[..|l.items|] && r.items == r.items[..|l.items|];
  }

  lemma AllChildren(l: Json, r: Json, keys: seq<string>)
    requires l.Object? && r.Object?
    requires forall k :: k in keys <==> k in l.members || k in r.members
    requires forall j :: 0 <= j < |keys| ==> Child(l, keys[j]) == Child(r, keys[j])
    ensures l == r
  {
    forall k ensures Child(l, k) == Child(r, k) {
      if k in keys {
        var j :| 0 <= j < |keys| && keys[j] == k;
      }
    }
    assert forall k :: k in l.members <==> k in r.members by {
      forall k ensures k in l.members <==> k in r.members {
        assert Child(l, k) == Child(r, k);
      }
    }
    assert forall k :: k in l.members ==> l.members[k] == r.members[k] by {
      forall k | k in l.members ensures l.members[k] == r.members[k] {
        assert Child(l, k) == Child(r, k);
      }
    }
    assert l.members == r.members;
  }

  lemma EncodeOne(path: string, key: string)
    ensures path + Encode([key]) == path + "/" + Escape(key)
  {
    assert [key][1..] == [];
    assert Encode([key]) == "/" + Escape(key) + "";
    assert path + Encode([key]) == path + "/" + Escape(key);
  }

  lemma EncodeMore(path: string, key: string, inner: seq<string>)
    ensures path + Encode([key] + inner) == path + "/" + Escape(key) + Encode(inner)
  {
    EncodeConcat([key], inner);
    EncodeOne(path, key);
    assert path + (Encode([key]) + Encode(inner)) == (path + Encode([key])) + Encode(inner);
  }

  lemma {:induction false} DigitsEscape(token: string)
    requires forall k :: 0 <= k < |token| ==> IsDigit(token[k])
    ensures Escape(token) == token
  {
    if token != "" {
      EscapeStep(token);
      DigitsEscape(token[1..]);
    }
  }

  /** The pointer, read by sections 3 and 4 of RFC 6901, leads to what differs. */
  predicate LeadsApart(left: Json, right: Json, pointer: string) {
    var tokens := Decode(pointer);
    tokens.Some? && At(left, tokens.value) != At(right, tokens.value)
  }

  predicate HasEmptyKey(j: Json) {
    j.Object? && "" in j.members
  }

  /**
   Main result: the answer is the pointer to the first difference exactly when both roots are
   objects, or arrays of one length.  For other roots it is "/", which still leads to a
   difference when a root has a member with the empty key, and to none otherwise.
   */
  lemma AnswerLocates(left: Json, right: Json, tokens: seq<string>)
    requires FirstAt(left, right, tokens)
    ensures var answer := Shown(Encode(tokens));
            && (Decode(answer) == Some(tokens) <==> SameContainer(left, right))
            && (LeadsApart(left, right, answer) <==>
                  SameContainer(left, right) || HasEmptyKey(left) || HasEmptyKey(right))
  {
    EncodeRoundTrip(tokens);
    FirstSeparates(left, right, tokens);
    if tokens == [] {
      SlashIsEmptyKey();
      EmptyKeyChildren(left, right);
    } else {
      assert Encode(tokens) != "";
    }
  }

  lemma SlashIsEmptyKey()
    ensures Decode("/") == Some([""])
  {
    assert [""][1..] == [];
    assert Escape("") == "";
    assert Encode([""]) == "/" + "" + "";
    EncodeRoundTrip([""]);
  }

  lemma EmptyKeyChildren(left: Json, right: Json)
    requires !SameContainer(left, right)
    ensures At(left, [""]) != At(right, [""]) <==> HasEmptyKey(left) || HasEmptyKey(right)
  {
    assert [""][1..] == [];
    assert IndexOf("").None?;
  }

  /** The root marker leads nowhere here: null and true have no members. */
  lemma RootMarkerMisleads()
    ensures FirstAt(Null, Boolean(true), []) && !LeadsApart(Null, Boolean(true), Shown(Encode([])))
  {
    AnswerLocates(Null, Boolean(true), []);
  }

  // ----- without source ranges -----

  const SPAN: string := "span"

  /** removeIRSpans */
  function WithoutSpans(j: Json): Json
    decreases j
  {
    match j
    case Object(members) => Object(map k | k in members && k != SPAN :: WithoutSpans(members[k]))
    case Array(items) => Array(seq(|items|, i requires 0 <= i < |items| => WithoutSpans(items[i])))
    case _ => j
  }

  /** Two trees that differ in source ranges only. */
  predicate SameButSpans(l: Json, r: Json)
    decreases l
  {
    match (l, r)
    case (Object(a), Object(b)) =>
      && a.Keys - {SPAN} == b.Keys - {SPAN}
      && forall k :: k in a && k in b && k != SPAN ==> SameButSpans(a[k], b[k])
    case (Array(a), Array(b)) => |a| == |b| && forall i :: 0 <= i < |a| ==> SameButSpans(a[i], b[i])
    case _ => l == r
  }

  /** Main result: the compared structures are equal exactly when only ranges differ. */
  lemma {:induction false} SpansAreIgnored(l: Json, r: Json)
    ensures WithoutSpans(l) == WithoutSpans(r) <==> SameButSpans(l, r)
    decreases l
  {
    match (l, r)
    case (Object(a), Object(b)) =>
      var x, y := WithoutSpans(l).members, WithoutSpans(r).members;
      assert x.Keys == a.Keys - {SPAN} && y.Keys == b.Keys - {SPAN};
      forall k | k in a && k in b && k != SPAN ensures x[k] == y[k] <==> SameButSpans(a[k], b[k]) {
        SpansAreIgnored(a[k], b[k]);
      }
      assert x == y <==> x.Keys == y.Keys && forall k :: k in x ==> x[k] == y[k];
    case (Array(a), Array(b)) =>
      var x, y := WithoutSpans(l).items, WithoutSpans(r).items;
      if |a| == |b| {
        forall i | 0 <= i < |a| ensures x[i] == y[i] <==> SameButSpans(a[i], b[i]) {
          SpansAreIgnored(a[i], b[i]);
        }
        assert x == y <==> forall i :: 0 <= i < |a| ==> x[i] == y[i];
      }
    case _ =>
  }
}
