/**
 JSON trees, and the pointers of RFC 6901 into them: sections 3 and 4, with the array
 indices of section 4 in their only spelling.
 */
module JsonPointer {
  import opened Wrappers

  datatype Json = Null | Boolean(truth: bool) | Number(value: int) | Text(text: string)
                | Array(items: seq<Json>) | Object(members: map<string, Json>)

  // ----- reference tokens -----

  /** strings.ReplaceAll for a pattern of one character. */
  function Replace(s: string, c: char, sub: string): string {
    if s == "" then "" else (if s[0] == c then sub else [s[0]]) + Replace(s[1..], c, sub)
  }

  function Escape(key: string): string {
    Replace(Replace(key, '~', "~0"), '/', "~1")
  }

  /** The two escapes of a token, each read where it stands; None when a ~ escapes nothing. */
  function Unescape(token: string): Option<string> {
    if token == "" then Some("")
    else if token[0] != '~' then Prefixed([token[0]], Unescape(token[1..]))
    else if |token| == 1 then None
    else if token[1] == '0' then Prefixed("~", Unescape(token[2..]))
    else if token[1] == '1' then Prefixed("/", Unescape(token[2..]))
    else None
  }

  function Prefixed(head: string, rest: Option<string>): Option<string> {
    if rest.None? then None else Some(head + rest.value)
  }

  lemma {:induction false} ReplaceConcat(a: string, b: string, c: char, sub: string)
    ensures Replace(a + b, c, sub) == Replace(a, c, sub) + Replace(b, c, sub)
  {
    if a == "" {
      assert a + b == b;
    } else {
      assert (a + b)[1..] == a[1..] + b;
      ReplaceConcat(a[1..], b, c, sub);
    }
  }

  lemma EscapeStep(key: string)
    requires key != ""
    ensures Escape(key) == (if key[0] == '~' then "~0" else if key[0] == '/' then "~1" else [key[0]]) + Escape(key[1..])
  {
    var head := if key[0] == '~' then "~0" else [key[0]];
    ReplaceConcat(head, Replace(key[1..], '~', "~0"), '/', "~1");
    assert Replace(['~', '0'], '/', "~1") == "~0" by {
      assert ['~', '0'][1..] == ['0'] && ['0'][1..] == "";
      assert Replace(['0'], '/', "~1") == ['0'] + "";
      assert Replace(['~', '0'], '/', "~1") == ['~'] + Replace(['0'], '/', "~1");
    }
    assert [key[0]][1..] == "";
    assert Replace([key[0]], '/', "~1") == (if key[0] == '/' then "~1" else [key[0]]) + "";
  }

  /** Section 4: reading an escaped key gives it back, and it holds no separator. */
  lemma {:induction false} EscapeRoundTrip(key: string)
    ensures Unescape(Escape(key)) == Some(key)
    ensures '/' !in Escape(key)
  {
    if key != "" {
      EscapeStep(key);
      EscapeRoundTrip(key[1..]);
      var head := if key[0] == '~' then "~0" else if key[0] == '/' then "~1" else [key[0]];
      UnescapeHead(head, Escape(key[1..]));
      assert key == [key[0]] + key[1..];
    }
  }

  lemma UnescapeHead(head: string, rest: string)
    requires head == "~0" || head == "~1" || (|head| == 1 && head[0] != '~')
    ensures Unescape(head + rest) ==
            Prefixed(if head == "~0" then "~" else if head == "~1" then "/" else head, Unescape(rest))
  {
    assert (head + rest)[|head|..] == rest;
    assert |head| == 1 ==> head == [head[0]];
  }

  // ----- pointers -----

  function Encode(tokens: seq<string>): string {
    if tokens == [] then "" else "/" + Escape(tokens[0]) + Encode(tokens[1..])
  }

  function TokenEnd(s: string, i: nat): (e: nat)
    requires i <= |s|
    ensures i <= e <= |s| && (e < |s| ==> s[e] == '/') && '/' !in s[i..e]
    decreases |s| - i
  {
    if i < |s| && s[i] != '/' then
      var e := TokenEnd(s, i + 1);
      assert s[i..e] == [s[i]] + s[i + 1..e];
      e
    else i
  }

  /** Section 3: each token follows a separator. */
  function Decode(pointer: string): (tokens: Option<seq<string>>)
    decreases |pointer|
  {
    if pointer == "" then Some([])
    else if pointer[0] != '/' then None
    else
      var end := TokenEnd(pointer, 1);
      var token, rest := Unescape(pointer[1..end]), Decode(pointer[end..]);
      if token.None? || rest.None? then None else Some([token.value] + rest.value)
  }

  lemma {:induction false} TokenEndIs(s: string, i: nat, e: nat)
    requires i <= e <= |s| && '/' !in s[i..e] && (e < |s| ==> s[e] == '/')
    ensures TokenEnd(s, i) == e
    decreases e - i
  {
    if i < e {
      assert s[i..e][0] == s[i];
      assert s[i..e] == [s[i]] + s[i + 1..e];
      TokenEndIs(s, i + 1, e);
    }
  }

  lemma {:induction false} EncodeRoundTrip(tokens: seq<string>)
    ensures Decode(Encode(tokens)) == Some(tokens)
    ensures Encode(tokens) != "" ==> Encode(tokens)[0] == '/'
  {
    if tokens != [] {
      var token, rest := Escape(tokens[0]), Encode(tokens[1..]);
      EscapeRoundTrip(tokens[0]);
      EncodeRoundTrip(tokens[1..]);
      var p := "/" + token + rest;
      assert p[1..1 + |token|] == token && p[1 + |token|..] == rest;
      TokenEndIs(p, 1, 1 + |token|);
      assert tokens == [tokens[0]] + tokens[1..];
    }
  }

  lemma {:induction false} EncodeConcat(a: seq<string>, b: seq<string>)
    ensures Encode(a + b) == Encode(a) + Encode(b)
  {
    if a == [] {
      assert a + b == b;
    } else {
      assert (a + b)[1..] == a[1..] + b;
      EncodeConcat(a[1..], b);
    }
  }

  // ----- array indices -----

  predicate IsDigit(c: char) {
    '0' <= c <= '9'
  }

  function Digit(n: nat): (c: char)
    requires n < 10
    ensures IsDigit(c)
  {
    ('0' as int + n) as char
  }

  /** strconv.Itoa */
  function Itoa(n: nat): (s: string)
    ensures s != "" && forall k :: 0 <= k < |s| ==> IsDigit(s[k])
  {
    if n < 10 then [Digit(n)] else Itoa(n / 10) + [Digit(n % 10)]
  }

  function ValueOf(s: string): nat
    requires forall k :: 0 <= k < |s| ==> IsDigit(s[k])
  {
    if s == "" then 0
    else
      var last := s[|s| - 1];
      assert IsDigit(last);
      10 * ValueOf(s[..|s| - 1]) + (last as int - '0' as int)
  }

  /** Section 4: an index has digits only, and no leading zero. */
  function IndexOf(token: string): Option<nat> {
    if token == "" || (exists k :: 0 <= k < |token| && !IsDigit(token[k])) || (token[0] == '0' && |token| > 1) then None
    else Some(ValueOf(token))
  }

  lemma {:induction false} ItoaRoundTrip(n: nat)
    ensures ValueOf(Itoa(n)) == n
    ensures Itoa(n)[0] == '0' ==> n == 0
    ensures IndexOf(Itoa(n)) == Some(n)
  {
    if n < 10 {
      assert [Digit(n)][..0] == "";
    } else {
      ItoaRoundTrip(n / 10);
      assert Itoa(n)[..|Itoa(n)| - 1] == Itoa(n / 10);
    }
  }

  // ----- what a pointer points to -----

  function Child(j: Json, token: string): Option<Json> {
    match j
    case Object(members) => if token in members then Some(members[token]) else None
    case Array(items) =>
      var i := IndexOf(token);
      if i.Some? && i.value < |items| then Some(items[i.value]) else None
    case _ => None
  }

  function At(j: Json, tokens: seq<string>): Option<Json>
    decreases tokens
  {
    if tokens == [] then Some(j)
    else
      var child := Child(j, tokens[0]);
      if child.None? then None else At(child.value, tokens[1..])
  }
}
