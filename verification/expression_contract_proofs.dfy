/**
 How the two lowerings of one source relate.  Erasing every internal call from the
 resolver form gives the runtime form, the runtime form holds no macro any more,
 and lowering it again changes nothing.

 The proofs rest on scanner alignment, see SqlCuts.
 */
module ExpressionContractProofs {
  import opened Wrappers
  import opened SqlLexer
  import opened TextLines
  import opened SqlCuts
  import opened ExpressionContract

  function Then(e: Option<nat>, b: string): Option<nat> {
    if e.None? then None else Flow(b, e.value)
  }

  lemma {:induction false} CutFlow(a: string, b: string, d: nat)
    requires Cut(a, b)
    ensures Flow(a + b, d) == Then(Flow(a, d), b)
    decreases |a|
  {
    hide DataLen;
    if a == "" {
      assert a + b == b;
    } else {
      CutHead(a, b);
      var n := LexLen(a);
      assert (a + b)[n..] == a[n..] + b;
      if DataLen(a) > 0 {
        CutFlow(a[n..], b, d);
      } else if !Stops(a[0], d) {
        CutFlow(a[n..], b, Depth(a[0], d));
      }
    }
  }

  lemma {:induction false} FlowShift(u: string, d: nat, k: nat)
    requires Flow(u, d).Some? && 1 <= d
    ensures Flow(u, d + k) == Some(Flow(u, d).value + k)
    decreases |u|
  {
    hide DataLen;
    if u != "" {
      if DataLen(u) > 0 {
        FlowShift(u[DataLen(u)..], d, k);
      } else {
        FlowShift(u[1..], Depth(u[0], d), k);
      }
    }
  }

  lemma {:induction false} StopFlow(t: string, d: nat)
    requires 1 <= d && Stop(t, d).Some?
    ensures var k := Stop(t, d).value;
            Cut(t[..k], t[k..]) && Flow(t[..k], d) == Some(1) && DataLen(t[k..]) == 0 && Stops(t[k], 1)
    decreases |t|
  {
    hide DataLen;
    var k := Stop(t, d).value;
    var n := LexLen(t);
    if DataLen(t) > 0 || !Stops(t[0], d) {
      var d' := if DataLen(t) > 0 then d else Depth(t[0], d);
      StopFlow(t[n..], d');
      FlowStep(t, k, d, d');
    }
  }

  /** One lexeme more in front of a flow that is cut at k. */
  lemma FlowStep(t: string, k: nat, d: nat, d': nat)
    requires t != "" && LexLen(t) <= k <= |t|
    requires if DataLen(t) > 0 then d' == d else !Stops(t[0], d) && d' == Depth(t[0], d)
    requires var n := LexLen(t); Cut(t[n..][..k - n], t[n..][k - n..])
    ensures Cut(t[..k], t[k..]) && Flow(t[..k], d) == Flow(t[LexLen(t)..][..k - LexLen(t)], d')
    ensures t[k..] == t[LexLen(t)..][k - LexLen(t)..]
  {
    hide DataLen;
    var n := LexLen(t);
    assert t[..k] + t[k..] == t;
    assert t[n..][..k - n] == t[..k][n..] && t[n..][k - n..] == t[k..];
    assert Cut(t[..k], t[k..]);
    CutHead(t[..k], t[k..]);
  }

  lemma {:induction false} FlowStop(a: string, b: string, d: nat)
    requires Cut(a, b) && Flow(a, d) == Some(1)
    requires b != "" && DataLen(b) == 0 && Stops(b[0], 1)
    ensures Stop(a + b, d) == Some(|a|)
    decreases |a|
  {
    hide DataLen;
    if a == "" {
      assert a + b == b;
    } else {
      CutHead(a, b);
      var n := LexLen(a);
      assert (a + b)[n..] == a[n..] + b;
      FlowStop(a[n..], b, if DataLen(a) > 0 then d else Depth(a[0], d));
    }
  }

  // ----- what a lowering keeps: heads, words, depths -----

  predicate IsNameByte(c: char) { IsIdentByte(c) || c == '.' }

  function NameLen(s: string): (n: nat)
    ensures n <= |s|
    ensures forall k :: 0 <= k < n ==> IsNameByte(s[k])
    ensures n < |s| ==> !IsNameByte(s[n])
  {
    if s != "" && IsNameByte(s[0]) then 1 + NameLen(s[1..]) else 0
  }

  predicate IsName(w: string) {
    w != "" && forall k :: 0 <= k < |w| ==> IsNameByte(w[k])
  }

  /** A word of name bytes at the head of s lies within the name run of s. */
  lemma WordInName(prev: char, s: string, w: string)
    requires IsName(w)
    ensures WordAt(prev, s, w) ==> |w| <= NameLen(s)
  {
    if WordAt(prev, s, w) {
      forall k | 0 <= k < |w| ensures IsNameByte(s[k]) {
        assert Lower(s[..|w|][k]) == Lower(w[k]) && IsNameByte(w[k]);
      }
    }
  }

  lemma WordInRun(prev: char, s: string, r: string, w: string)
    requires IsName(w) && NameLen(s) == NameLen(r) && s[..NameLen(s)] == r[..NameLen(s)]
    requires WordAt(prev, s, w)
    ensures WordAt(prev, r, w)
  {
    var n := NameLen(s);
    WordInName(prev, s, w);
    assert r[..|w|] == r[..n][..|w|] == s[..n][..|w|] == s[..|w|];
    if |w| < n {
      assert r[|w|] == r[..n][|w|] == s[..n][|w|] == s[|w|];
    }
  }

  /** The three ways a nonempty text is lowered. */
  lemma RewriteData(p: char, s: string, rt: bool)
    requires s != "" && DataLen(s) > 0 && Rewrite(p, s, rt).Some?
    ensures var n := DataLen(s);
            var rest := Rewrite(s[n - 1], s[n..], rt);
            rest.Some? && Rewrite(p, s, rt).value == s[..n] + rest.value
  {
    hide MACRO, FUNCTION, WordAt, MacroCall, DataLen, Lowered;
  }

  lemma RewriteCode(p: char, s: string, rt: bool)
    requires s != "" && DataLen(s) == 0 && !MacroAt(p, s) && Rewrite(p, s, rt).Some?
    ensures var rest := Rewrite(s[0], s[1..], rt);
            rest.Some? && Rewrite(p, s, rt).value == [s[0]] + rest.value
    ensures !WordAt(p, s, FUNCTION)
  {
    hide MACRO, FUNCTION, WordAt, MacroCall, DataLen, Lowered;
  }

  lemma RewriteMacro(p: char, s: string, rt: bool)
    requires s != "" && DataLen(s) == 0 && MacroAt(p, s) && Rewrite(p, s, rt).Some?
    ensures |MACRO| <= |s| && MacroCall(s).Some?
    ensures var call := MacroCall(s).value;
            var inner, rest := Rewrite(' ', call.inner, rt), Rewrite(call.close, call.rest, rt);
            && inner.Some? && rest.Some?
            && Rewrite(p, s, rt).value == Lowered(inner.value, call.typeArgument, rt) + rest.value
  {
    hide MACRO, FUNCTION, MacroCall, DataLen, Lowered;
  }

  lemma LoweredHead(inner: string, t: string, rt: bool)
    ensures var c := Lowered(inner, t, rt);
            c != "" && Neutral(c[0]) && DataLen(c) == 0
  {
  }

  lemma RewriteHead(p: char, s: string, rt: bool)
    requires Rewrite(p, s, rt).Some?
    ensures SameHead(s, Rewrite(p, s, rt).value)
    ensures s != "" ==> Rewrite(p, s, rt).value != ""
    ensures s != "" && !MacroAt(p, s) ==> Rewrite(p, s, rt).value[0] == s[0]
  {
    hide MACRO, FUNCTION, WordAt, MacroCall, DataLen, Lowered, Rewrite;
    if s == "" {
      RewriteEmpty(p, rt);
    } else if DataLen(s) > 0 {
      RewriteData(p, s, rt);
    } else if MacroAt(p, s) {
      RewriteMacro(p, s, rt);
      var call := MacroCall(s).value;
      LoweredHead(Rewrite(' ', call.inner, rt).value, call.typeArgument, rt);
    } else {
      RewriteCode(p, s, rt);
    }
  }

  lemma RewriteEmpty(p: char, rt: bool)
    ensures Rewrite(p, "", rt) == Some("")
  {
  }

  lemma NameByteIsCode(s: string)
    requires s != "" && IsNameByte(s[0])
    ensures DataLen(s) == 0
  {
  }

  lemma {:induction false} NameRunKept(p: char, s: string, rt: bool)
    requires IsNameByte(p) && Rewrite(p, s, rt).Some?
    ensures var r := Rewrite(p, s, rt).value;
            NameLen(r) == NameLen(s) && r[..NameLen(s)] == s[..NameLen(s)]
    decreases |s|
  {
    hide MACRO, FUNCTION, Rewrite, DataLen;
    RewriteHead(p, s, rt);
    if s == "" {
      RewriteEmpty(p, rt);
    } else if IsNameByte(s[0]) {
      NameByteIsCode(s);
      RewriteCode(p, s, rt);
      NameRunKept(s[0], s[1..], rt);
      var r, r' := Rewrite(p, s, rt).value, Rewrite(s[0], s[1..], rt).value;
      assert r[1..] == r';
      assert r[..NameLen(r)] == [s[0]] + r'[..NameLen(r')];
      assert s[..NameLen(s)] == [s[0]] + s[1..][..NameLen(s[1..])];
    }
  }

  /** A copied code byte starts a word in the output exactly when it does in the source. */
  lemma WordKept(p: char, s: string, rt: bool, w: string)
    requires s != "" && DataLen(s) == 0 && !MacroAt(p, s) && Rewrite(p, s, rt).Some?
    requires IsName(w)
    ensures WordAt(p, Rewrite(p, s, rt).value, w) <==> WordAt(p, s, w)
  {
    hide MACRO, FUNCTION, Rewrite, DataLen, MacroAt;
    RewriteCode(p, s, rt);
    var r, r' := Rewrite(p, s, rt).value, Rewrite(s[0], s[1..], rt).value;
    assert r[1..] == r';
    if IsNameByte(s[0]) {
      NameRunKept(s[0], s[1..], rt);
      assert r[..NameLen(r)] == [s[0]] + r'[..NameLen(r')];
      assert s[..NameLen(s)] == [s[0]] + s[1..][..NameLen(s[1..])];
      WordSame(p, s, r, w);
    } else {
      NotAWord(p, s, w);
      NotAWord(p, r, w);
    }
  }

  lemma WordSame(p: char, s: string, r: string, w: string)
    requires IsName(w) && NameLen(s) == NameLen(r) && s[..NameLen(s)] == r[..NameLen(s)]
    ensures WordAt(p, s, w) <==> WordAt(p, r, w)
  {
    hide WordAt;
    if WordAt(p, s, w) {
      WordInRun(p, s, r, w);
    }
    if WordAt(p, r, w) {
      WordInRun(p, r, s, w);
    }
  }

  lemma NotAWord(p: char, s: string, w: string)
    requires IsName(w) && s != "" && !IsNameByte(s[0])
    ensures !WordAt(p, s, w)
  {
    WordInName(p, s, w);
  }

  lemma MacroIsName()
    ensures IsName(MACRO) && IsName(FUNCTION)
  {
  }

  // ----- the bracket structure of a call survives -----

  predicate IsPlain(c: char) { IsNameByte(c) || IsBlank(c) }

  lemma {:induction false} PlainFlow(a: string, b: string, d: nat)
    requires forall k :: 0 <= k < |a| ==> IsPlain(a[k])
    ensures Cut(a, b) && Flow(a, d) == Some(d)
    decreases |a|
  {
    if a != "" {
      PlainIsCode(a);
      PlainIsCode(a + b);
      hide DataLen;
      PlainFlow(a[1..], b, d);
    }
  }

  lemma PlainIsCode(s: string)
    requires s != "" && (IsPlain(s[0]) || Opens(s[0]) || Closes(s[0]) || s[0] == ',')
    ensures DataLen(s) == 0
  {
  }

  /** An argument text: scanned from depth 1 it returns to depth 1 without ending. */
  predicate IsArgument(a: string) {
    Cut(a, ",") && Flow(a, 1) == Some(1)
  }

  predicate IsTail(t: string) {
    t == "" || (t[0] == ',' && IsArgument(t[1..]))
  }

  lemma ArgumentFlow(a: string, b: string, d: nat)
    requires IsArgument(a) && 1 <= d && (b == "" || Neutral(b[0]))
    ensures Cut(a, b) && Flow(a, d) == Some(d)
  {
    hide Cut, Flow;
    CutReplace(a, ",", b);
    FlowShift(a, 1, d - 1);
  }

  lemma OneCut(c: char, b: string, d: nat)
    requires Opens(c) || Closes(c) || c == ','
    ensures Cut([c], b)
    ensures !Stops(c, d) ==> Flow([c], d) == Some(Depth(c, d))
  {
    PlainIsCode([c]);
    PlainIsCode([c] + b);
    hide DataLen;
    assert Cut([c][1..], b);
    if !Stops(c, d) {
      assert Flow([c][1..], Depth(c, d)) == Some(Depth(c, d));
    }
  }

  lemma TailFlow(t: string, b: string, d: nat)
    requires IsTail(t) && 2 <= d && b != "" && Neutral(b[0])
    ensures Cut(t, b) && Flow(t, d) == Some(d)
  {
    hide Cut, Flow;
    if t == "" {
      PlainFlow(t, b, d);
    } else {
      OneCut(',', t[1..] + b, d);
      ArgumentFlow(t[1..], b, d);
      Seam([','], t[1..], b, d, d);
      assert t == [','] + t[1..];
    }
  }

  /** Two pieces in sequence. */
  lemma Seam(a: string, b: string, c: string, d: nat, e: nat)
    requires Cut(a, b + c) && Cut(b, c) && Flow(a, d) == Some(e)
    ensures Cut(a + b, c) && Flow(a + b, d) == Flow(b, e)
  {
    hide Cut, Flow;
    CutConcat(a, b, c);
    CutReplace(a, b + c, b);
    CutFlow(a, b, d);
  }

  /** A whole call: plain head, parenthesis, argument, tail, closing bracket. */
  lemma CallFlow(head: string, inner: string, t: string, c: char, b: string, d: nat)
    requires forall k :: 0 <= k < |head| ==> IsPlain(head[k])
    requires IsArgument(inner) && IsTail(t) && Closes(c) && 1 <= d
    ensures var call := head + "(" + inner + t + [c];
            Cut(call, b) && Flow(call, d) == Some(d)
  {
    hide Cut, Flow, IsArgument, IsTail;
    var b3 := [c] + b;
    var b2 := t + b3;
    var b1 := inner + b2;
    PlainFlow(head, "(" + b1, d);
    OneCut('(', b1, d);
    Seam(head, "(", b1, d, d);
    TailHead(t, b3);
    ArgumentFlow(inner, b2, d + 1);
    Seam(head + "(", inner, b2, d, d + 1);
    TailFlow(t, b3, d + 1);
    Seam(head + "(" + inner, t, b3, d, d + 1);
    OneCut(c, b, d + 1);
    Seam(head + "(" + inner + t, [c], b, d, d + 1);
  }

  lemma TailHead(t: string, b: string)
    requires IsTail(t) && b != "" && Neutral(b[0])
    ensures t + b != "" && Neutral((t + b)[0])
  {
  }

  predicate WellFormed(call: Call) {
    && IsArgument(call.inner) && !AllSpace(call.inner)
    && call.typeArgument != "" && IsTail(call.typeArgument) && Closes(call.close)
  }

  function CallText(call: Call): string {
    call.inner + call.typeArgument + [call.close] + call.rest
  }

  /** Reading a call gives well-formed parts ... */
  lemma CallParts(t: string)
    requires CallOf(t).Some?
    ensures WellFormed(CallOf(t).value) && t == CallText(CallOf(t).value)
  {
    hide Cut, Flow, Stop, DataLen;
    var (comma, close) := Bounds(t).value;
    var after := t[comma + 1..];
    var k := close - comma - 1;
    StopFlow(t, 1);
    StopFlow(after, 1);
    CutReplace(t[..comma], t[comma..], ",");
    CutReplace(after[..k], after[k..], ",");
    assert t[comma..close][1..] == after[..k];
    assert after[k] == t[close];
  }

  /** ... and well-formed parts, written out, are read back. */
  lemma CallBack(call: Call)
    requires WellFormed(call)
    ensures CallOf(CallText(call)) == Some(call)
  {
    hide Cut, Flow, Stop, CallText;
    CommaOfText(call);
    CloseOfText(call);
    CallTextParts(call);
  }

  lemma CommaOfText(call: Call)
    requires WellFormed(call)
    ensures Stop(CallText(call), 1) == Some(|call.inner|)
  {
    hide Cut, Flow, Stop;
    var middle := "," + call.typeArgument[1..] + [call.close] + call.rest;
    assert CallText(call) == call.inner + middle;
    CutReplace(call.inner, ",", middle);
    PlainIsCode(middle);
    FlowStop(call.inner, middle, 1);
  }

  lemma CloseOfText(call: Call)
    requires WellFormed(call)
    ensures Stop(CallText(call)[|call.inner| + 1..], 1) == Some(|call.typeArgument| - 1)
  {
    hide Cut, Flow, Stop;
    var tail, end := call.typeArgument[1..], [call.close] + call.rest;
    assert CallText(call)[|call.inner| + 1..] == tail + end;
    CutReplace(tail, ",", end);
    PlainIsCode(end);
    FlowStop(tail, end, 1);
  }

  lemma CallTextParts(call: Call)
    requires call.typeArgument != ""
    ensures var t, comma := CallText(call), |call.inner|;
            var close := comma + |call.typeArgument|;
            && close < |t| && t[..comma] == call.inner && t[comma..close] == call.typeArgument
            && t[close] == call.close && t[close + 1..] == call.rest
  {
  }

  /** A macro call at the head of s, taken apart. */
  lemma MacroParts(s: string) returns (head: string)
    requires |MACRO| <= |s| && EqualFold(s[..|MACRO|], MACRO) && MacroCall(s).Some?
    ensures WellFormed(MacroCall(s).value)
    ensures s == head + "(" + CallText(MacroCall(s).value)
    ensures forall k :: 0 <= k < |head| ==> IsPlain(head[k])
  {
    hide CallOf, WellFormed;
    var open := SkipBlanks(s, |MACRO|);
    head := s[..open];
    CallParts(s[open + 1..]);
    forall k | 0 <= k < open ensures IsPlain(head[k]) {
      if k < |MACRO| {
        MacroIsName();
        assert Lower(s[..|MACRO|][k]) == Lower(MACRO[k]) && IsNameByte(MACRO[k]);
      }
    }
  }

  /** A lowered argument is an argument again: same depth, no new comma, same seams. */
  lemma {:induction false} RewriteFlow(p: char, s: string, rt: bool, d: nat)
    requires Rewrite(p, s, rt).Some? && Cut(s, ",") && 1 <= d && Flow(s, d).Some?
    ensures Cut(Rewrite(p, s, rt).value, ",")
    ensures Flow(Rewrite(p, s, rt).value, d) == Flow(s, d)
    decreases |s|, 1
  {
    hide MACRO, FUNCTION, DataLen, Rewrite, WordAt;
    if s == "" {
      RewriteEmpty(p, rt);
    } else if DataLen(s) == 0 && MacroAt(p, s) {
      RewriteFlowMacro(p, s, rt, d);
    } else {
      CutHead(s, ",");
      var n := LexLen(s);
      var d' := if DataLen(s) > 0 then d else Depth(s[0], d);
      if DataLen(s) > 0 {
        RewriteData(p, s, rt);
      } else {
        RewriteCode(p, s, rt);
      }
      RewriteFlow(s[n - 1], s[n..], rt, d');
      FirstCopied(p, s, rt);
    }
  }

  /** The first lexeme of a lowered text, when it is no macro call. */
  lemma FirstCopied(p: char, s: string, rt: bool)
    requires s != "" && Rewrite(p, s, rt).Some? && (DataLen(s) > 0 || !MacroAt(p, s))
    ensures var n, r := LexLen(s), Rewrite(p, s, rt).value;
            var rest := Rewrite(s[n - 1], s[n..], rt);
            && rest.Some? && |r| >= n && r[..n] == s[..n] && r[n..] == rest.value
            && LexLen(r) == n && (DataLen(r) > 0 <==> DataLen(s) > 0)
            && (LexLen(s + ",") == n ==> LexLen(r + ",") == n)
  {
    hide MACRO, FUNCTION, DataLen, Rewrite, WordAt, MacroAt;
    var n := LexLen(s);
    if DataLen(s) > 0 {
      RewriteData(p, s, rt);
    } else {
      RewriteCode(p, s, rt);
    }
    RewriteHead(s[n - 1], s[n..], rt);
    var r' := Rewrite(s[n - 1], s[n..], rt).value;
    assert s == s[..n] + s[n..];
    LexemeStable(s[..n], s[n..], r');
    if LexLen(s + ",") == n {
      assert s + "," == s[..n] + (s[n..] + ",");
      assert (s[..n] + r') + "," == s[..n] + (r' + ",");
      LexemeStable(s[..n], s[n..] + ",", r' + ",");
    }
  }

  lemma MacroSource(p: char, s: string) returns (head: string)
    requires MacroAt(p, s) && |MACRO| <= |s| && MacroCall(s).Some?
    ensures forall k :: 0 <= k < |head| ==> IsPlain(head[k])
    ensures var call := MacroCall(s).value;
            && IsArgument(call.inner) && IsTail(call.typeArgument) && Closes(call.close)
            && s == head + "(" + call.inner + call.typeArgument + [call.close] + call.rest
  {
    hide MACRO, MacroCall, IsArgument, IsTail, IsPlain, EqualFold;
    head := MacroParts(s);
    var call := MacroCall(s).value;
    assert head + "(" + CallText(call) == head + "(" + call.inner + call.typeArgument + [call.close] + call.rest;
  }

  /** The call of the source keeps depth and commas; what follows it is cut off by it. */
  lemma SourceFlow(s: string, head: string, call: Call, d: nat)
    requires forall k :: 0 <= k < |head| ==> IsPlain(head[k])
    requires IsArgument(call.inner) && IsTail(call.typeArgument) && Closes(call.close) && 1 <= d
    requires s == head + "(" + call.inner + call.typeArgument + [call.close] + call.rest && Cut(s, ",")
    ensures Flow(s, d) == Flow(call.rest, d) && Cut(call.rest, ",")
  {
    hide *;
    var was := head + "(" + call.inner + call.typeArgument + [call.close];
    CallFlow(head, call.inner, call.typeArgument, call.close, call.rest, d);
    CallFlow(head, call.inner, call.typeArgument, call.close, call.rest + ",", d);
    CutFlow(was, call.rest, d);
    ThenIs(d, call.rest);
    CutConcat(was, call.rest, ",");
  }

  lemma ThenIs(d: nat, b: string)
    ensures Then(Some(d), b) == Flow(b, d)
  {
    hide Flow;
  }

  lemma {:induction false} RewriteFlowMacro(p: char, s: string, rt: bool, d: nat)
    requires s != "" && DataLen(s) == 0 && MacroAt(p, s)
    requires Rewrite(p, s, rt).Some? && Cut(s, ",") && 1 <= d && Flow(s, d).Some?
    ensures Cut(Rewrite(p, s, rt).value, ",")
    ensures Flow(Rewrite(p, s, rt).value, d) == Flow(s, d)
    decreases |s|, 0
  {
    hide *;
    RewriteMacro(p, s, rt);
    var call := MacroCall(s).value;
    var inner, rest := Rewrite(' ', call.inner, rt).value, Rewrite(call.close, call.rest, rt).value;
    var head := MacroSource(p, s);
    SourceFlow(s, head, call, d);
    ArgumentKept(' ', call.inner, rt);
    RewriteFlow(call.close, call.rest, rt, d);
    LoweredSource(inner, call, rt, rest, d);
  }

  /** The lowered call keeps depth and commas as well. */
  lemma LoweredSource(inner: string, call: Call, rt: bool, rest: string, d: nat)
    requires IsArgument(inner) && IsTail(call.typeArgument) && 1 <= d && Cut(rest, ",")
    ensures var now := Lowered(inner, call.typeArgument, rt);
            Cut(now + rest, ",") && Flow(now + rest, d) == Flow(rest, d)
  {
    hide *;
    var now := Lowered(inner, call.typeArgument, rt);
    LoweredFlow(inner, call.typeArgument, rt, rest + ",", d);
    LoweredFlow(inner, call.typeArgument, rt, rest, d);
    CutConcat(now, rest, ",");
    CutFlow(now, rest, d);
    ThenIs(d, rest);
  }

  lemma {:induction false} ArgumentKept(p: char, a: string, rt: bool)
    requires IsArgument(a) && Rewrite(p, a, rt).Some?
    ensures IsArgument(Rewrite(p, a, rt).value)
    decreases |a|, 2
  {
    RewriteFlow(p, a, rt, 1);
  }

  lemma LoweredFlow(inner: string, t: string, rt: bool, b: string, d: nat)
    requires IsArgument(inner) && IsTail(t) && 1 <= d
    ensures Cut(Lowered(inner, t, rt), b) && Flow(Lowered(inner, t, rt), d) == Some(d)
  {
    MacroIsName();
    hide MACRO, Cut, Flow, IsArgument;
    if rt {
      CallFlow("", inner, "", ')', b, d);
      assert "" + "(" + inner + "" + [')'] == Lowered(inner, t, rt);
    } else {
      hide FUNCTION;
      CallFlow(FUNCTION, inner, t, ')', b, d);
      assert FUNCTION + "(" + inner + t + [')'] == Lowered(inner, t, rt);
    }
  }

  // ----- erasing the resolver form gives the runtime form -----

  /** An independent reading of resolver SQL that drops every internal call. */
  function Erase(prev: char, s: string): Option<string>
    decreases |s|
  {
    if s == "" then Some("")
    else if DataLen(s) > 0 then
      var n := DataLen(s);
      var rest :- Erase(s[n - 1], s[n..]);
      Some(s[..n] + rest)
    else if !WordAt(prev, s, FUNCTION) then
      var rest :- Erase(s[0], s[1..]);
      Some([s[0]] + rest)
    else if |s| == |FUNCTION| || s[|FUNCTION|] != '(' then None
    else
      var call :- CallOf(s[|FUNCTION| + 1..]);
      var inner :- Erase(' ', call.inner);
      var rest :- Erase(call.close, call.rest);
      Some("(" + inner + ")" + rest)
  }

  lemma {:induction false} BothAccept(p: char, s: string)
    ensures Rewrite(p, s, false).Some? <==> Rewrite(p, s, true).Some?
    decreases |s|
  {
    hide MACRO, FUNCTION, WordAt, DataEnd, MacroCall, Lowered;
    if s != "" {
      if DataLen(s) > 0 {
        BothAccept(s[DataLen(s) - 1], s[DataLen(s)..]);
      } else if WordAt(p, s, FUNCTION) {
      } else if !MacroAt(p, s) {
        BothAccept(s[0], s[1..]);
      } else {
        MacroFits(p, s);
        var call := MacroCall(s);
        if call.Some? {
          BothAccept(' ', call.value.inner);
          BothAccept(call.value.close, call.value.rest);
        }
      }
    }
  }

  lemma {:induction false} BlankKept(p: char, s: string, rt: bool)
    requires Rewrite(p, s, rt).Some? && AllSpace(Rewrite(p, s, rt).value)
    ensures AllSpace(s)
    decreases |s|
  {
    hide MACRO, FUNCTION, Rewrite, WordAt, DataEnd, MacroCall;
    if s != "" {
      RewriteHead(p, s, rt);
      var r := Rewrite(p, s, rt).value;
      if DataLen(s) > 0 {
        RewriteData(p, s, rt);
        assert r[0] == s[0];
        DataIsNoSpace(s);
      } else if MacroAt(p, s) {
        RewriteMacro(p, s, rt);
        var call := MacroCall(s).value;
        LoweredStart(Rewrite(' ', call.inner, rt).value, call.typeArgument, rt);
      } else {
        RewriteCode(p, s, rt);
        var r' := Rewrite(s[0], s[1..], rt).value;
        assert forall i :: 0 <= i < |r'| ==> r'[i] == r[i + 1];
        BlankKept(s[0], s[1..], rt);
        assert forall i :: 1 <= i < |s| ==> s[i] == s[1..][i - 1];
        assert s[0] == r[0];
      }
    }
  }

  lemma DataIsNoSpace(s: string)
    requires DataLen(s) > 0
    ensures !IsSpace(s[0])
  {
  }

  lemma LoweredStart(inner: string, t: string, rt: bool)
    ensures var c := Lowered(inner, t, rt); c != "" && !IsSpace(c[0])
  {
  }

  lemma ErasePrevious(p: char, q: char, s: string)
    requires !IsIdentByte(p) && !IsIdentByte(q)
    ensures Erase(p, s) == Erase(q, s)
  {
    hide MACRO, FUNCTION, DataLen, CallOf;
  }

  /** Main result: the resolver form without its internal calls is the runtime form. */
  lemma {:induction false} EraseResolver(p: char, s: string)
    requires Rewrite(p, s, false).Some?
    ensures Erase(p, Rewrite(p, s, false).value) == Rewrite(p, s, true)
    decreases |s|
  {
    hide MACRO, FUNCTION, DataLen, Rewrite, WordAt, MacroCall, CallOf;
    BothAccept(p, s);
    if s == "" {
      RewriteEmpty(p, false);
      RewriteEmpty(p, true);
    } else if DataLen(s) == 0 && MacroAt(p, s) {
      EraseResolverMacro(p, s);
    } else {
      FirstCopied(p, s, false);
      var n := LexLen(s);
      EraseResolver(s[n - 1], s[n..]);
      if DataLen(s) > 0 {
        RewriteData(p, s, true);
      } else {
        RewriteCode(p, s, true);
        RewriteCode(p, s, false);
        MacroIsName();
        WordKept(p, s, false, FUNCTION);
      }
    }
  }

  lemma {:induction false} EraseResolverMacro(p: char, s: string)
    requires s != "" && DataLen(s) == 0 && MacroAt(p, s) && Rewrite(p, s, false).Some?
    ensures Erase(p, Rewrite(p, s, false).value) == Rewrite(p, s, true)
    decreases |s|, 0
  {
    hide MACRO, FUNCTION, DataLen, Rewrite, CallOf, CallText, IsArgument, IsTail;
    BothAccept(p, s);
    RewriteMacro(p, s, false);
    RewriteMacro(p, s, true);
    var call := MacroCall(s).value;
    var head := MacroParts(s);
    var inner, rest := Rewrite(' ', call.inner, false).value, Rewrite(call.close, call.rest, false).value;
    EraseResolver(' ', call.inner);
    EraseResolver(call.close, call.rest);
    ErasePrevious(call.close, ')', rest);
    ArgumentKept(' ', call.inner, false);
    if AllSpace(inner) {
      BlankKept(' ', call.inner, false);
    }
    var lowered := Call(inner, call.typeArgument, ')', rest);
    CallBack(lowered);
    EraseCall(p, lowered);
    LoweredText(lowered);
  }

  lemma LoweredText(call: Call)
    requires call.close == ')'
    ensures Lowered(call.inner, call.typeArgument, false) + call.rest == FUNCTION + "(" + CallText(call)
    ensures Lowered(call.inner, call.typeArgument, true) + call.rest == "(" + call.inner + ")" + call.rest
  {
    hide FUNCTION;
  }

  lemma EraseCall(p: char, call: Call)
    requires !IsIdentByte(p) && CallOf(CallText(call)) == Some(call)
    ensures var inner, rest := Erase(' ', call.inner), Erase(call.close, call.rest);
            Erase(p, FUNCTION + "(" + CallText(call)) ==
            if inner.None? || rest.None? then None
            else Some("(" + inner.value + ")" + rest.value)
  {
    hide CallOf, CallText;
    var s := FUNCTION + "(" + CallText(call);
    MacroIsName();
    PlainIsCode(s);
    hide DataLen;
    assert s[..|FUNCTION|] == FUNCTION;
    assert WordAt(p, s, FUNCTION);
    hide FUNCTION;
    assert s[|FUNCTION|] == '(' && s[|FUNCTION| + 1..] == CallText(call);
  }

  // ----- the runtime form is clean, so lowering it again is the identity -----

  /** No code byte of s starts the reserved function or an undotted macro. */
  predicate Clean(prev: char, s: string)
    decreases |s|
  {
    s == "" ||
    if DataLen(s) > 0 then Clean(s[DataLen(s) - 1], s[DataLen(s)..])
    else !WordAt(prev, s, FUNCTION) && !MacroAt(prev, s) && Clean(s[0], s[1..])
  }

  lemma {:induction false} CleanIsFixed(p: char, s: string, rt: bool)
    requires Clean(p, s)
    ensures Rewrite(p, s, rt) == Some(s)
    decreases |s|
  {
    hide MACRO, FUNCTION, DataEnd, WordAt, MacroCall, Lowered;
    if s != "" {
      var n := LexLen(s);
      CleanIsFixed(s[n - 1], s[n..], rt);
      assert s == s[..n] + s[n..] && s[..1] == [s[0]];
    }
  }

  lemma CleanPrevious(p: char, q: char, s: string)
    requires !IsNameByte(p) && !IsNameByte(q) && Clean(p, s)
    ensures Clean(q, s)
  {
    hide MACRO, FUNCTION, DataLen;
  }

  function Last(p: char, a: string): char {
    if a == "" then p else a[|a| - 1]
  }

  lemma {:induction false} CleanConcat(p: char, a: string, b: string)
    requires Clean(p, a) && Cut(a, b) && Clean(Last(p, a), b)
    requires b != "" ==> !IsNameByte(b[0])
    ensures Clean(p, a + b)
    decreases |a|
  {
    hide MACRO, FUNCTION, DataLen, WordAt;
    if a == "" {
      assert a + b == b;
    } else {
      CutHead(a, b);
      var n := LexLen(a);
      assert (a + b)[n..] == a[n..] + b;
      CleanConcat(a[n - 1], a[n..], b);
      WordsConcat(p, a, b);
    }
  }

  lemma WordsConcat(p: char, a: string, b: string)
    requires b != "" ==> !IsNameByte(b[0])
    ensures WordAt(p, a, FUNCTION) <==> WordAt(p, a + b, FUNCTION)
    ensures MacroAt(p, a) <==> MacroAt(p, a + b)
  {
    MacroIsName();
    hide MACRO, FUNCTION, WordAt;
    NameLenConcat(a, b);
    assert (a + b)[..NameLen(a)] == a[..NameLen(a)];
    WordSame(p, a, a + b, MACRO);
    WordSame(p, a, a + b, FUNCTION);
  }

  lemma {:induction false} NameLenConcat(a: string, b: string)
    requires b != "" ==> !IsNameByte(b[0])
    ensures NameLen(a + b) == NameLen(a)
    decreases |a|
  {
    if a == "" {
      assert a + b == b;
    } else {
      assert (a + b)[1..] == a[1..] + b;
      NameLenConcat(a[1..], b);
    }
  }

  lemma {:induction false} RuntimeIsClean(p: char, s: string)
    requires Rewrite(p, s, true).Some?
    ensures Clean(p, Rewrite(p, s, true).value)
    decreases |s|
  {
    hide MACRO, FUNCTION, DataLen, Rewrite, WordAt, MacroCall;
    if s == "" {
      RewriteEmpty(p, true);
    } else if DataLen(s) == 0 && MacroAt(p, s) {
      RuntimeIsCleanMacro(p, s);
    } else {
      FirstCopied(p, s, true);
      var n := LexLen(s);
      RuntimeIsClean(s[n - 1], s[n..]);
      var r := Rewrite(p, s, true).value;
      assert r[n - 1] == r[..n][n - 1] == s[n - 1];
      if DataLen(s) == 0 {
        RewriteCode(p, s, true);
        MacroIsName();
        WordKept(p, s, true, FUNCTION);
        WordKept(p, s, true, MACRO);
      }
    }
  }

  lemma {:induction false} RuntimeIsCleanMacro(p: char, s: string)
    requires s != "" && DataLen(s) == 0 && MacroAt(p, s) && Rewrite(p, s, true).Some?
    ensures Clean(p, Rewrite(p, s, true).value)
    decreases |s|, 0
  {
    hide MACRO, FUNCTION, DataLen, Rewrite, CallText, Cut, IsTail, Clean;
    RewriteMacro(p, s, true);
    var call := MacroCall(s).value;
    var head := MacroParts(s);
    var inner, rest := Rewrite(' ', call.inner, true).value, Rewrite(call.close, call.rest, true).value;
    RuntimeIsClean(' ', call.inner);
    RuntimeIsClean(call.close, call.rest);
    ArgumentKept(' ', call.inner, true);
    LoweredText(Call(inner, call.typeArgument, ')', rest));
    CleanPrevious(call.close, ')', rest);
    CleanBracket(Last('(', inner), ')', rest);
    CutReplace(inner, ",", ")" + rest);
    CleanPrevious(' ', '(', inner);
    CleanConcat('(', inner, ")" + rest);
    CleanBracket(p, '(', inner + (")" + rest));
    assert "(" + (inner + (")" + rest)) == "(" + inner + ")" + rest;
  }

  lemma CleanBracket(p: char, c: char, s: string)
    requires (Opens(c) || Closes(c)) && Clean(c, s)
    ensures Clean(p, [c] + s)
  {
    MacroIsName();
    PlainIsCode([c] + s);
    NotAWord(p, [c] + s, MACRO);
    NotAWord(p, [c] + s, FUNCTION);
    hide MACRO, FUNCTION, DataLen, WordAt;
    assert ([c] + s)[1..] == s;
  }

  // ----- the statements about whole sources -----

  /** Both lowerings accept the same sources, and the resolver form erases to the runtime form. */
  lemma LoweringsAgree(sql: string)
    ensures Rewrite(' ', sql, false).Some? <==> Rewrite(' ', sql, true).Some?
    ensures Rewrite(' ', sql, false).Some? ==>
              Erase(' ', Rewrite(' ', sql, false).value) == Rewrite(' ', sql, true)
  {
    hide Rewrite, Erase;
    BothAccept(' ', sql);
    if Rewrite(' ', sql, false).Some? {
      EraseResolver(' ', sql);
    }
  }

  /** Runtime SQL holds no macro at a code position; either lowering of it changes nothing. */
  lemma RuntimeIsFixed(sql: string, rt: bool)
    requires Rewrite(' ', sql, true).Some?
    ensures var t := Rewrite(' ', sql, true).value;
            Clean(' ', t) && Rewrite(' ', t, rt) == Some(t)
  {
    hide Rewrite, Clean;
    RuntimeIsClean(' ', sql);
    CleanIsFixed(' ', Rewrite(' ', sql, true).value, rt);
  }
}
