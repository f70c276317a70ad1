/**
 Parser-only copies of schema SQL.  EXCHANGE TABLES is spelled as a RENAME of the same
 length, and SYSTEM WAIT VIEW is blanked; every byte offset stays where it was.
 */
module SchemaAdapters {
  import opened Wrappers
  import opened SqlLexer
  import opened SchemaTokens

  datatype Edit = Edit(start: nat, text: string)

  predicate Fits(e: Edit, n: nat) {
    e.start + |e.text| <= n
  }

  predicate AllFit(edits: seq<Edit>, n: nat) {
    forall k :: 0 <= k < |edits| ==> Fits(edits[k], n)
  }

  function Put(t: string, e: Edit): (r: string)
    requires Fits(e, |t|)
    ensures |r| == |t|
    ensures forall k :: 0 <= k < |t| ==>
              r[k] == if e.start <= k < e.start + |e.text| then e.text[k - e.start] else t[k]
  {
    t[..e.start] + e.text + t[e.start + |e.text|..]
  }

  function PutAll(t: string, edits: seq<Edit>): (r: string)
    requires AllFit(edits, |t|)
    ensures |r| == |t|
  {
    if edits == [] then t else Put(PutAll(t, edits[..|edits| - 1]), edits[|edits| - 1])
  }

  // ----- the statements that are recognised -----

  predicate IsWord(s: string, tokens: seq<Span>, k: nat, want: string) {
    k < |tokens| && tokens[k].start <= tokens[k].end <= |s| && EqualFold(s[tokens[k].start..tokens[k].end], want)
  }

  /** A statement that an adapter leaves alone, refuses, or rewrites. */
  datatype Shape = Other | Malformed | Recognised

  function ExchangeShape(s: string, tokens: seq<Span>): Shape {
    if !IsWord(s, tokens, 0, "EXCHANGE") then Other
    else if IsWord(s, tokens, 1, "DICTIONARIES") then Malformed
    else if && IsWord(s, tokens, 1, "TABLES") && IsWord(s, tokens, 3, "AND")
            && (|tokens| == 5 || (|tokens| == 8 && IsWord(s, tokens, 5, "ON") && IsWord(s, tokens, 6, "CLUSTER")))
    then Recognised
    else Malformed
  }

  /** schemaWaitViewIdentifier */
  predicate IsViewName(raw: string)
    requires raw != ""
  {
    if raw[0] == '`' || raw[0] == '"' then |raw| > 2
    else !('0' <= raw[0] <= '9') && forall i :: 0 <= i < |raw| ==> IsIdentByte(raw[i])
  }

  predicate IsViewNameAt(s: string, tokens: seq<Span>, k: nat) {
    && k < |tokens| && tokens[k].start < tokens[k].end <= |s|
    && IsViewName(s[tokens[k].start..tokens[k].end])
  }

  function WaitShape(s: string, tokens: seq<Span>): Shape {
    if !IsWord(s, tokens, 0, "SYSTEM") || !IsWord(s, tokens, 1, "WAIT") then Other
    else if && IsWord(s, tokens, 2, "VIEW")
            && (|tokens| == 4 || (|tokens| == 6 && IsWord(s, tokens, 4, ".")))
            && IsViewNameAt(s, tokens, 3) && (|tokens| == 6 ==> IsViewNameAt(s, tokens, 5))
    then Recognised
    else Malformed
  }

  function ShapeOf(s: string, st: Statement, adapter: Adapter): Shape {
    match adapter
    case Exchanges => ExchangeShape(s, st.tokens)
    case WaitViews => WaitShape(s, st.tokens)
  }

  // ----- what takes the place of a recognised statement -----

  function Spaces(n: nat): (r: string)
    ensures |r| == n && forall k :: 0 <= k < n ==> r[k] == ' '
  {
    seq(n, _ => ' ')
  }

  /** A shorter keyword, padded to the length of the one it stands for. */
  function Padded(span: Span, text: string): Edit
    requires span.start + |text| <= span.end
  {
    Edit(span.start, text + Spaces(span.end - span.start - |text|))
  }

  predicate IsBreak(c: char) {
    c == '\n' || c == '\r'
  }

  function Blanked(t: string): (r: string)
    ensures |r| == |t| && forall k :: 0 <= k < |t| ==> r[k] == if IsBreak(t[k]) then t[k] else ' '
  {
    seq(|t|, k requires 0 <= k < |t| => if IsBreak(t[k]) then t[k] else ' ')
  }

  predicate SpansFit(spans: seq<Span>, n: nat) {
    forall k :: 0 <= k < |spans| ==> spans[k].start <= spans[k].end <= n
  }

  function BlankEdits(s: string, spans: seq<Span>): (edits: seq<Edit>)
    requires SpansFit(spans, |s|)
    ensures |edits| == |spans| && AllFit(edits, |s|)
    ensures forall k :: 0 <= k < |spans| ==> edits[k] == Edit(spans[k].start, Blanked(s[spans[k].start..spans[k].end]))
  {
    seq(|spans|, k requires 0 <= k < |spans| => Edit(spans[k].start, Blanked(s[spans[k].start..spans[k].end])))
  }

  function EditsOf(s: string, st: Statement, adapter: Adapter): (edits: seq<Edit>)
    requires ShapeOf(s, st, adapter) == Recognised && SpansFit(st.tokens, |s|) && SpansFit(st.comments, |s|)
    ensures AllFit(edits, |s|)
  {
    match adapter
    case Exchanges => [Padded(st.tokens[0], "RENAME"), Padded(st.tokens[1], "TABLE"), Padded(st.tokens[3], "TO")]
    case WaitViews => BlankEdits(s, st.tokens + st.comments)
  }

  predicate AllSpansFit(ss: seq<Statement>, n: nat) {
    forall k :: 0 <= k < |ss| ==> SpansFit(ss[k].tokens, n) && SpansFit(ss[k].comments, n)
  }

  /** The text and the recorded statements; None when a statement is malformed. */
  datatype Adapted = Adapted(text: string, positions: set<nat>)

  function AdaptAll(s: string, ss: seq<Statement>, adapter: Adapter): (r: Option<Adapted>)
    requires AllSpansFit(ss, |s|)
    ensures r.Some? ==> |r.value.text| == |s|
  {
    if ss == [] then Some(Adapted(s, {}))
    else
      var before, last := AdaptAll(s, ss[..|ss| - 1], adapter), ss[|ss| - 1];
      if before.None? then None
      else match ShapeOf(s, last, adapter)
        case Malformed => None
        case Other => before
        case Recognised =>
          Some(Adapted(PutAll(before.value.text, EditsOf(s, last, adapter)),
                       before.value.positions + {last.tokens[0].start}))
  }

  lemma {:induction false} InOrderFits(s: string, ss: seq<Statement>, lo: nat)
    requires InOrder(s, ss, lo)
    ensures AllSpansFit(ss, |s|)
    decreases |ss|
  {
    if ss != [] {
      InOrderFits(s, ss[1..], ss[0].stop + 1);
      assert forall k :: 1 <= k < |ss| ==> ss[k] == ss[1..][k - 1];
    }
  }

  function StatementsOf(s: string, adapter: Adapter): (ss: Option<seq<Statement>>)
    ensures ss.Some? ==> ss.value != [] && InOrder(s, ss.value, 0) && AllSpansFit(ss.value, |s|)
  {
    StatementsAreInOrder(s, 0, adapter, [], [], 0);
    var ss := Statements(s, 0, adapter, [], []);
    assert ss.Some? ==> AllSpansFit(ss.value, |s|) by {
      if ss.Some? {
        InOrderFits(s, ss.value, 0);
      }
    }
    ss
  }

  function Adapt(s: string, adapter: Adapter): Option<Adapted> {
    var ss := StatementsOf(s, adapter);
    if ss.None? then None else AdaptAll(s, ss.value, adapter)
  }
}
