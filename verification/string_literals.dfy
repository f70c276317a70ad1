/**
 The two readings of a quoted literal.  The folder trims quotes from the raw text, the
 server decodes its escapes.  They give the same text exactly for a faithful literal.
 */
module StringLiterals {
  import opened Wrappers
  import opened ConstantCondition

  /** The escapes a string literal may hold; anything else is not decoded. */
  function Decode(raw: string): Option<string> {
    if raw == "" then Some("")
    else if raw[0] == '\\' then
      if |raw| == 1 then None
      else
        var c :- Escaped(raw[1]);
        var rest :- Decode(raw[2..]);
        Some([c] + rest)
    else if raw[0] == '\'' && |raw| > 1 && raw[1] == '\'' then
      var rest :- Decode(raw[2..]);
      Some(['\''] + rest)
    else
      var rest :- Decode(raw[1..]);
      Some([raw[0]] + rest)
  }

  function Escaped(c: char): Option<char> {
    if c == '\\' || c == '\'' || c == '"' then Some(c)
    else if c == 'n' then Some('\n')
    else if c == 'r' then Some('\r')
    else if c == 't' then Some('\t')
    else None
  }

  /** A literal of the text: every byte that has an escape is escaped. */
  function Written(text: string): string {
    if text == "" then "" else WrittenByte(text[0]) + Written(text[1..])
  }

  function WrittenByte(c: char): string {
    match c
    case '\\' => "\\\\"
    case '\'' => "\\'"
    case '"' => "\\\""
    case '\n' => "\\n"
    case '\r' => "\\r"
    case '\t' => "\\t"
    case _ => [c]
  }

  lemma EscapeIsRead(c: char, d: char, rest: string)
    requires Decode(rest).Some? && Escaped(d) == Some(c)
    ensures Decode(['\\', d] + rest) == Some([c] + Decode(rest).value)
  {
    hide Escaped;
    assert (['\\', d] + rest)[2..] == rest;
  }

  lemma PlainIsRead(c: char, rest: string)
    requires Decode(rest).Some? && c != '\\' && c != '\''
    ensures Decode([c] + rest) == Some([c] + Decode(rest).value)
  {
    hide Escaped;
    assert ([c] + rest)[1..] == rest;
  }

  lemma WrittenByteIsRead(c: char, rest: string)
    requires Decode(rest).Some?
    ensures Decode(WrittenByte(c) + rest) == Some([c] + Decode(rest).value)
  {
    hide Decode;
    if |WrittenByte(c)| == 2 {
      var d := WrittenByte(c)[1];
      assert WrittenByte(c) == ['\\', d];
      EscapeIsRead(c, d, rest);
    } else {
      PlainIsRead(c, rest);
    }
  }

  /** Every text has a literal, and it is read back. */
  lemma {:induction false} WrittenIsRead(text: string)
    ensures Decode(Written(text)) == Some(text)
  {
    hide Decode, WrittenByte;
    if text == "" {
      DecodeNothing();
    } else {
      WrittenIsRead(text[1..]);
      WrittenByteIsRead(text[0], Written(text[1..]));
      assert text == [text[0]] + text[1..];
    }
  }

  /** A backslash or a doubled quote starts at k. */
  predicate EscapeAt(raw: string, k: nat)
    requires k < |raw|
  {
    raw[k] == '\\' || (raw[k] == '\'' && k + 1 < |raw| && raw[k + 1] == '\'')
  }

  predicate HasEscape(raw: string) {
    exists k :: 0 <= k < |raw| && EscapeAt(raw, k)
  }

  predicate EndsInQuote(raw: string) {
    raw != "" && (raw[0] == '\'' || raw[|raw| - 1] == '\'')
  }

  /** No escape, no doubled quote, and no quote at either end. */
  predicate IsFaithful(raw: string) {
    !HasEscape(raw) && !EndsInQuote(raw)
  }

  lemma {:induction false} DecodeShrinks(raw: string)
    requires Decode(raw).Some?
    ensures |Decode(raw).value| <= |raw|
    ensures HasEscape(raw) ==> |Decode(raw).value| < |raw|
  {
    if raw != "" {
      var k := if raw[0] == '\\' || EscapeAt(raw, 0) then 2 else 1;
      DecodeShrinks(raw[k..]);
      if k == 1 && HasEscape(raw) {
        var j :| 0 <= j < |raw| && EscapeAt(raw, j);
        assert EscapeAt(raw[1..], j - 1);
      }
    }
  }

  lemma {:induction false} NoEscapeDecodes(raw: string)
    requires !HasEscape(raw)
    ensures Decode(raw) == Some(raw)
  {
    if raw != "" {
      assert !EscapeAt(raw, 0);
      forall k | 0 <= k < |raw[1..]|
        ensures !EscapeAt(raw[1..], k)
      {
        assert !EscapeAt(raw, k + 1);
      }
      NoEscapeDecodes(raw[1..]);
      assert raw == [raw[0]] + raw[1..];
    }
  }

  /** The bytes that the first decoded character takes. */
  function Taken(raw: string): (k: nat)
    requires raw != ""
    ensures k in {1, 2}
  {
    if raw[0] == '\\' || EscapeAt(raw, 0) then 2 else 1
  }

  lemma DecodeStep(raw: string)
    requires Decode(raw).Some? && raw != ""
    ensures var k := Taken(raw);
            && k <= |raw| && Decode(raw[k..]).Some? && |Decode(raw).value| == 1 + |Decode(raw[k..]).value|
            && Decode(raw).value[1..] == Decode(raw[k..]).value
            && (raw[0] == '\'' || (k == |raw| && raw[k - 1] == '\'') ==> Decode(raw).value[0] == '\'')
  {
  }

  lemma {:induction false} DecodeKeepsEnds(raw: string)
    requires Decode(raw).Some? && raw != ""
    ensures Decode(raw).value != ""
    ensures raw[0] == '\'' ==> Decode(raw).value[0] == '\''
    ensures raw[|raw| - 1] == '\'' ==> Decode(raw).value[|Decode(raw).value| - 1] == '\''
  {
    hide Decode, Taken;
    DecodeStep(raw);
    var k := Taken(raw);
    if raw[k..] != "" {
      DecodeKeepsEnds(raw[k..]);
    } else {
      assert Decode("") == Some("") by { DecodeNothing(); }
    }
  }

  lemma DecodeNothing()
    ensures Decode("") == Some("")
  {
  }

  lemma {:induction false} TrimLeftStarts(s: string)
    ensures TrimLeft(s) != "" ==> TrimLeft(s)[0] != '\''
    ensures s != "" && s[0] != '\'' ==> TrimLeft(s) == s
  {
    if s != "" && s[0] == '\'' {
      TrimLeftStarts(s[1..]);
    }
  }

  lemma {:induction false} TrimRightEnds(s: string)
    ensures TrimRight(s) != "" ==> TrimRight(s)[|TrimRight(s)| - 1] != '\'' && TrimRight(s)[0] == s[0]
    ensures s != "" && s[|s| - 1] != '\'' ==> TrimRight(s) == s
  {
    if s != "" && s[|s| - 1] == '\'' {
      TrimRightEnds(s[..|s| - 1]);
    }
  }

  lemma TrimmedHasNoEnds(raw: string)
    ensures !EndsInQuote(TrimQuotes(raw))
    ensures !EndsInQuote(raw) ==> TrimQuotes(raw) == raw
  {
    TrimLeftStarts(raw);
    TrimRightEnds(TrimLeft(raw));
  }

  /** The exact class of literals that the folder reads as the server does. */
  lemma FaithfulIff(raw: string)
    requires Decode(raw).Some?
    ensures TrimQuotes(raw) == Decode(raw).value <==> IsFaithful(raw)
  {
    hide Decode, TrimQuotes, HasEscape;
    TrimmedHasNoEnds(raw);
    if raw != "" {
      DecodeKeepsEnds(raw);
    }
    if EndsInQuote(raw) {
      assert EndsInQuote(Decode(raw).value);
    } else if HasEscape(raw) {
      DecodeShrinks(raw);
    } else {
      NoEscapeDecodes(raw);
    }
  }

  lemma FaithfulReads(raw: string)
    requires IsFaithful(raw)
    ensures Decode(raw) == Some(raw) && TrimQuotes(raw) == raw
  {
    NoEscapeDecodes(raw);
    TrimmedHasNoEnds(raw);
  }

  // ----- empty texts -----

  predicate OnlyQuotes(raw: string) {
    raw != "" && forall k :: 0 <= k < |raw| ==> raw[k] == '\''
  }

  lemma {:induction false} TrimLeftEmpty(raw: string)
    ensures TrimLeft(raw) == "" <==> raw == "" || OnlyQuotes(raw)
  {
    if raw != "" && raw[0] == '\'' {
      TrimLeftEmpty(raw[1..]);
      assert OnlyQuotes(raw) <==> raw[1..] == "" || OnlyQuotes(raw[1..]) by {
        assert forall k :: 1 <= k < |raw| ==> raw[k] == raw[1..][k - 1];
      }
    }
  }

  lemma {:induction false} TrimRightKeeps(s: string)
    requires s != "" && s[0] != '\''
    ensures TrimRight(s) != ""
  {
    if s[|s| - 1] == '\'' {
      TrimRightKeeps(s[..|s| - 1]);
    }
  }

  /** Trimming empties a literal made of quotes alone; decoding never does. */
  lemma EmptyReadings(raw: string)
    ensures TrimQuotes(raw) == "" <==> raw == "" || OnlyQuotes(raw)
    ensures Decode(raw).Some? ==> (Decode(raw).value == "" <==> raw == "")
    ensures OnlyQuotes(raw) ==> raw != ""
  {
    TrimLeftEmpty(raw);
    TrimLeftStarts(raw);
    if TrimLeft(raw) != "" {
      TrimRightKeeps(TrimLeft(raw));
    }
  }
}
