/**
 The text of a composed query: parts between control lines, some of them owned by an
 option.  A part that is off leaves its line breaks behind, so that every variant has
 the same lines.
 */
module CompositionText {
  import opened Wrappers
  import opened SqlLexer
  import opened TextLines
  import opened NamedArguments
  import opened Composition
  import opened CompositionDispatch

  const DIRECTIVE: string := "-- chgen:"
  const IF: string := "-- chgen:if"
  const END: string := "-- chgen:end"
  const ELSE: string := "-- chgen:else"
  const IF_FIELD: string := "chgen:if"

  /** What the comment at some offset means for the composition. */
  datatype Control = NoControl | Bad | End | If(option: string)

  predicate IsOptionName(name: string) {
    IsGoIdentifier(name) && 'A' <= name[0] <= 'Z'
  }

  function LineStart(s: string, i: nat): (k: nat)
    requires i <= |s|
    ensures k <= i
  {
    if i == 0 || s[i - 1] == '\n' then i else LineStart(s, i - 1)
  }

  /** A directive stands alone on its line. */
  predicate DirectiveAt(s: string, i: nat)
    requires i < |s|
  {
    DIRECTIVE <= s[i..] && AllSpace(s[LineStart(s, i)..i])
  }

  function ControlAt(s: string, i: nat): (c: Control)
    requires i < |s|
    ensures c.If? ==> IsOptionName(c.option)
  {
    if !DirectiveAt(s, i) then NoControl
    else
      var line := Trim(s[i..DataEnd(s, i)]);
      if ELSE <= line then Bad
      else if !(IF <= line || END <= line) then NoControl
      else if line == END then End
      else
        var fields := Fields(line);
        if |fields| != 3 || fields[1] != IF_FIELD || !IsOptionName(fields[2]) then Bad else If(fields[2])
  }

  /** A text and the option that owns it; "" is no option. */
  datatype Part = Part(text: string, option: string)

  datatype Parsed = Parsed(parts: seq<Part>, controls: seq<string>, options: seq<string>)

  function Prepend(parts: seq<Part>, controls: seq<string>, rest: Option<Parsed>): Option<Parsed> {
    if rest.None? then None
    else Some(Parsed(parts + rest.value.parts, controls + rest.value.controls, rest.value.options))
  }

  function WithOption(options: seq<string>, name: string): seq<string> {
    if name in options then options else options + [name]
  }

  /** The parts of s from start on, when the scan stands at i inside a block of `active`. */
  function ParseFrom(s: string, i: nat, start: nat, active: string, options: seq<string>): (p: Option<Parsed>)
    requires start <= i <= |s|
    ensures p.Some? ==> |p.value.parts| == |p.value.controls| + 1
    decreases |s| - i
  {
    if i == |s| then
      if active != "" then None else Some(Parsed([Part(s[start..], "")], [], options))
    else match ControlAt(s, i)
      case NoControl => ParseFrom(s, Next(s, i), start, active, options)
      case Bad => None
      case End =>
        if active == "" then None
        else Prepend([Part(s[start..i], active)], [s[i..DataEnd(s, i)]],
                     ParseFrom(s, Next(s, i), DataEnd(s, i), "", options))
      case If(name) =>
        if active != "" then None
        else Prepend([Part(s[start..i], "")], [s[i..DataEnd(s, i)]],
                     ParseFrom(s, Next(s, i), DataEnd(s, i), name, WithOption(options, name)))
  }

  method ParseConditionalSQL(sql: string) returns (parsed: Option<Parsed>)
    ensures parsed == ParseFrom(sql, 0, 0, "", [])
  {
    hide ControlAt, DataEnd, WithOption, Prepend;
    var parts, options := [], [];
    var controls := [];
    var start, active, i := 0, "", 0;
    PrependPrepend([], [], [], [], ParseFrom(sql, 0, 0, "", []));
    while i < |sql|
      invariant start <= i <= |sql|
      invariant Prepend(parts, controls, ParseFrom(sql, i, start, active, options)) == ParseFrom(sql, 0, 0, "", [])
      decreases |sql| - i
    {
      var end := SqlDataEnd(sql, i);
      var next := if end > i then end else i + 1;
      var control := ControlAt(sql, i);
      if control.Bad? || (control.End? && active == "") || (control.If? && active != "") {
        PrependNone(parts, controls);
        return None;
      }
      if control.End? || control.If? {
        var part := Part(sql[start..i], active);
        var text := sql[i..end];
        if control.End? {
          PrependPrepend(parts, [part], controls, [text], ParseFrom(sql, next, end, "", options));
          active := "";
        } else {
          PrependPrepend(parts, [part], controls, [text],
                         ParseFrom(sql, next, end, control.option, WithOption(options, control.option)));
          active := control.option;
          options := WithOption(options, control.option);
        }
        parts := parts + [part];
        controls := controls + [text];
        start := end;
      }
      i := next;
    }
    if active != "" {
      PrependNone(parts, controls);
      return None;
    }
    var last := Part(sql[start..], "");
    PrependLast(parts, controls, last, options);
    return Some(Parsed(parts + [last], controls, options));
  }

  lemma PrependPrepend(a: seq<Part>, b: seq<Part>, c: seq<string>, d: seq<string>, rest: Option<Parsed>)
    ensures Prepend(a, c, Prepend(b, d, rest)) == Prepend(a + b, c + d, rest)
    ensures Prepend([], [], rest) == rest
  {
    if rest.Some? {
      assert a + (b + rest.value.parts) == (a + b) + rest.value.parts;
      assert c + (d + rest.value.controls) == (c + d) + rest.value.controls;
      assert [] + rest.value.parts == rest.value.parts && [] + rest.value.controls == rest.value.controls;
    }
  }

  lemma PrependNone(a: seq<Part>, c: seq<string>)
    ensures Prepend(a, c, None) == None
  {
  }

  lemma PrependLast(a: seq<Part>, c: seq<string>, last: Part, options: seq<string>)
    ensures Prepend(a, c, Some(Parsed([last], [], options))) == Some(Parsed(a + [last], c, options))
  {
    assert c + [] == c;
  }

  // ----- the text of a variant -----

  predicate Enabled(option: string, options: seq<string>, mask: nat)
    requires option == "" || option in options
  {
    option == "" || Bit(mask, IndexIn(options, option))
  }

  predicate Listed(parts: seq<Part>, options: seq<string>) {
    forall k :: 0 <= k < |parts| ==> parts[k].option == "" || parts[k].option in options
  }

  function LineBreaks(n: nat): (s: string)
    ensures |s| == n && forall k :: 0 <= k < n ==> s[k] == '\n'
  {
    seq(n, _ => '\n')
  }

  function Piece(part: Part, options: seq<string>, mask: nat): string
    requires part.option == "" || part.option in options
  {
    if Enabled(part.option, options, mask) then part.text else LineBreaks(Newlines(part.text))
  }

  function Expand(parts: seq<Part>, options: seq<string>, mask: nat): string
    requires Listed(parts, options)
  {
    if parts == [] then ""
    else Expand(parts[..|parts| - 1], options, mask) + Piece(parts[|parts| - 1], options, mask)
  }

  method CompositionSQL(parts: seq<Part>, options: seq<string>, mask: nat) returns (sql: string)
    requires Listed(parts, options)
    ensures sql == Trim(Expand(parts, options, mask))
  {
    hide Bit, Trim, Newlines;
    var text := "";
    for k := 0 to |parts|
      invariant text == Expand(parts[..k], options, mask)
    {
      var part := parts[k];
      assert parts[..k + 1][..k] == parts[..k];
      if part.option == "" || Bit(mask, IndexIn(options, part.option)) {
        text := text + part.text;
      } else {
        text := text + LineBreaks(Newlines(part.text));
      }
    }
    assert parts[..|parts|] == parts;
    return Trim(text);
  }

  /** The parts with their control lines between them. */
  function Interleave(parts: seq<Part>, controls: seq<string>): string
    requires |parts| == |controls| + 1
  {
    if controls == [] then parts[0].text
    else parts[0].text + controls[0] + Interleave(parts[1..], controls[1..])
  }

  lemma InterleaveStep(part: Part, control: string, parts: seq<Part>, controls: seq<string>)
    requires |parts| == |controls| + 1
    ensures Interleave([part] + parts, [control] + controls) == part.text + control + Interleave(parts, controls)
  {
    assert ([part] + parts)[1..] == parts && ([control] + controls)[1..] == controls;
  }

  /** The parts and the control lines are the source, cut in order. */
  lemma {:induction false} PartsAreTheSource(s: string, i: nat, start: nat, active: string, options: seq<string>)
    requires start <= i <= |s|
    ensures var p := ParseFrom(s, i, start, active, options);
            p.Some? ==> Interleave(p.value.parts, p.value.controls) == s[start..]
    decreases |s| - i
  {
    hide ControlAt, DataEnd, WithOption, Interleave;
    if i == |s| {
      LastPart(s[start..]);
    } else {
      var control, next := ControlAt(s, i), Next(s, i);
      if control.NoControl? {
        PartsAreTheSource(s, next, start, active, options);
      } else if (control.End? && active != "") || (control.If? && active == "") {
        var end := DataEnd(s, i);
        var now := if control.If? then control.option else "";
        var then' := if control.If? then WithOption(options, now) else options;
        PartsAreTheSource(s, next, end, now, then');
        var rest := ParseFrom(s, next, end, now, then');
        if rest.Some? {
          InterleaveStep(Part(s[start..i], active), s[i..end], rest.value.parts, rest.value.controls);
          CutTwice(s, start, i, end);
        }
      }
    }
  }

  lemma LastPart(text: string)
    ensures Interleave([Part(text, "")], []) == text
  {
  }

  lemma CutTwice(s: string, start: nat, i: nat, end: nat)
    requires start <= i <= end <= |s|
    ensures s[start..i] + s[i..end] + s[end..] == s[start..]
  {
  }

  // ----- options -----

  /** Every name of a part is declared, and no name is declared twice. */
  lemma {:induction false} OptionsAreDeclared(s: string, i: nat, start: nat, active: string, options: seq<string>)
    requires start <= i <= |s| && Distinct(options) && (active == "" || active in options)
    ensures var p := ParseFrom(s, i, start, active, options);
            p.Some? ==>
              && options <= p.value.options && Distinct(p.value.options)
              && Listed(p.value.parts, p.value.options)
    decreases |s| - i
  {
    hide ControlAt, DataEnd;
    if i < |s| {
      var control, next := ControlAt(s, i), Next(s, i);
      if control.NoControl? {
        OptionsAreDeclared(s, next, start, active, options);
      } else if control.End? && active != "" {
        OptionsAreDeclared(s, next, DataEnd(s, i), "", options);
      } else if control.If? && active == "" {
        OptionsAreDeclared(s, next, DataEnd(s, i), control.option, WithOption(options, control.option));
      }
    }
  }

  // ----- lines -----

  lemma {:induction false} OnlyBreaks(s: string)
    requires forall k :: 0 <= k < |s| ==> s[k] == '\n'
    ensures Newlines(s) == |s|
  {
    if s != "" {
      OnlyBreaks(s[..|s| - 1]);
    }
  }

  lemma {:induction false} NoBreaks(s: string)
    requires '\n' !in s
    ensures Newlines(s) == 0
  {
    if s != "" {
      NoBreaks(s[..|s| - 1]);
    }
  }

  function Lines(parts: seq<Part>): nat {
    if parts == [] then 0 else Lines(parts[..|parts| - 1]) + Newlines(parts[|parts| - 1].text)
  }

  lemma {:induction false} ExpandLines(parts: seq<Part>, options: seq<string>, mask: nat)
    requires Listed(parts, options)
    ensures Newlines(Expand(parts, options, mask)) == Lines(parts)
  {
    hide Enabled, Newlines;
    if parts == [] {
      NoBreaks("");
    } else {
      var before, last := parts[..|parts| - 1], parts[|parts| - 1];
      ExpandLines(before, options, mask);
      OnlyBreaks(LineBreaks(Newlines(last.text)));
      NewlinesConcat(Expand(before, options, mask), Piece(last, options, mask));
    }
  }

  lemma {:induction false} LinesSplit(part: Part, parts: seq<Part>)
    ensures Lines([part] + parts) == Newlines(part.text) + Lines(parts)
    decreases |parts|
  {
    if parts == [] {
      assert [part] + parts == [part] && [part][..0] == [];
    } else {
      var all := [part] + parts;
      assert all[..|all| - 1] == [part] + parts[..|parts| - 1];
      LinesSplit(part, parts[..|parts| - 1]);
    }
  }

  function Breaks(controls: seq<string>): nat {
    if controls == [] then 0 else Newlines(controls[0]) + Breaks(controls[1..])
  }

  lemma {:induction false} InterleaveLines(parts: seq<Part>, controls: seq<string>)
    requires |parts| == |controls| + 1
    ensures Newlines(Interleave(parts, controls)) == Lines(parts) + Breaks(controls)
  {
    hide Newlines, Lines;
    LinesSplit(parts[0], parts[1..]);
    assert parts == [parts[0]] + parts[1..];
    if controls == [] {
      assert parts[1..] == [];
      NoLines();
    } else {
      InterleaveLines(parts[1..], controls[1..]);
      NewlinesConcat(parts[0].text, controls[0]);
      NewlinesConcat(parts[0].text + controls[0], Interleave(parts[1..], controls[1..]));
    }
  }

  lemma NoLines()
    ensures Lines([]) == 0
  {
  }

  /** A control text is one line: it breaks only at its end. */
  predicate OneLine(controls: seq<string>) {
    forall k :: 0 <= k < |controls| ==> controls[k] != "" && '\n' !in controls[k][..|controls[k]| - 1]
  }

  lemma {:induction false} CommentIsOneLine(s: string, i: nat)
    requires i < |s|
    ensures i < LineCommentEnd(s, i) <= |s| && '\n' !in s[i..LineCommentEnd(s, i) - 1]
    decreases |s| - i
  {
    var end := LineCommentEnd(s, i);
    if s[i] == '\n' {
      assert s[i..end - 1] == [];
    } else if i + 1 < |s| {
      CommentIsOneLine(s, i + 1);
      assert s[i..end - 1] == [s[i]] + s[i + 1..end - 1];
    }
  }

  lemma ControlIsOneLine(s: string, i: nat)
    requires i < |s| && !ControlAt(s, i).NoControl?
    ensures i < DataEnd(s, i) && '\n' !in s[i..DataEnd(s, i) - 1]
  {
    hide Trim, Fields, IsOptionName, AllSpace;
    var here := s[i..];
    assert here[0] == DIRECTIVE[0] && here[1] == DIRECTIVE[1];
    assert s[i] == here[0] && s[i + 1] == here[1];
    CommentIsOneLine(s, i);
  }

  lemma {:induction false} ControlsAreOneLine(s: string, i: nat, start: nat, active: string, options: seq<string>)
    requires start <= i <= |s|
    ensures var p := ParseFrom(s, i, start, active, options);
            p.Some? ==> OneLine(p.value.controls)
    decreases |s| - i
  {
    hide ControlAt, DataEnd, WithOption;
    if i < |s| {
      var control, next := ControlAt(s, i), Next(s, i);
      if control.NoControl? {
        ControlsAreOneLine(s, next, start, active, options);
      } else {
        ControlIsOneLine(s, i);
        var end := DataEnd(s, i);
        assert s[i..end][..end - i - 1] == s[i..end - 1];
        if control.End? && active != "" {
          ControlsAreOneLine(s, next, end, "", options);
        } else if control.If? && active == "" {
          ControlsAreOneLine(s, next, end, control.option, WithOption(options, control.option));
        }
      }
    }
  }

  /**
   Main result: the line breaks of a variant are those of the source without its control
   lines, whatever options the variant has.
   */
  lemma VariantsKeepLines(s: string, mask: nat)
    requires ParseFrom(s, 0, 0, "", []).Some?
    ensures var p := ParseFrom(s, 0, 0, "", []).value;
            && Listed(p.parts, p.options) && OneLine(p.controls)
            && Interleave(p.parts, p.controls) == s
            && Newlines(Expand(p.parts, p.options, mask)) + Breaks(p.controls) == Newlines(s)
  {
    hide ParseFrom, Expand, Newlines, Interleave;
    var p := ParseFrom(s, 0, 0, "", []).value;
    PartsAreTheSource(s, 0, 0, "", []);
    ControlsAreOneLine(s, 0, 0, "", []);
    OptionsAreDeclared(s, 0, 0, "", []);
    InterleaveLines(p.parts, p.controls);
    ExpandLines(p.parts, p.options, mask);
    assert s[0..] == s;
  }

  // ----- the variant that an argument is given -----

  /** The text that an argument asks for: the free parts, and those of its own options. */
  function Wanted(parts: seq<Part>, present: set<string>): string {
    if parts == [] then ""
    else
      var last := parts[|parts| - 1];
      Wanted(parts[..|parts| - 1], present)
      + if last.option == "" || last.option in present then last.text else LineBreaks(Newlines(last.text))
  }

  lemma {:induction false} ExpandIsWanted(parts: seq<Part>, options: seq<string>, mask: nat, present: set<string>)
    requires Listed(parts, options) && Distinct(options)
    requires forall b :: 0 <= b < |options| ==> Bit(mask, b) == (options[b] in present)
    ensures Expand(parts, options, mask) == Wanted(parts, present)
  {
    if parts != [] {
      hide Bit, Newlines;
      ExpandIsWanted(parts[..|parts| - 1], options, mask, present);
    }
  }

  /** Main result: the arm that an argument takes was checked with the text it asks for. */
  lemma ArmHasTheWantedText(s: string, tables: seq<TableChoice>, mask: nat, arg: Argument)
    requires ParseFrom(s, 0, 0, "", []).Some? && AllNonempty(tables)
    requires Matches(ParseFrom(s, 0, 0, "", []).value.options, tables, mask, arg)
    ensures var p := ParseFrom(s, 0, 0, "", []).value;
            Listed(p.parts, p.options) && Expand(p.parts, p.options, mask) == Wanted(p.parts, arg.present)
  {
    hide ParseFrom, Expand, Wanted, Bit, Bits, Matches;
    var p := ParseFrom(s, 0, 0, "", []).value;
    OptionsAreDeclared(s, 0, 0, "", []);
    MatchesMeans(p.options, tables, mask, arg);
    forall b | 0 <= b < |p.options| ensures Bit(mask, b) == (p.options[b] in arg.present) {
      BitsAre(mask, |p.options|, b);
    }
    ExpandIsWanted(p.parts, p.options, mask, arg.present);
  }

  function Texts(parts: seq<Part>): string {
    if parts == [] then "" else Texts(parts[..|parts| - 1]) + parts[|parts| - 1].text
  }

  /** With every option present, the variant is the source without its control lines. */
  lemma {:induction false} AllPresent(parts: seq<Part>, present: set<string>)
    requires forall k :: 0 <= k < |parts| ==> parts[k].option == "" || parts[k].option in present
    ensures Wanted(parts, present) == Texts(parts)
  {
    if parts != [] {
      AllPresent(parts[..|parts| - 1], present);
    }
  }
}
