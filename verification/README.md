# Verified models of chgen

chgen compiles annotated ClickHouse SQL to typed Go. It decides everything offline: it rewrites
SQL text, folds conditions, expands optional blocks into a finite set of variants, infers result
types and replays schema migrations. This project models those decisions in Dafny 4.11 and proves
what they promise. `dafny verify dfyconfig.toml` checks it.

## What is modelled

| files | part of chgen |
|---|---|
| `sql_lexer`, `sql_cuts`, `code_bytes`, `text_lines` | the lexical discipline shared by all rewriters: quotes, line comments and block comments are data, everything else is code |
| `expression_contract*` | lowering `chgen.assumeType` contracts for the resolver and for the runtime |
| `case_operands*` | the parser-only copy with parentheses around signed CASE operands, and how it is scanned |
| `named_arguments*` | lowering named arguments to positions |
| `constant_condition*`, `string_literals` | the folder that decides which branch of a condition is dead, against a three-valued evaluator |
| `composition*`, `division` | optional blocks and table choices: text, numbering, merging, ownership, the generated switch and the tables in the text |
| `ch_types`, `aggregate_*` | aggregate combinators: the suffix grammar, argument plans, and the types of states and merges |
| `arithmetic*`, `integer_ranges` | result types of arithmetic, and the ranges of integer expressions |
| `comparison*` | the comparability relation over nested types |
| `catalog*` | schema migrations as a state machine over two catalogs, and what a refused ALTER leaves |
| `schema_*` | the parser-only adapters for EXCHANGE TABLES and SYSTEM WAIT VIEW, alone and one after the other |
| `json_*` | the structural diff of two observations and its pointers |
| `function_signature*` | accepted arities, the arities that probes try, and the forms that functions have |

A text is a sequence of characters, one per byte. Loops of the source are methods with
invariants, proved against a function; buffers that the source overwrites are arrays; the
composition and the catalogs are classes. A refusal is `None` or `false`.

## What the proofs show about the code

- The folder keeps NULL as 0. Under `not`, `isNull` and `ifNull` it is wrong for a `nullIf` of equal
  operands, unless `ifNull` puts a zero there, and right otherwise. A cast to Bool is read modulo 256, a cast to Float32 as exact, and a
  literal made of quotes alone as empty. Literals are compared as they are written, with the quotes at
  their ends cut off, so two spellings of one text fold to different. For each of these a lemma gives
  the exact condition. The soundness theorem leaves these nodes out, together with integers beyond 2^53
  and, outside of `empty` and a comparison of two literals, literals with escapes or quotes.
- The parser-only copy of a CASE keeps every quote and comment. Its closing parenthesis falls into a line
  comment when that ends, in a blank, right before WHEN; then, and only then, the parentheses do not balance.
- `-IfMerge` passes the stored condition to the base rule as data. This is visible only for
  `uniqCombined`, `argMin`, `argMax` and calls without data arguments, when the condition is Nullable.
- `-IfState` stores a marker around LowCardinality without reading it, so `-IfMerge` of a base that
  gives back its argument, alone or in an array, returns the marker, and the `-If` call does not.
- The comments at the measured combinator chains ask for a certain order of entries. No order
  matters: a suffix determines its chain.
- Arithmetic refuses an array of Nullable elements, but not one whose elements are markers around a
  Nullable: exactly then a result holds a Nullable inside an array.
- A Dynamic operand compares with every known array, also with an array of aggregate states. A Variant
  compares with itself and a marker with almost every known type, whatever they hold.
- The clauses of ALTER TABLE write into the published table. A refused one can leave a column that the
  order does not list, or an order with a name twice. The replay stops there, so no later step sees it.
- The comment of the wait-view adapter says that semicolons remain. One inside a quoted view name or a
  comment of the statement is blanked; all others stay.
- The root marker `/` of the structural diff is the RFC 6901 pointer to a member with an empty name, so
  it leads to a difference only if there is such a member.
- Every arity that a probe of a function signature expects to be refused is refused, for every function.
  For a form with a bounded repetition this could fail, but no constructor builds one.

## Model

| member | source | states |
|---|---|---|
| `SqlLexer.SkipQuoted` | internal/engine/annotations.go:366-382 | the end of a quoted region, over backslash escapes and doubled quotes; the text ends it when nothing else does |
| `SqlLexer.SkipWhitespace` | internal/engine/annotations.go:398-408 | the first byte that is no SQL blank |
| `SqlLexer.SqlDataEnd` | internal/engine/expression_contract.go:62-73 | the end of the quote or comment that starts at an offset, or the offset itself when code starts there |
| `SqlLexer.LexemeStable` | internal/engine/expression_contract.go:62-73 | a lexeme does not depend on the text behind it, as long as the next byte stays in its class |
| `SqlCuts.CutReplace` | internal/engine/expression_contract.go:20-26 | a seam between two lexemes stays one when the text behind it is exchanged for one with a similar head: the alignment on which every rewriting result rests |
| `CodeBytes.ReachesIsCode` | internal/engine/expression_contract.go:62-73 | the scanner stops exactly where a byte-by-byte automaton, written with the quote and comment bytes, reads code |
| `CodeBytes.CodeByteIs` | internal/engine/expression_contract.go:20-26 | a byte is taken for code exactly when that automaton reads it in code mode and stays there |
| `CodeBytes.WordIs` | internal/engine/parser_normalize.go:29 | a keyword is matched letter by letter in any case, with no name byte next to it |
| `ExpressionContract.RewriteExpressionContracts` | internal/engine/expression_contract.go:18-59 | the loop with its recursive calls computes the lowering of the whole text, in both modes, with the same refusals |
| `ExpressionContract.ExpressionContractBounds` | internal/engine/expression_contract.go:75-106 | the comma and the closing bracket of a macro call at depth one; none for a missing, empty or third argument |
| `ExpressionContractLaws.BoundsIff` | internal/engine/expression_contract.go:75-106 | these two places are returned if and only if they are the only code comma and the first code ) or ] at which the code bytes ( and [ and the code bytes ) and ] before them are equal in number, with text before the comma |
| `ExpressionContractLaws.ContractIsLowered` | internal/engine/expression_contract.go:34-56 | at chgen.assumeType in code, in any case and not behind a dot: the lowered argument in parentheses, for the resolver with __chgen_assume_type and the type, and then the rest |
| `ExpressionContractLaws.CopiedOrRefused` | internal/engine/expression_contract.go:20-33 | quoted text, comments and all other code are copied byte by byte; __chgen_assume_type in code is refused |
| `ExpressionContractLaws.OtherIsRefused` | internal/engine/expression_contract.go:34-42 | the macro name without such a call is refused |
| `ExpressionContractProofs.CallBack` | internal/engine/expression_contract.go:75-106 | any well-formed pair of arguments, written as a call, is cut back into the same two |
| `ExpressionContractProofs.CallParts` | internal/engine/expression_contract.go:75-106 | what is cut out of a call is well formed, and put together it is the call |
| `ExpressionContractProofs.RewriteFlow` | internal/engine/expression_contract.go:43-56 | lowering an argument changes neither its bracket depth nor its commas at depth one, so the enclosing call keeps its two arguments |
| `ExpressionContractProofs.BothAccept` | internal/engine/expression_contract.go:18-59 | the two modes accept the same texts |
| `ExpressionContractProofs.EraseResolver` | internal/engine/expression_contract.go:47-56 | erasing the internal calls of the resolver text gives the runtime text, at any offset and after any byte |
| `ExpressionContractProofs.LoweringsAgree` | internal/engine/expression_contract.go:18-59 | for every text, both lowerings accept or both refuse, and the resolver form without its internal calls is the runtime form |
| `ExpressionContractProofs.RuntimeIsClean` | internal/engine/expression_contract.go:27-34 | no undotted macro and no internal name is left in the code bytes of the runtime form |
| `ExpressionContractProofs.RuntimeIsFixed` | internal/engine/expression_contract.go:18-59 | lowering the runtime form again, in either mode, changes nothing |
| `CaseOperands.HorizontalPaddingBefore` | internal/engine/parser_normalize.go:67-77 | the last blank or tab before an offset, when only line breaks stand behind it |
| `CaseOperands.SimpleCaseWhenStart` | internal/engine/parser_normalize.go:82-128 | the WHEN that belongs to a CASE operand, with parentheses, brackets and nested CASE counted |
| `CaseOperands.NormalizeCasePrefixOperands` | internal/engine/parser_normalize.go:14-61 | the byte buffer written in place is the text with the planned parentheses; the two flags are those of the plan |
| `CaseOperandsLaws.CopyIff` | internal/engine/parser_normalize.go:14-80 | byte k of the copy is ( or ) if and only if a CASE in code, blanks, an operand that starts with +, - or NOT in any case, and the WHEN of that operand stand there with a blank to replace at k; every other byte is that of the source |
| `CaseOperandsLaws.WhenIff` | internal/engine/parser_normalize.go:82-128 | the WHEN of an operand is the first one in code with as many ( as ), [ as ] and CASE as END before it, and nothing closes too much earlier |
| `CaseOperandsLaws.UnsafeIff` | internal/engine/parser_normalize.go:42-46 | marked unsafe if and only if such a CASE has no space or tab to replace before its operand or its WHEN |
| `CaseOperandsLaws.PlusIff` | internal/engine/parser_normalize.go:47-49 | the plus flag is set if and only if an operand in inserted parentheses starts with + |
| `CaseOperandsProofs.DeeperIsLater` | internal/engine/parser_normalize.go:82-128 | a scan that starts deeper finds its WHEN strictly later |
| `CaseOperandsProofs.PairsAreNested` | internal/engine/parser_normalize.go:14-61 | any two inserted pairs, of CASE expressions nested in any way, are nested or apart |
| `CaseOperandsProofs.CasesAreCovered` | internal/engine/parser_normalize.go:14-61 | no CASE in code is passed over: its pair is planned, or the text is marked unsafe |
| `CaseOperandsProofs.ApplyAt` | internal/engine/parser_normalize.go:49-51 | writing the pairs one after the other puts each parenthesis on its own byte, so that no write undoes another |
| `CaseOperandsProofs.OperandIsBalanced` | internal/engine/parser_normalize.go:82-128 | between an operand and its WHEN the parentheses of the code are balanced |
| `CaseOperandsProofs.CopyIsParenthesised` | internal/engine/parser_normalize.go:14-61 | the copy has the length of the source; it differs only where an inserted parenthesis replaces a blank or tab; every pair is nested or apart and encloses an operand that is balanced in the source |
| `CaseOperandsCopy.CopyKeepsData` | internal/engine/parser_normalize.go:10-13 | at every offset the copy has the quotes and comments of the source, and the same bytes of it are code |
| `CaseOperandsCopy.InsertedIsCodeIff` | internal/engine/parser_normalize.go:67-77 | each inserted ( is code; an inserted ) is code if and only if the blank that it replaces lies in no line comment |
| `CaseOperandsCopy.PairBalances` | internal/engine/parser_normalize.go:14-61 | between a ( and its WHEN the code parentheses of the copy are short of one ) for each pair inside that closes in a line comment, so they balance if and only if there is none |
| `CaseOperandsCopy.CopyBalances` | internal/engine/parser_normalize.go:14-61 | the same for the whole text, when the source is balanced |
| `CaseOperandsCopy.ParenthesisIsSplit` | internal/engine/parser_normalize.go:67-77 | a text whose plan is accepted and whose ) ends up inside a comment |
| `NamedArguments.ParseNamedMacroAt` | internal/engine/annotations.go:328-364 | a macro call with one quoted Go identifier, blanks anywhere between its parts, or a refusal |
| `NamedArgumentsLaws.MacroIff` | internal/engine/annotations.go:328-364 | this name and this end are read if and only if the prefix stands there in any case, not behind a name byte or a dot, and then a parenthesised, single-quoted Go identifier with blanks anywhere between |
| `NamedArgumentsLaws.GoNameIs` | internal/engine/generator.go:126-128 | which names are accepted: letters, digits and underscores, no digit first, not the blank identifier and none of the 25 keywords |
| `NamedArgumentsLaws.MacroIsLowered` | internal/engine/annotations.go:290-326 | chgen.arg with a name becomes a question mark, and its name is the next of the list |
| `NamedArgumentsLaws.CopiedOrRefused` | internal/engine/annotations.go:290-326 | all else is copied, and chgen.arg without such a call is refused |
| `NamedArguments.NormalizeNamedArgs` | internal/engine/annotations.go:281-320 | the positional text and the list of names are those of the reference lowering |
| `NamedArguments.RejectRawPlaceholders` | internal/engine/annotations.go:239-275 | the source line of the first code-level question mark; none in an exec query |
| `NamedArgumentsProofs.CopiedLexeme` | internal/engine/annotations.go:286-306 | a quote, a comment or a code byte is copied verbatim and is one lexeme of the output again |
| `NamedArgumentsProofs.MarksAdded` | internal/engine/annotations.go:281-320 | the output has as many code-level question marks as the input plus the names |
| `NamedArgumentsProofs.BindNeeds` | internal/engine/annotations.go:281-320 | a text binds a list of names exactly when it has as many code-level question marks |
| `NamedArgumentsProofs.BindsByName` | internal/engine/annotations.go:281-320 | binding by position gives the text that names each placeholder, at any offset |
| `NamedArgumentsProofs.FirstMarkCounts` | internal/engine/annotations.go:239-275 | a query passes the placeholder check exactly when it has no code-level question mark |
| `NamedArgumentsProofs.PositionsAreNames` | internal/engine/annotations.go:239-320 | when the check passes, and only then, position k of the output is the k-th name of the source, for every query |
| `ConstantConditionProofs.FolderIsSound` | internal/engine/constant_condition.go:67-122 | when the folder reports a truth inside the exact fragment, the three-valued evaluator takes that branch on every row, or fails; under NOT and the null tests the value is not NULL either |
| `ConstantConditionComplete.ClosedIsDecided` | internal/engine/constant_condition.go:67-122 | a condition over literals is always folded, and to the truth that it has in every row: numbers under conversions that keep them, nullIf and ifNull, faithful texts under concat, true and false, comparisons, NOT, AND, OR and their calls, empty, isNull, toBool and casts to UInt8 and Bool |
| `ConstantConditionComplete.NumberFolds` | internal/engine/constant_condition.go:564-690 | a number of a comparison is folded to its value on the server, through every conversion that keeps it |
| `ConstantConditionComplete.NameFoldsIff` | internal/engine/constant_condition.go:68-85 | a name is constant if and only if it is true or false in any case and no column or scalar has it |
| `ConstantConditionComplete.TextOrder` | internal/engine/constant_condition.go:516-560 | two texts compare by the first byte in which they differ |
| `ConstantConditionComplete.ZeroDecidesAnd` | internal/engine/constant_condition.go:421-442 | one side over literals that is 0 makes AND false, as operator and as call and in both orders, whatever the other side is |
| `ConstantConditionComplete.OneDecidesOr` | internal/engine/constant_condition.go:443-454 | one side over literals that is not 0 makes OR true in the same way |
| `ConstantConditionComplete.ListOfItsOwn` | internal/engine/infer_function.go:151-171 | f(params)(args) is folded as f(args) in every role, whatever the parameters are, and a concat without arguments is no constant |
| `ConstantConditionProofs.ComparisonStands` | internal/engine/constant_condition.go:474-514 | a folded comparison is what the server compares: on numbers, on any pair of literals whose trimmed texts compare as the decoded ones, and on concats of faithful literals |
| `ConstantConditionProofs.ConcatStands` | internal/engine/constant_condition.go:691-732 | a folded concat of faithful literals is the text that the server concatenates |
| `ConstantConditionProofs.NumberStands` | internal/engine/constant_condition.go:570-670 | a folded number is the value of the expression after casts and negation |
| `ConstantConditionFamilies.NotNullIfAgrees` | internal/engine/constant_condition.go:270-311 | not(nullIf(a, b)) is folded correctly if and only if a and b differ |
| `ConstantConditionFamilies.IsNullAgrees` | internal/engine/constant_condition.go:256-311 | isNull(nullIf(a, b)) is folded correctly if and only if a and b differ |
| `ConstantConditionFamilies.IfNullAgrees` | internal/engine/constant_condition.go:297-325 | ifNull(nullIf(a, b), c) is folded correctly if and only if a and b differ or c is zero |
| `ConstantConditionFamilies.BoolCastAgrees` | internal/engine/constant_condition.go:221-237 | CAST(n AS Bool) is folded correctly if and only if n is zero or its low byte is not |
| `ConstantConditionFamilies.Float32Agrees` | internal/engine/constant_condition.go:643-670 | a comparison of CAST(n AS Float32) with n is folded correctly if and only if n survives rounding to 24 bits |
| `ConstantConditionFamilies.Float32Example` | internal/engine/constant_condition.go:643-670 | CAST(16777217 AS Float32) = 16777217 is folded wrong |
| `ConstantConditionFamilies.EmptyLiteralAgrees` | internal/engine/constant_condition.go:691-732 | empty of a literal is folded correctly if and only if the literal is not made of quotes alone |
| `ConstantConditionFamilies.LiteralsAgree` | internal/engine/constant_condition.go:474-514 | a comparison of two literals is folded correctly if and only if it is left open, or the trimmed texts compare as the decoded ones |
| `ConstantConditionFamilies.FaithfulAgree` | internal/engine/constant_condition.go:474-514 | two literals without escapes, doubled quotes and quotes at their ends are always compared correctly |
| `StringLiterals.FaithfulIff` | internal/engine/constant_condition.go:691-695 | a literal is read as the server reads it if and only if it has no escape, no doubled quote and no quote at either end |
| `StringLiterals.WrittenIsRead` | internal/engine/constant_condition.go:691-695 | the server reading that the folder is compared with gives back every text from the literal that escapes its quotes, backslashes, tabs and line breaks |
| `ConstantConditionFamilies.EscapeExample` | internal/engine/constant_condition.go:474-514 | an escaped tab against a tab: equal on the server, folded to different |
| `ConstantConditionFamilies.QuoteExample` | internal/engine/constant_condition.go:474-514 | a quote written in two ways: equal on the server, folded to different |
| `ConstantConditionFamilies.OuterQuoteExample` | internal/engine/constant_condition.go:474-514 | quotes at the ends of a text: different on the server, folded to equal |
| `ConstantConditionProofs.EmptyTextStands` | internal/engine/constant_condition.go:691-732 | empty of literals and concats is folded correctly when no literal is made of quotes alone, whatever else they hold |
| `Composition.CompositionVariantCount` | internal/engine/composition.go:111-128 | the variant count for exactly the compositions of at most 32 nameable variants, and a refusal for all others |
| `CompositionLaws.AdmissibleIff` | internal/engine/composition.go:111-128 | admitted if and only if there are at most 5 options, between 1 and 32 variants, and no name is used twice |
| `Composition.NumbersAreAssignments` | internal/engine/composition.go:67-75 | variant numbers below the count are in bijection with the choices of options and tables |
| `Composition.BitsAre` | internal/engine/composition.go:130-140 | digit b of a number is the bit that selects option b |
| `CompositionDispatch.SelectedTables` | internal/engine/composition.go:67-75 | the loop gives every slot the table that the number of the variant decodes to |
| `CompositionDispatch.RenderConditions` | internal/engine/composition_emit.go:104-119 | the tests of a generated switch arm, one per option and one per table slot |
| `CompositionDispatch.MatchesMeans` | internal/engine/composition_emit.go:104-119 | an arm matches when the non-nil options and the tables of the argument are those of its variant |
| `CompositionMergeLaws.HoldsIff` | internal/engine/composition_emit.go:104-119 | when a test of the switch holds: the field of the option, and the table that the slot names |
| `CompositionDispatch.DispatchIsExact` | internal/engine/composition_emit.go:104-119 | an arm matches exactly the arguments that name declared tables and encode to its number |
| `CompositionDispatch.DispatchIsTotal` | internal/engine/composition_emit.go:104-119 | every argument with declared tables has exactly one arm; any other argument has none and takes the default |
| `CompositionMerge.QueryComposition.Merge` | internal/engine/composition.go:276-352 | refuses exactly when variants disagree on results or parameter types; else the merged query, and the owners as a field of the composition |
| `CompositionMerge.QueryComposition.SetOwners` | internal/engine/composition.go:327-345 | after bit b the owner map holds the owned names of the first b + 1 options |
| `CompositionMerge.QueryComposition.IsOwned` | internal/engine/composition.go:331-344 | an option owns a name when the variants that use the name are exactly those with the option |
| `CompositionMerge.MergeMeans` | internal/engine/composition.go:294-322 | the recorded presence of a name is the set of variants whose parameters have it |
| `CompositionMerge.MergeShape` | internal/engine/composition.go:294-322 | a merged parameter has the type that every variant gives it |
| `CompositionMerge.CombineResults` | internal/engine/composition.go:283-293 | result columns combine when their names and types agree, in order |
| `CompositionMergeLaws.MergeIff` | internal/engine/composition.go:294-322 | the parameters of the variants merge if and only if no name has two shapes, and to the first parameter of each name in order |
| `CompositionMergeLaws.ResultsIff` | internal/engine/composition.go:283-293 | the columns merge if and only if every variant has the names and types of the first in their order, and a column is marked as asserted when any variant marks it |
| `CompositionAccess.ArmReads` | internal/engine/composition_emit.go:46-51 | the field paths that the body of an arm reads |
| `CompositionAccess.NoNilDereference` | internal/engine/composition_emit.go:46-163 | in every arm that an argument takes, each parameter read through an option finds that option non-nil |
| `CompositionAccess.OwnerIsUnique` | internal/engine/composition.go:327-345 | no name has two owning options |
| `CompositionMergeLaws.PathIff` | internal/engine/composition_emit.go:46-70 | a parameter is read and declared under an option if and only if the variants that use it are those with this option, and at the top when no option owns it |
| `CompositionAccess.RenderFields` | internal/engine/composition_emit.go:53-96 | the fields of one generated struct, in order |
| `CompositionAccess.DeclaredOnce` | internal/engine/composition_emit.go:53-96 | every merged parameter is declared in exactly one generated struct |
| `CompositionText.ParseConditionalSQL` | internal/engine/composition.go:150-196 | the parts of a source, their options, and a refusal for every ill-formed or unbalanced directive |
| `CompositionDirectives.AcceptedIff` | internal/engine/composition.go:150-196 | a source is accepted if and only if its directive lines are by turns an if with one exported name and an end, and the last is an end: no else, no malformed line, no nesting |
| `CompositionDirectives.ParseIsReading` | internal/engine/composition.go:150-196 | the parts are what stands between the directive lines, each with the name of the if before it, and the options are these names in order; all this from the words of the lines |
| `CompositionText.PartsAreTheSource` | internal/engine/composition.go:150-196 | the parts with the control lines between them rebuild the source |
| `CompositionText.OptionsAreDeclared` | internal/engine/composition.go:150-196 | option names are distinct, and each owned part names one of them |
| `CompositionText.CompositionSQL` | internal/engine/composition.go:130-140 | the trimmed text of a variant |
| `TextLines.TrimLeaves` | internal/engine/composition.go:139 | trimming leaves exactly the text between the blank ends, with every blank inside it |
| `CompositionText.VariantsKeepLines` | internal/engine/composition.go:130-196 | whatever the options, a variant has the line breaks of the source less those of its control lines; a control line runs from its -- through its line break |
| `CompositionText.ArmHasTheWantedText` | internal/engine/composition.go:130-140 | the arm that an argument takes was built from the free parts and the parts of the options that it names |
| `CompositionText.AllPresent` | internal/engine/composition.go:130-140 | with every option the variant is the source without its control lines |
| `CompositionTables.ReplaceTableChoices` | internal/engine/composition.go:77-104 | the loop gives the text with its slots filled and the set of slots used, or a refusal |
| `CompositionLaws.SlotIsFilled` | internal/engine/composition.go:77-104 | chgen.table with the name of a choice becomes its table, which is noted as used; without such a choice it is refused |
| `CompositionLaws.CopiedOrRefused` | internal/engine/composition.go:77-104 | all else is copied, and chgen.table without a quoted name is refused |
| `CompositionTables.FilledLexes` | internal/engine/composition.go:77-104 | the filled text has the quotes, comments and code of the source in order, and in each slot the selected table as code; it is refused if and only if a slot is ill formed or undeclared |
| `CompositionTables.ArmHasTheWantedTables` | internal/engine/composition.go:223-241 | the text of the arm that an argument takes is the text it asks for, with the tables it names in their slots |
| `AggregateGrammar.HeadIsUnique` | internal/engine/aggregate_combinator.go:101-116 | no primitive spelling is the head of another |
| `AggregateGrammar.ReadIsInverse` | internal/engine/aggregate_combinator.go:315-321 | reading a suffix gives a chain exactly when writing that chain gives the suffix |
| `AggregateGrammar.ParsePrimitiveSuffix` | internal/engine/aggregate_combinator.go:382-401 | the greedy loop reads the one chain of a suffix, for any order of a complete catalog |
| `AggregateGrammar.CatalogIsComplete` | internal/engine/aggregate_combinator.go:101-116 | the catalog of the source lists every primitive, as the greedy loop needs |
| `AggregateGrammar.OneSplit` | internal/engine/aggregate_combinator.go:359-412 | a name has at most one split into a base aggregate and a chain of primitives |
| `AggregateGrammar.ParseChain` | internal/engine/aggregate_combinator.go:359-380 | finds the split of a name if there is one, for any order of the bases |
| `AggregatePlan.AggregatePlanForPrimitives` | internal/engine/aggregate_combinator.go:274-305 | the folded plan says which primitives the chain holds and which of If, Merge and State stands last before which |
| `AggregatePlan.BuildMeasuredCombinators` | internal/engine/aggregate_combinator.go:254-265 | each measured chain with its own plan and suffix |
| `AggregatePlan.ParseAggregateCombinatorChain` | internal/engine/aggregate_combinator.go:359-380 | not found, unsupported and supported depend on the name and the set of measured chains only, in no order; the combinator returned has the chain of the name |
| `AggregatePlan.RolesExclude` | internal/engine/aggregate_combinator.go:299-304 | in every chain a state argument excludes a condition argument and a built state, and a stored condition is never dropped |
| `AggregateStatesProofs.ArgumentKept` | internal/engine/aggregate_combinator.go:661-700 | what -State records of an argument reads back as that argument without LowCardinality inside, markers and wrappers included |
| `AggregateStatesProofs.VerbatimKeptIff` | internal/engine/aggregate_combinator.go:625-660 | what -IfState and -StateOrNull record reads back, if and only if the argument is no marker around a LowCardinality scalar read by a base that keeps markers |
| `AggregateStatesProofs.StateThenMerge` | internal/engine/aggregate_combinator.go:661-850 | for every base whose rule commutes with stripping LowCardinality and all well-formed arguments, -Merge over the state has the type of -OrDefault on the arguments |
| `AggregateStatesProofs.StateIsAccepted` | internal/engine/aggregate_combinator.go:556-616 | -State is accepted exactly when arity and domain of the base accept the arguments |
| `AggregateStatesProofs.MergeStateKeeps` | internal/engine/aggregate_combinator.go:819-844 | -MergeState gives the state back with the parameters of the new call |
| `AggregateConditions.IfStateThenIfMerge` | internal/engine/aggregate_combinator.go:625-850 | for any rule that looks at leading arguments, -IfMerge over what -IfState built is the type that the base gives to the recorded arguments, weakened to Nullable when the condition counts as data and can be NULL |
| `AggregateIfMerge.FirstIfMergeIff` | internal/engine/aggregate_combinator.go:625-850 | for any, min, max, argMin and argMax, -IfMerge agrees with -If if and only if the first argument is no marker around a LowCardinality scalar, and a condition that shows finds a Nullable argument or a type that cannot be Nullable |
| `AggregateIfMerge.MarkerShows` | internal/engine/aggregate_combinator.go:625-700 | anyIf of a marker around LowCardinality(String): the merge has another type than the call |
| `AggregateIfMerge.ComputedIfMerge` | internal/engine/aggregate_combinator.go:625-850 | for sum, groupBit*, quantile and median they always agree |
| `AggregateIfMerge.FixedIfMergeIff` | internal/engine/aggregate_combinator.go:845-850 | for a fixed result they differ if and only if the condition alone makes the merge Nullable |
| `AggregateElements.ElementIfMergeIff` | internal/engine/supertype.go:1935-2018 | for groupArray, groupArraySorted and groupUniqArray, -IfMerge agrees with -If if and only if the argument is no marker around a LowCardinality scalar; a condition never shows |
| `AggregateElements.ElementStateThenMerge` | internal/engine/supertype.go:1935-2018 | a state of groupArray, groupArraySorted or groupUniqArray merges to the type of the plain call |
| `AggregateElements.ElementCommutes` | internal/engine/supertype.go:1935-1964 | the element rules do not depend on a LowCardinality inside the argument, nor on further arguments |
| `AggregateElements.ZoneIsLost` | internal/engine/supertype.go:1978-2018 | under any wrappers, groupUniqArray drops the time zone of a DateTime and groupArray keeps it |
| `AggregateConditions.WrongStateIsRefused` | internal/engine/aggregate_combinator.go:793-800 | a merge that accepts a state names the aggregate and the form that built it; median and quantile are one name |
| `AggregateForms.ArrayForm` | internal/engine/aggregate_combinator.go:576-586 | -Array is the base over the elements, a Nullable of the array moved inside |
| `AggregateForms.OrNullForm` | internal/engine/aggregate_combinator.go:892-927 | -OrNull is always Nullable, and refuses exactly what cannot be |
| `AggregateForms.ValueFormIs` | internal/engine/aggregate_combinator.go:892-955 | -If, -OrDefault, -IfOrDefault, -OrNull, -IfOrNull, -Array, -ArrayIf, -Resample and -ResampleIf: accepted if and only if the base accepts the data arguments, the condition is UInt8 or Bool, the key is one of the listed kinds and the result can hold its wrapper; the type is that of the base, its bare type under Nullable, or an Array of its bare type |
| `AggregateForms.StateFormIs` | internal/engine/aggregate_combinator.go:625-891 | -State, -StateIf, -IfState and -StateOrNull: when there is a state, its name and the types that it holds |
| `AggregateForms.MergeFormIs` | internal/engine/aggregate_combinator.go:745-850 | -Merge, -MergeState, -IfMerge and -IfMergeState: accepted if and only if the argument is a state of this aggregate and form with fitting types; the type of the base over all that the state holds, or the state with the parameters of this call |
| `AggregateForms.RecordedTypes` | internal/engine/aggregate_combinator.go:641-700 | what a state holds of an argument: the type without LowCardinality at any depth, and for -StateIf without its Nullable |
| `AggregateRows.OneArgument` | internal/engine/aggregate_combinator.go:427-530 | the result of a base over one argument: its rule on the type without wrappers, without LowCardinality, with the Nullable of the argument |
| `AggregateRows.SecondArgument` | internal/engine/aggregate_combinator.go:497-506 | of two arguments both can make argMin, argMax and uniqCombined Nullable, and only the first one the other bases |
| `AggregateRows.FixedArgument` | internal/engine/aggregate_combinator.go:508-515 | a fixed result is Nullable after its argument, or taken as it is |
| `AggregateRows.ReadIs` | internal/engine/aggregate_combinator.go:445-491 | how a base reads a marker: through it for wrappers and containers, and for scalars when it computes |
| `AggregateRows.SumRows` | internal/engine/aggregate_combinator.go:22-30 | measured rows of sum |
| `AggregateRows.FirstRows` | internal/engine/aggregate_combinator.go:457-491 | measured rows of any, min and max |
| `AggregateForms.SimpleStateForm` | internal/engine/aggregate_combinator.go:701-744 | -SimpleState marks the type of a supported base; the Nullable of a CASE without ELSE under sum goes outside |
| `AggregateForms.ConcreteStateThenMerge` | internal/engine/infer_function.go:518-608 | a state of any, min, max, argMin, argMax, sum, groupBit*, quantile or median merges to the type of the plain call, with no hypothesis on the rule |
| `AggregateRules.UniqCombinedShows` | internal/engine/arithmetic.go:1086-1116 | uniqCombined with a Nullable condition is the case where -IfMerge and -If differ |
| `AggregateRules.FirstArgumentStrips` | internal/engine/infer_function.go:390-398 | the rule of any, min, max, argMin and argMax commutes with stripping LowCardinality |
| `AggregateRules.SumStrips` | internal/engine/infer_function.go:518-561 | so does the rule of sum |
| `AggregateRules.GroupBitStrips` | internal/engine/infer_function.go:591-608 | so do the rules of groupBitAnd, groupBitOr and groupBitXor |
| `AggregateRules.QuantileStrips` | internal/engine/infer_function.go:640-688 | so does the rule of quantile and median |
| `AggregateTable.SumIs` | internal/engine/infer_function.go:518-561 | sum of every scalar type: 64 bits for narrow integers, the wide ones as they are, Float64, a decimal of 38 or 76 digits with its scale; and the same under one Nullable |
| `AggregateTable.GroupBitIs` | internal/engine/infer_function.go:591-608 | groupBit* of every type without wrappers: whole numbers stay, Bool becomes UInt8, all else is refused |
| `AggregateTable.QuantileIs` | internal/engine/infer_function.go:640-688 | quantile and median of every scalar type: Float64 for numbers, the canonical spelling of a decimal, dates as they are |
| `AggregateTable.QuantileUnderNullable` | internal/engine/infer_function.go:659-665 | and the same under one Nullable |
| `AggregateRules.OnFirstCommutes` | internal/engine/aggregate_combinator.go:427-529 | a base with such a rule on its first argument meets the hypotheses of the two state results |
| `AggregateRules.FixedCommutes` | internal/engine/aggregate_combinator.go:507-517 | a base with a fixed result meets them too |
| `ChTypes.StripStrips` | internal/engine/arithmetic.go:874-888 | no LowCardinality is left at any depth |
| `ChTypes.StripAndStructural` | internal/engine/geometry_alias.go:8-32 | expanding geometry aliases and stripping LowCardinality commute |
| `AggregateTable.NullableHoldsIff` | internal/engine/arithmetic.go:926-936 | the types that Nullable refuses |
| `AggregateTable.WrappersAre` | internal/engine/arithmetic.go:950-959 | which wrappers a type gets back, and in which order |
| `AggregateTable.AliasesAre` | internal/engine/geometry_alias.go:8-30 | the arrays and tuples that each alias of geometry names |
| `ArithmeticProofs.ResultCommutes` | internal/engine/arithmetic.go:258-533 | plus and times give the same type in both orders or refuse in both, for all type trees |
| `ArithmeticTable.ScalarRuleIsTable` | internal/engine/arithmetic.go:232-460 | the result of every operator on all scalar types is that of the measured table by sign, bits, digits and scales |
| `ArithmeticTable.ResultIsTable` | internal/engine/arithmetic.go:249-355 | the result of all operands from that table, or from the elements of arrays: which arrays fit which operator, and where Nullable is refused or put back |
| `ArithmeticProofs.ResultShape` | internal/engine/arithmetic.go:258-533 | a result is arrays around a scalar or a Nullable scalar; none is a Nullable around an array |
| `ArithmeticProofs.ResultRounds` | internal/engine/arithmetic.go:306-355 | a result has as many array levels as its operands are stepped down together, for all type trees; at each of them both operands of + and - are arrays, and exactly one operand of the other operators |
| `ArithmeticProofs.NullableInArrayIff` | internal/engine/arithmetic.go:340-355 | an array result holds a Nullable if and only if, at the innermost level, one of the operands is a SimpleAggregateFunction marker around a Nullable; for all operators and operands |
| `ArithmeticProofs.MarkerHidesNullable` | internal/engine/arithmetic.go:340-350 | for all element types, an array of Nullable elements is refused, and with a marker around the element it gives an array of the Nullable scalar result |
| `ArithmeticProofs.OffsetsMoveDates` | internal/engine/arithmetic.go:380-415 | an offset moves a date both ways and keeps its type; minus takes it on the right only, times and divide not at all |
| `ArithmeticProofs.DateDifference` | internal/engine/arithmetic.go:202-232 | which pairs of dates subtract; the type is the same in both orders and keeps every sub-second digit |
| `ArithmeticProofs.DecimalsHaveRoom` | internal/engine/arithmetic.go:453-473 | a sum or difference of decimals has room for the digits and the scale of both |
| `ArithmeticProofs.DecimalKeepsType` | internal/engine/arithmetic.go:474-479 | a decimal with an integer keeps precision and scale in both orders |
| `IntegerRanges.NodeFitsIff` | internal/engine/arithmetic.go:503-532 | every pair of values in range has its exact result in range if and only if, for + - *, both operands have at most 32 bits, and for %, the dividend is not a signed type wider than an unsigned divisor of 64 bits or more |
| `IntegerRanges.LiteralIsSmallest` | internal/engine/infer_expr.go:1060-1094 | an integer literal takes the smallest type of its sign that holds it |
| `IntegerRanges.TreeFits` | internal/engine/arithmetic.go:71-76 | the exact value of an expression tree lies in the range of its inferred type when every node passes the test on its types |
| `ComparisonProofs.ComparableIsSymmetric` | internal/engine/argument_domain.go:1398-1758 | comparability does not depend on the order of the operands at any depth, given a symmetric supertype |
| `ComparisonProofs.VerdictIsSymmetric` | internal/engine/argument_domain.go:2012-2023 | nor does the verdict |
| `ComparisonTable.ScalarsCompareIff` | internal/engine/argument_domain.go:1340-1540 | a pair of scalar types is confirmed if and only if the table of families lists it, and invalid otherwise |
| `ComparisonTable.TableIsSymmetric` | internal/engine/argument_domain.go:1340-1540 | the table lists a family against another in both orders or in none |
| `ComparisonTable.StateIsInvalid` | internal/engine/argument_domain.go:2012-2023 | a state is invalid against every type, known or not |
| `ComparisonTable.ContainerIsKnownIff` | internal/engine/argument_domain.go:2025-2045 | a container is covered by measurements if and only if all its members are |
| `ComparisonTable.OthersAreKnownIff` | internal/engine/argument_domain.go:2025-2045 | a marker is covered as the type that it marks; states, Dynamic and JSON always are, unnamed kinds never |
| `ComparisonTable.UnnamedCompares` | internal/engine/argument_domain.go:1398-1401 | a type without a name compares with every type |
| `ComparisonProofs.NoStateIsComparable` | internal/engine/argument_domain.go:1398-1758 | no pair of types built without Dynamic, Variant and markers is comparable when an aggregate state is inside either, however deep |
| `ComparisonProofs.NoStateIsConfirmed` | internal/engine/argument_domain.go:2012-2045 | the verdict on such a pair is never a confirmation |
| `ComparisonProofs.MeasuredComparesWithItself` | internal/engine/argument_domain.go:1398-1758 | every measured type without a state compares with itself |
| `ComparisonProofs.ContainersMatch` | internal/engine/argument_domain.go:1621-1758 | comparable containers are of one kind; tuples have equal arity and comparable members, arrays and maps a common supertype at each member as well |
| `ComparisonProofs.DynamicTakesIff` | internal/engine/argument_domain.go:1490-1521 | Dynamic is confirmed against a type if and only if the type is known and is no state, JSON, Tuple, Map or Variant; so it takes every known array |
| `ComparisonProofs.VariantTakesIff` | internal/engine/argument_domain.go:1513-1545 | a Variant is confirmed against a type if and only if both are known, and the type is the same Variant or has no comparison class and is no state and not Dynamic |
| `ComparisonProofs.MarkerTakesIff` | internal/engine/argument_domain.go:1513-1522 | a SimpleAggregateFunction is confirmed against a type if and only if both are known and the type is no state and not JSON |
| `ComparisonProofs.HiddenStatesCompare` | internal/engine/argument_domain.go:1490-1545 | confirmed pairs with a state inside: Dynamic with an array of states, a Variant of a state with itself, and a marker around an array of states with a number |
| `CatalogReplay.ParseCreateTable` | internal/engine/schema.go:97-129 | columns in order, and a refusal for a name used twice |
| `CatalogReplay.SchemaCatalogs.ApplyExternalCreate` | internal/engine/catalog.go:151-172 | the new catalogs, or a refusal that changes nothing |
| `CatalogReplay.SchemaCatalogs.ApplyPhysicalCreate` | internal/engine/catalog.go:174-241 | the new catalogs, copies of a source table included, or a refusal that changes nothing |
| `CatalogReplay.SchemaCatalogs.ApplyCatalogDrop` | internal/engine/catalog.go:243-274 | the new catalogs, or a refusal that changes nothing |
| `CatalogReplay.SchemaCatalogs.ApplyCatalogRename` | internal/engine/catalog.go:276-318 | all pairs in order, or a refusal that changes nothing |
| `CatalogReplay.SchemaCatalogs.ApplyCatalogExchange` | internal/engine/catalog_exchange.go:91-118 | the two tables under each other's names, or a refusal that changes nothing |
| `CatalogReplay.SchemaCatalogs.ApplyCatalogAlter` | internal/engine/schema.go:273-408 | accepted exactly as the value model says; the state it leaves, accepted or refused, is that of the clauses written into the shared column map and the shared array of the order |
| `CatalogReplay.SchemaCatalogs.Replay` | internal/engine/catalog.go:45-145 | the run of the statements, the invariant at its end, and the state that a run with a refusal leaves |
| `CatalogAlter.AcceptedLeaves` | internal/engine/schema.go:273-408 | the state of an accepted ALTER does not depend on the array of the order |
| `CatalogAlter.AcceptedRunLeaves` | internal/engine/catalog.go:45-145 | nor does the state of an accepted run |
| `CatalogAlter.RefusedChangesNothingIff` | internal/engine/schema.go:309-398 | a refused ALTER that names each column once changes nothing if and only if every clause before the refused one is idle, and that one adds no new column behind an unknown one |
| `CatalogAlter.CellsAre` | internal/engine/schema.go:309-398 | the order that the catalog sees, for any clauses and any array: each cell holds the name of the last order that is long enough, up to the clause that outgrows the array |
| `CatalogAlter.RefusedIff` | internal/engine/catalog.go:324-347 | for every refused ALTER and any array: it changes nothing if and only if the refusal comes before the clauses are applied, or the columns return, with the one that the refused clause adds late, and every cell of the order holds its name again |
| `CatalogAlter.RefusedCases` | internal/engine/schema.go:309-398 | the same as a condition on the tables that the clauses pass through: once the array is outgrown its last order starts with that of the table; else the accepted clauses return the table, or, before a late column, all of it but the last name, which is still in its cell |
| `CatalogAlter.RefusedWithRoomIff` | internal/engine/schema.go:309-398 | when the array has room for the clauses, a refusal that adds no column late changes nothing if and only if the clauses before it, as an ALTER of their own, change nothing |
| `CatalogAlter.IdleLeaves` | internal/engine/schema.go:309-398 | idle clauses before the refusal leave all as it was, whatever columns the clauses name |
| `CatalogAlter.RefusedDropOverwrites` | internal/engine/schema.go:395 | from a consistent catalog, DROP COLUMN a, DROP COLUMN d on a, b, c is refused and leaves the order b, c, c |
| `CatalogAlter.RefusedAddLeavesColumn` | internal/engine/schema.go:321-338 | from a consistent catalog, a refused ADD COLUMN AFTER leaves a column that the order does not list |
| `CatalogProofs.ClausesAreOrdered` | internal/engine/schema.go:273-408 | an accepted ALTER keeps the name of the table, and its order lists every column once |
| `CatalogProofs.CreatedIsDistinct` | internal/engine/schema.go:97-129 | a column list is accepted exactly when its names differ |
| `CatalogProofs.CreatedHasColumns` | internal/engine/schema.go:97-129 | the created table has each column, in the order of the statement, and no other |
| `CatalogProofs.CreateThenDrop` | internal/engine/catalog.go:174-274 | a CREATE adds its name only, and DROP TABLE restores the catalogs |
| `CatalogLaws.MigrationsArePassedOver` | internal/engine/catalog.go:179-329 | CREATE, DROP and ALTER of schema_migrations change nothing and are accepted |
| `CatalogLaws.MigrationsAreNotMoved` | internal/engine/catalog.go:284-316 | a RENAME or EXCHANGE that names it is refused |
| `CatalogLaws.ModifyKeeps` | internal/engine/schema.go:343-379 | MODIFY takes the type and the clauses that it states, keeps those that it does not, and changes no other column |
| `CatalogLaws.EngineOfCopyIs` | internal/engine/catalog.go:194-221 | the engine of CREATE TABLE AS: that of the source, or the stated one; a stated engine whose name ends in MergeTree takes over each key that it leaves out |
| `CatalogLaws.ExchangeIff` | internal/engine/catalog_exchange.go:91-118 | accepted if and only if it names two different physical tables without a database |
| `CatalogProofs.CopyHasColumns` | internal/engine/catalog.go:194-221 | CREATE TABLE AS has the columns of its source under its own name |
| `CatalogProofs.AddThenDropColumn` | internal/engine/schema.go:309-398 | DROP COLUMN undoes ADD COLUMN |
| `CatalogProofs.AddedColumnIsPlaced` | internal/engine/schema.go:324-342 | an added column is last, or right behind the named one, and moves no other |
| `CatalogProofs.StepKeepsConsistent` | internal/engine/catalog.go:45-145 | every accepted statement keeps the two catalogs disjoint, keyed by table name and free of the migrations table |
| `CatalogProofs.ReplayIsConsistent` | internal/engine/catalog.go:45-145 | so does every run from empty catalogs |
| `CatalogProofs.RenamesAreReversible` | internal/engine/catalog.go:284-316 | an accepted RENAME list followed by its reversed inverse is accepted and restores the catalog |
| `CatalogProofs.ExchangeTwice` | internal/engine/catalog_exchange.go:91-118 | an EXCHANGE done twice is the identity |
| `CatalogProofs.ExchangeIsThreeRenames` | internal/engine/catalog_exchange.go:91-118 | EXCHANGE a b is a RENAME of three pairs through any free name |
| `SchemaTokens.SchemaQuotedEnd` | internal/engine/catalog_wait_view.go:105-122 | the end of a closed quoted token, or that it is open |
| `SchemaTokens.SchemaBlockCommentEnd` | internal/engine/catalog_wait_view.go:124-142 | the end of a block comment with its nested comments, or that it is open |
| `SchemaTokens.StatementsAreInOrder` | internal/engine/catalog_exchange.go:52-84 | the tokens of a statement lie between its semicolon and the one before |
| `SchemaLaws.PlainLexeme` | internal/engine/catalog_exchange.go:61-84 | outside of quotes and comments: the blanks of each adapter, the semicolon, maximal names and single bytes |
| `SchemaLaws.QuotedLexeme` | internal/engine/catalog_wait_view.go:66-72 | a quoted token ends where code goes on; the second adapter refuses one that is never closed |
| `SchemaLaws.LineLexeme` | internal/engine/catalog_wait_view.go:50-51 | both adapters skip a line comment to the end of its line |
| `SchemaLaws.BlockLexeme` | internal/engine/catalog_wait_view.go:53-60 | the first adapter skips a block comment, the second keeps a nested one apart and refuses one that is never closed |
| `SchemaLaws.ExchangeIff` | internal/engine/catalog_exchange.go:21-50 | a statement is recognised if and only if its words are EXCHANGE TABLES a AND b, or that with ON CLUSTER c; every other one that starts with EXCHANGE is refused |
| `SchemaLaws.WaitIff` | internal/engine/catalog_wait_view.go:18-40 | a statement is recognised if and only if its words are SYSTEM WAIT VIEW and a name, or two names around a dot; every other one that starts with SYSTEM WAIT is refused |
| `SchemaNormalize.NormalizeSchemaExchanges` | internal/engine/catalog_exchange.go:14-89 | the buffer and the recorded positions of the adapted text, or a refusal for a malformed EXCHANGE |
| `SchemaNormalize.NormalizeSchemaWaitViews` | internal/engine/catalog_wait_view.go:13-85 | the buffer of the adapted text, or a refusal for a malformed WAIT VIEW, an open quote or an open comment |
| `SchemaAdaptersProofs.AdaptedAt` | internal/engine/catalog_exchange.go:42-46 | a byte changes only inside a recognised statement: a keyword byte to a letter or a blank, or a token or comment byte of WAIT VIEW to a blank |
| `SchemaAdaptersProofs.BreaksStay` | internal/engine/catalog_wait_view.go:42-48 | length and line breaks stay in every adapted text |
| `SchemaAdaptersProofs.StopsStay` | internal/engine/catalog_wait_view.go:61-65 | the semicolon after every statement stays where it is |
| `SchemaAdaptersProofs.SemicolonsIff` | internal/engine/catalog_wait_view.go:8-12 | every semicolon stays under the exchange adapter; under the wait-view adapter it stays if and only if no token or comment of a recognised WAIT VIEW holds it |
| `SchemaAdaptersProofs.SemicolonIsLost` | internal/engine/catalog_wait_view.go:42-48 | a semicolon in a quoted view name is blanked |
| `SchemaReading.ExchangeReads` | internal/engine/catalog_exchange.go:42-46 | the tokens of a recognised EXCHANGE read RENAME TABLE a TO b in the adapted text, with the names and the cluster clause of the source |
| `SchemaReading.OthersRead` | internal/engine/catalog_exchange.go:21-26 | the tokens of any other statement read as they did |
| `SchemaReading.WaitIsBlank` | internal/engine/catalog_wait_view.go:42-48 | nothing but blanks and line breaks is left of a recognised WAIT VIEW |
| `SchemaPipeline.ExchangeRespells` | internal/engine/catalog_exchange.go:42-46 | the exchange adapter respells whole words only, EXCHANGE, TABLES and AND, and changes no other byte |
| `SchemaPipeline.SecondAdapterAgrees` | internal/engine/catalog.go:49-56 | in the output of the exchange adapter, which does not nest comments, the wait-view adapter cuts the statements and recognises the WAIT VIEW that it would find in the source |
| `SchemaPipeline.PipelineAt` | internal/engine/catalog.go:49-56 | every byte of the text that reaches the parser |
| `SchemaPipeline.PipelineSemicolons` | internal/engine/catalog.go:49-56 | a semicolon reaches the parser if and only if no recognised WAIT VIEW of the source holds it |
| `JsonDiff.FirstDifference` | internal/coverage/compare.go:124-158 | empty exactly for equal trees; else the escaped path of the first difference in key order, or the root marker |
| `JsonDiff.FirstSeparates` | internal/coverage/compare.go:124-158 | that path evaluates to different values in the two trees, or to a value in one only |
| `JsonDiff.FirstIsUnique` | internal/coverage/compare.go:124-158 | there is one such path |
| `JsonDiff.AnswerLocates` | internal/coverage/compare.go:124-158 | the answer is the RFC 6901 pointer to the first difference if and only if both roots are objects or arrays of one length; it leads to some difference if and only if that holds or a root has a member with the empty key |
| `JsonDiff.RootMarkerMisleads` | internal/coverage/compare.go:154-156 | the root marker for null against true leads nowhere |
| `JsonDiff.SpansAreIgnored` | internal/coverage/compare.go:96-108 | two structures without source ranges are equal exactly when the originals differ in ranges only |
| `JsonPointer.EncodeRoundTrip` | internal/coverage/compare.go:133 | a written path reads back as its keys, whatever characters they hold |
| `FunctionSignature.SortsForArity` | internal/engine/function_signature.go:120-142 | a form accepts an arity exactly when some allowed number of repetitions fills it, and gives the sorts in order |
| `FunctionSignature.RepresentativeArities` | internal/engine/function_signature.go:153-171 | the least arity of every form, and one repetition more where the form has it |
| `FunctionSignature.RepresentativeIsAccepted` | internal/engine/function_signature.go:153-171 | every representative arity is accepted |
| `FunctionSignature.RejectedBoundaryArities` | internal/engine/function_signature.go:173-210 | the arity below the least, all gaps, and the arity above the top of a bounded signature; the top is the greatest of the representatives and of the refused arities past a group |
| `FunctionSignature.BoundaryIsRefused` | internal/engine/function_signature.go:173-210 | all of these but the arity above the top are refused |
| `FunctionSignature.TopIsUnique` | internal/engine/function_signature.go:173-191 | there is one top |
| `FunctionSignature.PlainBoundaryIsRefused` | internal/engine/function_signature.go:173-210 | when every form is fixed or repeated without a limit, all boundary arities are refused |
| `FunctionSignature.PastTopIff` | internal/engine/function_signature.go:173-210 | for a bounded signature of any forms, the arity above the top is accepted if and only if some form repeats its group past the top and a repetition ends right there |
| `FunctionSignature.BoundedRepeatExample` | internal/engine/function_signature.go:173-210 | a bounded form, which no constructor builds, whose arity above the top is accepted |
| `SignatureForms.SignatureFromGenSpec` | internal/engine/function_signature.go:212-241 | the forms of a call shape, one per arity or one that repeats its last sort |
| `SignatureForms.ShapeAccepts` | internal/engine/function_signature.go:212-241 | they accept exactly the arities of the range |
| `SignatureForms.OverriddenIsPlain` | internal/engine/function_signature.go:243-307 | no override builds a bounded repetition |
| `SignatureForms.BoundaryOfFunctionIsRefused` | internal/engine/function_signature.go:173-307 | for every function, with or without an override, each arity that a probe expects to be refused is refused |

## Left out

- Bytes above 0x7F: case folding is ASCII, `TrimSpace` and `Fields` see the six ASCII blanks, and Go identifiers are ASCII.
- Texts of error messages: a refusal has no text, and only the placeholder check reports a line.
- The upstream SQL parser: expressions and statements are small datatypes with the node kinds that the code matches on.
- Fractional literals and float rounding in the folder, except rounding of integers to Float32: the code reads literals as float64, and the model keeps exact integers up to 2^53.
- Function names and operators in the folder are constructors; the comparison-function names and the reading of true and false from identifiers are not modelled.
- ConstantConditionProofs.FolderIsSound: states one direction, because a failing node under AND or OR can be masked by its sibling; the failing families have their own if-and-only-if lemmas. A literal with an escape that the evaluator does not decode has no value in it.
- parseTableChoice and the lists of unverified expressions that a merge appends: bookkeeping without a decision.
- Names of types and aggregates are canonical: their case and their aliases are resolved before these rules see them. Names of tuple members are not modelled; no modelled rule reads them.
- The parameter gate of a parametric aggregate, which keeps the arrays of the groupArray family, the size limits of that family, the Resample range, unresolved placeholders and the case-sensitive spellings of a combinator call.
- AggregateStatesProofs.StateThenMerge: takes the rule of the base aggregate as a parameter that commutes with stripping LowCardinality; AggregateForms.ConcreteStateThenMerge is without this hypothesis for sum, groupBit*, quantile, median, any, min, max, argMin and argMax, and the fixed-result bases meet it; and so is AggregateElements.ElementStateThenMerge for groupArray, groupArraySorted and groupUniqArray.
- ComparisonProofs.ComparableIsSymmetric: takes the common-supertype relation as a parameter that is symmetric; the common supertypes of supertype.go are not modelled.
- ComparisonProofs.NoStateIsComparable: leaves out Dynamic, Variant and SimpleAggregateFunction, because against these the members of a type are not looked at, and a state inside may be accepted; DynamicTakesIff, VariantTakesIff and MarkerTakesIff say exactly what each of them takes.
- Clauses for TTL and settings in ALTER TABLE, references to databases, and engine parameters in the catalog.
- The capacity that the Go runtime gives to a grown slice: an ALTER takes the room behind the column order as a parameter, and the results hold for every value of it.
- CatalogAlter.RefusedChangesNothingIff: supposes that no column is named by two clauses, because later clauses can undo earlier ones; RefusedIff and RefusedCases are without this.
- removeIRSpans deletes keys in place; the model returns the tree without them.
- The lexer of the upstream parser, which reads the adapted texts.
- Sorting in representativeArities: only the least and the greatest of the arities are used.
- Command line, file reading, JSON encoding, the Go template, conformance tables and the function registry: plumbing or finite measured data.
