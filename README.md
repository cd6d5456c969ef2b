# A verified model of the EDIFACT parsing pipeline

This project models in Dafny the core of a Ruby library that reads and writes UN/EDIFACT
interchanges (ISO 9735). Each piece of the library becomes one module:

- `Tokens`: the tokenizer `TokenStream`. It checks the nine-character `UNA` service string
  header, then scans characters into text and delimiter tokens with one character of
  lookahead. It resolves the release character and records the line and column of every token.
- `Segments`: the segment assembler `SegmentStream`. It reads tokens with one token of
  lookahead and builds segments, elements and components, including the empty components
  that a missing text leaves.
- `Validation`: the component datatypes `aN`, `an..N`, `nN`, `n..N`, literals, alternatives
  (Array), optional wrappers (Hash) and regular expressions, and the positional checks of
  `ElementSpec` and `SegmentSpec`.
- `Grammar`: `MessageSpecificationNode`, the specification tree with its constructor checks,
  and `next`/`next_sibling`, which list the segment specifications that may come next.
- `Tree` and `SegmentTrees`: `SegmentTree`. `Tree` is its state machine as functions.
  `SegmentTrees` is the object that updates its visit counters, reachable list, tree and
  stack in place, and the object is proved against the functions. `TreeFinding` models the
  counter reset as the source writes it (see Findings).
- `Nodes` and `Config`: the value classes `Component`, `Element`, `Segment` and
  `SegmentGroup` with their `to_edifact`, and `ToEdifactConfig` with its header and escaping.
- `Builder`: `SegmentBuilder`. It renders segments and records, for each segment, element and
  component, the column its text takes in `to_edifact`.
- `RoundTrip`: reading written text back. Text written by `Segment#to_edifact` and by
  `SegmentBuilder#to_edifact`, run through `TokenStream` and `SegmentStream`, gives back the
  segments that were written. For the builder this includes their positions, provided every
  name is plain, no name or value holds a line break, and every name and value is ASCII (one
  character is one byte).
- `Interchanges`: `Interchange`, which reads UNB, then (UNH ... UNT)*, then UNZ through a
  one-segment peek buffer and checks segment counts and control references.
- `Common`: positions, errors, `Option`/`Result`, and the digit strings that `to_i` reads.

The stateful objects (`TokenStream`, `SegmentStream`, `SegmentTree`, `SegmentBuilder`,
`Interchange`) are classes. Their methods change the fields as the Ruby methods do, and each
method is proved against a specification function over the input still to be read. The
properties the library promises are lemmas about those functions.

Errors are values `Error(kind, pos)`. The kind names the Ruby exception class, or the
condition of a `ParseError`. The position is the one the exception carries. `NoPosition`
(line -1, column -1) stands for the source's `-1` and for errors that carry no position.

## Model

| member | source | states |
|---|---|---|
| Tokens.AdvanceBySnoc | lib/edifact/token_stream.rb:135-149 | consuming one more character moves the cursor by that character alone |
| Tokens.AdvanceByAppend | lib/edifact/token_stream.rb:135-149 | the cursor after two texts is the cursor after the first, moved by the second |
| Tokens.AdvanceByMoves | lib/edifact/token_stream.rb:135-149 | consuming any character moves the cursor strictly forward in (line, column) order |
| Tokens.AdvanceBySameLine | lib/edifact/token_stream.rb:141-146 | without a newline only the column moves, by one per character |
| Tokens.Uniq | lib/edifact/token_stream.rb:120 | `uniq` keeps a subsequence with exactly the same characters |
| Tokens.UniqLength | lib/edifact/token_stream.rb:120 | the six service characters keep their length under `uniq` exactly when they are pairwise distinct |
| Tokens.ParseHeader | lib/edifact/token_stream.rb:107-126 | the header is accepted iff there are nine characters starting with UNA whose characters 3..8 are distinct; the delimiters are characters 3, 4, 6 and 8; a refusal is InvalidUnaHeaderError at 1:1 |
| Tokens.ScanStep | lib/edifact/token_stream.rb:78-104 | a turn of the scan loop that does not return consumes at least one byte and leaves a non-empty text |
| Tokens.Scan | lib/edifact/token_stream.rb:77-105 | next_token never moves backwards; it yields eof iff the input is used up with an empty text; any other token decreases the termination measure |
| Tokens.ScanShape | lib/edifact/token_stream.rb:77-180 | eof consumes nothing and sits at the cursor; a text is non-empty, starts at the token position and stops before a separator or the end; a separator is one consumed character; the only error is a release character at the end, reported at the cursor |
| Tokens.ScanAdvance | lib/edifact/token_stream.rb:135-149 | the cursor after a token is the cursor moved over exactly the bytes the token consumed |
| Tokens.Lex | lib/edifact/token_stream.rb:55-58 | repeated reads yield tokens none of which is eof, ended by the eof token or an error |
| Tokens.TokenStream.Init | lib/edifact/token_stream.rb:34-51 | a new stream starts at 1:1 with an empty text and the default delimiters |
| Tokens.TokenStream.Open | lib/edifact/token_stream.rb:34-52 | TokenStream.new raises InvalidUnaHeaderError iff ParseHeader refuses the input; otherwise the stream holds the parsed delimiters and sits just after the header |
| Tokens.TokenStream.ReadByte | lib/edifact/token_stream.rb:135-149 | read_byte returns the peeked byte, advances past it, and moves the column also at the end of the input |
| Tokens.TokenStream.ParseUnaHeader | lib/edifact/token_stream.rb:107-126 | parse_una_header returns ParseHeader of the input and, on success, sets the delimiters and puts both positions after the header |
| Tokens.TokenStream.Read | lib/edifact/token_stream.rb:56-105 | read returns the token Scan specifies and leaves the state Scan specifies |
| Tokens.TokenStream.SeparatorToken | lib/edifact/token_stream.rb:151-164 | separator_token emits a pending text first and otherwise consumes the delimiter |
| Tokens.TokenStream.TextToken | lib/edifact/token_stream.rb:166-176 | text_token emits the buffer at the token position and restarts the token at the cursor |
| Tokens.TokenStream.ReadRemaining | lib/edifact/token_stream.rb:61-68 | read_remaining returns every token up to and including the first eof, or the error |
| Tokens.LexPositions | lib/edifact/token_stream.rb:151-180 | token positions strictly increase up to the first eof, and the first token starts at the cursor |
| Tokens.LexTextThenSeparator | lib/edifact/token_stream.rb:81-92 | no text token is ever followed directly by another text token |
| Tokens.LexTextsNonEmpty | lib/edifact/token_stream.rb:151-176 | every text token carries a non-empty text |
| Tokens.ScanRelease | lib/edifact/token_stream.rb:93-100 | the release character is dropped and the next character goes into the text verbatim, even a delimiter |
| Tokens.ScanAtBoundary | lib/edifact/token_stream.rb:81-92 | a pending text is emitted at a separator or at the end, which stay unread |
| Tokens.ScanPlain | lib/edifact/token_stream.rb:101-103 | any other character is appended to the text |
| Tokens.FirstBodyPosition | lib/edifact/token_stream.rb:124-125 | after a header without newline the first body token is at 1:10 |
| Tokens.HeaderVectors | lib/edifact/token_stream.rb:109-122 | `UNA1234 6` gives delimiters 1, 2, 4, 6; the default header gives the default delimiters; an empty or repeating header is refused |
| Tokens.ReleaseAtEndVector | lib/edifact/token_stream.rb:96-99 | `ABC+?` ends in UnexpectedEndOfInputError at 1:15 |
| Tokens.DoubleReleaseVector | lib/edifact/token_stream.rb:93-100 | `????` reads as the text `??` |
| Segments.Tail | lib/edifact/segment_stream.rb:86-90 | consuming a token removes one, and at the end of the stream eof stays |
| Segments.ElementBody | lib/edifact/segment_stream.rb:63-81 | the loop of read_element only consumes tokens |
| Segments.ReadElementAt | lib/edifact/segment_stream.rb:58-84 | read_element consumes at least one token |
| Segments.SegmentBody | lib/edifact/segment_stream.rb:42-55 | the loop of read_segment consumes at least one token |
| Segments.SegmentAt | lib/edifact/segment_stream.rb:33-56 | read_segment consumes a segment's tokens, or nothing when it returns nil |
| Segments.ReadAllStep | lib/edifact/segment_stream.rb:23-29 | read_remaining returns the segment read first, followed by the rest |
| Segments.SegmentStream.constructor | lib/edifact/segment_stream.rb:9-12 | a new stream has an empty peek buffer and yields the token stream's tokens |
| Segments.SegmentStream.PeekToken | lib/edifact/segment_stream.rb:110-115 | peek_token returns the next token without consuming it |
| Segments.SegmentStream.ReadToken | lib/edifact/segment_stream.rb:86-108 | read_token consumes the next token and raises UnexpectedTokenError when its type differs |
| Segments.SegmentStream.ReadElement | lib/edifact/segment_stream.rb:58-84 | read_element returns what ReadElementAt specifies and leaves the tokens after it |
| Segments.SegmentStream.ReadSegment | lib/edifact/segment_stream.rb:18-56 | read returns what SegmentAt specifies and leaves the tokens after it |
| Segments.SegmentStream.ReadRemaining | lib/edifact/segment_stream.rb:23-29 | read_remaining returns ReadAll of the pending tokens |
| Segments.SegmentAtNone | lib/edifact/segment_stream.rb:33-37 | read returns nil exactly when the next token is eof |
| Segments.ElementBodyExtends | lib/edifact/segment_stream.rb:63-81 | read_element keeps the element's position and only appends components |
| Segments.EmptyComponentAt | lib/edifact/segment_stream.rb:69-77 | a separator followed by a non-text token gives an empty component at that token's position |
| Segments.ElementBodyCount | lib/edifact/segment_stream.rb:63-81 | one component per component separator consumed, plus one left open by a separator |
| Segments.ElementShape | lib/edifact/segment_stream.rb:58-84 | an element starts at its element separator and has one component more than its component separators, so at least one |
| Segments.SegmentBodyShape | lib/edifact/segment_stream.rb:42-55 | read_segment keeps name and position, only appends elements, and ends by consuming the segment separator |
| Segments.SegmentShape | lib/edifact/segment_stream.rb:33-56 | a segment's name and position are those of its first token, a text; its separator is consumed with it |
| Segments.SegmentBodyErrors | lib/edifact/segment_stream.rb:50-53 | eof before the separator is UnexpectedEndOfInputError at the eof token; text or a component separator is UnexpectedTokenError |
| Segments.SegmentAtErrors | lib/edifact/segment_stream.rb:39-40 | a segment that does not start with text is UnexpectedTokenError at that token |
| Segments.ComponentSeparatorStep | lib/edifact/segment_stream.rb:69-73 | a component separator closes an empty component after a separator and goes on |
| Segments.ElementEndStep | lib/edifact/segment_stream.rb:74-79 | any other token ends the element unread |
| Segments.EmptyComponentsElement | lib/edifact/segment_stream.rb:69-77 | `+::'` gives three empty components at 14, 15 and 16 |
| Segments.EmptyComponentsVector | lib/edifact/segment_stream.rb:33-84 | `AAA+::'` gives one segment with one element of three empty components |
| Segments.EndOfInputVector | lib/edifact/segment_stream.rb:50-51 | `AAA+x:` then eof is UnexpectedEndOfInputError at the eof position |
| Validation.DigitsAfter | lib/edifact/validation/component_spec.rb:32-43 | a number is read only from a prefix followed by digits alone |
| Validation.BuildValidator | lib/edifact/validation/component_spec.rb:26-51 | build_validator fails only with the specification error |
| Validation.BuildAll | lib/edifact/validation/component_spec.rb:81-83 | building an Array's members fails only with the specification error |
| Validation.NewComponentSpec | lib/edifact/validation/component_spec.rb:5-8 | ComponentSpec.new succeeds iff its validator builds, and keeps specification and validator |
| Validation.ValidateComponent | lib/edifact/validation/component_spec.rb:14-18 | validate raises iff the text is invalid, with a ParseError at the component's position |
| Validation.RepeatMeaning | lib/edifact/validation/component_spec.rb:97-130 | an anchored `class{lo,hi}` matches iff the length is in range and every character is in the class |
| Validation.FixedAlphaMeaning | lib/edifact/validation/component_spec.rb:91-99 | `aN` accepts exactly N ASCII letters |
| Validation.FixedNumericMeaning | lib/edifact/validation/component_spec.rb:113-121 | `nN` accepts exactly N digits |
| Validation.VariableNumericMeaning | lib/edifact/validation/component_spec.rb:124-132 | `n..N` accepts 1 to N digits, never the empty text |
| Validation.DatatypePatterns | lib/edifact/validation/component_spec.rb:32-43 | the four datatype patterns are recognised before a string is taken as a literal |
| Validation.OptionalOnlyForHash | lib/edifact/validation/component_spec.rb:10-12 | optional? holds exactly for a Hash specification with :optional |
| Validation.HashMeaning | lib/edifact/validation/component_spec.rb:54-77 | a Hash without :value raises; otherwise it accepts "" when optional and else defers to its value |
| Validation.BuildAllShape | lib/edifact/validation/component_spec.rb:80-83 | an Array builds iff every member builds, with the members' validators in order |
| Validation.ArrayMeaning | lib/edifact/validation/component_spec.rb:80-88 | an Array accepts a text iff one of its members does |
| Validation.FixedAlphaVectors | lib/edifact/validation/component_spec.rb:91-99 | `n1` and `a1` are datatypes; `a1` accepts `a` and rejects "", `1` and `ab` |
| Validation.NumericVectors | lib/edifact/validation/component_spec.rb:102-132 | `n2` accepts `11` not `1`; `n..2` accepts `1` not ""; `an..3` accepts "" not `abcd` |
| Validation.ArrayVector | lib/edifact/validation/component_spec.rb:80-88 | `["hello", "world"]` accepts `world` and rejects `x` |
| Validation.FirstFailurePass | lib/edifact/validation/element_spec.rb:10-15 | checking in order passes iff every check passes |
| Validation.FirstFailureFirst | lib/edifact/validation/element_spec.rb:10-15 | the error raised is that of the first failing check, after passes only |
| Validation.ValidateElement | lib/edifact/validation/element_spec.rb:9-16 | an element passes iff every component with a specification builds and is valid; a failing element reports its first failing component, after passes only: an invalid value at its position or a specification error |
| Validation.ElementIgnoresExtraComponents | lib/edifact/validation/element_spec.rb:11-14 | components beyond the specification are never checked |
| Validation.ElementIgnoresExtraSpecs | lib/edifact/validation/element_spec.rb:10-11 | specification entries beyond the components are never consulted |
| Validation.ValidateSegment | lib/edifact/validation/segment_spec.rb:9-17 | a segment passes iff every element with a specification passes; a failing segment reports the error of its first failing element, after passes only |
| Validation.ValidateSegmentErrors | lib/edifact/validation/segment_spec.rb:9-17 | the only errors are an invalid value and an unusable specification |
| Validation.SegmentIgnoresExtraElements | lib/edifact/validation/segment_spec.rb:11-14 | elements beyond the specification are never checked |
| Validation.OptionalComponentVector | lib/edifact/validation/element_spec.rb:9-16 | with `["n1", {value: "n1", optional: true}]`, `1:` passes and an empty first component fails at its position |
| Grammar.BuildNode | lib/edifact/message_specification_node.rb:9-35 | the constructor succeeds iff every node passes its two checks; otherwise it raises the specification error |
| Grammar.BuildChildren | lib/edifact/message_specification_node.rb:28-32 | the children are built in order, one per child specification, or the first failure is raised |
| Grammar.Build | lib/edifact/message_specification_node.rb:9-35 | the root node is built iff every node of the specification passes the checks |
| Grammar.InParent | lib/edifact/message_specification_node.rb:10-11 | a node other than the root is one level below its parent |
| Grammar.Next | lib/edifact/message_specification_node.rb:38-56 | next lists nodes of the specification only |
| Grammar.NextSibling | lib/edifact/message_specification_node.rb:60-77 | next_sibling lists nodes of the specification only |
| Grammar.NextReachable | lib/edifact/message_specification_node.rb:38-56 | next lists only leaves with visits left, or first children of groups with repetitions left |
| Grammar.NextSiblingReachable | lib/edifact/message_specification_node.rb:60-77 | the same for next_sibling |
| Grammar.NextKinds | lib/edifact/message_specification_node.rb:38-56 | next of an unvisited node after a match offers only legal continuations of that match |
| Grammar.NextSiblingKinds | lib/edifact/message_specification_node.rb:60-77 | the same for next_sibling |
| Grammar.NextAfterMatch | lib/edifact/message_specification_node.rb:38-56 | after a match, next offers the match again, a later sibling inside an open group, or a new repetition of an enclosing group |
| Grammar.BuildNodeLaidOut | lib/edifact/message_specification_node.rb:9-35 | the constructor lays out a node and its children's subtrees in preorder |
| Grammar.BuildChildrenLaidOut | lib/edifact/message_specification_node.rb:28-32 | the children's subtrees follow each other, with their sibling indices |
| Grammar.BuildWellFormed | lib/edifact/message_specification_node.rb:9-35 | an accepted specification gives a well-formed tree at level 0 whose nodes all pass the checks |
| Tree.GroupPosIsFirstSegment | lib/edifact/segment_tree.rb:18-20 | a group's position is that of its first segment in document order |
| Tree.AppendAt | lib/edifact/segment_tree.rb:86-94 | appending to an open group keeps the tree a group and extends the open path by the new node's |
| Tree.AppendSegments | lib/edifact/segment_tree.rb:94 | appending adds the new node's segments at the end of the document order |
| Tree.AppendOpen | lib/edifact/segment_tree.rb:86-94 | appending adds the node as the last child of that open group and keeps the groups above it |
| Tree.Start | lib/edifact/segment_tree.rb:41-51 | a new SegmentTree has no tree, no open group and no visits, and offers root.next |
| Tree.FirstMatch | lib/edifact/segment_tree.rb:68-69 | on_segment takes the first reachable node with the segment's name, or none iff none has it |
| Tree.Repeat | lib/edifact/segment_tree.rb:90-91 | corrected: a repeated group counts one more visit and every node of its subtree starts again from 0 |
| Tree.Enter | lib/edifact/segment_tree.rb:71-92 | corrected: the stack pops keep the state consistent and leave the matched node's level open |
| Tree.Step | lib/edifact/segment_tree.rb:67-106 | corrected: on_segment keeps the state consistent |
| Tree.Place | lib/edifact/segment_tree.rb:94-101 | appending, counting and validating keeps the state consistent |
| Tree.EofCheck | lib/edifact/segment_tree.rb:108-118 | on_eof raises iff a reachable node has fewer visits than its minimum, at position -1 |
| Tree.Feed | lib/edifact/segment_tree.rb:53-63 | feeding segments in turn keeps the state consistent |
| Tree.StepErrors | lib/edifact/segment_tree.rb:67-106 | an unreachable name raises at the segment and changes nothing; matching the root never returns; appending with no group open fails; otherwise the segment's validation decides |
| Tree.StepUnmatched | lib/edifact/segment_tree.rb:105 | the invalid segment error is raised iff no reachable node has the name, and then nothing changes |
| Tree.EnterVisits | lib/edifact/segment_tree.rb:90-91 | a first child starts a new repetition of its parent; other matches leave the counters |
| Tree.EnterOpen | lib/edifact/segment_tree.rb:75-88 | a first child opens a new empty group named after its parent |
| Tree.EnterSegments | lib/edifact/segment_tree.rb:83-84 | the segments stay, unless the new group becomes the tree |
| Tree.StepTree | lib/edifact/segment_tree.rb:71-94 | the stack is popped to the matched level (one less for a first child) and the segment is the last child of the innermost open group |
| Tree.StepGroupName | lib/edifact/segment_tree.rb:81 | a first child lands in a new group named after its parent |
| Tree.StepTreeSegments | lib/edifact/segment_tree.rb:83-94 | the segment becomes the last one of the tree in document order |
| Tree.StepVisits | lib/edifact/segment_tree.rb:90-99 | the counters after a match, and the reachable list is next of the match, or unchanged on error |
| Tree.StartStep | lib/edifact/segment_tree.rb:45-94 | the first segment of an accepted run opens the root group as its first child |
| Tree.EnterLater | lib/edifact/segment_tree.rb:71-73 | a later child only pops the stack down to its level |
| Tree.EnterFirst | lib/edifact/segment_tree.rb:75-89 | a first child opens a new empty instance of its group at the group's level |
| Tree.StepGood | lib/edifact/segment_tree.rb:67-101 | an accepted segment keeps the tree an instance of the specification along the open path and adds the segment at the end |
| Tree.FeedGood | lib/edifact/segment_tree.rb:53-63 | an accepted run keeps that invariant and adds its segments in order |
| Tree.RunConforms | lib/edifact/segment_tree.rb:53-63 | an accepted run gives no tree for no segments, else an instance of the root holding exactly the segments read, in order, with no empty group |
| SegmentTrees.Drive | lib/edifact/segment_tree.rb:53-63 | root, reading and feeding one segment at a time, keeps the state consistent |
| SegmentTrees.DriveFeeds | lib/edifact/segment_tree.rb:53-63 | when the whole stream reads, root feeds read_remaining's segments in turn |
| SegmentTrees.DriveReadsAll | lib/edifact/segment_tree.rb:53-63 | a run without error has read the whole stream |
| SegmentTrees.RootConforms | lib/edifact/segment_tree.rb:53-63 | what root returns without error is an instance of the specification holding every segment of the stream |
| SegmentTrees.SegmentTree.constructor | lib/edifact/segment_tree.rb:41-51 | the new object is in the start state over the given stream and specification |
| SegmentTrees.SegmentTree.OnSegment | lib/edifact/segment_tree.rb:67-106 | on_segment changes the fields and raises as Step specifies |
| SegmentTrees.SegmentTree.AddSegment | lib/edifact/segment_tree.rb:94-101 | appending, counting and validating as Place specifies |
| SegmentTrees.SegmentTree.FindMatch | lib/edifact/segment_tree.rb:68-69 | the search of @spec_nodes finds FirstMatch |
| SegmentTrees.SegmentTree.EnterNode | lib/edifact/segment_tree.rb:71-92 | the pops, the new group and the counters as Enter specifies |
| SegmentTrees.SegmentTree.OpenGroup | lib/edifact/segment_tree.rb:81-91 | a new group becomes the tree or the last child of the top group, is pushed, and its parent's repetition is counted |
| SegmentTrees.SegmentTree.PopTo | lib/edifact/segment_tree.rb:71-73 | pops until the stack holds at most level groups |
| SegmentTrees.SegmentTree.ResetCounters | lib/edifact/segment_tree.rb:90-91 | corrected: the counters become Repeat of the old counters |
| SegmentTrees.SegmentTree.OnEof | lib/edifact/segment_tree.rb:108-118 | on_eof raises exactly as EofCheck says |
| SegmentTrees.SegmentTree.Root | lib/edifact/segment_tree.rb:53-63 | the first call runs Drive and returns its tree or error; later calls return the tree unchanged |
| SegmentTrees.SegmentTree.Run | lib/edifact/segment_tree.rb:55-60 | the loop of root ends in the state and error of Drive |
| SegmentTrees.SegmentTree.Advance | lib/edifact/segment_tree.rb:56-60 | one turn of that loop keeps Drive's outcome and consumes tokens |
| SegmentTrees.NewSegmentTree | lib/edifact/segment_tree.rb:41-51 | SegmentTree.new raises the specification's error, or starts over the built specification |
| TreeFinding.ResetChildren | lib/edifact/segment_tree.rb:90-91 | as written: the group's count goes up and only its direct children start again from 0 |
| TreeFinding.EnterAsWritten | lib/edifact/segment_tree.rb:71-92 | as written, the stack and tree change as in Enter |
| TreeFinding.StepAsWritten | lib/edifact/segment_tree.rb:67-106 | on_segment as written keeps the state consistent |
| TreeFinding.FeedAsWritten | lib/edifact/segment_tree.rb:53-63 | root as written keeps the state consistent |
| TreeFinding.SameEnter | lib/edifact/segment_tree.rb:90-91 | where both resets agree, both versions of on_segment's first half agree |
| TreeFinding.CorrectedRun | lib/edifact/segment_tree.rb:67-106 | with the full reset, the second JKL of ABC DEF GHI JKL DEF JKL is refused at its position |
| TreeFinding.AsWrittenRun | lib/edifact/segment_tree.rb:53-118 | as written, every segment of that input is accepted and on_eof finds nothing missing |
| TreeFinding.StrayJkl | lib/edifact/segment_tree.rb:94 | the tree built as written holds JKL directly in SG0, so it is not an instance of the specification |
| TreeFinding.StaleVisitsCounterexample | lib/edifact/segment_tree.rb:90-91 | as written the input is accepted with a non-conforming tree; corrected it is refused |
| Nodes.Element.Append | lib/edifact/nodes/element.rb:9-11 | `<<` keeps the position and adds the component at the end |
| Nodes.Segment.Append | lib/edifact/nodes/segment.rb:10-12 | `<<` keeps name and position and adds the element at the end |
| Nodes.SegmentGroup.Append | lib/edifact/nodes/segment_group.rb:13-15 | `<<` keeps the name and adds the child at the end |
| Nodes.GroupPos | lib/edifact/nodes/segment_group.rb:9-11 | a group's position is its first child's, or -1 when it has none |
| Nodes.EscapeLength | lib/edifact/nodes/component.rb:13-15 | escaping adds one character per special character |
| Nodes.ComponentLengthIsEscapedLength | lib/edifact/nodes/component.rb:9-11 | length is the text length plus the special characters, the length of to_edifact |
| Nodes.EscapeHidesDelimiters | lib/edifact/nodes/component.rb:13-15 | no special character of an escaped text reads as a delimiter |
| Nodes.JoinedSeparators | lib/edifact/nodes/element.rb:13-15 | k components serialise with exactly k - 1 unescaped ':' |
| Nodes.ElementSeparators | lib/edifact/nodes/element.rb:13-15 | an element's text is a '+' followed by k - 1 unescaped ':' |
| Nodes.SegmentAppendSerialisation | lib/edifact/nodes/segment.rb:10-16 | appending an element puts its text just before the segment terminator |
| Nodes.GroupAppendSerialisation | lib/edifact/nodes/segment_group.rb:13-19 | appending a child extends the group's text by the child's text |
| Config.NewConfig | lib/edifact/nodes/to_edifact_config.rb:5-23 | the constructor refuses a newline except as segment separator, with ArgumentError, and keeps the delimiters and decimal point '.' |
| Config.DefaultConfig | lib/edifact/nodes/to_edifact_config.rb:5-33 | the keyword defaults give DEFAULT; a newline segment separator is accepted, a newline element separator is not |
| Config.UnaHeaderParsesBack | lib/edifact/nodes/to_edifact_config.rb:25-27 | una_header has nine characters and the tokenizer reads its delimiters back iff the six service characters are distinct |
| Config.EscapeLength | lib/edifact/nodes/to_edifact_config.rb:29-31 | escape adds one character per delimiter or release character |
| Config.EscapeWithoutSpecials | lib/edifact/nodes/to_edifact_config.rb:29-31 | a text without special characters is unchanged |
| Config.DefaultEscape | lib/edifact/nodes/to_edifact_config.rb:29-33 | escaping with DEFAULT is Component#to_edifact |
| Config.ScanEscapedChar | lib/edifact/nodes/to_edifact_config.rb:29-31 | the tokenizer reads one escaped character back as that character |
| Config.ScanEscaped | lib/edifact/nodes/to_edifact_config.rb:29-31 | the tokenizer reads an escaped text back into its buffer unchanged |
| Config.EscapeReadsBack | lib/edifact/nodes/to_edifact_config.rb:29-31 | an escaped non-empty text before a separator or the end is read back as one text token with exactly that text |
| Builder.LayoutSnoc | lib/edifact/segment_builder.rb:29-36 | each further value adds one component at the column after a separator and the escaped values before it |
| Builder.LayoutAt | lib/edifact/segment_builder.rb:29-36 | the i-th component holds the i-th value at that column |
| Builder.LayoutTexts | lib/edifact/segment_builder.rb:29-36 | the components hold the values in order |
| Builder.ElementWidth | lib/edifact/segment_builder.rb:26-36 | element moves @column by the length of the element's to_edifact, except an element without values |
| Builder.ComponentColumns | lib/edifact/segment_builder.rb:29-36 | each component's column is just after the text to_edifact writes before it |
| Builder.StartAligned | lib/edifact/segment_builder.rb:8-14 | a fresh builder is aligned and the first segment goes to column 10 |
| Builder.SegmentKeepsAlignment | lib/edifact/segment_builder.rb:16-24 | segment keeps positions and text aligned |
| Builder.ElementKeepsAlignment | lib/edifact/segment_builder.rb:26-43 | element with a value, on a group holding the current segment, keeps them aligned |
| Builder.SegmentOffsets | lib/edifact/segment_builder.rb:16-47 | in an aligned builder each segment's text sits in to_edifact's text at the segment's recorded column |
| Builder.ElementOffsets | lib/edifact/segment_builder.rb:26-47 | in an aligned builder each element's text sits in to_edifact's text at the element's recorded column, its '+' |
| RoundTrip.LexJoin | lib/edifact/token_stream.rb:77-176 | the components of an element, joined with ':', are lexed into one text token per non-empty text at its position and one token per ':' |
| RoundTrip.LexElements | lib/edifact/token_stream.rb:77-176 | written elements before a separator are lexed into a '+' token each, followed by their components' tokens |
| RoundTrip.LexSegment | lib/edifact/token_stream.rb:77-176 | a written segment with a plain name and components in every element is lexed into its name token, its elements' tokens and the terminator token, and lexing goes on right after it |
| RoundTrip.LexSegments | lib/edifact/token_stream.rb:55-105 | the text of written segments is lexed into their tokens, then eof at the position after the text |
| RoundTrip.ElementBodyJoin | lib/edifact/segment_stream.rb:62-81 | the loop of read_element appends the written components, empty ones included, at the positions the tokenizer gives them |
| RoundTrip.ReadElementTokens | lib/edifact/segment_stream.rb:58-84 | read_element over a written element's tokens returns it read back and stops before the next separator |
| RoundTrip.SegmentBodyTokens | lib/edifact/segment_stream.rb:42-55 | the loop of read_segment appends each written element read back, up to the terminator |
| RoundTrip.SegmentAtTokens | lib/edifact/segment_stream.rb:33-56 | read_segment over a written segment's tokens returns it read back and consumes exactly those tokens |
| RoundTrip.ReadAllTokens | lib/edifact/segment_stream.rb:23-29 | read_remaining over written segments' tokens and eof returns them all, read back, in order |
| RoundTrip.ReadElementsTexts | lib/edifact/segment_stream.rb:58-84 | reading back keeps every element's component texts, in order |
| RoundTrip.SegmentReadsBack | lib/edifact/nodes/segment.rb:14-16 | Segment#to_edifact of a segment with a plain name and components in every element, anywhere in the input, is read back by read_segment with its name, its texts and the tokenizer's position, and reading goes on right after its terminator |
| RoundTrip.ReadLayout | lib/edifact/segment_builder.rb:29-36 | components that element lays out without line breaks, in ASCII text (one character is one byte), carry the positions the tokenizer reports for them |
| RoundTrip.ReadPlacedSegments | lib/edifact/segment_builder.rb:16-43 | segments placed by the builder on line 1, in ASCII text (one character is one byte), read back as exactly themselves, positions included |
| RoundTrip.BuilderReadsBack | test/segment_builder_test.rb:44-55 | an aligned builder's to_edifact passes the header check, its body starts at 1:10, and SegmentStream#read_remaining returns exactly the builder's segments, positions included, when every name is plain, no name or value holds a line break, and every name and value is ASCII (one character is one byte) |
| Builder.SegmentBuilder.constructor | lib/edifact/segment_builder.rb:8-14 | a new builder is at column 10 with an empty group, and to_edifact is the header |
| Builder.SegmentBuilder.AddSegment | lib/edifact/segment_builder.rb:16-24 | segment places the new segment after the previous terminator and appends it |
| Builder.SegmentBuilder.AddElement | lib/edifact/segment_builder.rb:26-43 | element moves the column over the values and appends the laid-out element to the current segment; with no segment it raises after moving |
| Builder.SegmentBuilder.Read | lib/edifact/segment_builder.rb:50-52 | read takes the first segment out of the group, or nil |
| Builder.SegmentBuilder.ReadRemaining | lib/edifact/segment_builder.rb:54-56 | read_remaining returns every segment without removing any |
| Interchanges.ReadAllIsInput | lib/edifact/segment_stream.rb:23-29 | the segments the reader sees are those of read_remaining, or its error |
| Interchanges.Delivery | lib/edifact/interchange.rb:139-144 | one read of the segment stream, seen as the input the reader still has |
| Interchanges.Take | lib/edifact/interchange.rb:118-137 | read_segment returns the next segment only with the expected name and a passing check; no segment is an unexpected end of input |
| Interchanges.Accept | lib/edifact/interchange.rb:128-134 | a segment passes iff no name is expected, or it has that name and passes its check; a wrong name fails at its position |
| Interchanges.Body | lib/edifact/interchange.rb:102-108 | the body is the segments up to the next UNT or the end, none named UNT |
| Interchanges.CheckCount | lib/edifact/interchange.rb:146-153 | the count passes iff UNT's first field is the number of segments with UNH and UNT; otherwise it fails at UNT |
| Interchanges.CheckReference | lib/edifact/interchange.rb:155-171 | a reference check passes iff both fields exist and are equal |
| Interchanges.MessageAt | lib/edifact/interchange.rb:98-116 | read_message consumes exactly the message's segments, which satisfy every check |
| Interchanges.MessagesAt | lib/edifact/interchange.rb:80-86 | the loop reads well-formed messages up to UNZ or the end |
| Interchanges.InterchangeAt | lib/edifact/interchange.rb:77-96 | an accepted interchange is the whole input, without error, and is well formed |
| Interchanges.Closing | lib/edifact/interchange.rb:88-95 | UNZ, then the end of the input, then equal control references |
| Interchanges.BodyReads | lib/edifact/interchange.rb:102-108 | segments without UNT, then UNT or the end, are read back as the body |
| Interchanges.MessageReads | lib/edifact/interchange.rb:98-116 | every well-formed message is read back |
| Interchanges.MessagesRead | lib/edifact/interchange.rb:80-86 | well-formed messages before UNZ or the end are read back |
| Interchanges.ParsesExactly | lib/edifact/interchange.rb:66-96 | Interchange.new returns an envelope iff the stream delivers exactly its segments and it is well formed |
| Interchanges.SegmentAfterUnz | lib/edifact/interchange.rb:90-93 | a segment after UNZ is refused at its position, before the references are compared |
| Interchanges.ErrorAfterUnz | lib/edifact/interchange.rb:90 | a stream error after UNZ is raised |
| Interchanges.UnzCountIgnored | lib/edifact/interchange.rb:88-95 | UNZ's message count is never compared with the messages read |
| Interchanges.MissingUnz | lib/edifact/interchange.rb:88 | input ending without UNZ is an unexpected end of input |
| Interchanges.SegmentsToEdifactAppend | lib/edifact/interchange.rb:17 | serialising a sequence of segments distributes over concatenation |
| Interchanges.MessageToEdifactAsWrittenRaises | lib/edifact/interchange.rb:16-18 | as written, Message#to_edifact never returns the message's text |
| Interchanges.MessageToEdifact | lib/edifact/interchange.rb:16-18 | corrected: the text of UNH, the body and UNT, in order |
| Interchanges.PeekBuffered | lib/edifact/interchange.rb:139-144 | a filled peek buffer answers peek_segment |
| Interchanges.TakeBuffered | lib/edifact/interchange.rb:118-126 | shifting the buffer leaves the stream's pending segments |
| Interchanges.Interchange.constructor | lib/edifact/interchange.rb:66-71 | the fields before reading: no UNB, no messages, no UNZ, empty buffer |
| Interchanges.Interchange.PeekSegment | lib/edifact/interchange.rb:139-144 | peek_segment returns the next segment without consuming it |
| Interchanges.Interchange.ReadSegment | lib/edifact/interchange.rb:118-137 | read_segment returns and consumes what Take specifies |
| Interchanges.Interchange.Shift | lib/edifact/interchange.rb:119-122 | the buffer is filled when empty and its segment consumed |
| Interchanges.Interchange.ReadBody | lib/edifact/interchange.rb:100-108 | the loop of read_message reads what Body specifies |
| Interchanges.Interchange.ReadMessage | lib/edifact/interchange.rb:98-116 | read_message reads what MessageAt specifies |
| Interchanges.Interchange.ReadMessages | lib/edifact/interchange.rb:80-86 | the loop of read_interchange reads what MessagesAt specifies |
| Interchanges.Interchange.ReadInterchange | lib/edifact/interchange.rb:77-96 | read_interchange returns InterchangeAt of the input |
| Interchanges.Interchange.ReadClosing | lib/edifact/interchange.rb:88-95 | the end of read_interchange returns UNZ or the error Closing specifies |
| Interchanges.NewInterchange | lib/edifact/interchange.rb:66-73 | Interchange.new raises the reader's error, or holds the UNB, messages and UNZ read |
| Common.DecimalStringValue | lib/edifact/validation/component_spec.rb:32-43 | a number's decimal spelling reads back as that number |
| Common.ToIOfDigits | lib/edifact/validation/component_spec.rb:33 | `to_i` of a digit string is its decimal value |
| Common.ToIOfDecimal | lib/edifact/interchange.rb:147 | `to_i` of a number's decimal spelling is the number |
| Common.DigitPrefixLength | lib/edifact/interchange.rb:147 | `to_i` reads the longest prefix of digits |

## Left out

- The tokenizer's `Token` and `Position` classes are datatypes. `Position#to_s` and all exception message texts are left out; errors keep their class and position.
- The input is a sequence of characters, each standing for one byte. `StringIO#read(1)` is byte-level, and no character encoding is modelled.
- Tokens.TokenStream.Init: the constructor sets the fields only. `parse_una_header` is the separate method `ParseUnaHeader`, and Tokens.TokenStream.Open runs Init and then ParseUnaHeader, as the Ruby constructor does.
- Validation.Valid: the anchors `^` and `$` of the datatype patterns are read as the start and end of the whole text. Ruby reads them as the start and end of a line, so the source also accepts a text with a newline in it that has one matching line; the model refuses it.
- Regular expressions given as specifications are the parameter `rx`, which decides whether a pattern matches a text. Ruby's regex engine is not part of this model.
- Common.ToI: `String#to_i` is modelled as the value of the leading digits. Leading white space, signs and underscores, which Ruby also reads, are not modelled.
- The older pipeline of the library (lib/edifact/tokenizer.rb, segmenter.rb, tree_builder.rb, segment_validator.rb, element_validator.rb, and the top-level component.rb and segment_group.rb) is not part of this model.
- Interchanges.Take: the envelope `SegmentSpec` checks (UNB_SPEC, UNZ_SPEC, UNH_SPEC, UNT_SPEC) are the parameter `ok`. The source hands Hashes to `SegmentSpec.new`, whose `validate` then asks the Hash for `elements`, which a Hash does not answer, so those four specifications are not modelled as written.
- Interchanges.Take: at the end of the input the source calls `@segment_stream.next_pos` (lib/edifact/interchange.rb:125). `SegmentStream` does not define it, so the source raises NoMethodError there. The model keeps the intended error kind, UnexpectedEndOfInput, but drops its position and reports `NoPosition`. The intended position is the token stream's cursor (`TokenStream#next_pos`, lib/edifact/token_stream.rb:71), which test/interchange_test.rb:88 and :97 expect.
- Interchanges.MissingUnz: input ending without UNZ reaches that same call, so the source raises NoMethodError. The model reports the intended error kind, UnexpectedEndOfInput, at `NoPosition` rather than at the cursor position the intended error carries.
- Interchanges.CheckReference: a message reference mismatch is reported at UNT's position. The source passes the UNT segment itself where a position is expected.
- Interchanges.FieldText: an absent element or component of an envelope segment is the error MissingField, for the NoMethodError the source raises on `nil`.
- Interchanges.NewInterchange: `@unb`, `@messages` and `@unz` are stored once reading has succeeded. The source stores them while it reads. The difference shows only in an object whose constructor raised, which the caller never receives.
- Tree.Step: matching the root node itself never ends in the source: its stack-popping loop waits for a size below 0. The model reports this as the error Hangs.
- Tree.Step: appending with no open group is the NoMethodError of the source, modelled as the error NoOpenGroup.
- Tree: the source's stack of open groups shares its objects with the tree. The model keeps the tree as a value and the stack as its depth along the tree's last-child path; the source keeps that shape as an invariant.
- Tree.Step: on_segment is split into Enter (the stack pops and the new group) and Place (append, count, validate). Together they do what the source does, in the same order, except that the visit counters are reset with the corrected reset of Tree.Repeat.
- Tree.Repeat: uses the corrected reset of Findings row 1. Every counter in the repeated group's subtree goes back to 0, while lib/edifact/segment_tree.rb:91 resets only the group's direct children. TreeFinding.ResetChildren is line 91 as written.
- Tree.Enter: resets the counters with Tree.Repeat, the corrected reset. TreeFinding.EnterAsWritten is the same step with line 91 as written.
- SegmentTrees.SegmentTree.ResetCounters: resets the whole subtree as Tree.Repeat does, the corrected reset of Findings row 1, not only the direct children as line 91 does.
- Builder.SegmentBuilder.AddElement: alignment is proved only for an element with at least one value on a group that still holds the current segment. An element without values writes a `+` that the column does not count, and after `read` the group no longer holds `@segment`, so no alignment is claimed for those.
- Builder: the builder's `@segment` is shared with the group, so `@segment.elements << e` changes the group. The model replaces the last segment of the group by the extended one, which is the same while `@segment` is still in the group. After `read` has taken it out, the source extends a segment that is no longer in the group, and the model leaves the group alone.
- Builder.SegmentOffsets: states where a segment's text sits in `to_edifact`'s text, not the position the tokenizer reports. RoundTrip.BuilderReadsBack states the read-back positions.
- Builder.ElementOffsets: states where an element's text sits in `to_edifact`'s text, not the position the tokenizer reports. RoundTrip.BuilderReadsBack states the read-back positions.
- RoundTrip.BuilderReadsBack: proved only for names that are non-empty and free of `' + : ?`, for names and values without a line break, and for ASCII names and values (one character is one byte). The builder moves `@column` by `String#length`, which counts characters, while `read_byte` moves one column per byte; for `segment("ABC"); element("é", "x")` Ruby's builder records `x` at 1:16, the tokenizer reports 1:17, and the text read back is a binary string that is not `==` to `"é"`. The model's characters stand for bytes, so it cannot show this. A value holding `\n` sends the tokenizer to a new line, which the builder's `@line` does not follow. `Segment#to_edifact` does not escape names. An element without values breaks the alignment itself (see Builder.SegmentBuilder.AddElement).
- RoundTrip.SegmentReadsBack: an element without components is written as a bare `+`, which reads back as one empty component, so such segments are excluded.
- Nodes: Element and Segment define no `==`, so Ruby compares them by identity. The model uses structural equality, the comparison that the read-back test at test/segment_builder_test.rb:54 intends.
- Config.Escape: a character is escaped when it is one of the four delimiters, a set-membership reading. The source splices the delimiters into the regular expression character class `/([...])/`, which reads differently when a delimiter is `-` (a range: with component separator `-` the class `['+-?]` takes in the digits, so Ruby's `escape("1")` is `"?1"` while the model returns `"1"`), `^` in first place (a negated class), `]`, `[` or `\` (which close, nest or escape inside the class) or `&` next to another `&` (an intersection). Config.EscapeLength holds for the source only when no delimiter is one of these characters.
- Config.NewConfig: each delimiter is one character. The source accepts strings of any length, and the `una_header` and `escape` of a longer one are not modelled.
- Validation.Valid: `n..0` gives a validator that accepts no text. In Ruby the pattern `/^\d{1,0}$/` raises RegexpError when a text is checked. Counts above 100000 in `aN`, `nN` and `n..N` also raise RegexpError in Ruby, while the model checks them like any other count.
- Interchanges.MessageToEdifact: the corrected Message#to_edifact ignores its config, because Segment#to_edifact has only the fixed default delimiters.
- Concurrency, I/O and the tests themselves are outside the model.

## Findings

| source | as written | input that shows it | evidently intended | confidence | as-written member | corrected member |
|---|---|---|---|---|---|---|
| lib/edifact/segment_tree.rb:91 | when a group repeats, only the visit counters of its direct children are set to 0; the counters of nested groups' children keep their old values | specification MSG { ABC, SG0 (max 99) { DEF, SG1 { GHI, JKL (max 5) } } } and segments ABC DEF GHI JKL DEF JKL: the second JKL is accepted directly into the second SG0, and the tree is not an instance of the specification | every counter in the repeated group's subtree starts again from 0, so the second JKL is refused as an invalid segment | not executed | TreeFinding.StaleVisitsCounterexample | Tree.Repeat, Tree.RunConforms |
| lib/edifact/interchange.rb:16-18 | Message#to_edifact calls `s.to_edifact(config)` on each segment, but Segment#to_edifact takes no argument, so the first call raises ArgumentError | any message, for example the one of the multiple-messages test | the concatenated text of UNH, the body and UNT | not executed | Interchanges.MessageToEdifactAsWrittenRaises | Interchanges.MessageToEdifact |
