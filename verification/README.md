# mcfunction grammar, modelled in Dafny

This project models the tree-sitter grammar for Minecraft's `.mcfunction`
command files (`grammar.js`). It covers:

- the layout tokens: `_space`, `backslash` and `_newline`;
- the leaf tokens: numbers, ranges, macros, words, resources, coordinates,
  operators and the keyword lists;
- quoted strings;
- the NBT structures built with the `ARRAY` combinator;
- selectors and data paths;
- the `ARGUMENT` alternatives;
- commands, `execute` chains, comments, statements and whole source files.

Each grammar rule becomes three things:

- a datatype of concrete syntax trees, which keeps the layout;
- a printer `Text()` and a well-formedness predicate `Valid()`;
- a whole-string parser `ParseX(s): Option<X>`.

Parsers for sequences and repetitions search every split point with
`Base.FirstSome`. Token and keyword parsers such as `Numbers.ParseInteger`,
`Commands.ParseComment`, `Selectors.ParseTarget` and the word-list parsers
read their input directly. Every parser's contract is soundness: whatever it
returns is well-formed and prints back to exactly `s`. Lemmas then relate the
parser to the printer:

- completeness: every well-formed tree's text is accepted;
- exact round trips where a rule is unambiguous and the model proves it:
  `_space`, the comma separator, numbers, ranges, macros, words, offsets,
  coordinates, the keyword lists, slots other than `horse.*`, criteria, name
  keys, targets, path roots and node names, the `run` word and comments;
- concrete witnesses for the rules that are not;
- the acceptance and rejection facts the grammar's shape implies.

The three word lists the grammar loads from its data files are parameters of
type `set<string>`, gathered in `Commands.Vocabulary`:

- the command names (`GENERIC_COMMANDS`);
- the `execute` subcommands (`EXECUTE_SUBCOMMANDS`);
- the command keywords (`COMMAND_KEYWORDS`).

Where a rule is ambiguous, the generated tree-sitter parser chooses among
readings by lexer and precedence rules. The model does not reproduce that
choice. Instead, each parser tries the alternatives in the order the grammar
writes them, and the lemmas about such rules speak about the language (which
texts are accepted) rather than about which tree is returned.

Consequences of the grammar that are easy to miss:

- A file whose last line has no line break is not accepted
  (`Commands.MissingFinalNewline`). Every `_statement` ends with `_newline`.
- The offset after `~` or `^` takes no time-unit suffix. `position` and
  `rotation` allow only an `integer`, a `float` or a `macro`.
- A `float` needs digits after its point, so `1.` is not a float
  (`Numbers.OnePointIsNotFloat`).
- A `word` carries no attached item compound or quoted string.

## Model

| member | source | states |
|---|---|---|
| Layout.ParseSpace | grammar.js:55-58 | an accepted separator is one blank or a whitespace-backslash-line-feed-whitespace continuation that prints back to the input |
| Layout.SpaceShape | grammar.js:55-58 | a separator is never empty and holds only white space and the continuation backslash |
| Layout.SpaceRoundTrip | grammar.js:55-58 | `_space` is unambiguous: every well-formed separator is read back as itself |
| Layout.ParseOptSpace | grammar.js:36-42 | an optional separator is the empty text or one `_space` |
| Layout.OptSpaceRoundTrip | grammar.js:36-42 | an optional separator is read back exactly |
| Layout.ParseSep | grammar.js:39 | the `ARRAY` separator is padding, one comma, padding |
| Layout.SepRoundTrip | grammar.js:39 | the comma separator is unambiguous, since padding holds no comma |
| Combinators.Many | grammar.js:53 | a `repeat` splits its text into well-formed elements whose texts concatenate back to it |
| Combinators.ManyComplete | grammar.js:53 | every sequence of accepted non-empty elements is accepted by `repeat` (and by `repeat1` when non-empty) |
| Combinators.Separated | grammar.js:36-39 | an element followed by separator-element repeats: one more element than separators, all well-formed, interleaving back to the text |
| Combinators.SeparatedComplete | grammar.js:36-39 | every well-formed interleaving of accepted elements is accepted |
| Combinators.Padded | grammar.js:35-41 | the optional padded body of `ARRAY` reads back to its text |
| Combinators.Array | grammar.js:31-45 | `ARRAY(open, close, element)`: the items are well-formed and print back between the opener and closer |
| Combinators.ArrayComplete | grammar.js:31-45 | every well-formed `ARRAY` of accepted elements is accepted |
| Combinators.ArrayEmpty | grammar.js:31-45 | the empty form, opener directly followed by closer, is accepted as the array with no items |
| Combinators.ArrayOpens | grammar.js:31-45 | an `ARRAY` text starts with its opener and ends with its closer |
| Combinators.AfterOpen | grammar.js:31-45 | the first character after the opener that is not padding is an element's first character or the closer: no comma follows the opener, with or without padding in between, when elements do not start with one |
| Combinators.BeforeClose | grammar.js:31-45 | the last character before the closer that is not padding is an element's last character or the opener's last: there is no trailing comma, with or without padding before the closer |
| Combinators.TextsAt | grammar.js:31-45 | the printed elements keep their order: the i-th text is the i-th element's |
| Numbers.SuffixOfChar | grammar.js:134-136 | each width suffix letter, in either case, is read back as itself |
| Numbers.ParseInteger | grammar.js:137-147 | an accepted integer is an optional minus, digits and an optional width suffix, printing back to the input |
| Numbers.IntegerRoundTrip | grammar.js:137-147 | `integer` is unambiguous |
| Numbers.IntegerShape | grammar.js:137-147 | an accepted integer is an optional `-`, at least one digit, then digits and at most one final `BbSsLl` letter |
| Numbers.IntegerHasNoPoint | grammar.js:137-147 | an accepted integer contains no `.` |
| Numbers.ParseFloat | grammar.js:149 | an accepted float is an optional minus, optional whole digits, a point and fraction digits |
| Numbers.FloatRoundTrip | grammar.js:149 | `float` is unambiguous |
| Numbers.FloatEndsInDigit | grammar.js:149 | an accepted float ends with a digit |
| Numbers.OnePointIsNotFloat | grammar.js:149 | `1.` is rejected |
| Numbers.ParseNumber | grammar.js:151 | a `number` is a suffix-free whole number or a float |
| Numbers.NumberShape | grammar.js:151 | a number is non-empty and each of its points is followed by a digit |
| Numbers.NumberRoundTrip | grammar.js:151 | `number` is unambiguous: the two alternatives never share a text |
| Numbers.ParseRange | grammar.js:188-193 | an accepted range is `N..`, `..N` or `N..M` with at least one bound |
| Numbers.RangeRoundTrip | grammar.js:188-193 | `range` is unambiguous: its `..` can stand in one place only |
| Numbers.RangeSplitUnique | grammar.js:188-193 | in `lo..hi` a `..` starts only at the real separator, or one later where the prefix ends in an unfollowed point |
| Numbers.BareDotsNotRange | grammar.js:188-193 | `..` alone is rejected |
| Lexemes.ParseMacro | grammar.js:80-85 | an accepted macro is `$(name)` or `%[name]` with a `[a-z_]+` name |
| Lexemes.MacroRoundTrip | grammar.js:80-85 | `macro` is unambiguous |
| Lexemes.MacroEnds | grammar.js:80-85 | an accepted macro begins with `$` or `%` and ends with `)` or `]` |
| Lexemes.ParseWord | grammar.js:185-186 | an accepted word is `#` and word chars, or an optional point, a non-digit word char and word chars |
| Lexemes.WordRoundTrip | grammar.js:185-186 | `word` is unambiguous |
| Lexemes.ParseResource | grammar.js:237-241 | an accepted resource is a `./` or `ns:` head and one or more macros, slashes and segment runs |
| Lexemes.ParseHead | grammar.js:239 | the head read at the start of a text is `./` or an optional `#`, a name and `:`, and is exactly the prefix it reports |
| Lexemes.ParsePart | grammar.js:240 | a path item is a macro, a `/` or a segment run printing back to the input |
| Lexemes.HeadRoundTrip | grammar.js:239 | the head of a resource is read back exactly whatever follows it |
| Lexemes.ResourceComplete | grammar.js:237-241 | every well-formed resource is accepted |
| Lexemes.ResourceSplitWitness | grammar.js:240 | one resource text has two readings of its path items |
| Lexemes.ParseCoordinate | grammar.js:153-156 | an accepted coordinate is `~` or `^` with an optional integer, float or macro offset |
| Lexemes.NumericStart | grammar.js:137-149 | an integer or float starts with `-`, `.` or a digit |
| Lexemes.OffsetRoundTrip | grammar.js:154 | the three offset forms never overlap |
| Lexemes.CoordinateRoundTrip | grammar.js:153-156 | `position` and `rotation` are unambiguous |
| Lexemes.ParseOffset | grammar.js:154 | an accepted offset is an integer, a float or a macro printing back to the input |
| Lexemes.ParseOperator | grammar.js:158-159 | an accepted operator is one of the nine operator texts, printed back exactly |
| Lexemes.ParseBool | grammar.js:130 | an accepted boolean prints back to the input |
| Lexemes.ParseTypeName | grammar.js:131-132 | an accepted type name prints back to the input |
| Lexemes.ParseHeightmap | grammar.js:209-215 | an accepted heightmap prints back to the input |
| Lexemes.ParseColor | grammar.js:217-218 | an accepted colour prints back to the input |
| Lexemes.OperatorRoundTrip | grammar.js:158-159 | each of the nine operators is read back as itself |
| Lexemes.BoolRoundTrip | grammar.js:130 | `true` and `false` are read back as themselves |
| Lexemes.TypeNameRoundTrip | grammar.js:131-132 | each of the six type names is read back as itself |
| Lexemes.HeightmapRoundTrip | grammar.js:209-215 | each of the four heightmaps is read back as itself |
| Lexemes.ColorRoundTrip | grammar.js:217-218 | each of the sixteen colours is read back as itself |
| Lexemes.ParseCriterion | grammar.js:222-232 | an accepted plain criterion name prints back to the input |
| Lexemes.ParseTeamRef | grammar.js:233-234 | a team reference is a colour or a macro printing back to the input |
| Lexemes.ParseCriteria | grammar.js:220-235 | an accepted criterion is a plain name, or `teamkill.`/`killedByTeam.` with a colour or macro |
| Lexemes.TeamRefRoundTrip | grammar.js:233-234 | a team colour or macro is read back as itself |
| Lexemes.CriterionHasNoPoint | grammar.js:222-232 | no plain criterion name contains a point |
| Lexemes.TeamCriteriaText | grammar.js:233-234 | a team criterion is no plain name, and its prefix tells which of the two it is |
| Lexemes.CriteriaRoundTrip | grammar.js:220-235 | `scoreboard_criteria` is unambiguous |
| Lexemes.ParseSlotGroup | grammar.js:196-203 | an accepted container name prints back to the input |
| Lexemes.ParseEquipment | grammar.js:206 | an accepted equipment slot prints back to the input |
| Lexemes.ParseSlot | grammar.js:195-207 | an accepted slot is one of the ten patterns, tried in the grammar's order |
| Lexemes.IndexedRoundTrip | grammar.js:196-203 | a container slot with its one index character is read back as itself |
| Lexemes.SlotGroupRoundTrip | grammar.js:196-203 | each container name is read back as itself |
| Lexemes.EquippedRoundTrip | grammar.js:206 | an equipment slot other than `horse.*` is read back as itself |
| Lexemes.NotIndexed | grammar.js:196-206 | an equipment slot other than `horse.*` matches no indexed pattern |
| Lexemes.SlotRoundTrip | grammar.js:195-207 | every slot is accepted, and read back exactly except `horse.*` |
| Lexemes.HorseStarAmbiguous | grammar.js:202-206 | `horse.*` is written alike by two patterns and is read as the indexed one |
| Lexemes.SlotIndexIsOneChar | grammar.js:197 | the bracket is a one-character class: `container.` followed by any two digits (such as `container.12`) is rejected, and `container.(` is accepted |
| Strings.ParsePiece | grammar.js:168 | a body item is a run of text characters or a macro |
| Strings.ParseString | grammar.js:163-183 | an accepted string is quoted by one kind of quote around a string of the other kind or text and macros |
| Strings.QuotesMatch | grammar.js:163-183 | a string opens and closes with the quote of its kind |
| Strings.StringComplete | grammar.js:163-183 | every well-formed string is accepted with its kind and nesting kept |
| Strings.ParsedKind | grammar.js:183 | an accepted string's kind is the quote it opens with |
| Strings.PiecesHaveNoQuote | grammar.js:168 | text runs and macros never contain a quote |
| Strings.FlatHasNoQuote | grammar.js:168 | an accepted run of body items contains no quote |
| Strings.SameQuoteRejected | grammar.js:163-181 | a string cannot nest a string of its own quote |
| Nbt.ParseNameKey | grammar.js:247 | a name key is a `[a-zA-Z_.]+` name after an optional `[a-z_]+:` namespace |
| Nbt.ParseKey | grammar.js:245-250 | an accepted key is a name key, a string or a macro |
| Nbt.NameKeyRoundTrip | grammar.js:247 | a name key is read back exactly |
| Nbt.KeyComplete | grammar.js:245-250 | every well-formed key is non-empty and accepted |
| Nbt.ParseLeafValue | grammar.js:252-258 | a leaf value is a boolean, type name, integer, float, string, resource, word or range printing back to the input |
| Nbt.ParseTextValue | grammar.js:255-258 | a text value is a string, resource, word or range printing back to the input |
| Nbt.ParseValue | grammar.js:252-261 | an accepted value is one of the seven `compound_value` alternatives |
| Nbt.ParseNbt | grammar.js:273-298 | an accepted NBT structure is a compound, list or typed array printing back to the input |
| Nbt.ParseCompound | grammar.js:275 | `nbt_compound` is an `ARRAY` of pairs in braces |
| Nbt.ParseList | grammar.js:276 | `nbt_list` is an `ARRAY` of values in brackets |
| Nbt.ParseTypedArray | grammar.js:277-298 | `nbt_typed_array` is `[`, `B`, `I` or `L`, `;`, and an `ARRAY` body of integers |
| Nbt.ParsePair | grammar.js:263-271 | a pair is a key, padding, `=` or `:`, an optional `!`, padding and a value |
| Nbt.LeafComplete | grammar.js:252-258 | every well-formed value other than NBT and macro is accepted |
| Nbt.ValueComplete | grammar.js:252-261 | every well-formed value is accepted |
| Nbt.NbtComplete | grammar.js:273-298 | every well-formed NBT structure is accepted |
| Nbt.TypedComplete | grammar.js:277-298 | every well-formed typed array is accepted |
| Nbt.PairComplete | grammar.js:263-271 | every well-formed pair is accepted |
| Nbt.EmptyCompound | grammar.js:275 | `{}` is accepted as the compound with no pairs |
| Nbt.EmptyList | grammar.js:276 | `[]` is accepted as the list with no values, not as a compound |
| Nbt.EmptyTypedArray | grammar.js:277-298 | `[I;]` is accepted as the int array with no elements |
| Nbt.IntegerEdges | grammar.js:137-147 | an integer is non-empty and neither begins nor ends with a comma or padding |
| Nbt.TypedArrayShape | grammar.js:277-298 | an accepted typed array is `[`, an upper-case tag, `;` … `]`, with no comma as the first non-padding character after `;` or the last one before `]` |
| Nbt.TypedTextShape | grammar.js:277-298 | every well-formed typed array is written with that shape |
| Nbt.TypedArrayRejects | grammar.js:280-297 | a tag other than `B`, `I`, `L` is rejected, and so is a comma after `;` or before `]` with any padding in between |
| Nbt.LeadingCommaRejected | grammar.js:277-298 | `[I;`, padding, a comma and anything after is rejected for every tag |
| Nbt.TrailingCommaRejected | grammar.js:277-298 | anything followed by a comma, padding and `]` after a typed opener is rejected |
| Nbt.PairAmbiguity | grammar.js:245-271 | `a:b:c` is both a namespaced key with a word and a key with a resource |
| Selectors.ParseTarget | grammar.js:305 | a target is one of the `@` variables, `*`, or a word |
| Selectors.WordStart | grammar.js:185-186 | a word starts with neither `@`, `*` nor `[` |
| Selectors.TargetHasNoBracket | grammar.js:305 | a target's text holds no `[` |
| Selectors.TargetRoundTrip | grammar.js:305 | a target is read back exactly |
| Selectors.ParseArguments | grammar.js:308 | the bracketed arguments are an `ARRAY` of pairs |
| Selectors.ArgumentsComplete | grammar.js:308 | every well-formed argument list is accepted |
| Selectors.ParseFilter | grammar.js:306-313 | a filter is the argument list, or a bracketed number |
| Selectors.ParseIndexFilter | grammar.js:311-313 | the index filter is `[`, a number and `]`, printing back to the input |
| Selectors.FilterComplete | grammar.js:306-313 | every well-formed filter is accepted |
| Selectors.ParseSelector | grammar.js:302-316 | an accepted selector is a target with an optional filter, or a macro with an argument list |
| Selectors.SelectorComplete | grammar.js:302-316 | every well-formed selector is accepted |
| Selectors.BareTargetRoundTrip | grammar.js:305-306 | a target without a filter is read back as that selector |
| Paths.ParseRoot | grammar.js:320 | a path root is a `[a-zA-Z_]+` name or a macro, then a `.` |
| Paths.MacroHasNoPoint | grammar.js:80-85 | a macro never contains `.` |
| Paths.RootRoundTrip | grammar.js:320 | a root is read back exactly, and its only `.` is its last character |
| Paths.ParseNodeName | grammar.js:326 | a node name is a `[a-zA-Z0-9_]+` run or a macro |
| Paths.NodeNameRoundTrip | grammar.js:326 | a node name is read back exactly |
| Paths.ParseSubscript | grammar.js:327-336 | a subscript is `[number]`, `[macro]` or an `nbt_compound` |
| Paths.SubscriptComplete | grammar.js:327-336 | every well-formed subscript is accepted |
| Paths.SubscriptEnds | grammar.js:327-336 | a subscript ends with `]` or `}` |
| Paths.ParseNode | grammar.js:323-338 | a node is a string, or a name with an optional subscript |
| Paths.NodeComplete | grammar.js:323-338 | every well-formed node is accepted, and none ends with `.` |
| Paths.ParseSegment | grammar.js:322-340 | a segment is a node and an optional `.` |
| Paths.SegmentComplete | grammar.js:322-340 | every well-formed segment is accepted |
| Paths.ParsePath | grammar.js:318-342 | an accepted path is a root then one or more segments |
| Paths.PathComplete | grammar.js:318-342 | every well-formed path is accepted |
| Paths.SegmentAmbiguity | grammar.js:321-341 | `a.bc` is one node `bc`, or `b` and `c` back to back |
| Arguments.ParseArgument | grammar.js:14-29 | an accepted argument is one of the fourteen `ARGUMENT` alternatives, first in list order |
| Arguments.ArgumentAlternatives | grammar.js:14-29 | any alternative that accepts a text makes the argument parser accept it |
| Arguments.ArgumentComplete | grammar.js:14-29 | every well-formed argument is non-empty and accepted |
| Commands.ParseItem | grammar.js:115-123 | an item is a vocabulary word or an argument |
| Commands.ItemComplete | grammar.js:115-123 | every well-formed non-empty item is accepted |
| Commands.ParseSpaced | grammar.js:108-123 | a repeated element is a separator then an item |
| Commands.SpacedComplete | grammar.js:108-123 | every well-formed repeated element is accepted |
| Commands.ParseSpacedRun | grammar.js:108-123 | a run of repeated elements splits into well-formed elements whose texts concatenate back to the input |
| Commands.SpacedRunComplete | grammar.js:108-123 | every run of well-formed repeated elements is accepted when no vocabulary word is empty |
| Commands.ParseCommand | grammar.js:118-124 | an accepted command is a command name, then keywords and arguments, each after a separator |
| Commands.CommandComplete | grammar.js:118-124 | every well-formed command is accepted |
| Commands.ParseRunWord | grammar.js:109-111 | the word before the body is separator, `run`, separator |
| Commands.RunWordComplete | grammar.js:109-111 | every well-formed `run` with its separators is accepted |
| Commands.RunWordRoundTrip | grammar.js:109-111 | the `run` word is unambiguous: separators hold no `r`, so the word is read back as itself |
| Commands.ParseRunnable | grammar.js:112 | what follows `run` is an `execute_statement` or a `command` |
| Commands.ParseExecute | grammar.js:105-113 | an accepted `execute_statement` is `execute`, subcommands and arguments, ` run `, and a chain or command |
| Commands.ExecuteComplete | grammar.js:105-113 | every well-formed `execute` chain is accepted |
| Commands.RunnableComplete | grammar.js:112 | every well-formed chain or command after `run` is accepted |
| Commands.RunInText | grammar.js:105-113 | every `execute` chain holds `run` with a separator character on each side after its subcommands |
| Commands.ExecuteHasRun | grammar.js:105-113 | whatever is accepted as an `execute_statement` holds such a ` run ` |
| Commands.ExecuteWithoutRun | grammar.js:105-113 | a chain of subcommands without ` run ` is rejected |
| Commands.ExecuteRunCommand | grammar.js:105-124 | `execute run <name>` is accepted for every command name |
| Commands.ParseComment | grammar.js:96-98 | a comment is `#`, one character other than `!`, and a line without line breaks |
| Commands.ParseMime | grammar.js:100-101 | a mime comment is `#!`, an identifier, a separator and the rest of the line |
| Commands.MimeComplete | grammar.js:100-101 | every well-formed mime comment is accepted |
| Commands.CommentRoundTrip | grammar.js:98 | `#`, a character other than `!` and a line without line breaks is read back as that comment |
| Commands.ParseLine | grammar.js:64-73 | a line is a mime comment, a comment, or code after an optional `$` |
| Commands.ParseCode | grammar.js:68-71 | code is an optional `$` and an `execute` chain or command, printing back to the input |
| Commands.LineComplete | grammar.js:64-73 | every well-formed line is accepted |
| Commands.ParseStatement | grammar.js:57-75 | an accepted statement is indentation, optional contents and a line break, so it ends with a line feed |
| Commands.StatementComplete | grammar.js:57-75 | every well-formed statement is accepted |
| Commands.StatementEnds | grammar.js:57-75 | a statement's text ends with a line feed |
| Commands.ParseSourceFile | grammar.js:53 | a source file is a run of statements |
| Commands.SourceFileComplete | grammar.js:53 | every run of well-formed statements is accepted |
| Commands.SourceFileEnds | grammar.js:53-75 | a non-empty accepted file ends with a line feed |
| Commands.MissingFinalNewline | grammar.js:53-75 | a non-empty text whose last character is not a line feed is rejected |
| Commands.CommentTakesNewline | grammar.js:98 | `#` followed by a line feed is a comment whose second character is that line feed |

## Left out

- The tree-sitter runtime is not modelled. That covers the generated parser's lexer, precedence, conflict resolution (GLR), error recovery with `ERROR` nodes, byte spans and incremental re-parsing. The model describes the language of each rule, not the tree the generated parser would pick.
- When a text has several readings, each parser returns the first in the grammar's order of alternatives. Split points are tried shortest first. This is a modelling choice and need not match the tree the generated parser builds.
- The data files behind `GENERIC_COMMANDS`, `EXECUTE_SUBCOMMANDS` and `COMMAND_KEYWORDS` are not part of this model. Their words are the three sets of `Commands.Vocabulary`.
- The Python binding test exercises the compiled parser through a foreign runtime. It is not modelled.
- Nesting depth is unbounded in the model. Recursion limits of the generated parser are not modelled.
- `simple_identifier`, `line_contents` and the indicator tokens are folded into the rules that use them. They are not separate trees.
- Lexemes.ResourceComplete: acceptance only. The path items of a resource can be split in more than one way (`Lexemes.ResourceSplitWitness`), so there is no exact round trip.
- Strings.StringComplete: acceptance with the quote kind and nesting kept, not an exact round trip. Adjacent text runs can be split in more than one way.
- Nbt.ValueComplete: acceptance only. The same text can be several `compound_value` alternatives (a word or a resource, for example). It can also be several pairs (`Nbt.PairAmbiguity`).
- Nbt.NbtComplete: acceptance only, for the same reason as values.
- Nbt.PairComplete: acceptance only, for the same reason as values.
- Selectors.SelectorComplete: acceptance only, because argument values are ambiguous.
- Paths.PathComplete: acceptance only. Node names can be split in more than one way (`Paths.SegmentAmbiguity`).
- Arguments.ArgumentComplete: acceptance only. Several `ARGUMENT` alternatives share texts, such as a word selector and a resource.
- Commands.ExecuteComplete: acceptance only. A vocabulary word can also be an argument, and subcommand runs can be split in more than one way.
- Commands.CommandComplete: acceptance only, for the same reasons as `execute` chains.
- Commands.StatementComplete: acceptance only, for the same reasons as commands.
- Commands.SourceFileComplete: acceptance only, for the same reasons as statements.
- Commands.SpacedRunComplete, Commands.CommandComplete, Commands.ExecuteComplete, Commands.RunnableComplete, Commands.ExecuteRunCommand, Commands.CodeComplete, Commands.LineComplete, Commands.StatementComplete, Commands.SourceFileComplete: these require that no keyword or subcommand is the empty word (`Commands.NoEmptyWord`, `Commands.WellFormed`). An empty word would let a repetition loop without consuming input. The grammar's word lists contain no empty word.
- Nbt.TypedComplete: acceptance only. No exact round trip for typed arrays is proved, although their integers cannot be split in more than one way.
