# AL schema extraction and diagram export, modelled in Dafny

This project models the core of a Visual Studio Code extension that reads
Business Central AL source text and draws its tables as an entity-relationship
diagram. The model covers the following steps.

- **Parsing one file** (`src/alParser.ts`). Every `table` / `tableextension`
  header is found by the object pattern. Its body is cut out by the
  brace-balancing scanner. The table caption, the fields (FlowField and
  FlowFilter fields skipped) and the keys (the first one primary) are read
  from the body. Then the fields listed by the primary key get the
  primary-key flag, and every field with a `TableRelation` gets the
  foreign-key flag and a resolved target table and field. An optional name
  prefix is stripped from object, field and key names. The key fields are
  read with a corrected pattern (see "## Findings"): as written, when
  whitespace follows the comma (the usual `", "` layout), the source keeps
  the quotes on the second and later quoted names of a key, so those
  fields never get the primary-key flag; the model removes them.
- **Merging across files** (`src/alScanner.ts`). Extension fields are added
  to the table each extension extends, skipping names already present
  (ignoring case). Then one relation is derived per foreign-key field that
  has a related table.
- **Preparing the interactive diagram** (`src/diagramRenderer.ts`). This
  yields one entity per drawn table name, the first object winning.
  Relations are de-duplicated and dropped unless both ends are drawn. This
  step also covers the HTML escaping of titles.
- **The Mermaid export** (`src/mermaidGenerator.ts`). It produces one
  `erDiagram` block per sanitized entity name, with field types mapped to
  short labels, PK/FK markers and captions, and one line per distinct
  relation. It also covers the escaping that puts the diagram text inside a
  JavaScript template literal.

Every JavaScript regular expression of the parser is modelled as a matcher
function `…At(s, p)`. The matcher says whether the pattern matches at `p`
and what it captures, with the backtracking of the JavaScript engine worked
out case by case. A global `exec` loop becomes a generic leftmost search,
`Text.Search`. Each loop of the source is a `method` proved against a
specification function of its inputs. The properties the code promises are
lemmas about those functions.

The parser's object record carries a `caption` (set at `src/alParser.ts:46`,
read at `src/diagramRenderer.ts:103`), although `src/types.ts` does not
declare it. `AlTypes.AlTable` has the field, following the code.

`mergeTableExtensions` keys its map by lower-cased name with `Map.set`. When
two tables share a name, the extension fields therefore go to the LAST of
them. The model follows the code (`AlScanner.TargetIsLastTable`).

## Model

| member | source | states |
|---|---|---|
| BalancedBlock.ExtractBalancedBlock | src/alParser.ts:242-275 | the character loop returns exactly `Block(content, start)`, the specification of the scan |
| BalancedBlock.Block | src/alParser.ts:242-275 | the block is the slice of the text that starts just after the `{`; when it stops before the end, the next character is the closing `}`; a start past the end gives "" |
| BalancedBlock.BalancedBlockIsContent | src/alParser.ts:242-275 | for well-nested content X (nested braces, quoted strings that hide braces, `//` comments, single `/` characters not followed by `/`), the block read just after `{` in `{X}rest` is exactly X |
| BalancedBlock.UnbalancedTakesRest | src/alParser.ts:248-274 | with no `}` after the start, the whole rest of the text is returned |
| BalancedBlock.QuotedSpan | src/alParser.ts:251-258 | inside a string opened by `'` or `"`, nothing counts until the same quote closes it |
| BalancedBlock.CommentSpan | src/alParser.ts:263-266 | outside strings, `//` skips to the end of the line |
| AlProperties.StripPrefix | src/alParser.ts:229-240 | an empty prefix changes nothing; a value that starts with the prefix loses it; any other value is kept |
| AlProperties.StripPrefixIsSuffix | src/alParser.ts:229-240 | the stripped name is always a suffix of the value |
| AlProperties.UndoubleDouble | src/alParser.ts:170 | undoing `''` gives back any value whose quotes were doubled |
| AlProperties.ExtractPropertyRoundTrip | src/alParser.ts:166-171 | `Name = '<v with quotes doubled>';` followed by anything reads back as v |
| AlProperties.ExtractPropertyIgnoresCase | src/alParser.ts:166-177 | the property name is matched ignoring ASCII case: two spellings that differ only in case read the same value from any block |
| AlProperties.ExtractPropertyAnyCase | src/alParser.ts:166-171 | `caption = '<v>';` is read back as v when `Caption` is asked for, and likewise for any other spelling of the name |
| AlProperties.UnassignedProperty | src/alParser.ts:166-179 | a block in which the name is never assigned, in any case, reads as "" |
| AlProperties.ExtractPropertyUnquoted | src/alParser.ts:173-177 | with no quote in the text, `Name = t;` reads back as t trimmed |
| AlProperties.TableCaptionRoundTrip | src/alParser.ts:58-65 | a table-level `Caption = '…';` before the `fields {` opener is read back exactly |
| AlProperties.CaptionNotReadFromFieldsBlock | src/alParser.ts:59-62 | a Caption that occurs only inside the fields block is never taken as the table caption |
| AlProperties.ExtractTableRelation | src/alParser.ts:182-194 | the relation text has no `;`; with no `TableRelation =` it is ""; without a prefix it is trimmed and has no two whitespace characters in a row (the value read is stated by `AlProperties.ExtractTableRelationRoundTrip`) |
| AlProperties.StripQuotedNames | src/alParser.ts:190-191 | stripping prefixes inside quoted names only removes characters: every character of the result occurs in the input (the value is stated by the four `StripQuoted…` lemmas below) |
| AlProperties.ExtractTableRelationRoundTrip | src/alParser.ts:182-194 | `TableRelation = <v>;` followed by anything reads back as v when v is single-spaced and has no `;`; with a prefix, as v with its quoted names stripped |
| AlProperties.StripQuotedHead | src/alParser.ts:190-191 | a quoted name at the front loses the prefix and keeps its quotes; the rest is handled on its own |
| AlProperties.StripQuotedPlain | src/alParser.ts:190-191 | a character other than a double quote is copied unchanged and the rest is processed on its own |
| AlProperties.StripQuotedUnquoted | src/alParser.ts:190-191 | text without a double quote is kept as it is |
| AlProperties.StripQuotedQualified | src/alParser.ts:190-191 | `"T"."F"` keeps its quotes and its dot, with the prefix stripped from T and from F |
| AlProperties.ExtractFieldBody | src/alParser.ts:116-122 | "" unless the text after the declaration starts (after whitespace) with `{`; otherwise the slice after that `{`, ended by its `}` or by the end of the text |
| AlProperties.CutAtCondition | src/alParser.ts:201 | the text is cut at the first whole-word `WHERE` or `IF` (any case): a prefix with no such keyword, followed by the keyword when shorter |
| AlProperties.ResolveTableRelation | src/alParser.ts:196-227 | an empty relation resolves to two empty names; a relation that does not start with a quoted table name has an empty field |
| AlProperties.ResolvedTableEmptyIff | src/alParser.ts:197-206 | without a prefix, the target table is empty exactly when the relation text is |
| AlProperties.ResolveQuotedTable | src/alParser.ts:203-224 | a quoted table followed by a field part resolves to the stripped table and the field that part names |
| AlProperties.ResolveQuotedQualified | src/alParser.ts:203-217 | `"T"."F"` resolves to table T and field F, each prefix-stripped |
| AlProperties.ResolveQuotedThenWord | src/alParser.ts:213-222 | `"T".F` with a bare word F resolves to table T and field F |
| AlProperties.ResolveFiltered | src/alParser.ts:201-213 | `"T" WHERE …` resolves to table T and an empty field: the filter is ignored |
| AlFields.ParseFields | src/alParser.ts:70-78 | returns the fields the specification function gives; no `fields {` opener gives no fields |
| AlFields.ReadFields | src/alParser.ts:80-111 | the `fieldRegex.exec` loop returns the kept fields of every declaration visited, in order |
| AlFields.ReadField | src/alParser.ts:84-97 | one iteration builds the record from the declaration and its own property block |
| AlFields.FieldFrom | src/alParser.ts:99-110 | a new field has a non-empty class, no key flags and no resolved relation |
| AlFields.FieldClassDefault | src/alParser.ts:92 | a field whose block never assigns `FieldClass` is a `Normal` field |
| AlFields.FieldClassWritten | src/alParser.ts:92 | a field whose block starts with `FieldClass = '<v>';`, the name in any case, has the class v when v is not empty |
| AlFields.ParseFieldsEmitted | src/alParser.ts:92-110 | no FlowField or FlowFilter is returned, every field has a class, and no flag is set yet |
| AlFields.FieldDeclRoundTrip | src/alParser.ts:80-86 | `field(<id>; "<name>"; <type>)` reads back as its number, name and type, whatever follows it |
| AlKeys.ParseKeys | src/alParser.ts:124-132 | returns the keys the specification function gives, key fields read with the corrected pattern; no `keys {` opener gives no keys |
| AlKeys.ReadKeys | src/alParser.ts:134-148 | the `keyRegex.exec` loop with its `isFirst` flag returns the keys of every declaration visited, in order, key fields read with the corrected pattern |
| AlKeys.ReadKey | src/alParser.ts:139-146 | one iteration builds the key from its trimmed, unquoted, stripped name and its stripped fields, read with the corrected pattern |
| AlKeys.KeysOf | src/alParser.ts:136-147 | one key per declaration; a key is primary exactly when it is the first |
| AlKeys.KeysOfSnoc | src/alParser.ts:142-147 | each further declaration appends one key, primary exactly when the list was empty |
| AlKeys.OnlyFirstKeyIsPrimary | src/alParser.ts:136-147 | in a parsed key list, key i is primary if and only if i = 0 |
| AlKeys.StripQuoteEndsQuote | src/alParser.ts:139 | removing a leading and a trailing `"` undoes quoting a name |
| AlKeys.ParseKeyFields | src/alParser.ts:153-164 | the loop returns the key fields the (corrected) pattern collects |
| AlKeys.KeyFieldsTrimmed | src/alParser.ts:158-161 | every collected key field is non-empty and trimmed |
| AlKeys.KeyFieldsRoundTrip | src/alParser.ts:153-164 | with the corrected pattern, `"A", "B", …` reads back as the names A, B, … |
| AlKeys.KeyFieldsAsWrittenKeepsQuotes | src/alParser.ts:155 | with the pattern as written, `"A", "B"` reads as `A` and `"B"`, quotes kept |
| AlKeys.KeyFieldsAsWrittenNoSpace | src/alParser.ts:155 | with the pattern as written and no whitespace after the comma, `"A","B"` reads as `A` and `B` |
| AlKeys.KeyFieldsCorrectedDropsQuotes | src/alParser.ts:155 | with the corrected pattern, `"A", "B"` reads as `A` and `B` |
| AlKeys.KeyDeclRoundTrip | src/alParser.ts:134 | `key("<name>"; <list>)` reads back as its name and its list |
| AlKeys.KeyRoundTrip | src/alParser.ts:139-146 | with the corrected key-field reading and without a prefix, a key written with quoted names reads back as its name and field names |
| AlParser.ParseAlFile | src/alParser.ts:3-56 | the header loop returns one table per header visited, built as the specification function says (keys read with the corrected pattern) |
| AlParser.ParseAlFileSpec | src/alParser.ts:11-53 | as many tables as object headers |
| AlParser.HeadersFrom | src/alParser.ts:8-18 | each header visited ends after the search position and inside the text |
| AlParser.ReadTable | src/alParser.ts:13-52 | one iteration builds the table: name, base, caption, fields and keys (corrected key-field reading) from the balanced body, then both flag passes |
| AlParser.PrimaryKeyOf | src/alParser.ts:25 | `find` returns a primary key of the list, and none exactly when no key is primary |
| AlParser.PrimaryKeyIsFirst | src/alParser.ts:25 | the primary key of a parsed body is its first key, if there is one |
| AlParser.MarkPrimaryKeys | src/alParser.ts:25-32 | the loop flags exactly the fields the specification function flags |
| AlParser.MarkForeignKeys | src/alParser.ts:34-41 | the loop resolves exactly the relations the specification function resolves |
| AlParser.PrimaryMarked | src/alParser.ts:26-31 | the primary-key pass keeps the number of fields |
| AlParser.RelationMarked | src/alParser.ts:34-41 | the relation pass keeps the number of fields |
| AlParser.MarkedField | src/alParser.ts:25-41 | after both passes a field is unchanged except its flags; it is primary iff the primary key lists its name (ignoring case); it is foreign iff it has a TableRelation, and then carries the resolved target; otherwise its targets stay empty |
| AlParser.TableFieldFlags | src/alParser.ts:19-41 | the same, stated for field i of a parsed table against the parsed field list and the table's first key |
| AlParser.ForeignKeyFromRelation | src/alParser.ts:34-41 | without a prefix, a field whose block starts with `TableRelation = "T"."F";` becomes a foreign key to table T and field F |
| AlParser.HeaderRoundTrip | src/alParser.ts:8-9 | `<kind> <digits> "<name>"[ extends "<base>"] {` reads back as its kind, number, name and base, ending just after the `{` |
| AlParser.DecimalText | src/alParser.ts:14 | a decimal spelling is all digits |
| AlParser.DecimalRoundTrip | src/alParser.ts:14 | the table number is read back from its decimal spelling |
| AlParser.FirstTable | src/alParser.ts:8-52 | a text that starts with a header yields first the table of that kind, number, name, base and file |
| AlScanner.MergeTableExtensions | src/alScanner.ts:93-114 | the array afterwards is `Merged` of the array before |
| AlScanner.BuildIndex | src/alScanner.ts:94-99 | the first loop builds the name map the specification function describes |
| AlScanner.IndexOf | src/alScanner.ts:94-99 | every map entry points at an earlier `table` of that lower-cased name |
| AlScanner.IndexOfLast | src/alScanner.ts:94-99 | the map sends a name to the last table of that name, ignoring case |
| AlScanner.TargetOf | src/alScanner.ts:102-104 | a target is an index of a `table` entry |
| AlScanner.TargetIsLastTable | src/alScanner.ts:101-104 | an extension's target is the last table named by its non-empty `extendsTable` (ignoring case), and there is none when that name is empty |
| AlScanner.AddExtensionFields | src/alScanner.ts:106-110 | the inner loop changes only the base entry, whose fields become `AddMissing(fields, extension fields)` |
| AlScanner.MergedEntry | src/alScanner.ts:101-113 | each entry after the merge is the original with its fields extended by, in list order, the fields of every extension targeting it |
| AlScanner.MergeKeepsEntries | src/alScanner.ts:101-113 | only field lists change; old fields stay first and in order; extensions are untouched |
| AlScanner.MergeCoversExtension | src/alScanner.ts:101-113 | every field of an extension shows up, by name, in the table it extends |
| AlScanner.AddMissingUnique | src/alScanner.ts:106-110 | a base whose field names are unique (ignoring case) keeps them unique |
| AlScanner.AddMissingTail | src/alScanner.ts:101-111 | the merge appends exactly the extension fields whose name (ignoring case) the base lacks and no earlier extension field has, in order: the first one seen wins, and nothing else is added |
| AlScanner.NewFirstsNames | src/alScanner.ts:106-110 | for a name the base lacks, the appended fields carry that name (ignoring case) exactly when some extension field does |
| AlScanner.AddMissingIdempotent | src/alScanner.ts:106-110 | adding the same fields a second time changes nothing |
| AlScanner.AddMissingAppend | src/alScanner.ts:106-110 | two extensions merged one after the other equal one merge of both field lists |
| AlScanner.AddMissingKeepsPrefix | src/alScanner.ts:106-110 | the base's own fields stay first, unchanged |
| AlScanner.AddMissingCovers | src/alScanner.ts:106-110 | after the merge the base has a field of every added name |
| AlScanner.AddMissingAllPresent | src/alScanner.ts:107 | fields whose names are all present add nothing |
| AlScanner.NoContributionsToExtension | src/alScanner.ts:102-104 | nothing is merged into an extension |
| AlScanner.FromTable | src/alScanner.ts:76 | the source entity is an extension's base name when it has one, and the object's own name otherwise |
| AlScanner.FromTableIsEntityName | src/alScanner.ts:76 | a relation starts from the same entity the diagram draws for its table |
| AlScanner.BuildRelations | src/alScanner.ts:72-83 | the nested loop returns the relations of the specification function |
| AlScanner.RelationsIff | src/alScanner.ts:72-83 | a relation is emitted iff some foreign-key field with a related table yields it |
| AlScanner.FieldRelationsIff | src/alScanner.ts:73-82 | the same for the fields of one table |
| AlScanner.FieldRelationsCount | src/alScanner.ts:73-82 | one relation per emitting field |
| AlScanner.ScanParsed | src/alScanner.ts:68-85 | after parsing: merge, then the relations of the merged list; app.json and errors are passed through |
| EntitySelection.LocalTables | src/diagramRenderer.ts:91 | exactly the `table` objects, and nothing else |
| EntitySelection.LocalTablesAppend | src/diagramRenderer.ts:91 | selecting the tables of two lists in a row is selecting those of each in turn: the tables keep their order |
| EntitySelection.ExternalIn | src/diagramRenderer.ts:93-95 | exactly the extensions whose base (lower-cased) is no local table name |
| EntitySelection.CandidatesIff | src/diagramRenderer.ts:91-98 | an object is visited iff it is a table or an external extension |
| EntitySelection.TablesFirst | src/diagramRenderer.ts:98 | tables are visited before every extension |
| EntitySelection.ExternalDrawsUndeclared | src/diagramRenderer.ts:94-99 | an external extension with a base never draws the name of a declared table |
| Dedup.FirstsIff | src/diagramRenderer.ts:114-120 | skipping seen keys keeps an element iff it is the first of its key |
| Dedup.FirstsDistinct | src/diagramRenderer.ts:114-120 | no two kept elements share a key |
| Dedup.KeySetIff | src/diagramRenderer.ts:114-120 | the seen set holds exactly the keys of the elements visited |
| DiagramRenderer.PrepareDiagramData | src/diagramRenderer.ts:90-125 | the data is the entities and relations of the specification functions |
| DiagramRenderer.CollectEntities | src/diagramRenderer.ts:96-112 | the map's keys are the keys of all candidates; its values are the entities of the first candidate per key |
| DiagramRenderer.EntitiesOf | src/diagramRenderer.ts:101-111 | one entity per kept object, with its name, its caption (the name when the caption is empty) and its fields |
| DiagramRenderer.CollectRelations | src/diagramRenderer.ts:114-122 | the loop returns the first relation per key among the linked relations |
| DiagramRenderer.RelationStep | src/diagramRenderer.ts:117-121 | one step: a relation is skipped iff its key was seen or an end is not drawn; otherwise it is appended and its key is recorded |
| DiagramRenderer.EntityKeysDrawn | src/diagramRenderer.ts:96-112 | a name is a key of the map iff an entity has that lower-cased name |
| DiagramRenderer.EntityNamesDistinct | src/diagramRenderer.ts:99-101 | no two entities share a name, ignoring case |
| DiagramRenderer.EveryCandidateDrawn | src/diagramRenderer.ts:98-101 | every table, and every external extension, has its name drawn |
| DiagramRenderer.EntityIsFirstDeclaration | src/diagramRenderer.ts:98-112 | an entity is drawn iff it comes from the first visited object of its name |
| DiagramRenderer.RelationsJoinEntities | src/diagramRenderer.ts:118 | both ends of every drawn relation are entities of the diagram |
| DiagramRenderer.RelationKeysDistinct | src/diagramRenderer.ts:117-120 | no two drawn relations share a key |
| DiagramRenderer.EveryLinkedRelationDrawn | src/diagramRenderer.ts:116-122 | every relation whose two ends are drawn is drawn, possibly through an earlier one with the same key |
| DiagramRenderer.RelationKeyInjective | src/diagramRenderer.ts:117 | with no bar character in table names, two keys are equal iff both table names match ignoring case and the fields are equal |
| DiagramRenderer.RelationKeyCollision | src/diagramRenderer.ts:117 | a bar character inside a table name lets two different relations share a key |
| HtmlEscape.EscapeHtml | src/diagramRenderer.ts:134-136 | the escaped text holds no `<`, `>` or `"` |
| HtmlEscape.AmpersandsStartReferences | src/diagramRenderer.ts:134-136 | every `&` of the escaped text starts `&amp;`, `&lt;`, `&gt;` or `&quot;` |
| HtmlEscape.EscapeHtmlRoundTrip | src/diagramRenderer.ts:134-136 | decoding the four character references gives back the text |
| HtmlEscape.EscapeHtmlIsEach | src/mermaidGenerator.ts:232-234 | the chained replacements equal escaping each character on its own: `&` first, so no reference is escaped twice |
| TemplateEscape.EscapeTemplateRoundTrip | src/mermaidGenerator.ts:71 | the template literal's value is the Mermaid text with each CR LF pair and each lone CR read as LF, as JavaScript reads line ends in a template literal |
| TemplateEscape.EscapeTemplateRoundTripNoCR | src/mermaidGenerator.ts:71 | for Mermaid text without a CR (for example, no caption holds one), the template literal's value is exactly that text |
| TemplateEscape.NormalizedHasNoCR | src/mermaidGenerator.ts:71 | the value a template literal yields never holds a CR |
| TemplateEscape.EscapeTemplateInert | src/mermaidGenerator.ts:71 | the escaped text can neither end the literal nor open a `${…}` substitution |
| TemplateEscape.EscapeTemplateIsEach | src/mermaidGenerator.ts:71 | the chained replacements equal escaping each character on its own |
| MermaidName.SanitizedIsClean | src/mermaidGenerator.ts:190-197 | a sanitized name holds only letters, digits and `_`, has no `__`, and neither starts nor ends with `_` |
| MermaidName.CleanIsFixed | src/mermaidGenerator.ts:190-197 | a clean name is left unchanged |
| MermaidName.SanitizeIdempotent | src/mermaidGenerator.ts:190-197 | sanitizing twice is sanitizing once |
| MermaidName.SanitizeKeepsAlnums | src/mermaidGenerator.ts:190-197 | the letters and digits of the name survive, in order |
| MermaidName.SanitizedHasNo | src/mermaidGenerator.ts:190-197 | a sanitized name holds no character outside the word characters, so neither a bar nor a line break |
| MermaidName.DropQuotesChars | src/mermaidGenerator.ts:192 | a character survives iff it is not `/`, `"` or `'` |
| MermaidName.SpacesChars | src/mermaidGenerator.ts:193 | after replacing whitespace runs, each character is `_` or a non-space character of the input |
| MermaidName.OthersToUnderscore | src/mermaidGenerator.ts:194 | the result holds only word characters, has the input's length, and every word character of the input keeps its position |
| MermaidName.UnderscoresEnd | src/mermaidGenerator.ts:195 | the run of `_` from a position ends at the first other character |
| MermaidName.CollapseShape | src/mermaidGenerator.ts:195 | collapsing adds no character, keeps a leading `_`, and leaves no `__` |
| MermaidGenerator.GenerateMermaidErd | src/mermaidGenerator.ts:7-64 | the text is the ERD lines joined by newlines |
| MermaidGenerator.EmitEntities | src/mermaidGenerator.ts:22-44 | one block per first candidate of each sanitized entity name, in order |
| MermaidGenerator.EmitBlock | src/mermaidGenerator.ts:34-43 | an entity block is its header, one line per field, and `}` |
| MermaidGenerator.EmitFields | src/mermaidGenerator.ts:36-41 | one line per field, in order |
| MermaidGenerator.EmitRelations | src/mermaidGenerator.ts:47-61 | one line per first relation of each key |
| MermaidGenerator.SplitJoin | src/mermaidGenerator.ts:63 | lines without newlines are split back out of their join |
| MermaidGenerator.ErdLinesSplit | src/mermaidGenerator.ts:7-64 | when no caption holds a line break, the text splits back into exactly the ERD lines |
| MermaidGenerator.MapAlTypeLabels | src/mermaidGenerator.ts:202-223 | every type maps to one of the seventeen labels |
| MermaidGenerator.TypeLabelText | src/mermaidGenerator.ts:204-205 | `code…` and `text…` are `string` |
| MermaidGenerator.TypeLabelExact | src/mermaidGenerator.ts:206-221 | each exact type name maps to its label |
| MermaidGenerator.TypeLabelEnum | src/mermaidGenerator.ts:219 | `enum…` is `enum` |
| MermaidGenerator.TypeLabelOther | src/mermaidGenerator.ts:222 | any other type is `string` |
| MermaidGenerator.MapAlTypeNormalized | src/mermaidGenerator.ts:203 | case and surrounding whitespace do not change the label |
| MermaidGenerator.ConstraintsByFlags | src/mermaidGenerator.ts:225-230 | the marker is ` PK,FK`, ` PK`, ` FK` or "" by the two flags |
| MermaidGenerator.ConstraintsRoundTrip | src/mermaidGenerator.ts:225-230 | both flags can be read back from the marker |
| MermaidGenerator.EntityNamesDistinct | src/mermaidGenerator.ts:25-32 | no two entity blocks carry the same sanitized name |
| MermaidGenerator.EveryCandidateWritten | src/mermaidGenerator.ts:11-34 | every table and external extension has a block under its sanitized name |
| MermaidGenerator.MermaidRelationKeyInjective | src/mermaidGenerator.ts:50-52 | two keys are equal iff the sanitized ends and the raw fields are equal |
| MermaidGenerator.EveryRelationWritten | src/mermaidGenerator.ts:47-60 | every relation is written, possibly as an earlier one with the same sanitized ends and field |
| MermaidGenerator.SameLineDifferentKeys | src/mermaidGenerator.ts:52-60 | the key uses the raw field, the line its sanitized label: two relations can write the same line twice |
| MermaidGenerator.FieldLineOneLine | src/mermaidGenerator.ts:37-40 | a field line has no line break when the caption has none |
| MermaidGenerator.EntityBlockOneLine | src/mermaidGenerator.ts:34-43 | no line of a block holds a line break when no caption does |
| MermaidGenerator.RelationLineOneLine | src/mermaidGenerator.ts:59-60 | a relation line never holds a line break |

## Left out

- Reading files, the workspace search, `detectAlProject` and `app.json` parsing (`src/alScanner.ts`) are I/O. `AlScanner.ScanParsed` starts from the parsed tables and takes the app.json value and the error list as parameters.
- The per-file `try`/`catch` and its error messages are left out. The model has no failure path: every function is total.
- The HTML page builders, the nonce, the webview messaging, `src/diagram.js` and `src/extension.ts` are presentation or VS Code API code outside the core. Only their escaping functions are modelled.
- Text.Lower: lower-cases ASCII letters only. JavaScript's `toLowerCase` also maps non-ASCII letters.
- Text.IsSpace: covers ASCII whitespace only. JavaScript's `\s` also matches Unicode spaces and line terminators.
- AlParser.DecimalRoundTrip: `parseInt` is modelled as an unbounded natural. The loss of precision above 2^53 is not modelled.
- DiagramRenderer.CollectEntities: the `Map` is modelled as its key set plus its values in insertion order. That is all `Array.from(entityMap.values())` observes.
- DiagramRenderer.ToDiagramRelation: `toField || ""` is the identity on strings, so the field is copied.
- AlScanner.MergeTableExtensions: the objects are values in an array. The field copy `{ ...f }` and the base object shared between the map and the array are captured by updating the array entry. Aliasing between two different array entries cannot arise from parsing and is not modelled.
- TemplateEscape.Cooked: decodes only the three escapes the export writes (`\\`, `` \` ``, `\$`) and the CR LF / CR line-end rule. Other JavaScript escape sequences are not modelled, and escaped text holds none.
- TemplateEscape.EscapeTemplateRoundTrip: speaks of the template literal only. A caption holding a CR (which the quoted Caption pattern lets through) reaches the page as LF, so the page's value equals the Mermaid text only when it holds no CR. A caption holding `</script` ends the page's inline script element before the JavaScript lexer sees the literal; the escaping does not guard against that, and the HTML tokenizer is not modelled.
- MermaidGenerator.ErdLinesSplit: requires captions without line breaks. A caption that holds one splits its field line, as it does in the source.
- MermaidGenerator.EmitRelations: relations are not filtered by the drawn entities, as in the source. The Mermaid output may name an entity that has no block.
- DiagramRenderer.RelationKeyInjective: requires table names without a bar character. `DiagramRenderer.RelationKeyCollision` shows why.
- AlProperties.ExtractTableCaption: with no `fields {` opener past position 0, the caption search is cut to the first 500 characters of the body. The source's `substring(0, 500)` counts UTF-16 code units, so a body with characters outside the Basic Multilingual Plane is cut at a different place; the model counts characters.
- AlKeys.KeyFrom: reads the key fields with the corrected pattern of "## Findings" (`AlKeys.KeyFieldsFrom`), not with the pattern as written at src/alParser.ts:155 (`AlKeys.KeyFieldsAsWritten`). For a key listing two or more quoted names with whitespace after the commas (the usual `", "` layout), the source keeps the quotes on the second and later names; the model does not. Without whitespace after a comma both readings agree (`AlKeys.KeyFieldsAsWrittenNoSpace`).
- AlKeys.ParseKeysSpec: built on `AlKeys.KeyFrom`, so it uses the corrected key-field reading.
- AlKeys.ParseKeys: returns `ParseKeysSpec`, so it uses the corrected key-field reading.
- AlKeys.ReadKeys: builds each key with `AlKeys.ReadKey`, so it uses the corrected key-field reading.
- AlKeys.ReadKey: calls `AlKeys.ParseKeyFields`, the corrected key-field reading.
- AlKeys.KeyRoundTrip: holds of the corrected key-field reading. Of the program as written, for the `", "` layout the lemma writes, it holds only for keys with at most one quoted field (`AlKeys.KeyFieldsAsWrittenKeepsQuotes`).
- AlParser.TableFrom: its keys, and so its primary-key flags, come from the corrected key-field reading. As written, the second and later quoted fields of a composite primary key written with `", "` between them are not flagged.
- AlParser.ReadTable: returns `TableFrom`, so it uses the corrected key-field reading.
- AlParser.ParseAlFile: its tables are built by `TableFrom`, so they use the corrected key-field reading.
- AlParser.TableFieldFlags: states the flags against the keys of the corrected key-field reading.

## Findings

| source | as written | input that shows it | evidently intended | confidence | as-written member | corrected member |
|---|---|---|---|---|---|---|
| src/alParser.ts:155 | the pattern `"([^"]+)"` or `([^,]+)`, global: after a quoted name the next match starts at the space before the next quote, where only `[^,]+` fits; the trimmed capture keeps its quotes. This happens whenever whitespace follows the comma (the usual `", "` layout); `"A","B"` reads correctly | the key list `"A", "B"` reads as `A` and `"B"`, so field B of a composite primary key is never flagged | every name in the list read without its quotes: the corrected pattern puts `\s*` in front of the two alternatives, so a match consumes the whitespace after the comma and the quoted alternative is tried at the quote | not executed | AlKeys.KeyFieldsAsWrittenKeepsQuotes | AlKeys.KeyFieldsRoundTrip |
