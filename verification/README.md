# Verified models of the contract engine's hard parts

Dafny models of five parts of the repository, and proofs of what they promise. Each file is a module.
Code that changes things step by step is modelled by classes and methods with loops, proved against
specification functions; the theorems are about those functions and about whole runs.

* **Catch's section tracker** (`SectionRuns`, `TrackerArena`, `RunContext`): a test case with nested
  sections is run again and again, one leaf a cycle. `SectionRuns` says what a run is on trees of
  trackers and proves the laws; `RunContext` is the machine with its linked records, current tracker
  and stacks of active and unfinished sections, and refines it. When and where a test body throws is
  an arbitrary function.
* **XML** (`Xml*`): character references and UTF-8, the decoder that overwrites its own buffer, the
  recursive parser whose closing tags are read by the child level, the printer, the proof that they
  are inverse to each other, that the parser accepts exactly the texts of a grammar written without it
  (`XmlSources`), and the DOM's sibling lists on the heap.
* **The civil calendar** (`Calendar`, `CivilDates`, `Weekdays`, `IsoWeeks`, `IsoTexts`): truncating
  division, unsigned wraps and 16-bit years are written out.
* **The condition cache** (`Conditions`, `ConditionRules`, `ConditionCache`, `ConditionLimits`): what condition
  trees mean by their tags and attributes, and when an answer kept under an id is still the right one.
* **JSON schemas** (`JsonPointers`, `JsonValues`, `JsonResolver`, `JsonReferences`, `JsonOrder`,
  `JsonSchemas`, `JsonKeywords`, `JsonValidator`, `JsonNumbers`, `JsonDraft`): pointer escaping, the naming of
  subschemas, the equality and order of values, what each keyword demands, and the validator against the draft.
* Three smaller algorithms of Catch: `TextFlow`, `Matchers`, `TotalsBar`.

Some of what the code is meant to do does not hold of it. The code is modelled as it is; the members
named say exactly when it does hold, or, where that condition does not name the failing inputs itself, a
lemma gives one:

* An unknown entity leaves a stale byte in the buffer, and some marks "&#" that spell no number are
  swallowed, or become a NUL or another character (`XmlDecode.InPlaceIsDecode`, `XmlDecode.SwallowedIff`,
  `XmlDecode.StaleByteExample`, `XmlDecode.SwallowedExamples`).
* `InsertAfterChild` dereferences null for a node that already stands last, right behind the given one
  (`XmlDom.XMLNode.InsertAfterChild`).
* The ISO week is wrong for the two days of year -32767 that belong to ISO year -32768, and what is
  printed for them cannot be read (`IsoWeeks.IsoWeek`, `IsoTexts.PrintAndRead`). Nor can ISO years of
  five digits by a format that does not give the width.
* `year_month_weekday::ok()` is not the round trip in year -32768 (`Weekdays.NthOkIffRoundTrip`).
* The cache confuses data whose joined values are equal, and does not watch every way to write a keyword
  (`ConditionCache.CacheIsRightIff`, `ConditionLimits`).
* Unescaping undoes escaping only without percent signs (`JsonPointers.UnescapeUndoesEscape`).
* The validator leaves keywords unread beside `not`, `anyOf` and `oneOf`, compares and equates numbers by
  their 64 bits, and fails where a format has no checker (`JsonDraft.PrunedIsRead`,
  `JsonNumbers.NumbersAreReadIff`, `JsonDraft.TwinsAreNeeded`, `JsonDraft.DistinctIff`).
* Some texts are dropped as a whole when wrapped, and in one column wrapping may never end
  (`TextFlow.WrappedKeepsText`, `TextFlow.EndsIff`).

Characters stand for bytes. A pointer into a text is an index. Trackers are indices into a growing
sequence of records, as all are kept until the run ends. `Family` says of the DOM that every list of
children is a well-formed doubly linked list; it does not say that there are no cycles of parents, which
`XmlTrees.Planted` adds where whole trees are deleted or copied. The ghost field `kids` of a node is its
list of children, tied to the pointers by `Family`.

`dafny verify dfyconfig.toml` checks the project.

## Model

| member | source | states |
|---|---|---|
| `SectionRuns.CleanRunsVisitEveryLeafOnce` | include/catch.hpp:10109-10116 | without exceptions, the run loop enters every leaf section exactly once, in program order, and takes one cycle a leaf (one cycle if there is none) |
| `SectionRuns.ThrowingRunsEnd` | include/catch.hpp:10109-10116 | whatever throws and when, the loop ends within (number of sections + 1) cycles and no leaf is entered twice |
| `SectionRuns.ThrowingRunsDeliver` | include/catch.hpp:10109-10116 | whatever throws and when, every leaf section is entered, unless in some cycle of the run a body around it throws |
| `SectionRuns.RunLosesNone` | include/catch.hpp:10109-10116 | from any reachable state of the trackers, a leaf that is owed is entered later, unless in some later cycle a body around it throws |
| `SectionRuns.RunBodyLosesNone` | include/catch.hpp:11742-11777 | in one pass, a leaf that is owed is entered or still owed afterwards, and some section is run, unless a body around it throws; what throws elsewhere costs it nothing |
| `SectionRuns.RunsAreAccounted` | include/catch.hpp:11771-11777 | after a run, the tracker of a section has failed only if its own body threw in some cycle, and that of a leaf is completed successfully only if in some cycle it did not throw |
| `SectionRuns.RunBodyLeavesAll` | include/catch.hpp:10310-10362 | if the leaf that a pass enters throws, the exception leaves every body around it, and no tracker is made for what follows it |
| `SectionRuns.RunEntersOnce` | include/catch.hpp:10109-10116 | from any reachable state of the trackers, every leaf entered later was not complete before, is complete after, and is entered once |
| `SectionRuns.CycleAdvances` | include/catch.hpp:11742-11780 | every cycle completes a tracker that was not complete, or else the test case, and never more trackers than there are sections; the test case's tracker is never closed in a state that `close` calls illogical |
| `SectionRuns.LastChildDecides` | include/catch.hpp:11753-11756 | asking only the last child whether it is complete is enough: it is exactly when no leaf below is still owed |
| `SectionRuns.RunDelivers` | include/catch.hpp:10109-10116 | from any tracker state of a run without exceptions, what is entered from now on is exactly the list of leaves still owed, one a cycle |
| `SectionRuns.RunBodyIsGood` | include/catch.hpp:11742-11780 | running a body keeps one tracker for each statement reached, in order, and leaves the parent in a state that `close` or `fail` expects |
| `SectionRuns.RunBodyAdvances` | include/catch.hpp:11815-11836 | completed trackers stay complete through a pass over a body, and a pass that may still open a section completes one |
| `SectionRuns.RunBodyEnters` | include/catch.hpp:11815-11836 | a leaf that a pass enters was incomplete and ends complete, whatever throws |
| `SectionRuns.RunBodyDelivers` | include/catch.hpp:11815-11836 | without exceptions a pass over a body enters exactly the first leaf still owed, or none if the cycle is already complete |
| `SectionRuns.DoneAtMostSections` | include/catch.hpp:11691-11693 | the measure of progress is bounded by the number of sections of the program |
| `TrackerArena.FoundInOrder` | include/catch.hpp:11708-11718 | with distinct sibling keys, `findChild` finds the tracker of statement i at place i or not at all |
| `TrackerArena.OpenedIsWellFormed` | include/catch.hpp:11724-11740 | since what is above the parent is marked already, opening changes exactly the tracker and its parent, and keeps all parent and child links |
| `TrackerArena.SectionEffect` | include/catch.hpp:11742-11786 | what a section does below its tracker, and closing it, changes nothing else in the tree of its parent |
| `TrackerArena.OpenedStatementRan` | include/catch.hpp:11815-11836 | acquire, open, run and close on linked tracker records is one step of the tree semantics |
| `TrackerArena.OnlyChildOpens` | include/catch.hpp:11815-11836 | acquiring the test case under the root, new or from earlier cycles, opens it and keeps its children |
| `RunContexts.RunContext.RunTest` | include/catch.hpp:10109-10116 | the tracker machine's loop terminates, enters what `SectionRuns.Run` enters in as many cycles, never raises the internal error of `close`, enters no leaf twice, enters every leaf around which nothing throws, and without exceptions enters exactly the leaf sections, one a cycle |
| `RunContexts.RunContext.RunCycle` | include/catch.hpp:10112-10116 | one cycle of the machine is one cycle of the tree semantics |
| `RunContexts.RunContext.StartCycle` | include/catch.hpp:11664-11667 | a cycle begins at the root with the test case's tracker acquired and opened |
| `RunContexts.RunContext.RunCurrentTest` | include/catch.hpp:10310-10362 | the test body runs, its tracker is closed, and sections left by an exception are ended afterwards |
| `RunContexts.RunContext.HandleUnfinishedSections` | include/catch.hpp:10369-10378 | ending the unfinished sections touches no tracker and forgets them |
| `RunContexts.RunContext.RunBody` | include/catch.hpp:11815-11836 | running a body on the tracker records refines `SectionRuns.RunBody` |
| `RunContexts.RunContext.RunStatement` | include/catch.hpp:10173-10186 | reaching a SECTION statement refines `SectionRuns.RunStatement` |
| `RunContexts.RunContext.SectionStarted` | include/catch.hpp:10173-10186 | a section is entered exactly when acquiring its tracker leaves it open; then it is active |
| `RunContexts.RunContext.SectionEnded` | include/catch.hpp:10207-10218 | the innermost active section is closed and no longer active |
| `RunContexts.RunContext.SectionEndedEarly` | include/catch.hpp:10220-10228 | the first section an exception leaves fails, those around it are closed |
| `RunContexts.RunContext.Acquire` | include/catch.hpp:11815-11836 | the child with the key is found or added last, and opened unless the cycle or the child is complete |
| `RunContexts.RunContext.FindChild` | include/catch.hpp:11708-11718 | the first child with the same name and location |
| `RunContexts.RunContext.OpenChild` | include/catch.hpp:11724-11730 | marks this tracker and its ancestors, as `TrackerArena.OpenedChild` says |
| `RunContexts.RunContext.Open` | include/catch.hpp:11735-11740 | the tracker executes, is current, and its ancestors are marked |
| `RunContexts.RunContext.Close` | include/catch.hpp:11742-11770 | every tracker from the current one up to this one is closed, innermost first, each by its state and its last child, until one is in a state in which it cannot be |
| `RunContexts.RunContext.Fail` | include/catch.hpp:11771-11777 | the tracker fails, its parent needs another run and is current, the cycle is complete |
| `XmlUtf8.DecodeEncode` | lib/tinyxml/tinyxml2.cpp:403-453 | for every code point below 0x200000 the emitted bytes are well formed and decode back to it (RFC 3629, section 3, extended range) |
| `XmlUtf8.EncodeIsShortest` | lib/tinyxml/tinyxml2.cpp:403-453 | no shorter well-formed sequence decodes to the code point |
| `XmlUtf8.ConvertUTF32ToUTF8` | lib/tinyxml/tinyxml2.cpp:403-453 | the fall-through switch writes exactly `Encode(input)` from the back, and nothing else in the buffer |
| `XmlUtf8.CountUtf8` | lib/json/json-validator.cpp:687-693 | counts the bytes that are no continuation bytes |
| `XmlUtf8.Utf8LengthCountsPoints` | lib/json/json-validator.cpp:687-693 | the count over any concatenation of encodings is the number of code points |
| `XmlDecode.GetStrUndoesPrintString` | lib/tinyxml/tinyxml2.cpp:267-365 | decoding the escaped form of any text without NUL and CR gives back the text, in full and restricted mode, for text and for attribute values |
| `XmlDecode.DecodeEscape` | lib/tinyxml/tinyxml2.cpp:2494-2546 | the text that an escaped text stands for is the text itself, and every ampersand in it starts a reference |
| `XmlDecode.InPlaceIsDecode` | lib/tinyxml/tinyxml2.cpp:267-365 | what the in-place decoder leaves is the text that was spelled, where a reference is an entity of the table or a mark, digits of its base and a semicolon, and every other ampersand stays, exactly when no mark that spells no number is swallowed and at every stray ampersand the byte at the write pointer is an ampersand, too |
| `XmlDecode.SwallowedIff` | lib/tinyxml/tinyxml2.cpp:456-549 | a mark that spells no number is consumed all the same exactly if nothing follows it, or from some mark of its kind there are only digits, if any, up to the first semicolon |
| `XmlDecode.StepIs` | lib/tinyxml/tinyxml2.cpp:281-355 | apart from stray ampersands and swallowed marks, every step of the decoder is what the reference spells |
| `XmlDecode.NeverLonger` | lib/tinyxml/tinyxml2.cpp:267-365 | never is more written than the text that was spelled, and where a mark is swallowed always less |
| `XmlDecode.NothingStrayNothingLost` | lib/tinyxml/tinyxml2.cpp:332-349 | if every ampersand starts an entity or a number that is spelled, nothing is overwritten or swallowed |
| `XmlDecode.ReadAsSpelled` | lib/tinyxml/tinyxml2.cpp:267-365 | then a reader of the buffer, up to its NUL, sees exactly the text that was spelled |
| `XmlDecode.StaleByteExample` | lib/tinyxml/tinyxml2.cpp:350-353 | a concrete text with an unknown entity for which the buffer keeps a stale byte instead of the ampersand |
| `XmlDecode.SwallowedExamples` | lib/tinyxml/tinyxml2.cpp:456-549 | &#; becomes a NUL, &#1#65; becomes A, and &# at the end of a text loses its ampersand |
| `XmlSpellings.NumeralIsRead` | lib/tinyxml/tinyxml2.cpp:456-549 | the decimal numeral of any number from 1 below 0x200000, and its hexadecimal one in small or capital letters, is read between its mark and a semicolon, whatever follows, as a reference of that length to the UTF-8 form of the number |
| `XmlSpellings.NumeralIsDecoded` | lib/tinyxml/tinyxml2.cpp:303-330 | decoded in place, such a reference is the UTF-8 form of its number |
| `XmlSpellings.GetNumeral` | lib/tinyxml/tinyxml2.cpp:267-365 | and so it is in the buffer of a slice |
| `XmlSpellings.NamesAreRead` | lib/tinyxml/tinyxml2.cpp:129-135 | the five names of section 4.6 of XML 1.0 stand for their characters, whatever follows |
| `XmlSpellings.LineEndsAreNormal` | lib/tinyxml/tinyxml2.cpp:281-302 | any lines, ended by LF, CR, CR LF or LF CR, are read as the same lines ended by LF |
| `XmlSpellings.CharactersAre` | lib/tinyxml/include/tinyxml2.h:571-598 | which characters are white space, begin a name and are in a name, one by one |
| `XmlSpellings.EscapesAre` | lib/tinyxml/tinyxml2.cpp:2494-2546 | <, > and & are always written as references, the quotes only in attribute values, and no other character is |
| `XmlText.EscapeIsTerminated` | lib/tinyxml/tinyxml2.cpp:193-215 | an escaped text never contains the character that ends it: '<' in full mode, the quote in either mode |
| `XmlText.EntityIsFound` | lib/tinyxml/tinyxml2.cpp:123-135 | every entity of the table is found by its own pattern |
| `XmlText.CharacterRef` | lib/tinyxml/tinyxml2.cpp:456-549 | a reference is at least as long as the bytes it stands for, which is why decoding fits in place |
| `XmlNumeric.NumericReferenceValue` | lib/tinyxml/tinyxml2.cpp:456-549 | a reference whose value fits 32 bits, scanned from the right, stands for the code point of its left-to-right positional value |
| `XmlNumeric.ShortIsSmall` | lib/tinyxml/tinyxml2.cpp:474-530 | seven hexadecimal or nine decimal digits always fit 32 bits |
| `XmlNumeric.ScanIsPositional` | lib/tinyxml/tinyxml2.cpp:474-530 | where the value fits 32 bits, the right-to-left scan with its wrapping multiplier is the left-to-right value |
| `XmlNumeric.ScanIsCongruent` | lib/tinyxml/tinyxml2.cpp:474-530 | in any case the scan and the left-to-right value differ by a multiple of 2 to the 32 |
| `XmlStrPair.StrPair.GetStr` | lib/tinyxml/tinyxml2.cpp:267-365 | the buffer ends holding the decoded text with its terminator, the write pointer never passing the read pointer; a second call changes nothing |
| `XmlStrPair.StrPair.Advance` | lib/tinyxml/tinyxml2.cpp:278-355 | one round of the two pointers |
| `XmlStrPair.StrPair.ReadStep` | lib/tinyxml/tinyxml2.cpp:281-355 | what is consumed and emitted at the read pointer: newline pairs, references, entities, plain characters |
| `XmlStrPair.StrPair.FindEntity` | lib/tinyxml/tinyxml2.cpp:332-349 | the first entity of the table whose name and semicolon follow |
| `XmlStrPair.StrPair.GetCharacterRef` | lib/tinyxml/tinyxml2.cpp:456-549 | scans a numeric reference backwards in the buffer |
| `XmlStrPair.StrPair.constructor` | lib/tinyxml/tinyxml2.cpp:193-215 | a fresh slice needs flushing |
| `XmlWhitespace.CollapseWhitespace` | lib/tinyxml/tinyxml2.cpp:238-264 | in place, the text becomes its collapsed form with its terminator; nothing outside the slice changes |
| `XmlWhitespace.CollapsedIsWords` | lib/tinyxml/tinyxml2.cpp:238-264 | the collapsed form is the text's words, one space between each two |
| `XmlRoundTrip.ParsePrint` | lib/tinyxml/tinyxml2.cpp:2285-2326 | for every document of declarations, elements, text, comments, CDATA and unknowns with legal names and distinct attributes, with texts at any level, parsing what the printer writes gives back the document exactly when it is less than 100 levels deep, and else the depth error |
| `XmlRoundTrip.ParseNodesOf` | lib/tinyxml/tinyxml2.cpp:988-1100 | a list of printed nodes parses back, and every closing tag, though the child level reads it, is matched with its opener |
| `XmlRoundTrip.ParseNodeOf` | lib/tinyxml/tinyxml2.cpp:1898-1923 | one printed node parses back and leaves the rest of the text |
| `XmlRoundTrip.TooDeepNodes` | lib/tinyxml/tinyxml2.cpp:2396-2407 | any nesting beyond the limit is reported as too deep, wherever it is |
| `XmlRoundTrip.ParseMarkupOf` | lib/tinyxml/tinyxml2.cpp:656-723 | comments, CDATA, declarations and unknowns are identified by their headers and end at their own end tags |
| `XmlRoundTrip.ParseTagOf` | lib/tinyxml/tinyxml2.cpp:1815-1872 | a printed start tag gives back its name, attributes and kind |
| `XmlRoundTrip.ParseAttributesOf` | lib/tinyxml/tinyxml2.cpp:1815-1872 | printed attributes parse back in order |
| `XmlRoundTrip.ParseAttributeOf` | lib/tinyxml/tinyxml2.cpp:1356-1381 | a printed attribute parses back to its name and decoded value |
| `XmlRoundTrip.ParsePlainOf` | lib/tinyxml/tinyxml2.cpp:1147-1171 | a printed text that is not blank parses back |
| `XmlRoundTrip.ParseTextOf` | lib/tinyxml/tinyxml2.cpp:193-215 | the end tag is found where the text ends, because the text does not contain it |
| `XmlRoundTrip.WrongEndTagOf` | lib/tinyxml/tinyxml2.cpp:1083-1093 | printed nodes between two tags of different names are refused as mismatched |
| `XmlRoundTrip.QuotesAre` | lib/tinyxml/tinyxml2.cpp:2582-2590 | quotes are written as they are in a text, and as references in an attribute |
| `XmlCompleteness.ParsedIffDenoted` | lib/tinyxml/tinyxml2.cpp:2285-2313 | a text is accepted, and read as these nodes, exactly if it can be written as a legal document that means them: tags with free white space and either quote, end tags with the name of their start tags, distinct attributes, markup up to its first end, texts up to the next '<', declarations first, at most 98 elements around a node; or if an end tag on the document's own level ends it |
| `XmlCompleteness.DocumentIsRead` | lib/tinyxml/tinyxml2.cpp:2285-2313 | whatever is written legally is accepted, and read as what it means |
| `XmlSoundness.ParseSound` | lib/tinyxml/tinyxml2.cpp:2285-2313 | whatever is accepted is written legally, and means what is read |
| `XmlSoundness.SiblingsSound` | lib/tinyxml/tinyxml2.cpp:988-1100 | one level of nodes that is read without an error is a sequence of legal sources that mean these nodes, up to the end of the text or an end tag |
| `XmlSoundness.ElementSound` | lib/tinyxml/tinyxml2.cpp:1898-1923 | an element that is read is written with an end tag of its own name, or in short |
| `XmlSoundness.AttributesSound` | lib/tinyxml/tinyxml2.cpp:1815-1872 | attributes that are read are written with free white space and either quote, and have different names |
| `XmlCompleteness.WrongEndTagIsRefused` | lib/tinyxml/tinyxml2.cpp:1083-1093 | whatever elements are open and whatever stands before and behind, an end tag without the name of the innermost open element makes the document refused as mismatched |
| `XmlCompleteness.UnclosedMarkup` | lib/tinyxml/tinyxml2.cpp:1212-1353 | a comment, CDATA section, declaration or unknown that does not end is refused, each with its own error, at any depth |
| `XmlCompleteness.TextAtTheEnd` | lib/tinyxml/tinyxml2.cpp:1147-1171 | a text that no '<' follows is refused |
| `XmlCompleteness.Unclosed` | lib/tinyxml/tinyxml2.cpp:1898-1923 | an element that is not closed is refused |
| `XmlWhole.PrintAndParse` | lib/tinyxml/tinyxml2.cpp:2285-2326 | a document printed into the printer's buffer and parsed from it is the same document, exactly when it is not too deep |
| `XmlPrinters.XMLPrinter.Accept` | lib/tinyxml/tinyxml2.cpp:1966-1976 | printing a node appends exactly its printed form, sealing an open start tag first |
| `XmlPrinters.XMLPrinter.PrintString` | lib/tinyxml/tinyxml2.cpp:2494-2546 | the loop over the two pointers appends the escaped text |
| `XmlPrinters.XMLPrinter.PrintEntity` | lib/tinyxml/tinyxml2.cpp:2513-2528 | appends the entity of a character that needs one |
| `XmlPrinters.XMLPrinter.OpenElement` | lib/tinyxml/tinyxml2.cpp:2561-2580 | seals what is open, writes the name and pushes it |
| `XmlPrinters.XMLPrinter.PushAttribute` | lib/tinyxml/tinyxml2.cpp:2582-2590 | appends one attribute with its escaped value |
| `XmlPrinters.XMLPrinter.CloseElement` | lib/tinyxml/tinyxml2.cpp:2633-2658 | closes the innermost element, with the short form if nothing is in it |
| `XmlPrinters.XMLPrinter.SealElementIfJustOpened` | lib/tinyxml/tinyxml2.cpp:2661-2668 | ends the start tag once |
| `XmlPrinters.XMLPrinter.PushText` | lib/tinyxml/tinyxml2.cpp:2671-2683 | appends escaped text, or a CDATA section as it is |
| `XmlPrinters.XMLPrinter.PushMarked` | lib/tinyxml/tinyxml2.cpp:2733-2776 | appends a comment, a declaration or an unknown between its marks |
| `XmlPrinters.XMLPrinter.VisitAttributes` | lib/tinyxml/tinyxml2.cpp:2788-2802 | appends all attributes in order |
| `XmlPrinters.XMLPrinter.VisitKids` | lib/tinyxml/tinyxml2.cpp:1966-1976 | prints the children in order |
| `XmlDocuments.XMLDocument.Parse` | lib/tinyxml/tinyxml2.cpp:2285-2313 | the imperative parser returns what the grammar's `Parse` says, nodes or error |
| `XmlDocuments.XMLDocument.ParseDeep` | lib/tinyxml/tinyxml2.cpp:988-1100 | one level of nodes with the closing tag that ends it, and its errors |
| `XmlDocuments.XMLDocument.ParseElement` | lib/tinyxml/tinyxml2.cpp:1898-1923 | an element, or a closing tag handed up to the level above |
| `XmlDocuments.XMLDocument.ParseNode` | lib/tinyxml/tinyxml2.cpp:656-723 | identifies the next node and parses it |
| `XmlDocuments.XMLDocument.ParseTag` | lib/tinyxml/tinyxml2.cpp:1898-1923 | the name, the attributes and the kind of a tag, or the error reported |
| `XmlDocuments.XMLDocument.ParseAttributes` | lib/tinyxml/tinyxml2.cpp:1815-1872 | attributes up to the end of the tag; refuses a name given twice |
| `XmlDocuments.XMLDocument.ParseAttribute` | lib/tinyxml/tinyxml2.cpp:1356-1381 | a name, an equals sign and a quoted value, decoded |
| `XmlDocuments.XMLDocument.ParseQuoted` | lib/tinyxml/tinyxml2.cpp:1366-1380 | the value between two equal quotes |
| `XmlDocuments.XMLDocument.ParseMarkup` | lib/tinyxml/tinyxml2.cpp:656-723 | the nodes with longer headers, tried in the order of `Identify` |
| `XmlDocuments.XMLDocument.ParsePlain` | lib/tinyxml/tinyxml2.cpp:1147-1171 | text up to the next tag, decoded; an error if no tag follows |
| `XmlDocuments.XMLDocument.ParseText` | lib/tinyxml/tinyxml2.cpp:193-215 | the first place where the end tag stands |
| `XmlDocuments.XMLDocument.ParseName` | lib/tinyxml/tinyxml2.cpp:218-235 | the longest name |
| `XmlDocuments.XMLDocument.SkipWhiteSpace` | lib/tinyxml/tinyxml2.cpp:656-668 | the first character that is no whitespace |
| `XmlDom.XMLNode.Unlink` | lib/tinyxml/tinyxml2.cpp:804-825 | the child leaves its list, all pointers of every node of the document are as `Unlinked` says, and all lists stay well formed |
| `XmlDom.XMLNode.InsertEndChild` | lib/tinyxml/tinyxml2.cpp:841-868 | the node leaves its old list and becomes the last child; another document's node is refused and nothing changes |
| `XmlDom.XMLNode.InsertFirstChild` | lib/tinyxml/tinyxml2.cpp:871-899 | the same for the first child |
| `XmlDom.XMLNode.InsertAfterChild` | lib/tinyxml/tinyxml2.cpp:902-935 | the node is put behind the given child; a null pointer is dereferenced exactly when it already is the last child right behind it |
| `XmlDom.XMLNode.InsertBehind` | lib/tinyxml/tinyxml2.cpp:918-934 | the case of another node of the same document |
| `XmlDom.XMLNode.InsertChildPreamble` | lib/tinyxml/tinyxml2.cpp:1117-1129 | the node is in no list any more, and all lists are well formed |
| `XmlDom.XMLNode.LinkLast` | lib/tinyxml/tinyxml2.cpp:849-866 | a node in no list becomes the last child: as a whole the assignments are an insertion behind all children, and all lists stay well formed |
| `XmlDom.XMLNode.LinkFirst` | lib/tinyxml/tinyxml2.cpp:879-897 | a node in no list becomes the first child: as a whole the assignments are an insertion in front, and all lists stay well formed |
| `XmlDom.XMLNode.LinkBetween` | lib/tinyxml/tinyxml2.cpp:929-933 | a node in no list is put right behind a child that is not the last, and all lists stay well formed |
| `XmlDom.UnlinkedIsFamily` | lib/tinyxml/tinyxml2.cpp:804-825 | removing a child keeps first, last, previous, next and parent pointers of every node a well-formed doubly linked list |
| `XmlDom.InsertedIsFamily` | lib/tinyxml/tinyxml2.cpp:841-935 | putting a free node at any place of any list keeps all lists well formed |
| `XmlDom.UnlinkSteps` | lib/tinyxml/tinyxml2.cpp:809-824 | the assignments of `Unlink`, one after the other, are the removal |
| `XmlDom.AppendSteps` | lib/tinyxml/tinyxml2.cpp:849-866 | the assignments of `InsertEndChild` are an insertion at the end |
| `XmlDom.PrependSteps` | lib/tinyxml/tinyxml2.cpp:879-897 | the assignments of `InsertFirstChild` are an insertion at the front |
| `XmlDom.PlaceSteps` | lib/tinyxml/tinyxml2.cpp:929-933 | the assignments of `InsertAfterChild` are an insertion in between |
| `XmlDom.AppendedKids` | lib/tinyxml/tinyxml2.cpp:841-868 | as sequences: the node is taken out of every list and ends the parent's; no other list changes |
| `XmlDom.PrependedKids` | lib/tinyxml/tinyxml2.cpp:871-899 | as sequences: the node is taken out of every list and begins the parent's |
| `XmlDom.PlacedKids` | lib/tinyxml/tinyxml2.cpp:902-935 | as sequences: the node is taken out of every list and stands right behind the given child |
| `XmlTrees.DeleteChildren` | lib/tinyxml/tinyxml2.cpp:794-801 | terminates; every node below is blank and back in the pool, children before parents, and no other node changes |
| `XmlTrees.DeleteChild` | lib/tinyxml/tinyxml2.cpp:828-838 | the child is unlinked, all below it deleted, and then itself freed |
| `XmlTrees.PostOrderFreesOnce` | lib/tinyxml/tinyxml2.cpp:794-838 | every node below is freed exactly once |
| `XmlTrees.ClearingGoesOn` | lib/tinyxml/tinyxml2.cpp:796-799 | a round of the loop leaves the trees of the remaining children as they were |
| `XmlTrees.DeepClone` | lib/tinyxml/tinyxml2.cpp:781-791 | the copy is an equal tree of fresh nodes of the target document, and nothing that was there changes |
| `XmlTrees.CopyGrows` | lib/tinyxml/tinyxml2.cpp:786-790 | adding a finished copy of a child extends the copied tree by exactly that child |
| `Calendar.FloorIdiom` | include/date.hpp:2755-2758 | `(y >= 0 ? y : y - (n - 1)) / n` with truncating division is floor division, for every n |
| `Calendar.YearOfEra` | include/date.hpp:2866-2870 | the year-of-era formula finds the year whose days the day of the era is among |
| `Calendar.DayHasDate` | include/date.hpp:2860-2876 | the computed month and day are those of the calendar for a year that differs from the stored one only by its wrap to 16 bits |
| `Calendar.ToDaysIsNumber` | include/date.hpp:2748-2762 | the conversion with its unsigned wraps counts the days of all years and months before |
| `Calendar.YearLength` | include/date.hpp:1603-1606 | year starts are 366 days apart exactly after a leap year |
| `CivilDates.DateRoundTrip` | include/date.hpp:2748-2762 | every date with a month and a day of its calendar converts to a day count and back to itself; the count is in range exactly when the date is `ok()` |
| `CivilDates.DayRoundTrip` | include/date.hpp:2860-2876 | a day count converts to an `ok()` date and back to itself exactly when it lies between -32767-01-01 and 32767-12-31 |
| `CivilDates.NextDay` | include/date.hpp:2860-2876 | the date of the next day is the calendar's successor, by leap years and last days of months alone |
| `CivilDates.DaysAreCounted` | include/date.hpp:2860-2876 | counting on day by day for any number of days gives the converted date |
| `CivilDates.NextIsOneMore` | include/date.hpp:2528-2539 | the successor of an `ok()` date is `ok()` and one day later |
| `CivilDates.Epoch` | include/date.hpp:2860-2876 | day 0 is 1970-01-01 |
| `CivilDates.LessIsEarlier` | include/date.hpp:2807-2814 | dates compare as their day counts do |
| `Weekdays.WeekdayIsFloored` | include/date.hpp:1734-1738 | for every 32-bit day count the two unsigned cases are one floored remainder of day + 4 by 7 |
| `Weekdays.WeekdayGoesOn` | include/date.hpp:1826-1831 | the weekday n days on is the weekday plus n, for any n within 32 bits |
| `Weekdays.WeekdaysApart` | include/date.hpp:1816-1821 | the difference of two days' weekdays is the remainder of their distance by 7 |
| `Weekdays.MinusIsFloored` | include/date.hpp:1816-1821 | weekday difference is the floored remainder, for all bytes |
| `Weekdays.PlusIsFloored` | include/date.hpp:1826-1831 | weekday plus days is the floored remainder, for all bytes and counts |
| `Weekdays.PlusUndoesMinus` | include/date.hpp:1816-1831 | y + (x - y) is x exactly when x is a weekday |
| `Weekdays.NthOkIffRoundTrip` | include/date.hpp:3035-3046 | `ok()` holds exactly when the year is ok and converting to days and back is the identity |
| `Weekdays.YearMinimumRoundTrips` | include/date.hpp:3035-3046 | in year -32768 the round trip can be the identity though `ok()` is false, which is why the year is named above |
| `Weekdays.EveryDayIsSomeNth` | include/date.hpp:3049-3066 | a day count converts to an n-th weekday and back exactly when its year fits 16 bits |
| `Weekdays.NthDay` | include/date.hpp:3060-3066 | where the n-th weekday falls, for any index, unsigned wraps included |
| `Weekdays.LastWeekdayIsLast` | include/date.hpp:3238-3242 | the last weekday is in its month, on its weekday, and no later day of the month is |
| `IsoWeeks.IsoYear` | include/date.hpp:5095-5103 | the printed year is that of the week's Thursday for every date; it is -32768, which is not ok, exactly for -32767-01-01 and -32767-01-02 |
| `IsoWeeks.IsoWeek` | include/date.hpp:5556-5570 | the printed week is between 1 and 53 and counts the Thursdays of the ISO year, for every date but those two, for which it is -3419451 |
| `IsoWeeks.ThreeDaysOn` | include/date.hpp:5556-5559 | the year three days on is the ISO year or the one after, wraps included |
| `IsoWeeks.WeekStartIsWeekOne` | include/date.hpp:5557-5558 | the Monday four days after the last Thursday of December begins the week with the fourth of January |
| `IsoWeeks.IsoYearIs` | include/date.hpp:5098-5103 | a day is in an ISO year exactly from the Monday of its week 1 up to that of the next year |
| `IsoWeeks.WeekNumberRange` | include/date.hpp:5556-5570 | an ISO week number is between 1 and 53 (ISO 8601:2004, section 4.1.4) |
| `IsoWeeks.ReadIso` | include/date.hpp:7431-7449 | the block that makes a date of year, week and weekday; it breaks exactly when a year, month or day read besides differs |
| `IsoWeeks.PrintedReadsBack` | include/date.hpp:7431-7449 | reading back the ISO year, week and weekday of a date gives the date |
| `IsoWeeks.NamedIffThere` | include/date.hpp:7431-7449 | of all years and of all weeks of two digits, exactly those that there are name a day that has a date and is of that year and that week: years from -32767 to 32767, and weeks from 1 to the last of the year |
| `IsoTexts.PrintAndRead` | include/date.hpp:5090-5110 | printed as `%G-W%V-%u` and read with any width for the year, a date is the same exactly if its ISO year is not -32768 and the year's digits fit the width; else reading fails, and no other date is ever read |
| `IsoTexts.TextIsRead` | include/date.hpp:6057-6109 | of the printed text the same year, week and weekday are read, under the same condition, and else nothing |
| `IsoTexts.FormatIs` | include/date.hpp:5547-5572 | for years of four digits the text is the extended format of ISO 8601:2004, section 4.1.4: ten characters, year, week and weekday at their places |
| `IsoTexts.Print` | include/date.hpp:5547-5572 | the text that is printed: the year in at least four digits, with a remark if it is not ok, the week in at least two, Sunday as 7 |
| `IsoTexts.Parse` | include/date.hpp:7125-7170 | the reading of these fields, the block that makes a date of them, and the checks that it is one and falls on the weekday |
| `IsoTexts.ReadUnsigned` | include/date.hpp:6057-6080 | the loop over digits reads as many as there are, up to the width, and yields their value in 32 bits |
| `IsoTexts.ReadSigned` | include/date.hpp:6083-6106 | a sign and then at least one digit, the width counting digits alone |
| `Conditions.EvaluateElement` | src/contract/condition_handler.cpp:16-95 | the walk that visits all children returns what the tree means: all or some of its children, negated for nif |
| `ConditionRules.IfMeans` | src/contract/condition_handler.cpp:20-50 | an if, condition or update, in whatever case, without a rule, with an empty one or with or in whatever case, holds exactly if some child does, and with any other rule exactly if all children do |
| `ConditionRules.NifNegates` | src/contract/condition_handler.cpp:91-93 | a nif holds exactly if the same element as an if does not |
| `ConditionRules.OtherTags` | src/contract/base_condition_handler.cpp:13-36 | seven tags are decided by their handlers, and any tag that is not known holds |
| `ConditionRules.CompareMeans` | src/contract/compare_handler.cpp:5-79 | what each way to write a type says of two operands, words or keywords with white space around them; an unknown type never holds |
| `ConditionRules.NothingToCompare` | src/contract/compare_handler.cpp:17-31 | without an operand, with a blank one, or with a keyword that the data do not have, nothing holds |
| `ConditionRules.Opposites` | src/contract/compare_handler.cpp:35-75 | on the same operands ne is the negation of eq, lt of ge, gt of le, alt of age, and agt of ale |
| `ConditionRules.Exchanged` | src/contract/compare_handler.cpp:50-61 | with the operands exchanged gt is lt, and ge is le |
| `ConditionRules.KeywordsAre` | src/contract/condition_manager.cpp:23-49 | the keywords collected are exactly the values beginning with a dollar sign of src and ref in compare, after and before in age, id and name in var, and value in any other tag, at any depth |
| `Conditions.Footprint` | src/contract/compare_handler.cpp:5-79 | data that agree on the collected keywords evaluate a covered tree alike |
| `Conditions.KeywordSearch` | src/contract/condition_manager.cpp:23-49 | appends the keywords of an element and all below it, in document order |
| `ConditionCache.ConditionManager.Evalue` | src/contract/condition_manager.cpp:6-71 | the answer, and what is remembered: of each id the first keywords, result and digest, which later calls never replace |
| `ConditionCache.ConditionManager.KeywordDigest` | src/contract/condition_manager.cpp:19-53 | keywords are collected once for each id |
| `ConditionCache.ConditionManager.CachedResult` | src/contract/condition_manager.cpp:57-70 | the kept result if the digest is the kept one, and else a fresh one that is not kept |
| `ConditionCache.ConditionManager.GetHashKV` | src/contract/condition_manager.cpp:73-81 | the digest of the values joined without separator, a missing one as empty |
| `ConditionCache.ConditionManager.GetEvalResultById` | src/contract/include/condition_manager.hpp:17-41 | the kept result, negated for a leading tilde; true for what is not known |
| `ConditionCache.CacheIsTransparent` | src/contract/condition_manager.cpp:6-71 | over every run with one node for each id, if trees look only at collected keywords and digests separate the data, every answer is a fresh evaluation |
| `ConditionCache.AnswerIsFresh` | src/contract/condition_manager.cpp:55-70 | in any run at all, an answer is fresh exactly when a digest equal to that of the first call with its id implies an equal result |
| `ConditionCache.CacheIsRightIff` | src/contract/condition_manager.cpp:55-70 | for a node and a set of data, all runs are answered freshly exactly when equal digests mean equal results on that set |
| `ConditionCache.FirstIsKept` | src/contract/condition_manager.cpp:57-68 | what is stored for an id is what its first call computed, after any number of calls |
| `ConditionCache.ByIdIsFirst` | src/contract/include/condition_manager.hpp:17-41 | asked for by id, a condition has the result of its first evaluation, not of its last |
| `ConditionCache.UnknownHolds` | src/contract/include/condition_manager.hpp:17-41 | asked for by id, a condition that was never evaluated holds, with a tilde and without |
| `ConditionCache.EvaluateRun` | src/contract/condition_manager.cpp:6-71 | a manager driven through a run gives the answers that the theorems speak of |
| `ConditionLimits.FixedWidthsSeparate` | src/contract/condition_manager.cpp:73-81 | keywords that are all there with values of fixed widths are separated by a digest without collisions |
| `ConditionLimits.OneKeywordSeparates` | src/contract/condition_manager.cpp:73-81 | a single keyword that is there is separated by a digest without collisions |
| `ConditionLimits.JoinedValuesCollide` | src/contract/condition_manager.cpp:73-81 | for any two keywords, values (1, 1) and (11, empty) have one digest and the second answer is wrong |
| `ConditionLimits.MissingIsNotEmpty` | src/contract/condition_manager.cpp:75-78 | a missing and an empty keyword have one digest but compare differently, and the second answer is wrong |
| `ConditionLimits.OtherTag` | src/contract/condition_manager.cpp:27-38 | a compare tag not in lower case is evaluated but not watched: answers go stale |
| `ConditionLimits.OtherSpacing` | src/contract/condition_manager.cpp:83-90 | an attribute with a leading space is evaluated but not watched: answers go stale |
| `JsonPointers.Escape` | lib/json/json-uri.cpp:156-173 | the three passes of find and replace compute the one simultaneous substitution |
| `JsonPointers.PassesAreOne` | lib/json/json-uri.cpp:156-173 | no pass meets a character that an earlier one has put in |
| `JsonPointers.ReplaceAll` | lib/json/json-uri.cpp:161-170 | one in-place pass replaces every occurrence, and nothing it has put in |
| `JsonPointers.Unescape` | lib/json/json-uri.cpp:121-154 | the in-place scan from the right, wrapped position included, decodes all escape sequences at once |
| `JsonPointers.DirectionsAgree` | lib/json/json-uri.cpp:121-154 | decoding from the right and from the left agree on every string |
| `JsonPointers.UnescapeUndoesEscape` | lib/json/json-uri.cpp:121-173 | unescaping undoes escaping exactly for strings without a percent sign (RFC 6901, sections 3 and 4) |
| `JsonPointers.EscapedIsInjective` | lib/json/json-uri.cpp:156-173 | different keys have different escaped forms |
| `JsonPointers.EscapedAs` | lib/json/json-uri.cpp:156-173 | a tilde, a slash and a percent sign become ~0, ~1 and %25 wherever they stand in a key |
| `JsonPointers.PointersTellPaths` | lib/json/include/json-schema.hpp:142-146 | different paths have different pointers |
| `JsonPointers.FromString` | lib/json/json-uri.cpp:32-51 | the loop over slashes keeps a pointer as it is; an empty one is the root, one without a leading # is refused |
| `JsonResolver.Resolver.Resolve` | lib/json/json-validator.cpp:47-96 | every object below is stored under its name, in document order, or the first name already there is reported; references are made absolute and collected |
| `JsonResolver.Resolver.ResolveMembers` | lib/json/json-validator.cpp:63-95 | the loop over the members |
| `JsonResolver.Resolver.ResolveMember` | lib/json/json-validator.cpp:63-95 | passes over default, goes into objects and arrays, and makes a $ref absolute |
| `JsonResolver.Resolver.ResolveItems` | lib/json/json-validator.cpp:74-82 | the loop over the elements of an array, each named by its index |
| `JsonResolver.Resolver.ResolveDocument` | lib/json/json-validator.cpp:105-126 | an id at the root has to be a string; no name comes twice; a reference to the document itself has to be to a place it has, and others are left for later |
| `JsonResolver.Resolver.CheckReferences` | lib/json/json-validator.cpp:113-125 | refuses a missing reference to the document itself, and collects the documents of the other missing ones |
| `JsonResolver.NoIdsNoDuplicates` | lib/json/json-validator.cpp:55-61 | a document without string ids is never refused for a duplicate: its places and their pointers are one to one, and exactly those are stored |
| `JsonResolver.NoIdsResolvesIff` | lib/json/json-validator.cpp:105-126 | a document without ids is taken exactly when its references to itself are pointers to its own subschemas |
| `JsonResolver.PlacesAreDistinct` | lib/json/json-validator.cpp:63-95 | the subschemas visited have pairwise different paths, each named by the pointer of its path |
| `JsonReferences.PlacesAre` | lib/json/json-validator.cpp:47-82 | the places named are the document itself and those of the objects one step down, which are its members and the items of its arrays, but nothing below default; each by its own id, or else by where it is |
| `JsonReferences.ReferencesAre` | lib/json/json-validator.cpp:84-90 | the references collected are, of every object that is come to, each $ref that is a string, taken from the object's name |
| `JsonReferences.RewrittenIs` | lib/json/json-validator.cpp:84-90 | each of these is replaced by its absolute form, and nothing else in the document is changed |
| `JsonReferences.NameIs` | lib/json/json-validator.cpp:49-53 | an object with an id that is a string is named by it, and any other by its place |
| `JsonValidator.Validate` | lib/json/json-validator.cpp:338-461 | terminates, and ends normally exactly when the value is valid as the program reads the schema |
| `JsonValidator.ValidateCombined` | lib/json/json-validator.cpp:372-419 | of allOf, anyOf and oneOf the last one there decides |
| `JsonValidator.ValidateEach` | lib/json/json-validator.cpp:398-419 | stopping at the first failure of allOf or the second success of oneOf never changes the outcome |
| `JsonValidator.ValidateArray` | lib/json/json-validator.cpp:463-547 | sizes, uniqueness and items |
| `JsonValidator.ValidateItems` | lib/json/json-validator.cpp:502-546 | stopping at additionalItems true never changes the outcome |
| `JsonValidator.ValidateUnique` | lib/json/json-validator.cpp:478-488 | inserting one item after the other into the set fails exactly when the set refuses one |
| `JsonValidator.ValidateObject` | lib/json/json-validator.cpp:549-685 | sizes, members, required keys and dependencies |
| `JsonValidator.ValidateMember` | lib/json/json-validator.cpp:602-645 | a member against its property and all matching patterns, or else what is said of additional ones |
| `JsonValidator.ValidateRequired` | lib/json/json-validator.cpp:648-654 | all required keys are there |
| `JsonValidator.ValidateDependencies` | lib/json/json-validator.cpp:656-684 | schemas and keys that a present key needs |
| `JsonValidator.ValidateEnum` | lib/json/json-validator.cpp:155-168 | the search among the listed values, by the library's equality |
| `JsonValidator.ValidateString` | lib/json/json-validator.cpp:695-735 | length in code points, pattern and format, a missing format checker being a failure |
| `JsonValidator.ValidateNumber` | lib/json/json-validator.cpp:236-259 | signed or unsigned comparison, as the minimum decides |
| `JsonValidator.ValidateNumeric` | lib/json/json-validator.cpp:197-234 | maximum and minimum on 64-bit images, exclusive or not |
| `JsonValidator.ValidateType` | lib/json/json-validator.cpp:129-153 | ends normally exactly when one of the types the value has is among those the keyword names; an integer is also a number |
| `JsonKeywords.ValidIsMet` | lib/json/json-validator.cpp:338-735 | a value is valid, to the draft and where no keyword is left unread to the program, exactly if every keyword is met, as said of the value itself |
| `JsonKeywords.ValidIsEach` | lib/json/json-validator.cpp:338-735 | and exactly if it is valid for each keyword alone, bounds, items with additionalItems, and the three keywords for members being taken together |
| `JsonKeywords.NotMeans` | lib/json/json-validator.cpp:356-370 | not alone: the value is not valid for the schema |
| `JsonKeywords.AllOfMeans` | lib/json/json-validator.cpp:372-419 | allOf alone: all of the schemas |
| `JsonKeywords.AnyOfMeans` | lib/json/json-validator.cpp:372-419 | anyOf alone: one of the schemas at least |
| `JsonKeywords.OneOfMeans` | lib/json/json-validator.cpp:372-419 | oneOf alone: exactly one of the schemas |
| `JsonKeywords.EnumMeans` | lib/json/json-validator.cpp:155-168 | enum alone: a listed value, or to the program one that the library takes for it |
| `JsonKeywords.TypeMeans` | lib/json/json-validator.cpp:129-153 | type alone: one of the names the value has, integer and number for an integer |
| `JsonKeywords.BoundsMean` | lib/json/json-validator.cpp:174-259 | bounds alone: for numbers only; to the program, by what 64 bits show of them |
| `JsonKeywords.LengthMeans` | lib/json/json-validator.cpp:695-719 | minLength and maxLength: for strings only, the bytes that begin a code point |
| `JsonKeywords.PatternMeans` | lib/json/json-validator.cpp:721-726 | pattern: for strings only, found and without an error |
| `JsonKeywords.FormatMeans` | lib/json/json-validator.cpp:727-734 | format: for strings only, by the checker if there is one |
| `JsonKeywords.ItemCountMeans` | lib/json/json-validator.cpp:465-476 | minItems and maxItems: for arrays only |
| `JsonKeywords.UniqueItemsMean` | lib/json/json-validator.cpp:478-488 | uniqueItems: for arrays only, no two items the same, or to the program none refused by the set of those before |
| `JsonKeywords.ItemsMean` | lib/json/json-validator.cpp:490-547 | items and additionalItems: one schema for all, or one for each place and something for the places behind |
| `JsonKeywords.MemberCountMeans` | lib/json/json-validator.cpp:571-581 | minProperties and maxProperties: for objects only |
| `JsonKeywords.PropertiesMean` | lib/json/json-validator.cpp:583-645 | properties, patternProperties and additionalProperties: each member by its property, all patterns that match, and the last where there is neither |
| `JsonKeywords.RequiredMeans` | lib/json/json-validator.cpp:648-654 | required: an object has all of the keys |
| `JsonKeywords.DependenciesMean` | lib/json/json-validator.cpp:656-684 | dependencies: with a key that is there come its schema or its other keys |
| `JsonDraft.PrunedIsRead` | lib/json/json-validator.cpp:338-461 | if every schema that the validator reads has bounds it compares rightly, an enum that lists with a number all that the library takes for it, a checker for its format, and uniqueItems only where sets tell distinct values in every array of the value, the validator is the draft's validity of the schema without the keywords it leaves unread; there numbers are compared as they are, and formats go unchecked where there is no checker (draft-fge-json-schema-validation-00, sections 5 and 7) |
| `JsonDraft.PlainIsDraft` | lib/json/json-validator.cpp:338-461 | if also not stands alone and at most one of allOf, anyOf and oneOf is given, here and below, the validator is the draft's validity of the schema itself |
| `JsonDraft.NotHidesTheRest` | lib/json/json-validator.cpp:356-370 | a schema with not and a type that the validator accepts against the draft |
| `JsonDraft.AnyOfHidesAllOf` | lib/json/json-validator.cpp:372-396 | a schema with allOf and anyOf that the validator accepts against the draft |
| `JsonDraft.BoundsAreNeeded` | lib/json/json-validator.cpp:174-259 | a schema of bounds alone is read as the draft has it, on all values, exactly when the condition on bounds holds |
| `JsonDraft.CheckerIsNeeded` | lib/json/json-validator.cpp:727-734 | a schema of a format alone is read as the draft has it exactly when there is a checker |
| `JsonDraft.TwinsAreNeeded` | lib/json/json-validator.cpp:155-168 | a schema of an enum alone is read as the draft has it, on all values, exactly when everything that the library takes for a listed value is listed |
| `JsonDraft.DistinctIff` | lib/json/json-validator.cpp:478-488 | on an array on which the library's < is an order, uniqueItems alone is read as the draft has it exactly when no two different items are equal to the library, or two are the same |
| `JsonDraft.WrongTwins` | lib/json/json-validator.cpp:155-168 | an enum of 2^64 - 1 lets -1 pass, a minimum of 2^64 - 1 to be exceeded lets 5 pass, and uniqueItems refuses an array of -1 and 2^64 - 1 |
| `JsonNumbers.NumbersAreReadIff` | lib/json/json-validator.cpp:174-259 | every 64-bit number is compared rightly with the bounds of a schema exactly under a condition on minimum, maximum and their exclusiveness; it covers signed and unsigned comparison and the choice between them |
| `JsonNumbers.WrongAtWitness` | lib/json/json-validator.cpp:174-259 | where that condition fails, a number that is compared wrongly |
| `JsonNumbers.WrongNumbersPass` | lib/json/json-validator.cpp:250-259 | 2 to the 63 passes a maximum of 10, and 5 a maximum of -1 beside a minimum of 0 |
| `JsonOrder.EqualIsTwin` | include/json.hpp:18332-18400 | two values are equal to the library exactly if they are the same but for numbers, at any depth, that have the same 64 bits, one of them negative and one at least 2^63 |
| `JsonOrder.ContainsIsIn` | lib/json/json-validator.cpp:160-161 | finding a value in a list by the library's equality is membership, for all values, exactly if the list has with a value all that are equal to it |
| `JsonOrder.NeitherIsEqual` | include/json.hpp:18494-18560 | neither of two values is less exactly when they are equal to the library |
| `JsonOrder.CompareReversed` | include/json.hpp:18494-18560 | never are two values each less than the other |
| `JsonOrder.OrderOfKind` | include/json.hpp:18494-18560 | < is transitive on values whose numbers, at any depth, are all less than 2^63 or all not negative |
| `JsonOrder.NoOrderOnMixedNumbers` | include/json.hpp:18545-18552 | it is not on all: -1 is less than 1, 1 than 2^63, and 2^63 than -1 |
| `JsonOrder.UniqueTells` | lib/json/json-validator.cpp:478-488 | where < is an order, whatever the set does elsewhere, inserting all items succeeds exactly for distinct ones if and only if no two different ones are equal to the library, or two are the same |
| `JsonOrder.KindIsSettled` | lib/json/json-validator.cpp:478-488 | both hold in every array of a value whose numbers are of one kind, as above |
| `JsonOrder.TwinsAreRefused` | lib/json/json-validator.cpp:478-488 | a set takes only one of -1 and 2^64 - 1 |
| `TextFlow.ColumnIterator.CalcLength` | include/catch.hpp:6418-6443 | the length of the line at the position, and whether it gets a hyphen, as `LengthAt` says |
| `TextFlow.ColumnIterator.constructor` | include/catch.hpp:6461-6467 | the first line, or the end at once where it is empty |
| `TextFlow.ColumnIterator.Current` | include/catch.hpp:6450-6473 | a line no wider than the column and without a newline |
| `TextFlow.ColumnIterator.Next` | include/catch.hpp:6475-6490 | over a newline or else over whitespace to the next line, or to the end |
| `TextFlow.LineLength` | include/catch.hpp:6408-6443 | a line stays within its newline and its width, hyphen included |
| `TextFlow.HyphenOnlyWhenNeeded` | include/catch.hpp:6429-6442 | a word is cut with a hyphen exactly where no boundary within the width has anything before it |
| `TextFlow.BoundariesAre` | include/catch.hpp:6367-6416 | between which two characters a line may end, one by one |
| `TextFlow.ShortLine` | include/catch.hpp:6418-6428 | a line that ends within the width is taken as a whole |
| `TextFlow.LongestLine` | include/catch.hpp:6429-6442 | of any other as much is taken as fits up to a boundary, without the whitespace there; if nothing stands before any boundary, all but one column, for a hyphen |
| `TextFlow.NextLine` | include/catch.hpp:6475-6490 | the next line begins behind the newline, or else at the next character that is no whitespace |
| `TextFlow.IndentsAre` | include/catch.hpp:6450-6459 | the first line has the initial indent if one is given, and every other line the indent |
| `TextFlow.StuckIff` | include/catch.hpp:6418-6490 | a step of the iterator makes no progress exactly at a word of two characters or more with one column left |
| `TextFlow.Wrap` | include/catch.hpp:6529-6539 | the loop over a column, wherever it ends, terminates with the lines that `Wrapped` says |
| `TextFlow.EndsIff` | include/catch.hpp:6461-6490 | the loop over a column ends exactly when its first line is empty, or two columns are left beside the indent, or no word of two or more is left behind the first line |
| `TextFlow.Rounds` | include/catch.hpp:6461-6490 | after any number of rounds the iterator is where `StartAfter` says, or at the end |
| `TextFlow.EndlessExample` | include/catch.hpp:6461-6490 | a text and a column of width 1 for which the loop never ends |
| `TextFlow.DroppedIs` | include/catch.hpp:6461-6467 | the texts of which the constructor drops everything: those that begin with a newline, and in one column those that begin with whitespace or with a word of two or more |
| `TextFlow.DroppedExample` | include/catch.hpp:6461-6467 | a text of two letters that one column drops |
| `TextFlow.CutsAreTheText` | include/catch.hpp:6418-6490 | the pieces are the text in order, and only whitespace is dropped between them |
| `TextFlow.LinesFit` | include/catch.hpp:6450-6473 | every line is within the width and has no newline |
| `TextFlow.WrappedKeepsText` | include/catch.hpp:6461-6490 | wherever the loop ends, nothing but whitespace is lost exactly when the text is not one of those that the constructor drops |
| `Matchers.UnorderedEquals` | include/catch.hpp:3281-3309 | true exactly for equal multisets, though a common prefix is cut and only first occurrences are counted |
| `Matchers.Count` | include/catch.hpp:3183-3192 | how often the item is in the range |
| `Matchers.Contains` | include/catch.hpp:3193-3201 | whether the item is in the range |
| `TotalsBar.TotalsDivider` | include/catch.hpp:13669-13677 | both loops end with lengths that sum to 79, a bar is empty exactly when its count is zero, no decrement underflows, and no bar is off its share by more than three |
| `TotalsBar.RatiosNearlyFill` | include/catch.hpp:13240-13243 | the three shares sum to between 78 and 82 |
| `TotalsBar.FindMax` | include/catch.hpp:13245-13252 | the largest of the three, the last of equals |

## Left out

- Catch: section filters, generator trackers, the abort threshold, reporters and the counting of assertions.
- Catch's tracker ownership: records are never freed during a run, so shared pointers are plain indices.
- Catch's column iterator on more than one string: a column is always built from one text.
- `TotalsBar.TotalsDivider`: does not model counts whose sum exceeds 64 bits; the product in `makeRatio` does wrap.
- XML files, memory pools, line numbers, error messages, number conversions, user data.
- XML printing with indentation, and a header with a declaration: only compact printing is modelled.
- XML parsing with collapsed whitespace or without entity processing: the parser has the default options; collapsing is modelled on its own.
- `XmlDocuments.XMLDocument.Parse`: reads an unchanging text, because decoding in place touches only slices that are read already; the terminators that a slice's decoding writes are modelled in `XmlStrPair`.
- `XmlRoundTrip.ParsePrint`: not for a text at the very end of the document, which the parser refuses, nor for one at its very start that begins with whitespace or a byte order mark, which the parser drops.
- `XmlWhole.PrintAndParse`: the same.
- `XmlTrees.DeepClone`: a node's own value, kind and attributes are one string, which `ShallowClone` copies; a document as the root of a copy, for which `ShallowClone` gives null, is not modelled.
- `XmlDom.XMLNode.InsertAfterChild`: says nothing of the state after the null dereference.
- `XmlNumeric.NumericReferenceValue`: the multiplier and each product wrap at 32 bits, the sum does not, as with a 64-bit unsigned long; where unsigned long has 32 bits, the sum of a longer reference would wrap as well.
- Calendar: parsing and formatting of other fields than ISO year, week and weekday, months arithmetic, durations, time zones, and day counts so near the 32-bit limits that adding 719468 overflows.
- `IsoWeeks.ReadIso`: only the block for %G, %V and a weekday, not those for %U and %W.
- `IsoTexts.Parse`: only the format `%G-W%V-%u`, with a width for %G.
- Conditions: the handlers of signature, certificate, time, endorser, user and var tags are one arbitrary function, as are number parsing and the hash; trimming and case conversion are those of ASCII.
- Conditions: overflow of the difference of two compared numbers.
- `JsonResolver.Resolver.Resolve`: deriving one URI from another is an arbitrary function, and the protocol, host and path of a URI, which are compared one by one, are one text.
- `JsonValidator.Validate`: does not follow $ref, because its targets are in documents that a caller loads, and takes no floating-point instances.
- `JsonValidator.ValidateNumeric`: does not model multipleOf, which is computed in floating point.
- JSON values: objects have their members in the order of their keys, as the library keeps them; a number that is not negative is unsigned, as parsing makes it, which a value built from a signed C++ number is not.
- `JsonValidator.ValidateUnique`: what a set does on values on which < is no order is arbitrary.
- JSON validator: floating-point bounds and values in a schema, schemas whose keywords have values of the wrong type, and the messages and kinds of exceptions. Regular expressions and formats are arbitrary functions.
- JSON schemas: the loading of external documents and the table of all schemas of a validator.
- Certificates, signatures, fees, storage queries, the engine and its plugins.
