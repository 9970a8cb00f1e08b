# Verified models of a oneM2M CSE

tinyIoT is a oneM2M common services entity in C. This project models five parts of it whose
correctness is decided by the code alone, and proves what each of them is for.

**JSON** (`Json*.dfy`). `JsonValue` and `JsonText` say what cJSON values are and what text is printed for
them. `JsonUnicode`, `JsonLiteral` and `JsonGrammar` say what the parser accepts, byte by byte, with its two
passes over a string literal. `JsonMeaning`, `JsonQuotation` and `JsonSyntax` describe, without the parser,
the texts it takes and what they denote, and prove that it accepts each of them as that; `JsonAccepted` proves
the converse, that it accepts nothing else, and `JsonDocument` puts both together for documents and says which
of them are texts of RFC 8259. `JsonRoundTrip` concludes that printing and parsing are inverse, and `JsonBom`
that what stands in front of a text does not matter to what is parsed behind it. `JsonParser` and
`JsonPrinter` are the code that moves an offset over a buffer and that fills and regrows one; they are proved
against those functions. `JsonList` is the child list with its `next`, `prev` and `child` pointers on the
heap, `JsonCopy` copies trees of such nodes, and `JsonCompare` is comparing.

**Resource tree** (`ResourceTree*.dfy`, `SubscriptionIndex.dfy`, `ResourceLookup.dfy`). The memory is a map
from nodes to their links (parent, child, siblings, subscription index, uri), held in a field of class `Tree`
that the methods update one pointer at a time; a `Ptr` is null or the identity of a node. `ResourceTree` says
which tree the links stand for. `ResourceTreeOps` inserts and deletes. `SubscriptionIndex` keeps a node's
index as the linked list it is, on the heap, and proves that its operations are those on the node's links.
`ResourceTreeRebuild` rebuilds the tree from a flat list, `ResourceLookup` searches it by id, by path and by
address.

**Missing data** (`Missing*.dfy`, `KeyedList.dfy`). `MissingData` has recording, counting and visiting as
atomic steps of any number of threads, with the history of notified and discarded points; `MissingPoints` has
the list of points a series shows, and `MissingTold` proves when what a subscription is told are the points
it is told of. `MissingDataOps` is the monitor itself, with its cursors, totals and windows in linked lists
on the heap; `KeyedList` has the walking, inserting and unlinking, and proves that such a list is a
dictionary.

**Transactions** (`Transaction*.dfy`). The nested transaction protocol of both database back ends, as a
state machine with any number of threads in which every step reads or writes one shared variable.
`TransactionCalls` keeps the history of the calls and proves that every thread executes what it would execute
alone.

**Discovery** (`SqlText.dfy`, `GeneralTable.dfy`, `DiscoveryWhere.dfy`, `DiscoveryBuilder.dfy`,
`LikePattern.dfy`, `DiscoveryPage.dfy`). The WHERE clause that SQLite gets, as text: a lexer and a parser with
SQL's precedence read it back, three-valued evaluation says what it means, and `GeneralTable` how a row
answers its tests. The page of results that PostgreSQL computes from a UNION ALL. What LIKE patterns select.

Where properties turned out not to hold of the code, the code is modelled as it is, a lemma gives an input
that shows it, and another says exactly when the property does hold:

- A preallocated buffer needs two bytes more than the text. The header (source/server/cJSON.h:162) asks for
  five to be safe; the model follows the code (`JsonPrinter.PrintPreallocated`).
- A numeral of more than 63 bytes is cut there (`JsonSyntax.NumeralReadIff`, `JsonSyntax.LongNumeralCut`).
- A `\u` whose digits are not four hex digits does not make a literal fail: it is read as code 0, and the string
  ends there. Such digits can also put the two passes over a literal out of step, up to an escaped quote that is
  at the same time the closing one (`JsonQuotation.MalformedEndsString`, `JsonQuotation.QuotationFound`).
- The parser takes more than RFC 8259 allows: any byte up to 32 as a blank, zeros in front of digits, a point
  without digits on one side, control characters in strings, and anything behind the value
  (`JsonDocument.DocumentExact`, `JsonDocument.PrefixExact`).
- `cJSON_Compare` of an object with its own copy is false if a key is repeated with different values, and
  without regard to case also if two spellings of a key have different values; with itself, by the same
  pointer, it is true (`JsonCompare.EqualToCopy`, `JsonCompare.RepeatedKeyDiffers`, `JsonCompare.CaseDiffers`).
- SQLite compares letters without regard to case in LIKE, so the scope of a discovery includes resources
  below a uri that differs in case, and `_` in a uri is a wildcard (`LikePattern.ScopeExact`,
  `LikePattern.StrangerLetIn`).
- On PostgreSQL a page with an offset can lose rows, because only the types seen on that page are joined
  (`DiscoveryPage.PageOfSeenTypes`, `DiscoveryPage.SkippedTypeLosesPage`).
- A missing-data notification carries other points than it accounts for if points were counted, or recorded
  and not yet counted, since its thread counted its own, or if mdlt has dropped points that are still
  pending; then a point can be told twice and another never (`MissingTold.ToldRightIff`,
  `MissingTold.PointToldTwice`, `MissingDataOps.PointSentTwice`).
- Disarming a time series forgets its total but not what subscriptions have accounted for, and then points
  are never told (`MissingData.DisarmHarmless`, `MissingData.PointNotTold`,
  `MissingData.SilentUntilCaughtUp`); a subscription made late is told of old points
  (`MissingDataOps.LateSubscription`).
- A resource whose name begins with "fopt", and all below it, is not found by its own uri
  (`ResourceLookup.FoundByUri`, `ResourceLookup.FopticalHidden`).
- The addresses "-/" and "-/fopt" mean the CSE base and lead to its first child; "-" alone leads to the base
  (`ResourceLookup.BaseFound`, `ResourceLookup.DashSlash`).

## Model

| member | source | states |
|---|---|---|
| JsonUnicode.Utf8RoundTrip | source/server/cJSON.c:713-758 | the UTF-8 bytes of every code point decode to it again |
| JsonUnicode.Utf8Shape | source/server/cJSON.c:713-758 | the first byte announces the length, the others are continuation bytes, and NUL occurs only for U+0000 |
| JsonUnicode.SurrogatesJoin | source/server/cJSON.c:677-707 | the surrogate pair of a code point, as in section 2.2 of RFC 2781, is joined to that code point |
| JsonUnicode.ContinuationByte | source/server/cJSON.c:747-752 | masking a code point to a continuation byte keeps its low six bits, for every number |
| JsonUnicode.LeadByte | source/server/cJSON.c:754-758 | marking what is left makes the first byte of each length |
| JsonUnicode.PairBits | source/server/cJSON.c:705-707 | the union of the low bits of a surrogate pair is the code point it stands for |
| JsonParser.ParseHex4 | source/server/cJSON.c:615-648 | four digits give the number they spell, a malformed quadruple 0 |
| JsonParser.WriteUtf8 | source/server/cJSON.c:713-758 | the encoding loop appends the UTF-8 bytes of the code point and touches nothing before them |
| JsonParser.Utf16LiteralToUtf8 | source/server/cJSON.c:652-770 | consumes one escape or a surrogate pair, writes its encoding, or fails as the function on text does |
| JsonLiteral.UnescapeFits | source/server/cJSON.c:786-877 | for every accepted literal, malformed digits included, bytes and terminator fit what the sizing pass computed |
| JsonParser.UnescapeInto | source/server/cJSON.c:819-877 | every write of the unescaping pass, also on literals that fail, is inside the sized allocation, and the bytes are those the literal unescapes to |
| JsonParser.ParseBuffer.FindEnd | source/server/cJSON.c:786-813 | the sizing pass finds the closing quote and counts the escapes before it, or reports that the text ends |
| JsonMeaning.LiteralMeaning | source/server/cJSON.c:773-899 | a literal of well-formed characters and escapes is accepted and is the concatenation of what they denote, surrogate pairs joined |
| JsonMeaning.LoneSurrogateRejected | source/server/cJSON.c:671-703 | a lone surrogate after any well-formed beginning makes the literal fail |
| JsonMeaning.EveryScalarReadsBack | source/server/cJSON.c:652-770 | every Unicode scalar value, escaped with hex digits in either case, is read as its UTF-8 encoding |
| JsonMeaning.HexRead | source/server/cJSON.c:615-648 | four bytes that are read as digits spell the code that is read |
| JsonMeaning.StringRoundTrip | source/server/cJSON.c:902-1021 | the literal printed for a string parses to that string |
| JsonQuotation.QuotationMeaning | source/server/cJSON.c:773-899 | every literal that the sizing pass can measure and that is made of characters, short escapes, codes and pairs, digits malformed or not, is accepted as what it denotes |
| JsonQuotation.QuotationFound | source/server/cJSON.c:773-899 | nothing else is accepted as a literal |
| JsonQuotation.MalformedEndsString | source/server/cJSON.c:615-648 | a code with malformed digits ends the string |
| JsonParser.CopyNumber | source/server/cJSON.c:305-345 | the number bytes up to 63 are copied aside |
| JsonParser.ParseBuffer.ParseNumber | source/server/cJSON.c:305-379 | the value of the longest number at the offset, which moves past it, or failure |
| JsonParser.ParseBuffer.SkipWhitespace | source/server/cJSON.c:1038-1061 | the offset stops at the first byte above 32, or at the last byte |
| JsonBom.MarkIgnored | source/server/cJSON.c:1064-1077 | text behind a byte order mark parses as it does without, three bytes further on; a second mark makes it fail |
| JsonBom.MarkAlone | source/server/cJSON.c:1064-1077 | a mark with nothing behind it fails |
| JsonBom.ValueFurther | source/server/cJSON.c:1312-1364 | parsing at an offset does not depend on what stands before it, for any value and any prefix |
| JsonParser.ParseBuffer.ParseString | source/server/cJSON.c:773-899 | result and offset of the literal at the offset |
| JsonParser.ParseBuffer.ParseValue | source/server/cJSON.c:1312-1364 | result and offset are those of the grammar at that offset and depth; success restores the depth |
| JsonParser.ParseBuffer.ParseArray | source/server/cJSON.c:1441-1536 | the same for arrays, the element loop against the recursive grammar, failing beyond 1000 levels |
| JsonParser.ParseBuffer.ParseObject | source/server/cJSON.c:1601-1711 | the same for objects |
| JsonParser.Parse | source/server/cJSON.c:1095-1173 | the document's value and where it ends, a byte order mark skipped; with require_null_terminated only blanks may follow |
| JsonRoundTrip.PrintParseRoundTrip | source/server/cJSON.c:1312-1825 | for every tree of null, booleans, int32, NUL-free strings, arrays and objects, formatted or not, parsing the printed text gives the tree and consumes all of it if it nests at most 1000 deep, and fails otherwise |
| JsonRoundTrip.Printing | source/server/cJSON.c:1367-1825 | the text printed for a value, formatted or not, is a JSON text that denotes the value |
| JsonSyntax.EveryTextAccepted | source/server/cJSON.c:1095-1173 | every text made of values, blanks, numerals of at most 63 bytes and literals as above is accepted as the value it denotes if that nests at most 1000 deep, and refused otherwise |
| JsonSyntax.Characters | source/server/cJSON.c:1312-1364 | the brackets, words, quotes and the mark that are looked for are those of RFC 8259 and UTF-8 |
| JsonSyntax.ValueAccepted | source/server/cJSON.c:1312-1364 | the same for a value anywhere in a text and at any depth |
| JsonAccepted.ValueFound | source/server/cJSON.c:1312-1364 | the converse: whatever is accepted as a value, anywhere and at any depth, is such a text, denotes the value and nests no deeper than is left of 1000 |
| JsonAccepted.StrtodFound | source/server/cJSON.c:305-379 | what is used of the bytes of a number is a numeral that denotes the number |
| JsonDocument.DocumentExact | source/server/cJSON.c:1095-1173 | with require_null_terminated a text is accepted as a value if and only if it is such a text of that value, perhaps with blanks around it and a mark in front; every other is refused |
| JsonDocument.PrefixExact | source/server/cJSON.c:1095-1173 | without it a text is accepted if and only if it begins like that |
| JsonDocument.PrefixFound | source/server/cJSON.c:1095-1173 | and the value is then what that beginning denotes, up to where parsing ends |
| JsonDocument.RfcAccepted | source/server/cJSON.c:1095-1173 | every text of RFC 8259, with numerals of at most 63 bytes, is among them |
| JsonSyntax.StrtodNumeral | source/server/cJSON.c:305-379 | a numeral, with any fraction and exponent, is read to its end as the number it denotes, each digit counting for its power of ten |
| JsonSyntax.NumeralReadIff | source/server/cJSON.c:305-345 | so it is by parse_number if and only if it has at most 63 bytes |
| JsonSyntax.LongNumeralCut | source/server/cJSON.c:305-345 | of a longer run of digits the first 63 are taken for the number |
| JsonPrinter.CountEscapes | source/server/cJSON.c:929-953 | the counting pass counts exactly the bytes escaping adds |
| JsonPrinter.PrintBuffer.Ensure | source/server/cJSON.c:439-522 | grants room exactly when the limit allows, and growing keeps every byte up to the offset and the one there |
| JsonPrinter.PrintBuffer.UpdateOffset | source/server/cJSON.c:525-535 | the offset moves to the end of the text just written |
| JsonPrinter.PrintBuffer.PrintString | source/server/cJSON.c:902-1021 | appends the literal and a terminator inside the granted space, or fails exactly when there is no room |
| JsonPrinter.PrintBuffer.PrintNumber | source/server/cJSON.c:545-612 | appends the decimal text of an int32 |
| JsonPrinter.PrintBuffer.PrintValue | source/server/cJSON.c:1367-1439 | appends the text of the value, keeps the depth, and succeeds exactly when text and two bytes fit |
| JsonPrinter.PrintBuffer.PrintArray | source/server/cJSON.c:1539-1598 | the same for arrays |
| JsonPrinter.PrintBuffer.PrintObject | source/server/cJSON.c:1714-1825 | the same for objects, indented or not |
| JsonPrinter.PrintPreallocated | source/server/cJSON.c:1292-1309 | the caller's array gets the text and a NUL, exactly when it is at least two bytes longer than the text |
| JsonPrinter.Print | source/server/cJSON.c:1187-1290 | the whole text comes out for any first buffer size, unless it is too long for an int |
| JsonList.Append | source/server/cJSON.c:1956-1987 | a detached item becomes the last child; head.prev is the tail, the tail ends in null, inner links are mutual |
| JsonList.GetItem | source/server/cJSON.c:1851-1868 | the child at the index, or null beyond the end |
| JsonList.Detach | source/server/cJSON.c:2187-2221 | the other children stay a well-linked list in order, and the item points nowhere |
| JsonList.Insert | source/server/cJSON.c:2263-2290 | the item comes before child `which`, or last, or the call fails for a negative index |
| JsonList.Replace | source/server/cJSON.c:2292-2339 | the replacement stands where the item stood, and the item points nowhere |
| JsonCompare.GetObjectItem | source/server/cJSON.c:1880-1910 | the first member with the key, in either case mode |
| JsonCompare.SameKeyMeans | source/server/cJSON.c:133-154 | without regard to case two keys are the same if and only if they differ only between A to Z and a to z |
| JsonCompare.Compare | source/server/cJSON.c:2986-3109 | true for one pointer twice, and otherwise the loops decide the equality the lemmas below are about |
| JsonCompare.EqualToCopy | source/server/cJSON.c:2986-3109 | a tree equals one with the same contents if and only if keys that the case mode does not tell apart have the same value |
| JsonCompare.EqualSymmetric | source/server/cJSON.c:2986-3109 | comparing is symmetric on all trees, in both case modes |
| JsonCompare.EqualIsMeaning | source/server/cJSON.c:2986-3109 | on integer trees, in both case modes, equal exactly if both mean the same value with objects as maps and repeated keys repeat their values |
| JsonCompare.EqualTransitive | source/server/cJSON.c:2986-3109 | comparing is transitive on integer trees, in both case modes |
| JsonCompare.DistinctIsCoherent | source/server/cJSON.c:3069-3103 | trees without repeated keys are among those |
| JsonCompare.RepeatedKeyDiffers | source/server/cJSON.c:3069-3103 | an object with two values under keys that are not told apart does not equal its copy |
| JsonCompare.CaseDiffers | source/server/cJSON.c:133-154 | distinct keys that differ only in case are such keys |
| JsonCopy.Duplicate | source/server/cJSON.c:2706-2787 | a recursive copy is made of fresh nodes with the same contents, and at every level its children are a well-linked child list in order; the original is untouched |
| JsonCopy.Hook | source/server/cJSON.c:2758-2770 | a copied child is crosswired with the one before it, or made the first |
| JsonCopy.HookedHangs | source/server/cJSON.c:2758-2770 | that leaves the copies so far linked both ways and all below them as it was |
| JsonCopy.Close | source/server/cJSON.c:2773-2776 | the first copy made to point at the last, the copies are a child list |
| Transactions.StepKeepsInv | source/server/sqlite_implement.c:36-104 | every step of every thread keeps mutex, owner, depth and log consistent |
| Transactions.EveryRunIsSafe | source/server/sqlite_implement.c:36-104 | for any number of threads and any schedule: at most one transaction is open, only its owner passes the unlocked ownership test, depth counts its begins, the mismatch branch is not reached, and BEGIN alternates with COMMIT or ROLLBACK, store and update included |
| TransactionCalls.EveryThreadAsAlone | source/server/sqlite_implement.c:36-104 | in every run, between its calls a thread has executed exactly the statements, each by the call, that it would have executed alone, and has as many begins open; during a call, a beginning of them |
| TransactionCalls.EveryEndIsRight | source/server/sqlite_implement.c:62-104 | in every run, an explicit transaction ends with COMMIT if and only if the call that ended it was the commit that closed its first begin, and with ROLLBACK if and only if it was a rollback inside it; an automatic one with COMMIT if and only if its work did not fail |
| TransactionCalls.ClosingCallsExecute | source/server/sqlite_implement.c:62-104 | in every run, a commit that closes its first begin has executed COMMIT when it returns, and a rollback inside a transaction ROLLBACK |
| TransactionCalls.LevelSince | source/server/sqlite_implement.c:36-79 | the level of a thread alone is one above the balance of begins and commits since its first begin |
| Transactions.FlagFirstIsUnsafe | source/server/sqlite_implement.c:56-58 | if the flag were written before the owner, a schedule lets a thread that owns nothing pass the test |
| ResourceTree.PlaceSplits | source/server/rtManager.c:780-783 | the place of a new child has every sibling of the same or a smaller type before it and every other after it |
| ResourceTree.InsertedSubs | source/server/rtManager.c:808-811 | appending a subscription to the index agrees with where it went among the children |
| ResourceTreeOps.Tree.FindPlace | source/server/rtManager.c:780-783 | the search loop finds that place |
| ResourceTreeOps.Tree.Link | source/server/rtManager.c:755-803 | the pointer updates put the child into its parent's list and change no other list |
| SubscriptionIndex.Index.AddSubs | source/server/rtManager.c:982-1003 | the walk to the tail and the new entry behind it are the subscription joining the node's index, last and counted |
| ResourceTreeOps.Tree.AddChild | source/server/rtManager.c:755-817 | the tree gains exactly the child, in type order and last of its type; sibling links, uris, depths and subscription indexes are right again |
| SubscriptionIndex.Index.DetachSubs | source/server/rtManager.c:1011-1039 | unlinking at the head or past the entry before is the first entry of the subscription leaving the index and the count; without one nothing changes |
| ResourceTreeOps.Tree.DeleteProcess | source/server/onem2m.c:477-515 | visits exactly the descendants; every subscription among them leaves its parent's index, and no pointer changes |
| ResourceTreeOps.Tree.Unlink | source/server/onem2m.c:697-708 | the node is passed over by its parent and both neighbours, and by nothing else |
| ResourceTreeOps.Tree.FreeNode | source/server/onem2m.c:680-731 | exactly the node and its descendants are freed, and the rest of the tree is as it was |
| ResourceTreeOps.Tree.Delete | source/server/onem2m.c:420-468 | delete_process then free_rtnode keep the whole invariant: what is left is the tree without the node's descendants, every index complete |
| ResourceTree.DescendantsUnique | source/server/onem2m.c:477-515 | there is only one set of a node's descendants, so both passes work on the same nodes |
| ResourceTreeRebuild.Unhook | source/server/rtManager.c:866-880 | one node leaves the flat list, whose other nodes stay linked in order |
| ResourceTreeRebuild.TakeChildren | source/server/rtManager.c:861-884 | afterwards no node of the list names the parent, and the tree has gained what the list has lost |
| ResourceTreeRebuild.Rebuild | source/server/rtManager.c:858-895 | terminates on any list; every node it has settled has all its children, and each moved node is under a parent whose id it names |
| ResourceTreeRebuild.Restore | source/server/rtManager.c:849-895 | a node ends in the tree if and only if its parent ids lead back to it; the others are returned in order; none is lost, and none is in two places |
| ResourceTreeRebuild.RebuiltAll | source/server/rtManager.c:858-895 | that statement, from what the loops leave |
| ResourceLookup.SearchRi | source/server/rtManager.c:735-753 | what is found has the id, and if nothing is found no node below the siblings has it |
| ResourceLookup.FindByRi | source/server/rtManager.c:702-727 | a content instance's id goes to the database; for any other, null exactly if no node of the tree has the id, and a node whose id is unique is found itself |
| ResourceLookup.NextToken | source/server/rtManager.c:376-377 | the next non-empty name between slashes, and the rest of the path |
| ResourceLookup.FindByRn | source/server/rtManager.c:372-418 | the walk through the pointers goes where the names lead in the tree: with distinct sibling names to a node exactly if it has those names, and to null exactly if none has |
| ResourceLookup.PathSound | source/server/rtManager.c:372-418 | what a path finds has the names asked for, with "-" for the base, whether or not siblings share names |
| ResourceLookup.PathExact | source/server/rtManager.c:372-418 | with distinct sibling names a path leads to a node if and only if the node has it, and nowhere if and only if no node has |
| ResourceLookup.FoundByPath | source/server/rtManager.c:372-418 | every node is found under the uri it got at insertion if and only if no two siblings share a name |
| ResourceLookup.FoundByShortcut | source/server/rtManager.c:386-391 | so it is with "-" in place of the base's name |
| ResourceLookup.FindRtnode | source/server/rtManager.c:252-289 | which way each address goes, and that the structured ones lead where their names lead, up to a fopt |
| ResourceLookup.AddressExact | source/server/rtManager.c:272-279 | a structured address leads to a node if and only if the names in front of a fopt are those on its path, and nowhere if and only if no node has them |
| ResourceLookup.BaseFound | source/server/rtManager.c:260-279 | a structured address finds the base exactly if it is the base's name or "-" alone, or starts with the base's name and has no other name before the first "/fopt" |
| ResourceLookup.FoundByUri | source/server/rtManager.c:272-279 | with distinct sibling names, a node is found under its own uri if and only if no name behind the base's begins with "fopt" |
| ResourceLookup.FoundByDashUri | source/server/rtManager.c:272-279 | with "-" for the base's name likewise, but for the base's first child, which is then reached by chance |
| ResourceLookup.FopticalHidden | source/server/rtManager.c:275-279 | the address of a resource called foptical, below the base, leads to the base |
| ResourceLookup.DashSlash | source/server/rtManager.c:272-279 | "-/" and "-/fopt" lead to the base's first child |
| MissingData.TakeTiles | source/server/monitor.c:252-287 | a call extends the runs of notified and discarded points without gap or overlap, never past the total it was given, and batches have num points |
| MissingData.EveryPointOnce | source/server/monitor.c:157-287 | under every interleaving, what a subscription has accounted for is at most the series total, and each of those points is in exactly one run |
| MissingData.RunGrows | source/server/monitor.c:252-287 | along every run that number never decreases, and runs are never taken back |
| MissingData.DisarmHarmless | source/server/monitor.c:76-88 | after a disarm in any sound state, every continuation keeps subscriptions behind their series and their points tiled, if and only if none of the series had accounted for a point and no thread was on its way to one |
| MissingData.PointNotTold | source/server/monitor.c:76-88 | a run of two points and a disarm between them in which the second is never told of |
| MissingData.SilentUntilCaughtUp | source/server/monitor.c:252-287 | while no window expires, a series that starts over tells a subscription nothing exactly until it has lost what was accounted for before and num more, with or without a duration |
| MissingData.ExpiryDiscards | source/server/monitor.c:263-275 | a call discards points if and only if the window has expired, and then exactly those counted before the call, none that it found |
| MissingData.WindowsRefined | source/server/monitor.c:252-287 | with points found in groups of any size, and any left over before, a batch fires exactly for the windows that reach num points within dur of their first event, what is above num is left over to the next window, and exactly the other windows are discarded |
| MissingDataOps.Monitor.WindowTake | source/server/monitor.c:252-287 | the statements on an entry do what the protocol's visit says |
| MissingDataOps.Monitor.DetectStep | source/server/monitor.c:157-174 | adding to a total is the protocol's step |
| MissingDataOps.Monitor.VisitStep | source/server/monitor.c:486-548 | visiting a subscription is the protocol's step, and what it sends is what the protocol says is told |
| KeyedList.List.Find | source/server/monitor.c:60-61 | the walk finds the cell of an id exactly if the dictionary has it |
| KeyedList.List.Insert | source/server/monitor.c:62-68 | a cell at the head is one more entry of the dictionary |
| KeyedList.List.Remove | source/server/monitor.c:79-85 | unlinking past the cell before, or at the head, takes the id out of the dictionary, if it is there |
| MissingDataOps.Monitor.Arm | source/server/monitor.c:57-72 | find, or insert, and write: the dictionary of cursors has the new cursor for the series, all others as before |
| MissingDataOps.Monitor.Disarm | source/server/monitor.c:76-88 | both cells are unlinked: the cursor is gone, and the lists are those after the protocol's disarm |
| MissingDataOps.Monitor.TakeDue | source/server/monitor.c:137-152 | one overdue point at most, and the cursor moves on by one period |
| MissingDataOps.TakingStops | source/server/monitor.c:137-152 | repeated taking stops after the number of periods elapsed, with the deadline after the clock by at most a period |
| MissingDataOps.RecordMissing | source/server/monitor.c:653-681 | the list keeps the newest mdn points, and mdc is their number |
| MissingDataOps.Timeouts | source/server/monitor.c:638-681 | after arming and k timeouts at any clock readings the list has min(k, mdn) entries, entry i of them the expected time of point k - length + i, and the cursor is k periods on |
| MissingDataOps.LocateBatch | source/server/monitor.c:530-537 | the entries of mdlt that are sent |
| MissingPoints.BatchIsRun | source/server/monitor.c:530-537 | they are the points accounted for if and only if none was recorded after the total was taken and mdlt still has all that are pending |
| MissingPoints.FlushIsRun | source/server/monitor.c:594-606 | the same for what is sent when a subscription goes away |
| MissingTold.StepKeepsBooks | source/server/monitor.c:638-691 | every counted point was recorded, every list shows the last points recorded, and between disarms no point changes its number |
| MissingTold.NotificationRight | source/server/monitor.c:442-537 | in any sound state a notification carries the points it accounts for if and only if nothing was counted or recorded since its thread counted, nothing was waiting to be counted, and mdlt has all that are pending |
| MissingTold.FlushRight | source/server/monitor.c:562-609 | what is sent when a subscription goes away are its pending points if and only if none waits to be counted and mdlt has them all |
| MissingTold.ToldRightIff | source/server/monitor.c:429-548 | in every run between disarms, of any number of threads, a subscription is told exactly the points it is told of if and only if every notification to it is so |
| MissingTold.ToldRightFromStart | source/server/monitor.c:638-691 | so in every run from an empty server without a disarm, of any number of threads, the points recorded at rising times: told right if and only if every notification was timely |
| MissingTold.PointToldTwice | source/server/monitor.c:442-537 | a run of two threads in which mdlt drops nothing, and one point is told twice and the other never |
| MissingDataOps.NewestBatch | source/server/monitor.c:530-537 | with points found one at a time fewer than num stay pending, a batch is the newest num points, and those are what is sent if and only if mdn is 0 or at least num |
| MissingDataOps.PointSentTwice | source/server/monitor.c:530-537 | a late subscription to a series that shows two points: a point is in two notifications |
| MissingDataOps.LateSubscription | source/server/monitor.c:252-287 | a new subscription fires at the next point exactly if the running total, which counts points found while the series had a child, then reaches num, however long ago they were lost |
| MissingDataOps.Monitor.FlushSub | source/server/monitor.c:562-609 | on deletion the newest entries are sent, as many as are pending and mdlt has, and the window is forgotten |
| SqlText.QuoteReadsBack | source/server/sqlite_implement.c:2881-2895 | a quoted literal lexes back to the text it was made of, whatever quotes that holds |
| SqlText.WhereReadsBack | source/server/sqlite_implement.c:2939-3078 | the text of a chain of conditions, lexed and parsed with AND over OR, is that chain |
| SqlText.ChainUnknown | source/server/sqlite_implement.c:2939-3078 | in three-valued logic the clause is true exactly when it is with unknown tests taken as not met |
| DiscoveryWhere.WhereMeans | source/server/sqlite_implement.c:2952-3078 | the clause reads to its end and is true of a row exactly if scope, no forbidden uri, level, the fo-combination of general criteria and the fo-combination of type criteria hold |
| DiscoveryWhere.TimesMean | source/server/sqlite_implement.c:2976-2989 | cra, exa and ms ask for ct, et and lt behind the value in text order, crb, exb and us for those not behind it |
| GeneralTable.TimeTests | source/server/sqlite_implement.c:2976-2989 | the comparisons that are written ask for that, and a column that is NULL meets neither |
| DiscoveryWhere.ScopeAndLevel | source/server/sqlite_implement.c:2960-2974 | with nothing forbidden, scope and level ask for 1 to lvl levels below the target |
| DiscoveryBuilder.Escape | source/server/sqlite_implement.c:2881-2895 | every quote is doubled, and the copy fits the counted size |
| DiscoveryBuilder.Sql.Strcat | source/server/sqlite_implement.c:2897-2905 | the text is appended, the buffer doubled until it fits |
| DiscoveryBuilder.Sql.OpenCond | source/server/sqlite_implement.c:2939-2949 | the first criterion opens a parenthesis after AND, the others are joined with fo |
| DiscoveryBuilder.Sql.AppendForbidden | source/server/sqlite_implement.c:2912-2933 | each forbidden uri is one more condition |
| DiscoveryBuilder.Sql.AppendTimes | source/server/sqlite_implement.c:2976-2989 | each time criterion that is a text is one more condition |
| DiscoveryBuilder.Sql.AppendType | source/server/sqlite_implement.c:2991-3007 | the types as one alternative in parentheses, never empty |
| DiscoveryBuilder.Sql.AppendLabels | source/server/sqlite_implement.c:3009-3025 | the labels as one alternative in parentheses, never empty |
| DiscoveryBuilder.Sql.AppendLevel | source/server/sqlite_implement.c:2968-2974 | the exclusion pattern with one more slash for each level |
| DiscoveryBuilder.BuildGeneralWhere | source/server/sqlite_implement.c:2952-3029 | the text is that of the conditions of the request, and arp is taken out of the criteria |
| DiscoveryWhere.WordedAt | source/server/sqlite_implement.c:3045-3071 | in the value of con and lnk, and of no other criterion, a star becomes the wildcard, and nothing else changes |
| DiscoveryBuilder.EntryText | source/server/sqlite_implement.c:3045-3071 | the test of one line of the table, or nothing |
| DiscoveryBuilder.BuildTypeWhere | source/server/sqlite_implement.c:3032-3078 | the text is that of the tests of the type, in parentheses if there are any |
| DiscoveryBuilder.BuildWhere | source/server/sqlite_implement.c:3119-3156 | the clause written for a type is readable and true of exactly the rows the criteria select |
| LikePattern.LevelKeeps | source/server/sqlite_implement.c:2960-2974 | for a target without wildcards, the prefix pattern and the repeated exclusion keep exactly 1 to lvl levels below it, letters in either case |
| LikePattern.ScopeExact | source/server/sqlite_implement.c:2960-2961 | the prefix pattern selects exactly the descendants if and only if the target has neither wildcards nor letters |
| LikePattern.StrangerLetIn | source/server/sqlite_implement.c:2960-2961 | for every wildcard or letter in the target and any name, a uri ending in that name that is let in and is not below the target |
| LikePattern.UriLevels | source/server/rtManager.c:755-768 | levels between uris built at insertion are levels of the tree |
| DiscoveryPage.OrderUnique | source/server/postgresql_implement.c:2015-2018 | rows with distinct ids have one order, so ORDER BY id is determined |
| DiscoveryPage.PushedLimitKeepsPage | source/server/postgresql_implement.c:1990-2018 | LIMIT lim + ofst in every branch of the union leaves the page as it is |
| DiscoveryPage.SecondQuery | source/server/postgresql_implement.c:1957-2012 | a branch for each of the first 64 types seen that has a table and, with criteria on type columns, is needed, each under LIMIT lim + ofst |
| DiscoveryPage.AnswerIsPage | source/server/postgresql_implement.c:1990-2018 | that query answers with the page of the rows of the joined types |
| DiscoveryPage.PageOfSeenTypes | source/server/postgresql_implement.c:1942-2018 | without criteria on type columns, joining the types seen on the page gives that page if and only if it is empty or every row up to its end has a joined type |
| DiscoveryPage.PageOfNeededTypes | source/server/postgresql_implement.c:1938-1941 | with them, where all types are seen, the page is right if and only if it is empty or every row up to its end has a joined type |
| DiscoveryPage.NeededTypesRight | source/server/postgresql_implement.c:1938-2018 | so at any offset no row of a needed type is lost, given tables for those types and at most 64 types |
| DiscoveryPage.FirstPageRight | source/server/postgresql_implement.c:1938-2018 | with offset 0 it always does, given tables for at most 64 types |
| DiscoveryPage.SkippedTypeLosesPage | source/server/postgresql_implement.c:1938-2018 | with an offset it need not: two rows of different types, and the second page is empty |

## Left out

- Floating point: numbers are exact reals, printing is modelled for int32 only ("%d"), and the rounding of strtod is not modelled.
- JsonParser.Parse: the error position and the parse end after a failure are not modelled, nor text without a terminating NUL (cJSON_ParseWithLength).
- cJSON nodes are values in the parser, the printer and Compare; pointers are in JsonList and JsonCopy, on lists and trees given with their nodes; references and raw items are left out.
- JsonCompare.Compare: one pointer twice, or two trees that share no nodes; trees that share some of their nodes are not modelled.
- JsonCopy.Duplicate: reference flags and constant names, which only decide what is freed later, are not modelled.
- JsonSyntax.EveryTextAccepted: a string ends at an escaped NUL, as C strings do; strings are bytes, and whether they are UTF-8 is not asked.
- Allocation failure everywhere, cJSON_Minify, and the getters and constructors of cJSON that are one line each.
- JsonParser.ParseBuffer.ParseNumber: valueint, which is the value clamped to an int, and the rounding of strtod are not modelled.
- JsonPrinter.PrintBuffer.PrintNumber: only numbers that "%d" renders.
- ResourceTreeOps.Tree.AddChild: pointers are identities in a map, not heap references, and the index in a node's links is the contents of the list in SubscriptionIndex; the list of remote CSEs and the locks around the tree are not modelled.
- ResourceTreeOps.Tree.DeleteProcess: only the recursion and the subscription case; counters of containers, announcements and remote CSE lists are not modelled.
- ResourceTreeOps.Tree.Delete: not the "la" node of a container, which stays while the database has another instance, not the second copy of a flexContainer instance that is freed beside it, and not the expiry path of find_rtnode, which frees without detaching a subscription.
- ResourceLookup.FindByRn: stops where the walk through the memory stops; the latest and oldest instances it then asks the database for are not modelled.
- ResourceLookup.FindRtnode: hybrid addresses and what the database answers are only named, and the expiry of what is found is not modelled.
- MissingData.EveryPointOnce: for runs between disarms and while a subscription exists; MissingData.DisarmHarmless says what a disarm costs. Ids are compared whole, not by their first 255 bytes.
- MissingDataOps.Timeouts: timestamps are integers, not calendar text.
- MissingDataOps.LateSubscription: when a series has a child, and so counts its points, is not modelled.
- MissingTold.ToldRightIff: a thread counts what it recorded, so the series has a child throughout; a visit reads mdlt at one moment.
- Transactions.EveryRunIsSafe: SQL statements themselves succeed; a failed BEGIN, COMMIT or ROLLBACK, and the other operations that take the lock, are not modelled.
- DiscoveryBuilder.BuildWhere: the fixed buffers of snprintf are taken as long enough, keys are looked up in the case they are written, the table of columns is any table of plain column names, and fo is AND or OR.
- DiscoveryWhere.WhereMeans: what a comparison of a column of a type's own table says of a row is given by the row; the forbidden uris are given by access control.
- DiscoveryPage.PageOfSeenTypes: each row of a type is taken to have its row in the table of that type, and the offset is not negative.
- The PostgreSQL WHERE clause, access control, announcements, groups, and all transport (HTTP, MQTT, CoAP, WebSocket).
