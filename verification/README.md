# Kompli core, modelled and verified in Dafny

Kompli evaluates Linux hosts against security benchmarks. This project models the parts of it that
everything else stands on and proves what they promise, for all inputs and all runs:

- **parson**, the JSON library: UTF-8 check, string decoding, parser, two-pass serializer, object
  store, heap of linked values, deep copy, comparison and dotted paths.
- **the NUL gate** in front of parson (`JsonWrapper::FromString`).
- **benchmark definitions**: content versions, benchmark identity, the definition parser, migration
  from legacy rule identities, independence of the order of rules.
- **three stream machines**: the capture loop of `ExecuteCommand`, the HTTP reply reader, log rolling.

`dafny verify dfyconfig.toml` checks the whole project.

## How to read it

Bytes are integers 0..255, a C string is the sequence of bytes before its terminator, and a
`const char **` cursor is the sequence of bytes still to be read. Where the source updates things in
place there is a class or a method with loops (`Output`, `JsonObject`, `Store`, `Capture`, `Socket`,
`Log`, the parser and scanner methods); each is proved against a function, and the lemmas are about that
function. JSON text has an independent reference: the concrete syntax of `JsonGrammar`, which keeps the
spelling of every piece of white space and every escape, and against which both the parser and the
serializer are measured. It differs from RFC 8259 in the white space of `isspace` and in asking for paired
surrogates; `JsonSection7` and `JsonRfc` measure those differences against the RFC itself, byte for byte,
that is without asking whether a text is UTF-8. UTF-8 is measured against section 4 of RFC 3629.

What compact and pretty text look like is said by scanners that know nothing of trees (`JsonPretty`), and what
escapes stand for by a writer of its own (`JsonUnicode`).

Heap values are pointers into a finite map of nodes with a body and a parent, and `json_value_free` is the
recursive method that removes nodes one by one.

| modules | subject |
|---|---|
| `Bytes`, `Decimal` | bytes, C strings, decimal text |
| `Utf8`, `JsonStrings`, `JsonUnicode`, `JsonSection7`, `StringScanner` | UTF-8, quoted strings as functions, what escapes stand for, the RFC, and the buffer-filling code |
| `JsonValues`, `JsonGrammar` | trees, concrete syntax and its meaning |
| `JsonParser`, `JsonParserMethods`, `JsonParserComplete`, `JsonParserSound`, `JsonParserExact`, `JsonRfc` | the parser and the language it accepts |
| `JsonText`, `JsonPretty`, `JsonWriter`, `JsonRoundTrip` | the text of a tree, what it looks like, the writer, the round trip |
| `ObjectStore`, `HeapForest`, `HeapCalls`, `HeapTrees`, `HeapTreeCalls`, `JsonHeap`, `JsonCopy`, `DotPaths`, `JsonEquality` | the mutable store |
| `JsonWrapper` | the gate |
| `ContentVersions`, `BenchmarkInfos`, `BenchmarkDefinition`, `BenchmarkParts`, `BenchmarkMigration`, `BenchmarkText`, `BenchmarkOrder`, `BenchmarkExact`, `BenchmarkCodes`, `BenchmarkExamples` | benchmark definitions |
| `CommandCapture`, `HttpReply`, `HttpLength`, `LogRolling` | the stream machines |

## Where the code differs from what one would expect

The model follows the code. Each of these is stated exactly by the members named, most with an input that shows it:

- A minus sign that starts no number is accepted as 0 and is not consumed (`JsonParserExact.ParserExact`,
  `BareMinusExactly`; input `BareMinusAccepted`).
- `isspace` also skips vertical tab and form feed: what the parser has consumed is RFC 8259 text exactly when
  it holds neither (`JsonRfc.AcceptedIsRfcExactly`; input `VerticalTabAccepted`). Text behind the first value
  is ignored: `ParserExact` holds with any rest.
- A string of section 7 of RFC 8259 is refused exactly when a surrogate escape has no partner
  (`JsonSection7.Section7Exactly`; input `LoneSurrogateRefused`, the string `"\uDEAD"`).
- `is_valid_utf8` with a length that ends inside a character reads on and accepts
  (`Utf8.AcceptsExactly`; input `AcceptsBeyondLength`).
- A root can be put beneath itself, by append, replace, set, add and dotted set alike; the code accepts it,
  and the heap is no forest any more, in exactly that case (`HeapCalls.CallExactly`, `HeapCalls.AddExactly`,
  `DotPaths.DotSet`; input `ArrayInItself`).
- The NUL scan also refuses texts whose ignored rest looks like a string with an escaped NUL
  (`JsonWrapper.ScanIsExact`).
- The 32-bit buffer sizes of `ExecuteCommand` wrap around: without a limit the captured text is right
  exactly below 2^32 - 1 bytes of output, with a limit exactly when it leaves room for one more read
  (`CommandCapture.UncutFitsExactly`, `CutFitsExactly`; input `FloodWraps`).
- The reply reader makes one `read` for the three status bytes, so a short read turns a status into 404
  (`HttpReply.StatusExactly`).
- The reply reader looks for the literal `Content-Length: ` anywhere in the head, while names of fields are
  case-insensitive and the white space is optional. Which number it gives for every well-formed reply, and when
  that is the one sent, is stated by `HttpLength.LengthRead` and `LengthFieldExactly`; inputs are
  `OverlookedLengths` (lower case, no space, two spaces) and `ShadowedLength` (an earlier field).

## Model

| member | source | states |
|---|---|---|
| Utf8.AcceptsTerminated | src/common/parson/parson.c:201-268 | on a whole NUL-terminated string the UTF-8 check accepts exactly the sequences of section 4 of RFC 3629 |
| Utf8.AcceptsExactly | src/common/parson/parson.c:258-268 | for every length argument: accepted exactly when some well-formed prefix of the memory reaches that length |
| Utf8.AcceptsBeyondLength | src/common/parson/parson.c:258-268 | a concrete length that ends inside a character and is accepted |
| Utf8.IsValidUtf8 | src/common/parson/parson.c:258-268 | the loop decides that condition |
| Utf8.VerifyExactly | src/common/parson/parson.c:201-256 | one sequence is verified exactly when it is one UTF8-char of the grammar |
| Utf8.EncodeDecode | src/common/parson/parson.c:589-615 | the bytes stored for a scalar value are one valid character that decodes to it |
| Utf8.DecodeEncode | src/common/parson/parson.c:216-256 | every valid character is the encoding of its code point |
| JsonStrings.QuotedComplete | src/common/parson/parson.c:685-694 | every quoted string whose surrogates come in pairs is read, with its value, up to the closing quote |
| JsonStrings.QuotedSound | src/common/parson/parson.c:685-694 | everything read is such a string |
| JsonSection7.Section7Exactly | src/common/parson/parson.c:579-694 | of all spellings of section 7 of RFC 8259, exactly those are read in which each lead surrogate is directly followed by a trail surrogate and no other trail surrogate occurs |
| JsonSection7.ReadIsSection7 | src/common/parson/parson.c:685-694 | everything read is such a spelling |
| JsonSection7.LoneSurrogateRefused | src/common/parson/parson.c:597-617 | the string "\uDEAD", which section 8.2 of RFC 8259 names, is refused |
| JsonStrings.BodyComplete | src/common/parson/parson.c:559-577 | skipping and decoding agree on where a string ends, whatever escapes it holds |
| JsonStrings.BodySound | src/common/parson/parson.c:628-681 | a successful decode consumes exactly the bytes between the quotes |
| JsonStrings.DecodedFits | src/common/parson/parson.c:628-681 | the decoded text is never longer than the bytes consumed, so it fits the `input_len + 1` buffer |
| JsonStrings.ValueIsUtf8 | src/common/parson/parson.c:579-623 | pieces whose plain bytes are UTF-8 denote UTF-8, each escape or surrogate pair giving one encoded code point |
| JsonUnicode.EscapedText | src/common/parson/parson.c:579-694 | every sequence of Unicode characters, written as `\u` escapes of its UTF-16 units in any case of digits, is read as the UTF-8 encodings of the characters, in order |
| JsonUnicode.ShortEscapes | src/common/parson/parson.c:638-660 | which byte each two-character escape gives, and that no other letter is accepted |
| JsonUnicode.EncodeLiterals | src/common/parson/parson.c:589-615 | the encodings of six characters, byte for byte |
| JsonStrings.QuotedKeepsUtf8 | src/common/parson/parson.c:628-694 | if the text between the quotes is valid UTF-8, so is the decoded string |
| StringScanner.SkipQuotes | src/common/parson/parson.c:559-577 | the scanning loop stops where the function says |
| StringScanner.StepStaysInside | src/common/parson/parson.c:579-681 | no escape or surrogate pair is taken across the closing quote |
| StringScanner.StoreCodePoint | src/common/parson/parson.c:589-615 | the shifts and masks store the UTF-8 encoding, inside the buffer and touching nothing else |
| StringScanner.ParseUtf16 | src/common/parson/parson.c:579-623 | the code with its moving pointers decodes one escape or pair as the function does |
| StringScanner.DecodeInto | src/common/parson/parson.c:638-665 | one turn of the loop writes the decoded bytes behind those already there |
| StringScanner.ProcessString | src/common/parson/parson.c:628-681 | the buffer-filling loop returns the decoded string, all writes and the terminator inside its buffer |
| StringScanner.GetQuotedString | src/common/parson/parson.c:685-694 | scanner and decoder together compute GetQuoted |
| JsonParserMethods.ParseValueAt | src/common/parson/parson.c:696-719 | the cursor-moving parser computes ParseValue |
| JsonParserMethods.ParseArrayAt | src/common/parson/parson.c:788-832 | the loop over items computes ParseArray |
| JsonParserMethods.ParseObjectAt | src/common/parson/parson.c:721-786 | the loop over members computes ParseObject |
| JsonParserComplete.ParseComplete | src/common/parson/parson.c:696-881 | every text of the grammar within the nesting limit, with distinct NUL-free names, is parsed to the value it denotes |
| JsonParserSound.ParseSound | src/common/parson/parson.c:696-881 | every accepted text is a text of the grammar and denotes the value returned |
| JsonParserExact.ParserExact | src/common/parson/parson.c:696-881 | which value each text gives and where it ends, as an equivalence over all texts, where texts with UnmodelledNumber count as giving none |
| JsonParserExact.BareMinusExactly | src/common/parson/parson.c:862-872 | a minus sign without a digit is read as 0, refused in front of an infinity or NaN, and UnmodelledNumber in front of a fraction |
| JsonParserExact.NotFiniteExactly | src/common/parson/parson.c:862-872 | which texts behind a minus sign are refused as infinity or NaN |
| JsonParserExact.BareMinusIsZero | src/common/parson/parson.c:862-872 | such a minus sign cannot stand inside an array |
| JsonParserExact.BareMinusAccepted | src/common/parson/parson.c:1142-1150 | the text "-" parses to 0 |
| JsonRfc.AcceptedIsRfcExactly | src/common/parson/parson.c:696-881 | what the parser consumed of an accepted text is RFC 8259 text exactly when it is no bare minus sign and holds neither vertical tab nor form feed |
| JsonRfc.VerticalTabAccepted | src/common/parson/parson.c:1142-1150 | a vertical tab in front of a number is accepted and is not RFC 8259 text |
| JsonParserExact.ParsedIsWellFormed | src/common/parson/parson.c:696-832 | every tree returned has distinct NUL-free names in each object and respects the nesting limit |
| JsonText.TextSpells | src/common/parson/parson.c:894-1098 | the text written for a tree is the spelling of a concrete syntax, at every level and in every style |
| JsonText.LayoutDenotes | src/common/parson/parson.c:894-1098 | that syntax is valid and denotes the tree, members and items in order |
| JsonPretty.StrippedIsCompact | src/common/parson/parson.c:906-986 | compact text has no white space outside strings, and pretty text without it is the compact text |
| JsonPretty.PrettyIsReindented | src/common/parson/parson.c:906-986 | pretty text is the compact text with a line of four spaces per level behind each opening bracket and comma and in front of each closing bracket, a space behind each colon, and empty containers left alone |
| JsonPretty.NoControlCharacters | src/common/parson/parson.c:1033-1098 | compact text is one line without control characters; pretty text has line feeds only |
| JsonPretty.SlashesEscaped | src/common/parson/parson.c:1080-1085 | on request every slash stands behind a backslash |
| JsonPretty.EscapeExactly | src/common/parson/parson.c:1033-1098 | what is written for each byte of a string |
| JsonPretty.ValueNames | src/common/parson/parson.c:1003-1025 | null, true and false as they are written and read |
| JsonRoundTrip.ReadBack | src/common/parson/parson.c:894-1098 | a serialized value is read back at every indentation and nesting level and in front of every rest |
| JsonRoundTrip.RoundTrip | src/common/parson/parson.c:1583-1600 | parsing the serialized text gives the same tree exactly when its depth is within MAX_NESTING |
| JsonRoundTrip.StylesAgree | src/common/parson/parson.c:1643-1660 | pretty and compact text, with slashes escaped or not, parse to the same tree |
| JsonRoundTrip.NormalForm | src/common/parson/parson.c:1142-1150 | for every accepted text, serialize-after-parse parses to the same tree and repeating it changes nothing |
| JsonRoundTrip.NestingLimit | src/common/parson/parson.c:696-832 | arrays nested 2049 deep are accepted, deeper ones are not |
| JsonWriter.Output.AppendString | src/common/parson/parson.c:1109-1114 | appends the bytes and a terminator inside the buffer, or counts them, and changes nothing beyond |
| JsonWriter.Output.AppendIndent | src/common/parson/parson.c:1100-1107 | appends the indentation of a level |
| JsonWriter.Output.AppendQuoted | src/common/parson/parson.c:1033-1098 | appends the escaped string in quotes |
| JsonWriter.Output.AppendNumber | src/common/parson/parson.c:1009-1022 | appends the decimal text, also when it is only measured in the number buffer |
| JsonWriter.Output.AppendArray | src/common/parson/parson.c:906-937 | appends exactly the text of an array |
| JsonWriter.Output.AppendObject | src/common/parson/parson.c:938-986 | appends exactly the text of an object |
| JsonWriter.Output.AppendValue | src/common/parson/parson.c:894-1031 | measuring and writing agree byte for byte: both append exactly the text of the value |
| JsonWriter.NumberFits | src/common/parson/parson.c:1009-1022 | the number buffer is never overrun |
| JsonWriter.SerializationSize | src/common/parson/parson.c:1542-1546 | the measured size is the length of the text plus its terminator, for both forms |
| JsonWriter.SerializeToBuffer | src/common/parson/parson.c:1548-1559 | succeeds exactly when the buffer is large enough; then it holds the text and its terminator, and the bytes behind are untouched; otherwise nothing is written |
| JsonWriter.SerializeToString | src/common/parson/parson.c:1583-1600 | the allocation holds the text and its terminator and nothing else |
| ObjectStore.AppendIsInsert | src/common/parson/parson.c:374-397 | appending a slot with a new name is insertion into the map and keeps names distinct |
| ObjectStore.OverwriteIsUpdate | src/common/parson/parson.c:1827-1846 | overwriting a slot is update of the map and keeps names and their order |
| ObjectStore.SwapRemoveIsDelete | src/common/parson/parson.c:443-464 | swap-with-last removal is deletion from the map and keeps names distinct |
| ObjectStore.JsonObject.constructor | src/common/parson/parson.c:354-365 | a new object is the empty map |
| ObjectStore.JsonObject.Find | src/common/parson/parson.c:429-441 | the search finds the slot exactly of a name the map holds |
| ObjectStore.JsonObject.Get | src/common/parson/parson.c:1169-1174 | lookup is lookup in the map |
| ObjectStore.JsonObject.Resize | src/common/parson/parson.c:399-427 | growth and the trim after parsing keep every slot |
| ObjectStore.JsonObject.Add | src/common/parson/parson.c:374-397 | refuses exactly the names present, otherwise inserts at the end; a full object doubles its capacity, to at least 16 |
| ObjectStore.JsonObject.Set | src/common/parson/parson.c:1827-1846 | map update; an existing name keeps its place and its old value is released |
| ObjectStore.JsonObject.Remove | src/common/parson/parson.c:443-464 | map deletion; the value removed is released |
| HeapForest.ExactlyOneSlot | src/common/parson/parson.c:374-397 | in a forest every value with a parent sits in exactly one slot of exactly one container, its parent |
| HeapForest.AttachExactly | src/common/parson/parson.c:505-516 | giving a root to a container keeps the forest exactly when the container is not inside the root |
| HeapForest.DetachKeepsForest | src/common/parson/parson.c:1666-1676 | freeing one item of a container keeps the forest |
| HeapCalls.CallExactly | src/common/parson/parson.c:1666-1846 | each call on live values keeps the forest exactly when it puts no value beneath itself |
| HeapCalls.RunKeepsForest | src/common/parson/parson.c:1666-1846 | over every run of calls on live values that put no value beneath itself, the values stay a forest |
| HeapCalls.AppendExactly | src/common/parson/parson.c:1760-1765 | an append keeps the forest exactly when the array is not inside the value |
| HeapCalls.ReplaceExactly | src/common/parson/parson.c:1678-1686 | a replacement keeps the forest exactly when the index is refused or the array is not inside the value |
| HeapCalls.SetExactly | src/common/parson/parson.c:1827-1846 | a set keeps the forest exactly when the object is not inside the value, whether the name is new or not |
| HeapCalls.AddExactly | src/common/parson/parson.c:367-397 | an addition keeps the forest exactly when the name is refused, or the value is a root that the object is not inside |
| HeapCalls.ArrayInItself | src/common/parson/parson.c:1760-1765 | a root array appended to itself is accepted and is its own parent |
| JsonHeap.Store.Init | src/common/parson/parson.c:1369-1460 | a new root that nothing refers to |
| JsonHeap.Store.FreeNode | src/common/parson/parson.c:1352-1367 | the recursion frees a value and what is inside it, each node once |
| JsonHeap.Store.Free | src/common/parson/parson.c:1352-1367 | exactly the subtree is freed |
| JsonHeap.Store.AppendValue | src/common/parson/parson.c:1760-1765 | refuses exactly values with a parent, links both ways, adds its tree at the end, and says exactly when the forest is kept |
| JsonHeap.Store.ReplaceValue | src/common/parson/parson.c:1678-1686 | frees the old item and links the new one at its index, and says exactly when the forest is kept |
| JsonHeap.Store.RemoveItemAt | src/common/parson/parson.c:1666-1676 | frees the item and closes the gap: the trees of the remaining items keep their order |
| JsonHeap.Store.SetValue | src/common/parson/parson.c:1827-1846 | frees the value under an existing name, or adds a slot, and says exactly when the forest is kept |
| JsonHeap.Store.AddValue | src/common/parson/parson.c:367-397 | refuses exactly a name that is present, takes any value, and says exactly when the forest is kept |
| JsonHeap.Store.RemoveValue | src/common/parson/parson.c:1995-1997 | succeeds exactly on a name present and frees its value |
| HeapTrees.TreeFrame | src/common/parson/parson.c:1352-1367 | the tree under a value depends on the nodes of its subtree alone |
| HeapTreeCalls.AppendTree | src/common/parson/parson.c:1760-1765 | an append adds the tree of the value behind the items |
| HeapTreeCalls.ReplaceTree | src/common/parson/parson.c:1678-1686 | a replacement puts the tree of the value at the index and keeps the other items |
| HeapTreeCalls.RemoveTree | src/common/parson/parson.c:1666-1676 | a removal closes the gap and keeps the order of the items |
| HeapTreeCalls.SetTree | src/common/parson/parson.c:1827-1846 | a set overwrites the member in its place or adds one at the end |
| HeapTreeCalls.RemoveMemberTree | src/common/parson/parson.c:443-464 | a removal by name moves the last member into the gap |
| JsonCopy.DeepCopy | src/common/parson/parson.c:1462-1540 | the copy is a root with an equal tree, made of fresh nodes only, and no existing node changes |
| DotPaths.SplitParts | src/common/parson/parson.c:1200-1207 | no component of a name holds a dot, and joining the components with dots gives the name |
| DotPaths.SplitJoined | src/common/parson/parson.c:1200-1207 | every path of dot-free components is the split of its dotted name |
| DotPaths.DotGetIsPath | src/common/parson/parson.c:1200-1207 | looking up a dotted name is following its components |
| DotPaths.GetJoined | src/common/parson/parson.c:1200-1207 | looking up the dotted name of a path follows the path |
| DotPaths.SetJoined | src/common/parson/parson.c:1893-1933 | after a set under the dotted name of a path that name yields the value, and the dotted names of unrelated paths what they did |
| DotPaths.RemoveJoined | src/common/parson/parson.c:466-479 | after a removal under the dotted name of a path that name yields nothing, and the dotted names of unrelated paths what they did |
| DotPaths.DotSet | src/common/parson/parson.c:1893-1933 | succeeds exactly when the value is a root and the path leads through objects, otherwise nothing changes; the forest is lost exactly when the value is put beneath itself; else the path yields the value and unrelated paths what they did |
| DotPaths.DotSetNew | src/common/parson/parson.c:1917-1933 | the branch that builds a new object for a missing component |
| DotPaths.DotRemove | src/common/parson/parson.c:466-479 | succeeds exactly when the path leads somewhere; then it leads nowhere and unrelated paths are as before; otherwise nothing changes |
| DotPaths.SetKeepsTrees | src/common/parson/parson.c:1893-1933 | after a set the value and everything along unrelated paths are the trees they were |
| DotPaths.RemoveKeepsTrees | src/common/parson/parson.c:466-479 | the same for unrelated paths after a removal |
| JsonEquality.ValueEquals | src/common/parson/parson.c:2076-2139 | true exactly when the trees are equal with objects taken as unordered maps, hence an equivalence relation |
| JsonEquality.MembersEqual | src/common/parson/parson.c:2104-2119 | walking the names of the first object decides equality of the maps |
| JsonEquality.ObjectsAgree | src/common/parson/parson.c:2104-2119 | objects of the same size that agree on the names of one agree as maps |
| JsonEquality.OrderIsForgotten | src/common/parson/parson.c:2104-2119 | reordered members compare equal |
| JsonWrapper.ContainsNul | src/modules/complianceengine/src/lib/JsonWrapper.cpp:13-44 | the loop decides whether the text holds a raw or an escaped NUL |
| JsonWrapper.ScanIsExact | src/modules/complianceengine/src/lib/JsonWrapper.cpp:13-44 | the scan, which knows only quotes and backslashes, finds an escaped NUL exactly when a string of the tree holds one or the ignored rest of the text scans as holding one |
| JsonWrapper.LoadedIsNulFree | src/modules/complianceengine/src/lib/JsonWrapper.cpp:66-79 | no string or name of a loaded tree holds a NUL |
| JsonWrapper.GateRoundTrip | src/modules/complianceengine/src/lib/JsonWrapper.cpp:66-79 | a serialized tree passes the gate unchanged exactly when it is NUL-free |
| ContentVersions.ParseExactly | src/modules/complianceengine/src/benchmarkio/ContentVersion.cpp:25-45 | accepted are exactly three dot-separated decimals without leading zeros; printing and parsing undo each other |
| ContentVersions.AcceptsNumbers | src/modules/complianceengine/src/benchmarkio/ContentVersion.cpp:25-45 | accepted are exactly the decimal texts of three natural numbers with dots between them |
| ContentVersions.ComparesNumbers | src/modules/complianceengine/src/benchmarkio/ContentVersion.cpp:12-56 | versions of numbers compare as the triples of numbers do, first number first |
| ContentVersions.PrintParse | src/modules/complianceengine/src/benchmarkio/ContentVersion.cpp:58-61 | every printed version is read back |
| ContentVersions.CompareIsNumeric | src/modules/complianceengine/src/benchmarkio/ContentVersion.cpp:12-56 | comparison of text is comparison of the three unbounded integers |
| ContentVersions.CompareIsTotalOrder | src/modules/complianceengine/src/benchmarkio/ContentVersion.cpp:47-56 | hence a total order on versions |
| BenchmarkInfos.HoistedIdentity | src/modules/complianceengine/src/lib/BenchmarkInfo.cpp:34-116 | the leading fields of a payload key, taken as metadata, give the same identity without its section |
| BenchmarkInfos.KeyRoundTrip | src/modules/complianceengine/src/lib/BenchmarkInfo.cpp:34-81 | cutting up a key written from its fields gives the fields back |
| BenchmarkInfos.CutExactly | src/modules/complianceengine/src/lib/BenchmarkInfo.cpp:34-81 | a key is cut into given fields exactly when it is written from slash-free fields and a text whose first line is the section |
| BenchmarkInfos.ParseKeyExactly | src/modules/complianceengine/src/lib/BenchmarkInfo.cpp:20-81 | which keys name which identity, as an equivalence on the text of the key |
| BenchmarkInfos.LiteralExactly | src/modules/complianceengine/src/lib/BenchmarkInfo.cpp:20-32 | refused as wildcards are exactly NUL, brackets and braces |
| BenchmarkInfos.CutKeyNulFree | src/modules/complianceengine/src/lib/BenchmarkInfo.cpp:34-81 | the fields of a NUL-free key are NUL-free |
| BenchmarkDefinition.ParseTagsLoop | src/modules/complianceengine/src/benchmarkio/BenchmarkDefinition.cpp:288-325 | the loop computes ParseTagList |
| BenchmarkDefinition.ParseParametersLoop | src/modules/complianceengine/src/benchmarkio/BenchmarkDefinition.cpp:180-247 | the loop computes ParseParameters |
| BenchmarkDefinition.ParseAdditionalLoop | src/modules/complianceengine/src/benchmarkio/BenchmarkDefinition.cpp:365-384 | the loop computes ParseAdditional |
| BenchmarkDefinition.ParseRulesLoop | src/modules/complianceengine/src/benchmarkio/BenchmarkDefinition.cpp:688-719 | the loop computes ParseRules |
| BenchmarkParts.TagsExactly | src/modules/complianceengine/src/benchmarkio/BenchmarkDefinition.cpp:288-325 | tags are accepted exactly when each is a NUL-free name:value of at most 256 bytes with a lower-case name, in their order |
| BenchmarkParts.ParametersExactly | src/modules/complianceengine/src/benchmarkio/BenchmarkDefinition.cpp:166-248 | parameters are accepted exactly when each entry is; the result maps exactly their names |
| BenchmarkParts.ParameterExactly | src/modules/complianceengine/src/benchmarkio/BenchmarkDefinition.cpp:189-245 | which entry gives which parameter metadata, field by field, as an equivalence |
| BenchmarkParts.MetadataExactly | src/modules/complianceengine/src/benchmarkio/BenchmarkDefinition.cpp:327-386 | which object gives which metadata; the additional properties are exactly the unknown names |
| BenchmarkParts.IdentityExactly | src/modules/complianceengine/src/benchmarkio/BenchmarkDefinition.cpp:422-483 | a rule is identified by `id` alone, or by an agreeing `section` and `payloadKey`, never by a mixture |
| BenchmarkParts.SamePrefixExactly | src/modules/complianceengine/src/benchmarkio/BenchmarkDefinition.cpp:250-286 | key and document agree exactly when framework, distribution and version are equal and the benchmark versions are up to a leading v |
| BenchmarkParts.DottedParts | src/modules/complianceengine/src/benchmarkio/BenchmarkDefinition.cpp:473-475 | parts joined with slashes in the key are joined with dots in the id |
| BenchmarkParts.KnownExactly | src/modules/complianceengine/src/benchmarkio/BenchmarkDefinition.cpp:365-376 | the five properties that are no additional ones |
| BenchmarkParts.RuleExactly | src/modules/complianceengine/src/benchmarkio/BenchmarkDefinition.cpp:388-513 | which object gives which resource, as an equivalence on its members down to tags, parameters, metadata and payload key |
| BenchmarkMigration.RuleDependsOn | src/modules/complianceengine/src/benchmarkio/BenchmarkDefinition.cpp:388-512 | a rule's result depends on seven fields and its identity alone |
| BenchmarkMigration.MigratedRule | src/modules/complianceengine/src/benchmarkio/BenchmarkDefinition.cpp:422-483 | an accepted rule with `id` in place of `section` and `payloadKey` gives the same resource |
| BenchmarkMigration.MigratedInfo | src/modules/complianceengine/src/benchmarkio/BenchmarkDefinition.cpp:600-686 | the labels and annotations written give the identity the legacy document had |
| BenchmarkMigration.MigrationPreserves | src/modules/complianceengine/src/benchmarkio/BenchmarkDefinition.cpp:600-719 | every accepted document parses to an equal BenchmarkDocument after migration |
| BenchmarkMigration.MigrationIsComplete | src/modules/complianceengine/src/benchmarkio/BenchmarkDefinition.cpp:600-669 | no legacy identity is left after migration |
| BenchmarkText.TextOfTree | src/modules/complianceengine/src/benchmarkio/BenchmarkDefinition.cpp:516-530 | parsing the text of a tree gives what the tree gives, in every style |
| BenchmarkText.MigrationOfText | src/modules/complianceengine/src/benchmarkio/BenchmarkDefinition.cpp:516-720 | for every accepted text, the text of its migrated tree gives an equal document |
| BenchmarkOrder.ParseRulesExactly | src/modules/complianceengine/src/benchmarkio/BenchmarkDefinition.cpp:688-719 | the loop succeeds exactly when each rule parses on its own and ids are pairwise distinct |
| BenchmarkOrder.RuleUpToV | src/modules/complianceengine/src/benchmarkio/BenchmarkDefinition.cpp:250-286 | identities that differ at most in a leading v give the same rules |
| BenchmarkOrder.OrderIndependence | src/modules/complianceengine/src/benchmarkio/BenchmarkDefinition.cpp:654-719 | a reordered document is accepted exactly when the original is; resources are reordered alike, ids distinct, identity equal up to the leading v |
| BenchmarkOrder.OrderOfText | src/modules/complianceengine/src/benchmarkio/BenchmarkDefinition.cpp:516-720 | the same for the texts of accepted documents |
| BenchmarkExamples.LegacyDocument | src/modules/complianceengine/src/benchmarkio/BenchmarkDefinition.cpp:654-719 | every list of agreeing payload keys with distinct sections of any number of parts is that of an accepted legacy document |
| BenchmarkExamples.SectionExactly | src/modules/complianceengine/src/benchmarkio/BenchmarkDefinition.cpp:455-483 | with a payload key whose section joins given parts with slashes, exactly the section that joins them with dots is accepted, and is the id |
| BenchmarkExamples.OrderShowsInV | src/modules/complianceengine/src/benchmarkio/BenchmarkDefinition.cpp:671-686 | two orders of the same rules whose identities differ by the leading v |
| BenchmarkExact.InfoExactly | src/modules/complianceengine/src/benchmarkio/BenchmarkDefinition.cpp:600-686 | which labels and annotations, or which first payload key, give which identity |
| BenchmarkExact.DocumentExactly | src/modules/complianceengine/src/benchmarkio/BenchmarkDefinition.cpp:532-719 | a tree is accepted as a document exactly when its members say the document, as a relation on raw members |
| BenchmarkExact.TextExactly | src/modules/complianceengine/src/benchmarkio/BenchmarkDefinition.cpp:516-719 | the same for texts |
| BenchmarkExact.ProceduresReadBack | src/modules/complianceengine/src/benchmarkio/BenchmarkDefinition.cpp:147-164 | for every accepted text and every rule, the procedure text re-parses to the payload of the rule |
| BenchmarkExact.ProcedureShape | src/modules/complianceengine/src/benchmarkio/BenchmarkDefinition.cpp:147-164 | a procedure text is one line without white space outside strings and with every slash escaped |
| BenchmarkCodes.ErrorCodes | src/modules/complianceengine/src/benchmarkio/BenchmarkDefinition.cpp:516-719 | every refused tree is refused with 22 or 7, and with 7 only for more than 100000 rules or a tag of more than 256 bytes |
| BenchmarkDefinition.Names | src/modules/complianceengine/src/benchmarkio/BenchmarkDefinition.cpp:422-655 | the names of identity and envelope, letter by letter |
| CommandCapture.FitsExactly | src/common/commonutils/CommandUtils.c:243-249 | the 32-bit sizes hold the captured text exactly when no sum wraps around |
| CommandCapture.CleanExactly | src/common/commonutils/CommandUtils.c:261-272 | which bytes are kept, for either signedness of characters; the others become spaces |
| CommandCapture.CutIsLongest | src/common/commonutils/CommandUtils.c:243-249 | what is kept is the longest prefix that fits the limit with its terminator |
| CommandCapture.CopyClean | src/common/commonutils/CommandUtils.c:259-273 | the inner loop appends the sanitised bytes up to the size of the buffer |
| CommandCapture.Capture.Feed | src/common/commonutils/CommandUtils.c:237-273 | one read extends the captured text; the buffer has room for its terminator |
| CommandCapture.Capture.Terminate | src/common/commonutils/CommandUtils.c:276-279 | the terminator is written inside the allocation, behind exactly the captured text |
| CommandCapture.CaptureOutput | src/common/commonutils/CommandUtils.c:162-279 | for every split into reads the text is the sanitised output cut to the limit |
| CommandCapture.CapturedIsCString | src/common/commonutils/CommandUtils.c:259-273 | a captured text holds no NUL |
| CommandCapture.UncutFitsExactly | src/common/commonutils/CommandUtils.c:243-249 | without a limit, runs are sound exactly below 2^32 - 1 bytes |
| CommandCapture.CutFitsExactly | src/common/commonutils/CommandUtils.c:243-249 | with a limit, every run is sound exactly when the limit leaves room for one read below 2^32 |
| CommandCapture.FloodWraps | src/common/commonutils/CommandUtils.c:243-249 | for every larger limit, a run of full reads whose sizes wrap around |
| CommandCapture.QuotedBackExactly | src/common/parson/parson.c:559-694 | a text between quotes is read back unchanged exactly when it is plain |
| CommandCapture.CapturedQuotedBack | src/common/commonutils/CommandUtils.c:259-273 | with `replaceEol` and `forJson` every captured text is read back unchanged |
| CommandCapture.ReadsBackExactly | src/common/commonutils/CommandUtils.c:259-273 | and both options are needed, unless the limit leaves no room for text |
| CommandCapture.CleanKeepsUtf8 | src/common/commonutils/CommandUtils.c:265-272 | with unsigned characters sanitising keeps valid UTF-8 |
| CommandCapture.SignedCleanIsAscii | src/common/commonutils/CommandUtils.c:265-272 | with signed characters only ASCII is left |
| HttpReply.UntilExactly | src/common/commonutils/SocketUtils.c:8-58 | for every stream: consumed are exactly the bytes through the first marker in front of any NUL |
| HttpReply.Socket.ReadUntilStringFound | src/common/commonutils/SocketUtils.c:8-58 | the byte-at-a-time loop returns that prefix, or exhausts the stream |
| HttpReply.Socket.ReadHttpStatus | src/common/commonutils/SocketUtils.c:60-93 | status and stream position as StatusOf says, 404 in every failing case |
| HttpReply.Socket.ReadHttpContentLength | src/common/commonutils/SocketUtils.c:95-142 | length and stream position as LengthOf says |
| HttpReply.Isolate | src/common/commonutils/SocketUtils.c:119-129 | the loop copies the leading digits, at most 63 |
| HttpReply.EndOfHead | src/common/commonutils/SocketUtils.c:98-112 | in a well-formed reply the first double line end is the one in front of the body |
| HttpReply.StatusRead | src/common/commonutils/SocketUtils.c:60-93 | the status is the number sent and the headers come next |
| HttpReply.StatusCodes | src/common/commonutils/SocketUtils.c:82-85 | the status codes read are the decimal texts of 100 to 599 |
| HttpReply.StatusNumber | src/common/commonutils/SocketUtils.c:60-93 | for every number from 100 to 599 behind "HTTP/1.1 " that number is the status |
| HttpReply.ReaderLiterals | src/common/commonutils/SocketUtils.c:62-99 | the prefix, the label and the end of the headers, letter by letter |
| HttpReply.AtoiExactly | src/common/commonutils/SocketUtils.c:133-133 | numbers are taken modulo 2^32 into the range of int, and as -1 from 2^63 on |
| HttpReply.StatusExactly | src/common/commonutils/SocketUtils.c:82-88 | the status is right exactly when its three bytes are delivered at once, or it is 404 |
| HttpReply.HeadRead | src/common/commonutils/SocketUtils.c:95-142 | after the length the stream stands at the first byte of the body |
| HttpLength.DigitsExactly | src/common/commonutils/SocketUtils.c:119-134 | the number is right exactly when it is below 2^31 with at most 63 digits, or is zero |
| HttpLength.LengthRead | src/common/commonutils/SocketUtils.c:112-136 | for every well-formed reply the length is the number behind the first label in the status line or a field line, 0 if there is none |
| HttpLength.LengthFieldExactly | src/common/commonutils/SocketUtils.c:112-136 | for every spelling of a Content-Length field, when its number is the one delivered |
| HttpLength.OnlyFieldExactly | src/common/commonutils/SocketUtils.c:112-136 | the same where no other line mentions the label: exactly for zero, or with the reader's capitals, one space, at most 63 digits and a number below 2^31 |
| HttpLength.LengthOfLiteralHead | src/common/commonutils/SocketUtils.c:95-142 | a head in full and its length |
| HttpLength.ReplyRead | src/common/commonutils/SocketUtils.c:60-142 | status, length and body position of every well-formed reply |
| HttpLength.OverlookedLengths | src/common/commonutils/SocketUtils.c:112-118 | replies whose length field is in lower case, without a space, or with two, are read as length 0 |
| HttpLength.ShadowedLength | src/common/commonutils/SocketUtils.c:112-118 | a reply whose first field X-Content-Length hides its length |
| LogRolling.Log.TrimLog | src/common/logging/Logging.c:233-280 | counter, log and backup after one call, also where the size cannot be told or the rename fails |
| LogRolling.Log.LogToFile | src/common/logging/Logging.h:66-69 | a trim and then the message |
| LogRolling.Limit | src/common/logging/Logging.c:235-235 | when debugging the limit is five times the configured size, saturated at 32 bits without a wrap |
| LogRolling.CounterRange | src/common/logging/Logging.c:245-249 | the counter stays in 1..1000 after the first call and its last digit counts the calls |
| LogRolling.OneCheckInTen | src/common/logging/Logging.c:245-249 | of any ten consecutive calls exactly one checks the size |
| LogRolling.SizeBound | src/common/logging/Logging.c:245-277 | over every run that starts below the limit the log stays below limit + 10 × longest message |
| LogRolling.SizeBoundIsTight | src/common/logging/Logging.c:245-277 | runs that come within one byte of that bound |
| LogRolling.LogIsSuffix | src/common/logging/Logging.c:252-268 | the log is always the end of what was written, even where renaming fails |
| LogRolling.Retention | src/common/logging/Logging.c:252-268 | with renames succeeding, backup followed by log is the end of everything written: where sizes can be told, all of it, or at least as many bytes as the limit |

## Left out

- JsonParser.ParseNumber: numbers with fraction or exponent, beyond 2^53, or negative zero have no meaning in the model; the parser then answers UnmodelledNumber, which no theorem counts as acceptance, also where digits are followed by a dot, an e or, behind a zero, an x that strtod would not read. `strtod`, `%1.17g` and the epsilon of number comparison are floating point.
- JsonWriter.Output.AppendValue: the running total is unbounded here, while the source counts in `int`; texts of 2^31 bytes and more are not modelled.
- JsonParserMethods.ParseValueAt: the parser returns tree values; that it links heap nodes through the calls of `JsonHeap` is not repeated.
- ObjectStore.JsonObject.Set: the value that the source frees on the spot is returned to the caller; the freeing itself is in `JsonHeap.Store.SetValue`.
- DotPaths.DotSet: what the paths lead to after a value was put beneath itself is not said, only that the forest is lost.
- BenchmarkMigration.MigrationPreserves: the table of distributions is a parameter; it must not hold an empty name, as the table of the program does not.
- BenchmarkDefinition.ParseRulesLoop: error codes are kept, error messages are not; of two different errors the model reports the one of the first check, as the source does.
- HttpReply.Socket.Read: `isdigit` and `atoi` are those of the C locale and of glibc on a 64-bit platform (saturation to `long`, then truncation to `int`).
- LogRolling.Log.TrimLog: a log that cannot be reopened is not modelled.
- Allocation failure: every allocation in parson, the reader and the capture loop is taken to succeed.
- `remove_comments`, `json_validate`, file input and output, clearing of containers, and the typed convenience getters and setters of parson.
- `fork`, `pipe`, `select`, timeouts, callbacks and exit codes in `ExecuteCommand`; a run that is cut short is a run with fewer reads.
- `ReadAllBounded`, `ParseStream` and `ParseFile`: file access and its size limit.
- The other modules of the repository: adapters, MPI client, telemetry, procedures and renderers.
