# libusual: verified models of its algorithms

libusual is a C library of self-contained algorithms: a POSIX regex matcher, a JSON parser and
renderer, a glob matcher, a hash table, search trees, a stable list sort, getopt, a heap, address
and URL codecs, and a Keccak sponge. This project models the hard core of each in Dafny 4.11 and
proves what the library promises about it. `dafny verify dfyconfig.toml` checks everything.

Conventions. C strings and buffers are sequences. Code that updates things step by step is a method
or a class, proved against a function or predicate that states its meaning; loops over a moving
pointer keep what is left from the pointer on. Linked structures are either objects with an
explicit footprint (hash table, AA tree) or a map from addresses to nodes (crit-bit tree, list, JSON
values), so that a freed node leaves the map. Allocation gives fresh objects, or is a parameter where
failure is a visible result. Callbacks are functions. Prelude holds what several modules share.

| modules | source | what is proved |
|---|---|---|
| RegexLanguage, RegexMeaning, RegexMatcher | usual/regex.c | the backtracking matcher terminates, reports the leftmost match, the longest one in strict mode, and finds exactly the matches with no empty iteration but a last one, which are all matches unless an assertion makes an iteration of a repeated group empty |
| Fnmatch, GlobMeaning | usual/fnmatch.c | retrying only the last `*` agrees with exhaustive backtracking, for all flags; patterns match exactly what their parts stand for |
| Utf8, JsonStrings, JsonTokens, JsonText | usual/utf8.c, usual/json.c | accepted token sequences are exactly those of valid values; decoded strings are valid text; parse inverts render |
| JsonSpelling, JsonGrammar | usual/json.c | the accepted texts are those of a written-down grammar, and mean what it says |
| JsonMemory, JsonParser, JsonOrder, JsonRender | usual/json.c | the parser builds that tree out of linked values, sharing nothing; two linked values have the same text iff they are equal as maps |
| ProbeSequence, HashTable | usual/hashtab-impl.h | the probe has full period; the chained table refines a map over insert, lookup, delete and copy |
| AATrees | usual/aatree.c | insert and remove keep balance and order and act as set operations on linked nodes; search is logarithmic |
| KeyBits, CritBit, CritBitMemory | usual/cbtree.c | the tree refines a map keyed by zero-continued byte strings; the walk ascends; no node leaks |
| BlockExchange, Getopt, GetoptMeaning | usual/getopt.c | gcd cycles exchange two blocks; a whole run sorts argv into options and operands, and reports what the command line describes |
| StableMerge, ListSort | usual/list.c | the list becomes the unique stable sort of itself, as a well formed ring; 64 stack slots suffice |
| PositionHeap | usual/heap.c | heap order and conservation hold over every run, and the saved position of every object that was never stored twice |
| LaneBytes, Sponge, Keccak | usual/crypto/keccak.c | lane-wise code equals a byte machine; calls may be split anywhere; decrypt inverts encrypt |
| InetText, InetRoundTrip, InetMeaning, Inet | usual/socket_ntop.c, usual/socket_pton.c | inet_pton reads back every address that inet_ntop writes; the texts it accepts are described exactly |
| UrlDict, UrlMeaning | usual/mdict.c | decoding the encoded form rebuilds every dictionary but one; the texts that decode are described exactly |

Three findings. (1) usual/regex.c drops empty follow-up iterations; on `(^|a){2}` and the text `a`
this loses the match (`PruningLosesMatch`). `ExploresExactly` says what is found instead, for every
pattern, and `LeanAllMatches` when that is everything. (2) getopt gives up without permuting on an
argument such as `-a-`, where the last letter is a dash and no option (`StuckExample`); `ParseStuck`
says exactly which arguments do this, and `GetoptRun` states its result if and only if there is no
such argument. (3) A dictionary holding only the empty key without a value encodes to nothing and is
lost (`UrlRoundTrip`, both directions).

## Model

| member | source | states |
|---|---|---|
| `RegexLanguage.PrunedIsLean` | usual/regex.c:957-1032 | every end the search can reach for an op list is in the lean language, where a group is at most max non-empty iterations, too few being made up by an empty one at the end |
| `RegexLanguage.PrunedGroupIsLean` | usual/regex.c:957-1032 | iterations counted from c on, as the matcher makes them, are a lean repetition |
| `RegexLanguage.LeanRunIsPruned` | usual/regex.c:957-1025 | conversely the matcher makes every run of non-empty iterations within the counts, with the empty one at its end |
| `RegexLanguage.LeanIsPruned` | usual/regex.c:957-1032 | so every end of the lean language is reached, for every well formed op list |
| `RegexLanguage.ExploresExactly` | usual/regex.c:1131-1217 | for every compiled pattern the search ends exactly at the matches of the lean language |
| `RegexLanguage.LeanSound` | usual/regex.c:957-1032 | lean matches are matches of the textbook language |
| `RegexLanguage.DropEmpty` | usual/regex.c:1007-1025 | any run of iterations has a run without empty ones between the same ends, and says where a dropped one sat |
| `RegexLanguage.RepeatedIsLean` | usual/regex.c:1000-1025 | every allowed number of iterations of a prunable group has a lean repetition with the same ends |
| `RegexLanguage.LeanComplete` | usual/regex.c:957-1032 | every match of a prunable op list is lean |
| `RegexLanguage.EmptyImpliesMaybe` | usual/regex.c:904-931 | what matches the empty string at some position may be empty once assertions are granted |
| `RegexLanguage.NullableMatchesEmpty` | usual/regex.c:847-902 | what is nullable without assertions matches the empty string at every position |
| `RegexLanguage.PlainIsPrunable` | usual/regex.c:957-1025 | patterns without assertions in groups of minimum count two or more satisfy the completeness condition |
| `RegexLanguage.LeanOnlyMatches` | usual/regex.c:1131-1217 | lean matches of a whole pattern are matches of its language, for every pattern |
| `RegexLanguage.LeanAllMatches` | usual/regex.c:1131-1217 | for prunable patterns they are all of its matches |
| `RegexLanguage.PruningLosesMatch` | usual/regex.c:1007-1025 | two iterations of a group of ^ or a match the text a, and the search does not find it |
| `RegexMatcher.GroupReaches` | usual/regex.c:957-998 | the ends reachable through one more iteration of a group are those through its alternatives in a new frame |
| `RegexMatcher.ExecCtx.DoMatch` | usual/regex.c:842-845 | dispatch on any op terminates and records exactly the reachable ends: success iff there is one, the longest kept in strict mode |
| `RegexMatcher.ExecCtx.MatchSimple` | usual/regex.c:868-902 | counting accepted characters, then backing off, reaches every allowed count |
| `RegexMatcher.ExecCtx.ScanNext` | usual/regex.c:847-866 | backing off from the longest run tries every count down to the minimum |
| `RegexMatcher.ExecCtx.MatchGroup` | usual/regex.c:957-998 | one more iteration in a new frame, or none at all where the minimum is zero |
| `RegexMatcher.ExecCtx.TryAlts` | usual/regex.c:957-998 | all alternatives are tried in strict mode, up to the first success otherwise |
| `RegexMatcher.ExecCtx.MatchGend` | usual/regex.c:1000-1032 | the end of an iteration repeats, goes on or fails, with the measure of remaining text, started frames and remaining ops decreasing |
| `RegexMatcher.ExecCtx.GotFullMatch` | usual/regex.c:1131-1163 | a longer end replaces the recorded one and match 0 is set to it |
| `RegexMatcher.ExecCtx.MatchTop` | usual/regex.c:957-998 | from one start: success iff some end is explored, the recorded end is one of them, and the longest in strict mode |
| `RegexMatcher.RegExec` | usual/regex.c:1181-1217 | found iff the pattern has a lean match anywhere, for every pattern; match 0 is leftmost, and longest in strict mode; the same with the textbook language for prunable patterns |
| `RegexMeaning.WordChangeMeaning` | usual/regex.c:922-931 | the word boundary holds exactly where a longest run of letters, digits and underscores starts or ends, its negation exactly where none does |
| `RegexMeaning.BolMeaning` | usual/regex.c:904-911 | ^ holds exactly at the start of every line, the whole text being one line without REG_NEWLINE, but for the start of the text with REG_NOTBOL |
| `RegexMeaning.EolMeaning` | usual/regex.c:913-920 | $ holds exactly at the end of every line, but for the end of the text with REG_NOTEOL |
| `RegexMeaning.LiteralMeaning` | usual/regex.c:226-236 | the literal compiled from a character takes exactly that character, in either case with REG_ICASE |
| `RegexMeaning.DotMeaning` | usual/regex.c:880-890 | a dot takes everything but a newline under REG_NEWLINE |
| `RegexMeaning.LiteralsMatch` | usual/regex.c:868-878 | a pattern of ordinary characters matches exactly its own text, up to case with REG_ICASE |
| `RegexMeaning.RepeatedCharacter` | usual/regex.c:847-902 | a counted or starred character matches exactly the runs of allowed length of what it takes |
| `RegexMeaning.AlternativesMatch` | usual/regex.c:957-998 | alternative words match exactly the words |
| `RegexMeaning.RepeatedWords` | usual/regex.c:957-1032 | a repeated group of words matches exactly an allowed number of the words in a row, and the matcher finds all of it |
| `Fnmatch.MatchClass` | usual/fnmatch.c:69-144 | the bracket loop returns what parsing the bracket and testing its items gives: member or not, unclosed taken literally, invalid |
| `Fnmatch.MatchNamed` | usual/fnmatch.c:69-144 | a named class is looked up by its name between the colons |
| `Fnmatch.MatchCharOrRange` | usual/fnmatch.c:69-144 | one character or a range, escapes included, tests exactly the parsed item |
| `Fnmatch.PathShift` | usual/fnmatch.c:169-233 | a match from a later place splits after the same star-free elements |
| `Fnmatch.NoSlash` | usual/fnmatch.c:151-164 | with FNM_PATHNAME a stretch that matches twice, shifted by what a star may take, holds no slash |
| `Fnmatch.LastStarDominates` | usual/fnmatch.c:169-233 | a match that lets an earlier star take more can be had by letting the later star take more |
| `Fnmatch.StarUnfolds` | usual/fnmatch.c:169-233 | a star matches with nothing taken or by retrying with more, unless a dot follows where wildcards are disallowed |
| `Fnmatch.StarTakesOver` | usual/fnmatch.c:169-233 | when a new star is reached the old one need not be retried |
| `Fnmatch.RetryInVain` | usual/fnmatch.c:169-233 | retrying cannot help at the end of the string or on a broken pattern |
| `Fnmatch.MatchOne` | usual/fnmatch.c:169-233 | one pattern element against one character: taken, mismatch or final verdict |
| `Fnmatch.Wfnmatch` | usual/fnmatch.c:169-233 | returns success exactly when the exhaustive definition has a match, for every pattern, string and flag combination |
| `GlobMeaning.SetParsed` | usual/fnmatch.c:69-144 | a bracket expression with characters, ranges, escapes and classes is read as these, up to its closing bracket |
| `GlobMeaning.PatternExactly` | usual/fnmatch.c:169-233 | the text of a pattern described by its parts matches exactly the strings that the parts stand for, for all flags |
| `GlobMeaning.LiteralPattern` | usual/fnmatch.c:169-233 | a pattern without special characters matches exactly itself, and what goes on with a slash under FNM_LEADING_DIR |
| `GlobMeaning.RangePattern` | usual/fnmatch.c:49-66 | the bracket lo-hi matches exactly the characters from lo to hi that a wildcard may take |
| `GlobMeaning.NegatedPattern` | usual/fnmatch.c:69-144 | with ! or ^ a bracket expression matches exactly what it does not match without |
| `GlobMeaning.FoldedCharacters` | usual/fnmatch.c:35-46 | with FNM_CASEFOLD two ASCII letters match iff they have the same place in the alphabet |
| `GlobMeaning.FoldedRange` | usual/fnmatch.c:49-66 | with FNM_CASEFOLD a range between letters of one case takes the letters of either case between its ends |
| `GlobMeaning.UnclosedPattern` | usual/fnmatch.c:106-112 | an opening bracket that is never closed stands for itself |
| `GlobMeaning.UnknownClass` | usual/fnmatch.c:88-104 | a class name that the C library does not know makes the bracket match nothing |
| `GlobMeaning.LoneEscape` | usual/fnmatch.c:197-203 | an escape at the very end of a pattern matches nothing |
| `ProbeSequence.GrowValuation` | usual/hashtab-impl.h:70-73 | 2^k divides n rounds of growth from zero only if it divides n |
| `ProbeSequence.IterInjective` | usual/hashtab-impl.h:70-73 | two probes fewer than 2^k apart never meet |
| `ProbeSequence.FullPeriod` | usual/hashtab-impl.h:70-73 | from any start every slot is probed within 2^k steps |
| `ProbeSequence.ReturnsToStart` | usual/hashtab-impl.h:70-73 | after 2^k steps the probe is back |
| `ProbeSequence.DistUnique` | usual/hashtab-impl.h:70-73 | the number of steps from one slot to another is unique below 2^k |
| `HashTable.ProbeComplete` | usual/hashtab-impl.h:111-152 | an item whose path is occupied is met before any free slot |
| `HashTable.InsertKeepsProbes` | usual/hashtab-impl.h:111-152 | storing at the first free slot keeps every probe path occupied |
| `HashTable.PathToRanked` | usual/hashtab-impl.h:155-168 | an occupied probe path stays on one side of a free slot in cycle order |
| `HashTable.RankedToPath` | usual/hashtab-impl.h:155-168 | and conversely |
| `HashTable.MoveKeepsPaths` | usual/hashtab-impl.h:171-204 | moving an item that may move into the hole keeps all probe paths around the new hole |
| `HashTable.HoleUnused` | usual/hashtab-impl.h:155-204 | when the scan ends no probe path needs the hole |
| `HashTable.EmptyKeepsProbes` | usual/hashtab-impl.h:171-204 | freeing the last hole keeps every probe path occupied |
| `HashTable.HashTab.constructor` | usual/hashtab-impl.h:86-97 | an empty table of size 2^k |
| `HashTable.MaxUsedBounds` | usual/hashtab-impl.h:73-73 | although the product wraps at 32 bits, the fill limit of every size 2^k lies between 1 and the size |
| `HashTable.MaxUsedShare` | usual/hashtab-impl.h:73-73 | the fill limit is three quarters of the slots up to 2^25, and what the wrapped product leaves from 2^26 on |
| `HashTable.HashTab.Probe` | usual/hashtab-impl.h:111-152 | terminates at the matching slot or a free one; found iff the entry is in this segment |
| `HashTable.HashTab.Lookup` | usual/hashtab-impl.h:111-152 | the value the map holds for key and argument, over the whole chain |
| `HashTable.HashTab.Insert` | usual/hashtab-impl.h:111-152 | the map with the entry put in, whether by overwriting, storing or extending the chain; unchanged if a segment is needed and memory is not there |
| `HashTable.HashTab.Extend` | usual/hashtab-impl.h:138-151 | a new segment at the end of the chain takes the entry when this one is at its fill limit |
| `HashTable.HashTab.SlotCanMove` | usual/hashtab-impl.h:155-168 | true iff the home of the item does not lie behind the hole and up to the item in cycle order |
| `HashTable.HashTab.Delete` | usual/hashtab-impl.h:171-204 | the map without the entry, over the whole chain |
| `HashTable.HashTab.MoveSlots` | usual/hashtab-impl.h:171-204 | the slot-moving loop terminates and leaves exactly the other entries, all reachable |
| `HashTable.HashTab.Copy` | usual/hashtab-impl.h:220-242 | a new table of another size with the same map |
| `HashTable.HashTab.CopyInto` | usual/hashtab-impl.h:220-242 | all entries of the chain are added to what the new table holds |
| `AATrees.SkewKeeps` | usual/aatree.c:73-82 | rotation right keeps nodes, keys and order |
| `AATrees.SplitKeeps` | usual/aatree.c:93-103 | rotation left keeps nodes, keys and order |
| `AATrees.InsertBalanced` | usual/aatree.c:141-168 | insertion keeps the level rules and raises the level by at most one |
| `AATrees.InsertSet` | usual/aatree.c:141-168 | insertion adds exactly the key and node, and counts it, unless the key is present |
| `AATrees.RepairRight` | usual/aatree.c:112-135 | rebalancing after the right side lost a level restores the level rules |
| `AATrees.RepairLeftBlack` | usual/aatree.c:112-135 | rebalancing after the left side lost a level, right child one level down |
| `AATrees.RepairLeftRed` | usual/aatree.c:112-135 | rebalancing after the left side lost a level, right child on the same level |
| `AATrees.RebalanceBalanced` | usual/aatree.c:112-135 | one gap of a level below a node is repaired, and the level drops by at most one |
| `AATrees.RemoveBalanced` | usual/aatree.c:180-237 | removal keeps the level rules |
| `AATrees.RemoveSet` | usual/aatree.c:180-237 | removal drops exactly the key and its node, and counts it |
| `AATrees.HeightBound` | usual/aatree.c:73-135 | height at most twice the level, and at least 2^level - 1 nodes |
| `AATrees.SearchBound` | usual/aatree.c:301-314 | a search path has at most 2*log2(n+1) steps |
| `AATrees.SkewNode` | usual/aatree.c:73-82 | relinks nodes in place to the skewed tree |
| `AATrees.SplitNode` | usual/aatree.c:93-103 | relinks nodes in place to the split tree |
| `AATrees.RebalanceOnInsert` | usual/aatree.c:106-109 | skew then split, in place |
| `AATrees.RebalanceOnRemove` | usual/aatree.c:112-135 | in place, the rebalanced tree; the shared NIL node is not written |
| `AATrees.AATree.Insert` | usual/aatree.c:170-173 | the key joins the set and the node the tree unless present; balance, order and count are kept |
| `AATrees.AATree.InsertSub` | usual/aatree.c:141-168 | recursive insertion turns the linked tree into the inserted one |
| `AATrees.AATree.StealLeftmost` | usual/aatree.c:180-189 | unlinks the leftmost node and rebalances on the way up |
| `AATrees.AATree.DropThisNode` | usual/aatree.c:192-218 | replaces a node by its successor or its only child |
| `AATrees.AATree.RemoveSub` | usual/aatree.c:220-237 | recursive removal turns the linked tree into the one without the key |
| `AATrees.AATree.Remove` | usual/aatree.c:239-242 | the key leaves the set; balance, order and count are kept |
| `AATrees.AATree.Search` | usual/aatree.c:301-314 | finds the node iff the key is in the set, within 2*log2(n+1) steps |
| `Utf8.ValidIsEncoding` | usual/utf8.c:153-201 | what utf8_validate_seq accepts is the encoding of a non-zero scalar value |
| `Utf8.EncodingIsValid` | usual/utf8.c:89-201 | every encoding of a non-zero scalar value is accepted with its length and code |
| `Utf8.GetCharAgrees` | usual/utf8.c:31-86 | utf8_get_char gives code and length of what utf8_validate_seq accepts, and the negated first byte for everything else |
| `Utf8.GetPutRoundTrip` | usual/utf8.c:31-122 | utf8_get_char of utf8_put_char gives the character back |
| `Utf8.EncodedIsText` | usual/utf8.c:203-219 | concatenated encodings of non-zero scalar values are accepted text |
| `Utf8.TextIsEncoded` | usual/utf8.c:203-219 | accepted text is such a concatenation |
| `Utf8.TextHasNoNul` | usual/utf8.c:203-219 | accepted text holds no NUL |
| `Utf8.ValidateString` | usual/utf8.c:203-219 | the loop accepts exactly text |
| `JsonStrings.AcceptedIsText` | usual/json.c:572-733 | an accepted string decodes to valid NUL-free text no longer than its source |
| `JsonStrings.ScanUEscape` | usual/json.c:572-658 | the scanner runs over a unicode escape, surrogate pairs included, to where unescaping goes on |
| `JsonStrings.CodeStands` | usual/json.c:998-1076 | the escaped form of any character scans as one piece and unescapes to it |
| `JsonStrings.EscapeByCode` | usual/json.c:1025-1076 | the byte loop of the renderer writes one piece per character, U+2028 and U+2029 included |
| `JsonStrings.StringRoundTrip` | usual/json.c:613-1076 | a rendered string is scanned to its closing quote and unescapes to the original |
| `JsonStrings.ScanString` | usual/json.c:613-658 | finds the closing quote of valid text, and reports whether unescaping is needed |
| `JsonStrings.ProcessEscapes` | usual/json.c:661-694 | the loop computes the unescaped text or fails |
| `JsonStrings.RenderString` | usual/json.c:1025-1076 | the loop with its two cursors writes the escaped text between quotes |
| `JsonSpelling.PairReads` | usual/json.c:572-609 | two surrogate escapes, digits in either case, are read as the one character from U+10000 on that they spell |
| `JsonSpelling.SpelledStands` | usual/json.c:572-694 | a character in any of its spellings is scanned as one piece and unescaped to its encoding |
| `JsonSpelling.LiteralExactly` | usual/json.c:613-733 | a string literal is accepted iff it spells characters up to its closing quote; its value is their text |
| `JsonSpelling.RenderedShort` | usual/json.c:998-1076 | the renderer uses the short escape where there is one, and copies a slash |
| `JsonSpelling.RenderedLong` | usual/json.c:998-1076 | it writes a unicode escape for other control characters, U+2028 and U+2029, and copies the rest |
| `JsonTokens.StepSound` | usual/json.c:801-936 | every step keeps state, container stack and pending key in agreement, and the consumed tokens are those of the partial tree |
| `JsonTokens.RunSound` | usual/json.c:846-936 | so does every run |
| `JsonTokens.RunValue` | usual/json.c:846-936 | the tokens of a valid value are consumed and attach that value |
| `JsonTokens.AcceptsExactly` | usual/json.c:801-936 | a token sequence is accepted with a value iff it is the token sequence of that value and the value is valid: distinct keys of allowed length, and the size of every dict equal to its key count |
| `JsonText.IntRoundTrip` | usual/json.c:483-981 | rendered integers within 2^53-1 parse to themselves |
| `JsonText.LexRenderedStr` | usual/json.c:697-1076 | a rendered string lexes to its token |
| `JsonText.LexRendered` | usual/json.c:846-1171 | a rendered value lexes to its tokens, whatever delimiter follows |
| `JsonText.RunTextIsRun` | usual/json.c:846-936 | the fused lexer and parser equals lexing first, then running the tokens |
| `JsonText.RenderParseRoundTrip` | usual/json.c:846-1171 | parsing a rendered tree gives that tree |
| `JsonText.RenderInjective` | usual/json.c:960-1171 | different trees render differently |
| `JsonText.ParseExactly` | usual/json.c:846-954 | a text parses to a tree iff it lexes to the tokens of that tree and the tree is valid; all its strings are valid text and its integers exact |
| `JsonText.NumberExact` | usual/json.c:483-547 | integers are within 2^53-1 also where the range test is skipped for short ones |
| `JsonText.AcceptedRenderable` | usual/json.c:846-1171 | whatever is accepted, floating-point numbers apart, renders to a text that parses to the same tree |
| `JsonGrammar.NumberExactly` | usual/json.c:483-547 | a number is taken iff it has fewer than 100 characters and is an integer, exact if it has eight characters or more, or a text with point or exponent that strtod takes |
| `JsonGrammar.LexExactly` | usual/json.c:846-936 | a token is found iff the text starts with one of its spellings, a number going on as long as it can |
| `JsonGrammar.TokensExactly` | usual/json.c:846-936 | a text is split into tokens iff it is written as them, blanks between |
| `JsonGrammar.GrammarExactly` | usual/json.c:846-954 | a text parses to a value iff it is written as the tokens of that value and the value is valid |
| `JsonParser.ParseString` | usual/json.c:697-733 | scan, validate and unescape a string token |
| `JsonMemory.ShapeKeeps` | usual/json.c:169-178 | a value in memory stands when at most the next link of its head is written |
| `JsonMemory.ListLinked` | usual/json.c:300-314 | real_list_append puts the new element behind the last one and leaves the elements before it standing |
| `JsonMemory.KeyLinked` | usual/json.c:379-381 | a value linked to the current key leaves the other members standing |
| `JsonMemory.SameKeyExact` | usual/json.c:291-297 | for strings without NUL the tree tells keys apart exactly |
| `JsonMemory.TreeInsert` | usual/json.c:317-333 | the key joins the tree of the dict iff no member has it |
| `JsonMemory.TopReplaced` | usual/json.c:336-393 | a step inside the innermost container keeps the chain of open containers |
| `JsonMemory.ClosedStacked` | usual/json.c:435-455 | closing writes no memory: the container already is a finished part of the one around it |
| `JsonMemory.ScalarMade` | usual/json.c:336-393 | memory after mk_value of a scalar stands for the context with the value attached |
| `JsonMemory.ContainerMade` | usual/json.c:421-432 | memory after open_container stands for the context with the container opened |
| `JsonMemory.ContainerClosed` | usual/json.c:435-455 | following the parent link leads to the context with the container closed, and the type found there is the new state |
| `JsonMemory.KeyCounted` | usual/json.c:317-333 | memory after the insertion stands for the context with the key added |
| `JsonMemory.TokenFits` | usual/json.c:801-936 | the state table lets a token through only where the innermost container has a place for it |
| `JsonParser.JsonContext.MkValue` | usual/json.c:336-393 | a new cell and the links that make it top value, list element, current key or value of the current key; nothing else is written; failure only without memory |
| `JsonParser.JsonContext.NewScalar` | usual/json.c:467-733 | on linked memory, what attaching the value does to the tree under construction |
| `JsonParser.JsonContext.OpenContainer` | usual/json.c:421-432 | on linked memory, what opening a container does: the new one is linked into its parent at once |
| `JsonParser.JsonContext.CloseContainer` | usual/json.c:435-455 | on linked memory, what closing does: only parent and cur_key change |
| `JsonParser.JsonContext.AddKey` | usual/json.c:317-333 | the current key joins the key tree and the size grows, unless it is too long, present, or memory is short |
| `JsonParser.JsonContext.Feed` | usual/json.c:846-936 | one token takes the memory to the next context of the token machine, or fails where that has none |
| `JsonParser.JsonContext.JsonParse` | usual/json.c:846-954 | returns an unshared value in memory that is the tree of the text; null iff the text has none or an allocation was refused |
| `JsonOrder.MeaningAt` | usual/json.c:1516-1528 | with distinct keys the map of an object is its members |
| `JsonOrder.SortedUnique` | usual/json.c:1098-1144 | two values with ascending keys that are equal as maps are equal |
| `JsonRender.LessIsBefore` | usual/json.c:291-297 | for strings without NUL the order of the key tree is the order of the bytes |
| `JsonRender.OrderedMeaning` | usual/json.c:1516-1528 | the value in the order of the key trees equals the linked one with objects as maps |
| `JsonRender.OrderedSorted` | usual/json.c:1516-1528 | its keys ascend in every object, it is valid, and as renderable as the linked one |
| `JsonRender.MemoryRoundTrip` | usual/json.c:846-1171 | rendering a linked value and parsing the text gives a value with ascending keys that equals it as maps |
| `JsonRender.SameTextSameMeaning` | usual/json.c:960-1171 | two linked values render to the same text iff they are equal as maps |
| `JsonRender.RenderAny` | usual/json.c:1155-1162 | appends the text of the value at an address, keys in the order of the tree |
| `JsonRender.RenderList` | usual/json.c:1087-1112 | the loop over the next links appends the elements with separators between them |
| `JsonRender.RenderDict` | usual/json.c:1129-1144 | appends the members between braces |
| `JsonRender.RenderWalk` | usual/json.c:1507-1528 | the walk appends every member once, in ascending order of keys, with the value behind its next link |
| `JsonRender.RenderPair` | usual/json.c:1114-1127 | separator, key, colon and value |
| `KeyBits.FirstBit` | usual/cbtree.c:104-136 | the first differing byte holds the first differing bit, which tells the order |
| `KeyBits.SameBits` | usual/cbtree.c:81-86 | two keys agree on all bits iff they are equal when continued by zeros |
| `KeyBits.CritLess` | usual/cbtree.c:104-136 | the key with a one in the first differing bit is the larger one in zero-continued byte order |
| `KeyBits.CanonExact` | usual/cbtree.c:104-136 | keys agree when continued by zeros iff their forms without trailing zeros are equal |
| `KeyBits.FindCritBit` | usual/cbtree.c:104-136 | returns the first differing bit, or the same-key mark iff the keys agree when continued by zeros |
| `CritBit.LookupExact` | usual/cbtree.c:144-171 | following the known bits finds the entry of a key if there is one; the found object has the key iff it is present |
| `CritBit.BitsIncrease` | usual/cbtree.c:196-217 | bit positions strictly increase downward |
| `CritBit.PlaceSplits` | usual/cbtree.c:196-243 | at the place of insertion all keys agree with the new one before the new bit and differ on it |
| `CritBit.InsertGood` | usual/cbtree.c:196-243 | insertion keeps: keys below a fork agree before its bit and split on it |
| `CritBit.InsertContents` | usual/cbtree.c:196-243 | insertion adds exactly the new entry to the map |
| `CritBit.DeleteGood` | usual/cbtree.c:251-287 | deletion keeps the same invariant |
| `CritBit.DeleteContents` | usual/cbtree.c:251-287 | deletion removes exactly the entry from the map |
| `CritBit.WalkIsContents` | usual/cbtree.c:335-348 | the walk visits exactly the stored objects |
| `CritBit.WalkAscends` | usual/cbtree.c:335-348 | in strictly ascending zero-continued byte order |
| `CritBitMemory.InsertShape` | usual/cbtree.c:196-217 | one write to the slot where the loop stops turns the tree in memory into the inserted one |
| `CritBitMemory.DeleteShape` | usual/cbtree.c:251-287 | one write to the slot of the last node turns the tree in memory into the one without the leaf |
| `CritBitMemory.InsertHolds` | usual/cbtree.c:196-217 | after insertion memory holds exactly the nodes of the new tree, unshared |
| `CritBitMemory.DeleteHolds` | usual/cbtree.c:251-287 | after deletion memory holds exactly the nodes of the new tree: the dropped node is freed, no other |
| `CritBitMemory.CBTree.RawLookupLoop` | usual/cbtree.c:144-153 | the loop ends at the leaf the bits lead to |
| `CritBitMemory.CBTree.Lookup` | usual/cbtree.c:156-171 | the stored object whose key is exactly the given one, length included |
| `CritBitMemory.CBTree.FindSlot` | usual/cbtree.c:196-205 | the loop stops at the slot of insertion |
| `CritBitMemory.CBTree.InsertAtBit` | usual/cbtree.c:196-217 | one new node, or nothing when allocation fails |
| `CritBitMemory.CBTree.Insert` | usual/cbtree.c:220-243 | true iff the tree was empty, or the key is short enough, absent when continued by zeros and memory is there; then the map gains it, else nothing changes |
| `CritBitMemory.CBTree.FindLeaf` | usual/cbtree.c:251-270 | the loop ends at the leaf and remembers the slot of the node above it |
| `CritBitMemory.CBTree.Delete` | usual/cbtree.c:251-287 | true iff the exact key is stored; then the map loses it and its object is handed over, else nothing changes |
| `CritBitMemory.CBTree.WalkAll` | usual/cbtree.c:335-348 | the callback sees the stored objects in ascending order, up to and including the first it refuses |
| `BlockExchange.Gcd` | usual/getopt.c:95-107 | the loop computes the greatest common divisor |
| `BlockExchange.GcdSplits` | usual/getopt.c:95-107 | it divides both arguments, and the quotients satisfy Bezout's identity |
| `BlockExchange.OrbitInjective` | usual/getopt.c:115-144 | positions of one cycle do not repeat before it closes |
| `BlockExchange.OrbitReaches` | usual/getopt.c:115-144 | a cycle runs through every position of its residue class |
| `BlockExchange.OrbitCloses` | usual/getopt.c:115-144 | after cyclelen steps a cycle is back at its start |
| `BlockExchange.GcdPartitions` | usual/getopt.c:115-144 | the gcd many cycles of equal length partition the range |
| `BlockExchange.RunCycle` | usual/getopt.c:128-143 | the swap loop moves every element of its cycle one step along and touches nothing else |
| `BlockExchange.PermuteArgs` | usual/getopt.c:115-144 | blocks A and B become B and A, inner order kept, the rest untouched |
| `Getopt.ParseMerges` | usual/getopt.c:303-377 | options and operands of the reference are all arguments, each in original order |
| `Getopt.LettersStuck` | usual/getopt.c:401-410 | one word makes the scan give up iff its last letter is a dash, the dash is no option, and no letter before it takes an argument |
| `Getopt.ParseStuck` | usual/getopt.c:303-410 | a run gives up iff one of the words it takes as options is such a word |
| `Getopt.StuckExample` | usual/getopt.c:401-410 | the arguments n -a- make it give up |
| `Getopt.Scanner.Exchange` | usual/getopt.c:303-377 | each call of permute_args has two non-empty blocks and puts the options before the operands |
| `Getopt.Scanner.SkipOperand` | usual/getopt.c:342-354 | an operand joins the block of skipped ones, moved behind the options first if need be |
| `Getopt.Scanner.Finish` | usual/getopt.c:306-322 | at the end argv is options then operands, and optind at the first operand |
| `Getopt.Scanner.Scan` | usual/getopt.c:303-377 | one pass of the start label: end of options, an operand in order, or an option with the same remaining run |
| `Getopt.Scanner.NextLetter` | usual/getopt.c:401-456 | one option letter reports the next event of the reference; giving up leaves argv or optind out of order |
| `Getopt.Scanner.NextArgument` | usual/getopt.c:438-454 | an argument from the rest of the word, the next word, or missing |
| `Getopt.Scanner.StuckIsDisorder` | usual/getopt.c:401-410 | where scanning gives up, argv is not in order or optind is before the end of the options |
| `Getopt.Scanner.Next` | usual/getopt.c:270-457 | one call reports the next event, or ends the run; at the end the result holds iff scanning did not give up |
| `Getopt.GetoptRun` | usual/getopt.c:270-457 | a whole run reports the events of the reference; argv ends as options then operands with optind between them iff no option word of the run ends in such a dash |
| `GetoptMeaning.OptionShown` | usual/getopt.c:412-456 | in an option string a letter is found with no, one or two colons behind it as its entry says |
| `GetoptMeaning.CommandLine` | usual/getopt.c:303-457 | the reference reports what a command line describes: flags in one word, arguments in the word or the next, optional and missing ones, unknown letters, operands, and what follows -- |
| `GetoptMeaning.Configured` | usual/getopt.c:283-292 | a leading + ends the options at the first operand, a leading - reports operands in order, and neither is an option letter |
| `StableMerge.MergedSorted` | usual/list.c:22-39 | merging two sorted runs gives a sorted run |
| `StableMerge.MergedStable` | usual/list.c:22-39 | equal elements of the first run come before those of the second, each in order |
| `StableMerge.MergedEquiv` | usual/list.c:22-39 | the merge is a stable rearrangement of the first run followed by the second |
| `StableMerge.StableSortUnique` | usual/list.c:46-81 | sorted, same elements and stable determine the result |
| `ListSort.Lists.Merge` | usual/list.c:22-39 | relinks two runs into their stable merge and touches no other node |
| `ListSort.CarryOn` | usual/list.c:61-64 | a merge with stack slot i empties it and carries a run of 2^(i+1) nodes on |
| `ListSort.CarryStored` | usual/list.c:66-68 | the run stored in the first free slot keeps every slot i empty or at exactly 2^i nodes |
| `ListSort.SlotsSuffice` | usual/list.c:50-68 | for fewer than 2^64 nodes the slot index stays below 64 |
| `ListSort.Lists.CarryUp` | usual/list.c:61-64 | the carry loop, as on a binary counter |
| `ListSort.Lists.Push` | usual/list.c:56-69 | a node joins the stack of runs, whose contents in order stay a stable rearrangement of the nodes taken |
| `ListSort.Lists.SplitAll` | usual/list.c:56-69 | all nodes leave the ring and join the runs |
| `ListSort.Lists.MergeAll` | usual/list.c:71-73 | merging the runs from latest to earliest gives the stable sort |
| `ListSort.CloseRing` | usual/list.c:75-81 | closing the chain gives a ring whose prev links mirror its next links |
| `ListSort.Lists.Relink` | usual/list.c:75-81 | the chain becomes a well formed doubly linked ring |
| `ListSort.Lists.Sort` | usual/list.c:46-81 | the ring holds the stable sort of its nodes, well formed both ways, no other node touched |
| `PositionHeap.RootBest` | usual/heap.c:157-160 | in an ordered heap nothing beats the root |
| `PositionHeap.Heap.Swap` | usual/heap.c:59-64 | the swap tells both objects their new indexes |
| `PositionHeap.ChildChosen` | usual/heap.c:78-92 | the child that bubble_down picks is beaten by no sibling |
| `PositionHeap.Heap.BubbleUp` | usual/heap.c:66-76 | restores heap order, keeps the objects and their saved indexes |
| `PositionHeap.Heap.BubbleDown` | usual/heap.c:78-92 | restores heap order, keeps the objects and their saved indexes |
| `PositionHeap.Heap.Rebalance` | usual/heap.c:94-105 | picks the direction that restores heap order |
| `PositionHeap.Heap.Reserve` | usual/heap.c:135-155 | room for the asked number of objects, at least doubled and at least 32, or failure only without memory |
| `PositionHeap.Heap.Push` | usual/heap.c:162-175 | adds exactly the object, also one that is stored already; heap order holds, and the saved index of every object that was never stored twice |
| `PositionHeap.Heap.Remove` | usual/heap.c:177-194 | removes exactly the object at the index, none beyond the end; heap order and saved indexes hold |
| `PositionHeap.Heap.Top` | usual/heap.c:157-160 | an object that no other beats, none if empty |
| `PositionHeap.Heap.Pop` | usual/heap.c:196-199 | removes an object that no other beats |
| `LaneBytes.ByteXor` | usual/crypto/keccak.c:470-473 | exclusive or of lanes works byte by byte |
| `LaneBytes.PlacedByte` | usual/crypto/keccak.c:1190-1196 | a byte shifted to a place is that byte there and zero elsewhere |
| `LaneBytes.WordByte` | usual/crypto/keccak.c:1215-1221 | a decoded little-endian word has the bytes it was read from |
| `LaneBytes.SameBytes` | usual/crypto/keccak.c:475-483 | a lane is determined by its eight bytes |
| `Sponge.RunConcat` | usual/crypto/keccak.c:1280-1381 | any split of the data into calls gives the same state and output |
| `Sponge.RunBlock` | usual/crypto/keccak.c:1280-1381 | up to the end of the rate the byte machine changes the state in place and permutes at most once |
| `Sponge.DecryptInverts` | usual/crypto/keccak.c:1339-1381 | from equal states decrypting the encrypted data gives it back and ends in the same state |
| `Keccak.XorPlaced` | usual/crypto/keccak.c:1190-1196 | xor_byte on a lane changes one byte of the state |
| `Keccak.XorWord` | usual/crypto/keccak.c:1215-1221 | xor_lane of a decoded word changes eight bytes of the state |
| `Keccak.LanesRoundTrip` | usual/crypto/keccak.c:470-483 | the state seen as bytes determines its lanes |
| `Keccak.KeccakInit` | usual/crypto/keccak.c:1271-1278 | a zero state with the rate that the capacity leaves, null for capacities that are refused |
| `Keccak.KeccakContext.AddBytes` | usual/crypto/keccak.c:1198-1226 | bytes, words, bytes: the data is xored into the state bytes from the offset on |
| `Keccak.KeccakContext.ExtractBytes` | usual/crypto/keccak.c:1228-1257 | part of a lane, lanes, part of a lane: the state bytes from the offset on |
| `Keccak.KeccakContext.PermuteIfNeeded` | usual/crypto/keccak.c:1259-1265 | permutes and rewinds exactly when the rate is used up, so the position stays below the rate |
| `Keccak.KeccakContext.AbsorbData` | usual/crypto/keccak.c:1280-1297 | equals the byte machine |
| `Keccak.KeccakContext.SqueezeData` | usual/crypto/keccak.c:1299-1315 | equals the byte machine, state and output |
| `Keccak.KeccakContext.SqueezeXorData` | usual/crypto/keccak.c:1317-1337 | equals the byte machine, state and output |
| `Keccak.KeccakContext.EncryptData` | usual/crypto/keccak.c:1339-1358 | equals the byte machine, state and output |
| `Keccak.KeccakContext.DecryptData` | usual/crypto/keccak.c:1360-1381 | equals the byte machine, state and output |
| `Keccak.EncryptDecrypt` | usual/crypto/keccak.c:1339-1381 | data encrypted with one context comes back from another in the same state, and the states stay equal |
| `InetText.Parse4Exactly` | usual/socket_pton.c:82-118 | a text is accepted iff it is four decimal numbers up to 255, none empty, with dots between them; the bytes are those numbers |
| `InetText.RoundTrip4` | usual/socket_pton.c:82-118 | every IPv4 address is read back from its dotted text |
| `InetMeaning.GroupValue` | usual/socket_pton.c:155-166 | a group is read as the number that its hexadecimal digits, in either case, stand for |
| `InetMeaning.Parse6Exactly` | usual/socket_pton.c:133-222 | a text gives the address that its fields between colons give: groups of one to four digits, one double colon, a dotted quad at the end |
| `InetText.HexValue` | usual/socket_pton.c:155-166 | reading the hexadecimal digits of a number gives the number |
| `InetText.ReadDigits` | usual/socket_pton.c:155-166 | up to four digits of a group accumulate without overflow |
| `InetRoundTrip.ReadJoin` | usual/socket_pton.c:152-201 | groups joined by colons are stored in order, the last one pending |
| `InetRoundTrip.AfterDouble` | usual/socket_pton.c:168-217 | after :: the remaining groups move to the end, zeros between |
| `InetRoundTrip.EmbeddedForm` | usual/socket_pton.c:187-217 | an embedded dotted quad is read from the last colon on |
| `InetRoundTrip.RoundTrip6` | usual/socket_ntop.c:156-207 | whatever run of zero words is shortened, the text is read back as the address |
| `Inet.ReadWords` | usual/socket_ntop.c:127-129 | bytes are combined into words |
| `Inet.FindRun` | usual/socket_ntop.c:130-151 | the leftmost longest run of two or more zero words, or none |
| `Inet.Format` | usual/socket_ntop.c:156-196 | the format loop writes the text for the run and stays within its buffer |
| `Inet.Ntop6` | usual/socket_ntop.c:106-207 | the text of the address with its leftmost longest run shortened, or no space; it reads back as the address; 46 bytes suffice |
| `Inet.Ntop4` | usual/socket_ntop.c:84-97 | the dotted text, or no space; it reads back as the address; 16 bytes suffice |
| `Inet.Pton4` | usual/socket_pton.c:82-118 | the loop computes the dotted-quad reader within its four-byte buffer |
| `Inet.ShiftToEnd` | usual/socket_pton.c:202-217 | the overlapping shift moves the bytes to the end and leaves zeros |
| `Inet.End6` | usual/socket_pton.c:196-222 | the last group, the shift and the length test |
| `Inet.Loop6` | usual/socket_pton.c:149-222 | the character loop computes the reader |
| `Inet.Pton6` | usual/socket_pton.c:133-222 | the whole of inet_pton6 computes the reader |
| `UrlDict.DecodeEncoded` | usual/mdict.c:156-291 | a URL-encoded string decodes to the original and stops at the separator |
| `UrlDict.EstimateExact` | usual/mdict.c:156-205 | a successful decode writes exactly as many bytes as the estimate counted |
| `UrlDict.DecodeEncodedElem` | usual/mdict.c:207-318 | an encoded element decodes to itself, null and empty values told apart |
| `UrlDict.DecodeAll` | usual/mdict.c:207-326 | decoding an encoded list puts its elements in one by one, unless the last one has no text |
| `UrlDict.UrlRoundTrip` | usual/mdict.c:207-326 | decoding the encoded form into an empty dictionary rebuilds it iff it is not the one with only the empty key and no value |
| `UrlMeaning.DecodeExactly` | usual/mdict.c:145-205 | bytes are decoded iff the text spells them, as they are, as + for a blank, or as % and two digits in either case, up to a separator or the end |
| `UrlMeaning.FormDecodes` | usual/mdict.c:207-257 | a list of elements, spelled in any way, is put in one by one |
| `UrlMeaning.EncodedSpelling` | usual/mdict.c:268-291 | the encoder copies letters, digits, dot and underscore, and writes + for a blank and % with lower-case digits for the rest |
| `UrlDict.UrldecStr` | usual/mdict.c:156-205 | both passes: the decoded bytes, written within the estimated buffer |
| `UrlDict.SizeEstimate` | usual/mdict.c:162-169 | the first pass computes the estimate |
| `UrlDict.UrlencStr` | usual/mdict.c:268-291 | the loop appends the encoded string |
| `UrlDict.Urlencode` | usual/mdict.c:293-326 | the walk appends the elements with separators between them |
| `UrlDict.MDict.Urldecode` | usual/mdict.c:207-257 | the loop leaves the dictionary and result of the decoder, partial on failure |
| `UrlDict.Copied` | usual/mdict.c:207-326 | encoding a dictionary and decoding into a new one copies it iff it is not the lost one |

## Left out

- RegexMatcher.ExecCtx.GotFullMatch: only match 0; which sub-group history wins a tie (usual/regex.c:1038-1128) is left open, because the modelled properties are about match 0. Back-references are out as well.
- The pattern compiler regcomp: compiled op lists are taken in the shape it builds (`WellFormed`).
- fnmatch: conversion from multibyte to wide characters, and the C library's classification and case functions, which are parameters.
- HashTable.HashTab.constructor: sizes 2^k with 1 <= k < 32; for other sizes the probe does not visit all slots (with size 3 the slot after 0 is 0, and size 1 has fill limit 0), so no probe need end.
- HashTable.HashTab.Copy: the same sizes, and allocations that succeed; hashtab_copy does not test its first one.
- Hash table: the comparison callback is a function from values to what is compared; hashtab_destroy and hashtab_stats; the byte count of an allocation, which is 32 bits wide.
- AA tree: release callbacks, aatree_walk and aatree_destroy; keys are integers under their own order.
- JsonStrings.ScanString: line numbers, and the option to ignore encoding errors, which only adds accepted texts.
- JsonParser.JsonContext.JsonParse: strict mode only; comments and extra commas of the relaxed mode, error messages, accessors, the array cache, and values built by json_new_ functions are left out.
- JSON: floating-point values keep their text and a parameter says which texts strtod accepts; the key tree of a dict is the value that its nodes in memory stand for, and its walk is the one of CritBitMemory.
- Crit-bit tree: cbtree_destroy; keys of stored objects do not change; bit positions are unbounded numbers, so no overflow for a first key of more than SIZE_MAX/8 bytes.
- getopt: long options, -W, error printing, optreset by optind 0, and the environment variable, which is a parameter.
- Heap: heap_destroy, heap_get_obj; unsigned overflow of child indexes; the save_pos callback is always there.
- Keccak: the permutation keccak_f is any function on 25 lanes; the 32-bit interleaved lanes; keccak_pad, keccak_rewind and keccak_forget; buffers that overlap.
- inet_ntop and inet_pton: the dispatch on the address family and errno.
- mdict: put, get and delete, which are the crit-bit operations; allocation failures; the dictionary is the map that its tree stands for.
- talloc, the allocators, hashing and ciphers, string helpers, configuration, sockets, TLS, logging, signals and time: I/O, wrappers, or easy members.
