# Ad server core algorithms in Dafny

This project models the self-contained algorithms of the ad server (`DCServer`) and of two scripts
of its management site (`admanager`), and proves what they are for. It verifies with Dafny 4.11:
`dafny verify dfyconfig.toml`.

- **Configuration files** (`ConfigTree`, `ConfigPaths`, `ConfigText`, `ConfigLines`,
  `ConfigRoundTrip`, `ConfigHeap`): the indented text format and its exact grammar, the tree of
  first-child and next-sibling links, and put, locate and resolve on paths. Nodes are heap objects; the methods on them are proved against
  functions on trees.
- **HTTP request parser** (`HttpParser`, `HttpParserFacts`, `HttpCodes`): the state machine over
  octets, what it guarantees on every payload, that it inverts a printer (sections 3.1.1 and 3.2 of
  RFC 7230), and the exact places of a payload at which it returns each code.
- **Click cache** (`PageHash`, `PageCache`, `UserClean`): the page key, two generations of pages as
  logs with properties over all runs, and the chained tables and arenas that refine them.
- **Syntax highlighting** (`Recombine`, `CaseFold`): merging tags and decorations into one output,
  and widening character sets to both cases.
- **Chart stacking** (`Stacking`, `StackedLines`, `StackedBars`): the merge loop, lines as the sum of
  two piecewise linear functions with gaps, and bars on top of bars.
- **Forged packets** (`Checksum`, `PacketSender`): two Internet checksum routines and the packets
  they complete (sections 1 and 2 of RFC 1071, section 3.1 of RFC 791, section 3.1 of RFC 793).
- **MD5 streaming** (`Md5`), **pop-up frequency cap** (`PopFilter`), **Base64** (`Base64`).

Where a class of the model carries ghost state (the tree of linked nodes, the log of a generation,
the message fed, the history of a user), its methods tie that state to the real fields, and the
lemmas state what holds of every such history. Functions that say what a method computes are in turn
tied to laws that do not use them: grammars, octet lists, counted sets and standard examples.

## Where the code does not do what one might expect

- Put drops an empty inner segment of a path ("a//b") when the item before it exists, while locate
  looks for it. `ConfigPaths.PutThenResolve` gives the exact condition for a tree and a path.
- A value is printed in double quotes without escaping, a missing one is read back as an empty one, and
  the loader reads lines into a buffer of 1024 bytes. `ConfigRoundTrip.FilledRoundTrip` and
  `ConfigRoundTrip.RoundTripExact` give the exact conditions under which a saved tree is read back.
- A comment that follows the white space after an equals sign is kept as the value, because the end
  mark is written before the place where the value starts. `ConfigText.CommentKept` says exactly when.
- The comments of the configuration loader promise NULL on a syntax error in a name or a value; the
  code frees the text and returns the pointer. The model does what the comments say.
- The slice of the Content-Length is not cleared before a packet is parsed, so a request without
  that header keeps what stood in the record before. `HttpParserFacts.ParseSound` gives the exact
  condition under which the slice can be used, `HttpParserFacts.StaleLength` a request that fails it.
- A payload that ends inside a Cookie leaves a slice up to the end of the packet
  (`HttpParserFacts.ParseSound`, `HttpCodes.CutCookie`), and header names of three lengths are
  recognised by five octets only (`HttpCodes.AnnouncesExact`).
- The digits of the address run on into the user agent in what is hashed, so two users can have the
  same keys (`PageHash.UsersConfused`).
- The second search of the click cache is tried only when the bucket of generation A is empty, so a
  page in generation B can be hidden. `PageCache.LookupExact`, `PageCache.FreshPageFound` and
  `UserClean.ClickChain` say exactly when.
- A hidden page is remembered a second time and then sent a second time, although its first entry is
  still held. `PageCache.SecondEntryExact` and `PageCache.DistinctExact` give the exact condition,
  `PageCache.PageSentTwice` a run.
- The node after the last one of an arena is the first one again. `UserClean.ReuseExact` says when the
  chain it is put in front of then leads back to itself, so that a search in it does not end.
- The record of the pop-up filter is kept under the advertisement followed by the user agent, with
  nothing between them, so two pairs can share a history. `PopFilter.SharedExact` says which.
- The loop of an MD5 update compares an unsigned 32-bit counter that wraps for inputs close to 4 GB;
  `Md5.NoWrapExact` gives the exact length from which on the loop reads behind the input.
- A padding sign or a NUL inside a Base64 text is found behind the alphabet and sets the lowest bit of
  the character before it; `Base64.PlaceKeptExact` says which characters are changed.
- Decoded Base64 text carries one zero byte when the length of the original is no multiple of three.

## Model

| member | source | states |
|---|---|---|
| `ConfigRoundTrip.RoundTripExact` | DCServer/server/zz_config.c:365-621 | Saving a tree and loading the text gives the same shape, names, values and sibling order if and only if every name is proper, every value is present and free of double quotes, newlines and NUL, and every printed line has at most 1023 characters. |
| `ConfigRoundTrip.FilledRoundTrip` | DCServer/server/zz_config.c:365-621 | The same with values that may be missing: the text gives the tree with empty values for them if and only if the names are proper, the values there are free of those characters, and the lines fit. |
| `ConfigRoundTrip.SaveableRoundTrip` | DCServer/server/zz_config.c:365-436 | The half of that which a user relies on: every saveable tree is read back. |
| `ConfigRoundTrip.WholeLine` | DCServer/server/zz_config.c:378-422 | A printed line, with or without its newline, tokenises to its level, its name and whatever its quoted part gives. |
| `ConfigRoundTrip.BareWhole` | DCServer/server/zz_config.c:378-422 | The printed line of an item without a value tokenises to its level and its name and gives an empty value. |
| `ConfigRoundTrip.QuotedPart` | DCServer/server/zz_config.c:530-544 | The quoted part of a printed line is read as the value exactly when the value holds no double quote. |
| `ConfigRoundTrip.LineThenRest` | DCServer/server/zz_config.c:374-378 | The entries of a text are those of its first line followed by those of the rest, also when fgets cuts the line into several reads and when it holds NUL. |
| `ConfigRoundTrip.CutItem` | DCServer/server/zz_config.c:374-378 | When a printed line is longer than the buffer and its first piece reads as the item, the piece that follows makes the load fail. |
| `ConfigRoundTrip.ItemReadBackOnlyIf` | DCServer/server/zz_config.c:378-422 | A printed item that is read back as exactly itself is proper, free of quotes and fits the buffer. |
| `ConfigRoundTrip.OnlySaveableReadBack` | DCServer/server/zz_config.c:378-436 | A tree whose printed items give exactly its own entries is saveable. |
| `ConfigRoundTrip.EntriesSound` | DCServer/server/zz_config.c:441-564 | Whatever the file, every entry that is read has a proper name and a value without newline and NUL. |
| `ConfigText.LoadExact` | DCServer/server/zz_config.c:365-436 | A file whose lines tokenise is accepted exactly when its first named line has level 0 and each later one is at most one level deeper than the one before; the preorder walk of the tree then visits exactly the named lines in file order. |
| `ConfigText.LevelOnesCount` | DCServer/server/zz_config.c:395-398 | The number that the root keeps is that of the lines at level 1, with or without a name. |
| `ConfigText.ScanLine` | DCServer/server/zz_config.c:379-424 | The scanning part of the load loop computes the tokenised line, for which `ConfigLines.LineExact` gives the grammar: trimming, level, name, value, or the documented syntax error. |
| `ConfigLines.LineExact` | DCServer/server/zz_config.c:379-424 | A line is read as something if and only if it is put together from parts that say it: blanks, name, white space, equals sign, value in either quotes or without, white space and comment; it is a syntax error if and only if it is in no such way. |
| `ConfigLines.LayoutRead` | DCServer/server/zz_config.c:379-424 | Every line that is put together from such parts, with white space at its end, is read as what the parts say. |
| `ConfigLines.LayoutFound` | DCServer/server/zz_config.c:379-424 | Every line that is no syntax error is put together from such parts. |
| `ConfigLines.CharacterSets` | DCServer/server/zz_config.c:458-468 | White space is six characters, and a name has letters, digits and eight signs, all of them listed. |
| `ConfigLines.RemarkRead` | DCServer/server/zz_config.c:379-424 | Blanks of a level, a number sign and any text make a line without a name at that level. |
| `ConfigLines.RemarkAfterValue` | DCServer/server/zz_config.c:530-544 | White space and a comment behind a value in quotes of either kind change nothing. |
| `ConfigLines.RemarkAfterName` | DCServer/server/zz_config.c:556-559 | White space and a comment behind a name without a value change nothing. |
| `ConfigLines.UnnamedIgnored` | DCServer/server/zz_config.c:374-429 | A line without a name and of at most 1023 characters can stand between any two lines of a file, or be left out, without changing what loading gives. |
| `ConfigLines.RemarkIgnored` | DCServer/server/zz_config.c:374-429 | So can a line with nothing but a comment. |
| `ConfigLines.NulHides` | DCServer/server/zz_config.c:378-381 | What follows a NUL on a line is not read. |
| `ConfigText.CollectLevel` | DCServer/server/zz_config.c:441-454 | Reads all blanks from the start; the level is a fourth of them, or -1 when they are no multiple of four. |
| `ConfigText.CollectName` | DCServer/server/zz_config.c:472-490 | Reads the longest stretch of name characters; the documented NULL exactly when the name starts or ends with a slash. |
| `ConfigText.VerifyEoln` | DCServer/server/zz_config.c:494-511 | 0 exactly when only white space and a comment follow, else -1; the laws of `ConfigLines` on comments depend on it. |
| `ConfigText.CollectValue` | DCServer/server/zz_config.c:515-564 | The value after a name: quoted to the same quote again, unquoted up to the comment, empty without an equals sign, and the documented NULL on a syntax error. |
| `ConfigText.UnquotedExact` | DCServer/server/zz_config.c:545-554 | An unquoted value is the text up to the comment without the white space before it and without a comment sign, unless the comment starts where the value does; it is then empty, or the whole comment if white space stands before it. |
| `ConfigText.CommentKept` | DCServer/server/zz_config.c:545-554 | An unquoted value holds a comment sign exactly if the comment starts where the value does and is separated from the equals sign. |
| `ConfigText.CommentExample` | DCServer/server/zz_config.c:545-554 | Illustration: the line "a = # x" gives the comment as the value, the line "a =# x" an empty one. |
| `ConfigTree.AttachAddsLastLine` | DCServer/server/zz_config.c:411-414 | Attaching an item at the latest node of a level adds exactly one line at the end of the preorder walk, at that depth, and makes it the latest node. |
| `ConfigTree.BuildExact` | DCServer/server/zz_config.c:405-429 | A list of entries builds a tree exactly when it is well nested, and the tree then has exactly these lines. |
| `ConfigTree.PreorderInjective` | DCServer/server/zz_config.c:287-302 | A tree is determined by the lines and depths of its preorder walk. |
| `ConfigTree.BuildInverts` | DCServer/server/zz_config.c:405-429 | Rebuilding a tree from its own lines gives it back, whatever its shape and with equal names among siblings. |
| `ConfigPaths.PutEffect` | DCServer/server/zz_config.c:127-160 | Path by path: the put path gets the value, every other path that led somewhere keeps its value, and only prefixes of the put path become locatable. |
| `ConfigPaths.PutGrows` | DCServer/server/zz_config.c:139-159 | A put keeps every item in its place, also among equally named siblings, and adds one item for each segment not yet there. |
| `ConfigPaths.PutPathEffect` | DCServer/server/zz_config.c:127-260 | The laws of put and resolve on path texts, for every tree and path: the segments that put walks read the value, other locatable paths keep theirs, only prefixes appear, and no item moves. |
| `ConfigPaths.PutWalks` | DCServer/server/zz_config.c:127-160 | On every tree put of a path is a put at the segments it walks, which may leave out empty ones. |
| `ConfigPaths.SegsExact` | DCServer/server/zz_config.c:223-246 | Locate walks the segments that, with a slash between each and the next, make up the path without a slash at its start. |
| `ConfigPaths.WalkedExact` | DCServer/server/zz_config.c:142-150 | Put walks the segments of locate exactly if no empty inner segment follows an item that is there. |
| `ConfigPaths.PutThenResolve` | DCServer/server/zz_config.c:127-260 | For a given tree, path and value, resolving what was put gives the value if and only if no empty inner segment follows an item that is there, or the value was there before. |
| `ConfigPaths.SafePath` | DCServer/server/zz_config.c:127-260 | A path is read back from every tree exactly if it has no empty inner segment. |
| `ConfigHeap.New` | DCServer/server/zz_config.c:55-75 | A new node is linked as the last child of its parent; nothing else in the heap changes. |
| `ConfigHeap.Locate` | DCServer/server/zz_config.c:222-246 | The node found in the heap is the one that the tree function finds for the segments of the path. |
| `ConfigHeap.LocateFirst` | DCServer/server/zz_config.c:223-246 | Among siblings the first one with the name is taken; a path that goes on is followed below it only. |
| `ConfigHeap.Resolve` | DCServer/server/zz_config.c:252-260 | The value at the path, or the default when nothing is located. |
| `ConfigHeap.Put` | DCServer/server/zz_config.c:127-160 | The linked nodes afterwards hold the tree that put computes; every old node keeps its place and only fresh nodes are added. |
| `ConfigHeap.PutFound` | DCServer/server/zz_config.c:142-150 | When a sibling has the segment name the value or the rest of the path goes to the first such sibling, in place. |
| `ConfigHeap.PutMissing` | DCServer/server/zz_config.c:153-159 | When no sibling has the segment name a chain of fresh nodes is linked behind the last sibling. |
| `ConfigHeap.AtDepth` | DCServer/server/zz_config.c:267-281 | The owner of the latest sibling list at a level, or null exactly when the tree is not that deep on its right edge. |
| `ConfigHeap.Attach` | DCServer/server/zz_config.c:411-415 | The new node is linked below the latest node of the level and the heap holds the tree with the item attached there. |
| `ConfigHeap.LoadLine` | DCServer/server/zz_config.c:379-429 | One turn of the load loop on the heap agrees with one step of loading on trees, or reports an invalid line. |
| `ConfigHeap.LoadNext` | DCServer/server/zz_config.c:374-429 | A turn from the read of a line on keeps what the whole text gives and the count of lines of level 1. |
| `ConfigHeap.Load` | DCServer/server/zz_config.c:365-436 | Either the whole text is valid and the linked nodes hold the loaded tree below a node "root" without a value, or there is no tree; the root counts the lines of level 1. |
| `ConfigHeap.ConfigSave` | DCServer/server/zz_config.c:604-621 | Appends the line of one item, nothing for the root. |
| `ConfigHeap.Execute` | DCServer/server/zz_config.c:287-302 | The walk with the saving callback appends the line of the item and the text of everything below it in preorder. |
| `ConfigHeap.ExecuteKids` | DCServer/server/zz_config.c:293-301 | The loop over the children appends the text of all of them in order. |
| `ConfigHeap.Save` | DCServer/server/zz_config.c:579-600 | The file gets exactly the text of the tree. |
| `ConfigHeap.AttachLinked` | DCServer/server/zz_config.c:411-414 | Linking a node to the latest node of a level in the heap is attaching it in the tree; all other links stay. |
| `HttpParser.HttpRequest.Parse` | DCServer/client/pkt_parser.c:430-750 | The parser loop returns the code and leaves the record that the state machine computes on every payload; `HttpCodes.CodesExact` says which code that is. |
| `HttpParser.HttpRequest.EndOfName` | DCServer/client/pkt_parser.c:595-657 | The switch over the name length takes the step of the machine at the octet that ends a header name. |
| `HttpParser.HttpRequest.EndOfValue` | DCServer/client/pkt_parser.c:658-714 | The slice of the announced header is set to the value that ended; an unknown header state is reported. |
| `HttpParserFacts.StepKeepsInvariant` | DCServer/client/pkt_parser.c:454-747 | Every step from a state that satisfies the invariant keeps it, or stops with a sound record and a known code. |
| `HttpParserFacts.RunSound` | DCServer/client/pkt_parser.c:454-747 | From every such state, on every payload, all slices end up in order inside the payload and only ten return codes occur. |
| `HttpParserFacts.ParseSound` | DCServer/client/pkt_parser.c:430-763 | For every payload and every earlier content of the fields that are not cleared: all slices are sound, in order, inside the payload and on their line (the cookie slice once its end is no longer provisional), and that of the Content-Length is sound exactly if such a value reached its CR or the slice that stood there before happens to be; otherwise it still stands there. |
| `HttpParserFacts.RunKeepsLength` | DCServer/client/pkt_parser.c:430-763 | Parsing into a record with another Content-Length slice gives the same code and record but for that slice, which survives exactly if no such value is recorded. |
| `HttpParserFacts.PrintedLength` | DCServer/client/pkt_parser.c:642-703 | In a printed request a Content-Length is recorded exactly if a header announces it. |
| `HttpParserFacts.StaleLength` | DCServer/client/pkt_parser.c:757-763 | Illustration: a request without a Content-Length leaves a slice from before in the record, outside the payload. |
| `HttpParserFacts.RunHostLate` | DCServer/client/pkt_parser.c:454-714 | A host is recorded only after the URI was complete. |
| `HttpParserFacts.Incremental` | DCServer/client/pkt_parser.c:454-747 | Decisions use only octets already read: parsing a longer payload continues from where parsing its front ended. |
| `HttpParserFacts.HeaderPart` | DCServer/client/pkt_parser.c:595-714 | One printed header line takes the parser from line head to line head and records its value under the name it announces. |
| `HttpParserFacts.HeadersPart` | DCServer/client/pkt_parser.c:575-714 | After all printed headers each slice reads the value of the last header that announces it. |
| `HttpParserFacts.LinePart` | DCServer/client/pkt_parser.c:459-573 | A printed request line leaves the method and the slice of the URI. |
| `HttpParserFacts.PrintThenParse` | DCServer/client/pkt_parser.c:430-763 | For every well-formed request the parser returns 0 and finds the method, the URI, the body and the last value of Host, User-Agent, Referer, Cookie and Content-Length; a header that is not there leaves its slice unset, or for the Content-Length as it was before. |
| `HttpCodes.CodesExact` | DCServer/client/pkt_parser.c:430-750 | For every payload: each code other than 0 is returned if and only if the payload has a place of the kind described for it, and code 0 if and only if it has none; the body starts at an octet if and only if the head is complete before it. |
| `HttpCodes.RefusalRead` | DCServer/client/pkt_parser.c:454-747 | At every such place the parser stops with its code: 998 for no capital letter at the start, 13 inside the method, 12 for another method than GET and POST, 14 for no slash, 15, 16, 18 and 19 for a line end in the URI, 25 for a CR that starts no line end after the header fields. |
| `HttpCodes.ResultFound` | DCServer/client/pkt_parser.c:454-747 | Every code other than 0, and every start of the body, comes from such a place. |
| `HttpCodes.CompleteRead` | DCServer/client/pkt_parser.c:574-584 | Where an empty line ends the header fields the parser returns 0, and the body starts behind it. |
| `HttpCodes.UnknownMethod` | DCServer/client/pkt_parser.c:475-500 | A payload that starts with capital letters and a blank gives 12 if the word is neither GET nor POST. |
| `HttpCodes.TargetWithoutSlash` | DCServer/client/pkt_parser.c:501-517 | A target that does not start with a slash gives 14. |
| `HttpCodes.LineEndInUri` | DCServer/client/pkt_parser.c:519-542 | A CR inside the URI gives 15, a LF 16. |
| `HttpCodes.UriExact` | DCServer/client/pkt_parser.c:501-561 | The URI runs from its slash to the last octet before the blanks and the H of the version, with blanks inside it; the method is POST exactly if it is spelled so. |
| `HttpCodes.AnnouncesExact` | DCServer/client/pkt_parser.c:600-654 | A value is recorded exactly for the names Host and Cookie and for those of 7, 10 and 14 octets that start with "Refer", "User-" and "Conte". |
| `HttpCodes.CutCookie` | DCServer/client/pkt_parser.c:613-621 | A payload that ends in a Cookie value before its CR leaves a slice from behind the name to the end of the packet. |
| `PageHash.FoldRange` | DCServer/client/filter_rule_user_clean.c:127-172 | The loop over the octets of a slice folds exactly the cut text and leaves the counter advanced by its length. |
| `PageHash.FoldDigits` | DCServer/client/filter_rule_user_clean.c:117-125 | The loop over the address folds its decimal digits, lowest first. |
| `PageHash.FoldUrl` | DCServer/client/filter_rule_user_clean.c:138-172 | The prefix, the host and the URI are folded as one text cut at 200 octets, a length that `PageHash.PagesApart` shows to matter. |
| `PageHash.GetHash` | DCServer/client/filter_rule_user_clean.c:107-175 | The hash is the fold of one stream of address, user agent and URL; the laws below say which streams are equal and what the fold does with an octet. |
| `PageHash.KeyAgreement` | DCServer/client/filter_rule_user_clean.c:107-175 | A page stored by host and URI and a Referer that spells "http://", host and URI have the same three hashes, for all lengths. |
| `PageHash.PagesApart` | DCServer/client/filter_rule_user_clean.c:138-172 | For one user two pages give the same stream if and only if "http://", host and URI agree in their first 200 octets. |
| `PageHash.RefererExact` | DCServer/client/filter_rule_user_clean.c:138-172 | A Referer gives the stream of a page if and only if it agrees with its URL in the first 200 octets. |
| `PageHash.AgentsApart` | DCServer/client/filter_rule_user_clean.c:126-136 | For one address and page two user agents give the same stream if and only if they agree in their first 15 octets. |
| `PageHash.DigitsExact` | DCServer/client/filter_rule_user_clean.c:117-125 | The digits of an address spell it in decimal, the lowest first and no zero last. |
| `PageHash.AddressesApart` | DCServer/client/filter_rule_user_clean.c:117-125 | Different addresses have different digits. |
| `PageHash.StreamsApart` | DCServer/client/filter_rule_user_clean.c:107-175 | Two addresses with as many digits never give the same stream. |
| `PageHash.UsersConfused` | DCServer/client/filter_rule_user_clean.c:117-136 | Illustration: with another number of digits they can, as the digits run on into the user agent. |
| `PageHash.HashOfOne` | DCServer/client/filter_rule_user_clean.c:112-124 | The hash of one octet is the word of its stretch of the table xor the sum of both seeds. |
| `PageHash.HashOfThree` | DCServer/client/filter_rule_user_clean.c:112-124 | Illustration: the hash of "abc" over a table of zeros. |
| `PageCache.RunKeepsGood` | DCServer/client/filter_rule_user_clean.c:181-332 | Over every run of appends, checks and period ends: entries are in order of their serials, are marked sent exactly when their message is out, and no two generations share an entry. |
| `PageCache.EveryRunSendsOnce` | DCServer/client/filter_rule_user_clean.c:200-215 | From the start no remembered entry is ever sent twice, and only remembered entries are sent. A page can have two entries; `PageCache.DistinctExact` says when. |
| `PageCache.SecondEntryExact` | DCServer/client/filter_rule_user_clean.c:192-283 | An append remembers a page that is still held a second time if and only if B holds it, A does not, and A's bucket is occupied. |
| `PageCache.DistinctExact` | DCServer/client/filter_rule_user_clean.c:181-332 | Over every run no page is ever held twice if and only if no append of the run meets that condition. |
| `PageCache.SentPageStays` | DCServer/client/filter_rule_user_clean.c:181-332 | On such a run a page that was sent is not sent again for as long as its entry is held. |
| `PageCache.PageSentTwice` | DCServer/client/filter_rule_user_clean.c:194-251 | A run from the start on which a page is sent twice while its first entry is still held. |
| `PageCache.LookupExact` | DCServer/client/filter_rule_user_clean.c:194-251 | A key is found exactly if A holds it, or B holds it and A has nothing in its bucket. |
| `PageCache.CheckExact` | DCServer/client/filter_rule_user_clean.c:194-251 | A parent check answers -1 when it reaches no entry, -3 when the entry was sent, and -2 when it sends it now; then one message goes out, the entry is marked, and nothing else changes. |
| `PageCache.AppendExact` | DCServer/client/filter_rule_user_clean.c:194-283 | An append answers the bucket and adds one entry, not yet sent, at the end of the current generation, unless an entry with the key is reached. |
| `PageCache.FlipExact` | DCServer/client/filter_rule_user_clean.c:288-332 | The end of a period empties one generation and makes it the current one, A and B in turn. |
| `PageCache.FreshPageFound` | DCServer/client/filter_rule_user_clean.c:194-283 | A check right after an append sends the page if and only if the page went to A or its bucket of A is empty. |
| `PageCache.CheckKeepsLookup` | DCServer/client/filter_rule_user_clean.c:200-246 | A parent check changes neither what any lookup finds nor which buckets are occupied. |
| `PageCache.PageStays` | DCServer/client/filter_rule_user_clean.c:288-332 | An entry stays chained for the rest of its own period and the whole next one. |
| `PageCache.PageGoes` | DCServer/client/filter_rule_user_clean.c:288-332 | A period end empties exactly the generation that becomes current and keeps the other. |
| `PageCache.PageLifetime` | DCServer/client/filter_rule_user_clean.c:253-332 | A page appended in one period is held through the next and gone at the end of that. |
| `UserClean.OffsetFormula` | DCServer/client/filter_rule_user_clean.c:59-69 | The arena offset after k allocations is 32 times k modulo 1499969. |
| `UserClean.OverlapExact` | DCServer/client/filter_rule_user_clean.c:59-69 | Two allocations of one period share bytes if and only if a whole number of arenas was handed out between them. |
| `UserClean.ReuseExact` | DCServer/client/filter_rule_user_clean.c:59-283 | After the first node beyond the arena of a period the chain it was put in front of still ends if and only if the period's first entry was in another bucket. |
| `UserClean.FindFollowsChain` | DCServer/client/filter_rule_user_clean.c:194-251 | Following links goes from one entry of a bucket to the one before it. |
| `UserClean.Generation.Find` | DCServer/client/filter_rule_user_clean.c:194-251 | Walking a chain finds the latest entry with both hashes; the links never leave the arena of the generation. |
| `UserClean.Generation.Insert` | DCServer/client/filter_rule_user_clean.c:253-283 | Filling the node and putting it in front of its chain appends the entry; the counter equals the number of chained nodes. Beyond the arena the node of the first entry is filled again, and the table and all other nodes are as before. |
| `UserClean.Generation.Clear` | DCServer/client/filter_rule_user_clean.c:300-321 | Clearing the table forgets all entries of this generation only. |
| `UserClean.UserClean.AllocMem` | DCServer/client/filter_rule_user_clean.c:59-69 | Hands out the node at the current offset of the current arena and moves the offset. |
| `UserClean.UserClean.Search` | DCServer/client/filter_rule_user_clean.c:194-251 | The two searches over pointers find what the lookup on logs finds. |
| `UserClean.UserClean.InsertNode` | DCServer/client/filter_rule_user_clean.c:253-283 | The new node lies in the arena of the current generation and is remembered as its latest entry, or the arena is used out and the first node is filled again. |
| `UserClean.UserClean.CheckAppendHashed` | DCServer/client/filter_rule_user_clean.c:181-283 | Returns and does what an append or a check on the logs returns and does, with codes -1, -2 and -3, or uses the first node again exactly if the page is new and the arena full. |
| `UserClean.UserClean.TimeOut` | DCServer/client/filter_rule_user_clean.c:288-332 | A period end is the flip of the logs. |
| `UserClean.UserClean.CheckAppend` | DCServer/client/filter_rule_user_clean.c:181-190 | The three hashes of the payload slices form the key that is searched and, by an append, remembered; `UserClean.KeyExact` says how. |
| `UserClean.KeyExact` | DCServer/client/filter_rule_user_clean.c:186-190 | The hashes are cut to 32 bits, and the first one is taken modulo a million. |
| `UserClean.UserClean.CheckParent` | DCServer/client/filter_rule_user_clean.c:387-396 | A parent check looks up the key of the Referer text, in spite of the exchanged arguments. |
| `UserClean.UserClean.AppendQueue` | DCServer/client/filter_rule_user_clean.c:398-408 | An append uses the key of host and URI, in spite of the exchanged arguments. |
| `UserClean.UserClean.Handle` | DCServer/client/filter_rule_user_clean.c:410-439 | A parsed request is handled as one step on the logs: the page of its Referer is checked and its own page is appended, which uses the first node again exactly if the page is new and the arena full. |
| `UserClean.ParserKeepsPromise` | DCServer/client/filter_rule_user_clean.c:410-439 | The record of every parsed payload satisfies what the handler takes for granted about fields it does not test. |
| `UserClean.ClickChain` | DCServer/client/filter_rule_user_clean.c:181-439 | A page requested first, by a request with or without a Referer, and named as Referer next is sent by the second request if and only if it went to A or nothing of A is in its bucket. |
| `UserClean.NamesItself` | DCServer/client/filter_rule_user_clean.c:410-439 | A page that is not yet remembered and names itself as its Referer sends nothing: the check comes before the append. |
| `UserClean.PrintedPage` | DCServer/client/pkt_parser.c:430-763 | A printed request arrives at the cache as the page that its URI and its last Host, User-Agent and Referer spell. |
| `UserClean.PrintedIgnored` | DCServer/client/filter_rule_user_clean.c:410-439 | A printed request is ignored, and changes nothing, if and only if it has no Host or no User-Agent. |
| `UserClean.PrintedClickChain` | DCServer/client/filter_rule_user_clean.c:107-439 | The click chain from the octets of two printed requests to the message sent, whatever the parsed records held before. |
| `Recombine.WovenChars` | admanager/src/main/webapp/resources/js/prettify.js:1059-1155 | Without the tags the output is the source text, each character once, in order, in the style of the last decoration at or before it. |
| `Recombine.WovenStyle` | admanager/src/main/webapp/resources/js/prettify.js:1059-1155 | Each character is shown with the class name of the last decoration at or before it if there is one and its name is not empty, and without otherwise. |
| `Recombine.WovenTag` | admanager/src/main/webapp/resources/js/prettify.js:1059-1155 | The k-th tag stands after exactly as many characters as its position says and after exactly k tags. |
| `Recombine.WovenStretch` | admanager/src/main/webapp/resources/js/prettify.js:1082-1114 | A stretch of text between two positions is shown in the one style that holds there. |
| `Recombine.Recombiner.EmitTextUpTo` | admanager/src/main/webapp/resources/js/prettify.js:1082-1114 | Writes the text up to an index with spans balanced, not nested and not empty, in the current style. |
| `Recombine.Recombiner.EmitTag` | admanager/src/main/webapp/resources/js/prettify.js:1133-1141 | Text up to the tag, no span left open, then the tag. |
| `Recombine.Recombiner.TakeTag` | admanager/src/main/webapp/resources/js/prettify.js:1133-1141 | From a state in which the output shows the woven text and tags taken so far, the branch for a tag leads to one that has taken one tag more. |
| `Recombine.Recombiner.TakeDecoration` | admanager/src/main/webapp/resources/js/prettify.js:1142-1145 | The same for the branch of a decoration, which sets the style from there on. |
| `Recombine.Recombiner.Recombine` | admanager/src/main/webapp/resources/js/prettify.js:1059-1155 | The whole output reads as balanced flat spans without tags inside, and shows exactly the woven text and tags. |
| `CaseFold.Expand` | admanager/src/main/webapp/resources/js/prettify.js:405-435 | The ranges collected denote the original code points and the other case of their ASCII letters. |
| `CaseFold.SortCorrect` | admanager/src/main/webapp/resources/js/prettify.js:438-438 | Sorting by the comparator gives a sorted permutation. |
| `CaseFold.Consolidate` | admanager/src/main/webapp/resources/js/prettify.js:439-448 | Sorted ranges become disjoint, ordered ranges with gaps between them that denote the same code points. |
| `CaseFold.CaseFoldCharset` | admanager/src/main/webapp/resources/js/prettify.js:392-448 | The folded ranges are consolidated and denote exactly the original code points closed under ASCII case. |
| `CaseFold.FoldedLetters` | admanager/src/main/webapp/resources/js/prettify.js:405-435 | Each of the 26 letters is in the result in both cases if and only if it was there in one, and other code points are unaffected. |
| `CaseFold.ConsolidatedUnique` | admanager/src/main/webapp/resources/js/prettify.js:436-448 | Consolidated ranges are determined by the code points they denote. |
| `CaseFold.FoldOnce` | admanager/src/main/webapp/resources/js/prettify.js:392-448 | The folded ranges are unique, and folding them again changes nothing. |
| `Stacking.StackData` | admanager/src/main/webapp/resources/js/jquery.flot.stack.js:76-170 | The merge loop over both cursors pushes exactly the rows of the turn-by-turn specification. |
| `Stacking.TwoPoints` | admanager/src/main/webapp/resources/js/jquery.flot.stack.js:104-159 | The turn with a point on both sides pushes and advances as specified. |
| `Stacking.OtherFirst` | admanager/src/main/webapp/resources/js/jquery.flot.stack.js:117-130 | When the other series' point comes first, a point interpolated on the own line is pushed if there is one. |
| `Stacking.OwnFirst` | admanager/src/main/webapp/resources/js/jquery.flot.stack.js:132-152 | When the own point comes first, it is pushed on top of the interpolated line of the other series. |
| `Stacking.OnePoint` | admanager/src/main/webapp/resources/js/jquery.flot.stack.js:82-102 | The turns at a gap, or with the other series used up, push and advance as specified. |
| `StackedLines.BetweenPoints` | admanager/src/main/webapp/resources/js/jquery.flot.stack.js:117-148 | The value the plugin interpolates between two adjoining points is that of the piecewise linear function. |
| `StackedLines.ValueInRatio` | admanager/src/main/webapp/resources/js/jquery.flot.stack.js:117-148 | Between two adjoining points the value divides their rise as the key divides their distance. |
| `StackedLines.DomainExact` | admanager/src/main/webapp/resources/js/jquery.flot.stack.js:76-170 | A series has a value exactly at its points and between two adjoining ones. |
| `StackedLines.AtPoint` | admanager/src/main/webapp/resources/js/jquery.flot.stack.js:104-148 | At a point of the series the piecewise linear function has the value of the point. |
| `StackedLines.LinesAt` | admanager/src/main/webapp/resources/js/jquery.flot.stack.js:76-170 | From every state of the loop on, the rows still pushed behind the last one are as a function the sum of what is left of both series. |
| `StackedLines.LinesAreSums` | admanager/src/main/webapp/resources/js/jquery.flot.stack.js:76-170 | In line mode, for series with any gaps, the result is as a function of all real numbers the sum of both series, defined exactly where both are; its points stand in increasing order at exactly the keys of either series in that domain, with the sum and the raised bottom. |
| `StackedBars.BarsAreRaised` | admanager/src/main/webapp/resources/js/jquery.flot.stack.js:76-170 | In bar mode, for series with any gaps, every point is kept in order, raised by the bar of the other series at its key if there is one, and stands behind exactly the rows of its series before it and the gaps of the other series before its key; all other rows are gaps, and their number is exact. |
| `StackedBars.BarsInPlace` | admanager/src/main/webapp/resources/js/jquery.flot.stack.js:76-170 | On a series without gaps every row, point or gap, stays in its place. |
| `StackedBars.BarValues` | admanager/src/main/webapp/resources/js/jquery.flot.stack.js:104-116 | In bar mode a point at whose key the other series has one is raised by its value, and any other point is as it was. |
| `StackedBars.GapsCounted` | admanager/src/main/webapp/resources/js/jquery.flot.stack.js:82-102 | The gaps that stand before a point are exactly those of the other series with no point at or after its key before them. |
| `StackedBars.ReachedExact` | admanager/src/main/webapp/resources/js/jquery.flot.stack.js:76-170 | The gaps of the other series that are reached are those before the last point. |
| `StackedBars.LineGaps` | admanager/src/main/webapp/resources/js/jquery.flot.stack.js:76-170 | In line mode the result has as many gaps as the series and the other one before its last point. |
| `Checksum.InCksum2` | DCServer/client/pkt_sender.c:67-92 | Adding with a carry after each word gives the one's complement sum in network order, for even and odd lengths. |
| `Checksum.InCksum` | DCServer/client/pkt_sender.c:108-125 | Two folds of the carries give the complement of the one's complement sum in host order. |
| `Checksum.CalSum` | DCServer/client/pkt_sender.c:108-135 | The loop adds the little-endian words, with a last single octet. |
| `Checksum.SumsOfOctets` | DCServer/client/pkt_sender.c:67-135 | An octet at an even place counts 256 times in network order and once in host order, one at an odd place the other way round. |
| `Checksum.Example` | DCServer/client/pkt_sender.c:67-125 | Illustration: the example of section 3 of RFC 1071 in both byte orders. |
| `Checksum.SumsAgree` | DCServer/client/pkt_sender.c:67-125 | The sums in both byte orders are the same with their octets exchanged. |
| `Checksum.StoredAlike` | DCServer/client/pkt_sender.c:67-125 | Both routines store the same two octets, for every buffer of even or odd length. |
| `Checksum.Verifies` | DCServer/client/pkt_sender.c:108-152 | Storing the complement in a field that was zero makes the whole sum to 0xFFFF. |
| `PacketSender.CalTcpCksum` | DCServer/client/pkt_sender.c:137-153 | The checksum covers the pseudo-header and the segment. |
| `PacketSender.IpVerifies` | DCServer/client/pkt_sender.c:187-187 | An IP header completed with the wrapped sum sums to 0xFFFF. |
| `PacketSender.WriteIpHeader` | DCServer/client/pkt_sender.c:173-187 | The header holds its length, time to live, protocol and addresses in the octets of section 3.1 of RFC 791, sums to 0xFFFF, and nothing else changes. |
| `PacketSender.WriteTcpSegment` | DCServer/client/pkt_sender.c:189-202 | The segment holds its ports, numbers and flags in the octets of section 3.1 of RFC 793 and its content, sums to 0xFFFF with the pseudo-header, and nothing else changes. |
| `PacketSender.ForgeTcpPacket` | DCServer/client/pkt_sender.c:156-204 | Every octet of the forged frame: hardware addresses, both headers field by field, content, and zero behind them; both checksums verify, that of TCP over the listed octets of the pseudo-header. |
| `Md5.IndexOfCount` | DCServer/server/md5.c:21-21 | The buffer index taken from the low count word is the number of bytes fed modulo 64. |
| `Md5.CountAdds` | DCServer/server/md5.c:23-26 | The two count words with the carry found by comparing hold the bit length modulo 2 to the 64. |
| `Md5.PaddedOctets` | DCServer/server/md5.c:42-52 | The padded message: an octet 0x80, zeros, and the length in bits modulo 2 to the 64 in eight octets, lowest first; it is as short as complete blocks allow. |
| `Md5.DigestOctets` | DCServer/server/md5.c:9-52 | The digest: from the four initial words on, each block of the padded message gives the next state, and the octets of the last one are put out lowest first. |
| `Md5.WrapReadsOn` | DCServer/server/md5.c:32-33 | Without the no-wrap condition the loop makes all its proper turns and then one that reads behind the input. |
| `Md5.NoWrapExact` | DCServer/server/md5.c:32-33 | The no-wrap condition is exact: it holds if and only if no turn that the loop makes reads behind the input. |
| `Md5.Context.constructor` | DCServer/server/md5.c:9-17 | A new context holds the empty message. |
| `Md5.Context.Blocks` | DCServer/server/md5.c:32-33 | The loop folds all complete blocks and stops with less than a block left. |
| `Md5.Context.CompleteBlocks` | DCServer/server/md5.c:28-34 | The buffer is completed from the input and the state is that of all complete blocks of the message. |
| `Md5.Context.Update` | DCServer/server/md5.c:18-41 | The context holds exactly what MD5 needs of the old message followed by the input: count, chaining state and the live part of the buffer. |
| `Md5.Context.Final` | DCServer/server/md5.c:42-52 | The output is the encoded fold of the block function over the message padded as in sections 3.1 and 3.2 of RFC 1321. |
| `Md5.SplitsAgree` | DCServer/server/md5.c:18-41 | Any two ways to feed the same message leave the same count, state and live buffer. |
| `Md5.FedTail` | DCServer/server/md5.c:34-40 | What an update leaves in the buffer is the rest of the message after its complete blocks. |
| `PopFilter.Filter.IsSend` | DCServer/server/filter_rule_pop.c:746-815 | The first request of a key is sent; a later one exactly if the limits on pop-ups and confirmations are not reached and the delay for the last mark is over, the target copies counting every second request; the record kept stands for the history afterwards. |
| `PopFilter.Filter.Consider` | DCServer/server/filter_rule_pop.c:757-814 | The decision that looks at the user record, with and without a record, is that of the history, for which `PopFilter.DueExact` gives the rule. |
| `PopFilter.Filter.OneMorePop` | DCServer/server/filter_rule_pop.c:766-805 | The updated record exists exactly when the history allows one more pop-up, and stands for the longer history. |
| `PopFilter.DueExact` | DCServer/server/filter_rule_pop.c:766-805 | With a history a request is allowed if and only if the pop-ups and the confirmations, counted, are below their limits and the time since the last mark is at least the delay after a confirmation, or the confirmation delay after a pop-up. |
| `PopFilter.Filter.PassBack` | DCServer/server/data_pass_back.c:64-89 | A confirmation is added to the history of a key with a record and ignored for others. |
| `PopFilter.SharedExact` | DCServer/server/filter_rule_pop.c:758-762 | Two pairs of advertisement and user agent share one record if and only if what one advertisement has more than the other is the front of the other's user agent and the rest agrees. |
| `PopFilter.SharedRefused` | DCServer/server/filter_rule_pop.c:763-811 | The first request of such a pair is decided by the other pair's pop-up. |
| `PopFilter.FactTimes` | DCServer/server/data_pass_back.c:64-89 | The kept confirmation time is non-zero exactly if a confirmation came since the last pop-up, and is then the time of the latest one; every confirmation is counted. |
| `PopFilter.PopsBounded` | DCServer/server/filter_rule_pop.c:766-769 | There are never more pop-ups than the limit, or one if the limit is lower. |
| `PopFilter.NoPopAfterFacts` | DCServer/server/filter_rule_pop.c:770-805 | Once the confirmations reach their limit no further pop-up happens, whatever follows. |
| `PopFilter.PopsSpaced` | DCServer/server/filter_rule_pop.c:772-803 | A pop-up keeps the delay after the latest confirmation of the one before it, or the confirmation delay after the one before it if there was none. |
| `PopFilter.PopRate` | DCServer/server/filter_rule_pop.c:746-815 | If both clocks agree, n pop-ups take at least n - 1 times the shorter delay. |
| `Base64.FindPos` | DCServer/server/base64.c:74-78 | The search finds the last place of the character in the alphabet: 64 for the padding sign, 65 for the NUL that ends it, none for others. |
| `Base64.PlaceExact` | DCServer/server/base64.c:74-78 | A place is found exactly for its own character. |
| `Base64.AlphabetExact` | DCServer/server/base64.c:6-78 | The 64 places and their characters, as section 4 of RFC 4648 lists them. |
| `Base64.Encode` | DCServer/server/base64.c:8-72 | The loops write the encoding of section 4 of RFC 4648, group by group. |
| `Base64.Decode` | DCServer/server/base64.c:80-154 | The loops write the octets of the characters before the padding signs, for every text whose characters the search finds, also when padding signs or NULs stand among them. |
| `Base64.EqualsCounted` | DCServer/server/base64.c:91-102 | As many characters are left out at the end as there are padding signs at the last three places. |
| `Base64.GroupOctets` | DCServer/server/base64.c:126-150 | The octets of a group of one to four characters, eight bits each from the sextets, first to last. |
| `Base64.GatheredPlaces` | DCServer/server/base64.c:126-138 | Shifting and or-ing four places, some of seven bits, gives the number of what each character contributes, and one bit above it. |
| `Base64.PlaceKeptExact` | DCServer/server/base64.c:126-138 | A character counts as its own place if and only if it is in the alphabet and no padding sign or NUL follows it in its group, unless its place is odd. |
| `Base64.EncodedLength` | DCServer/server/base64.c:8-72 | The encoding of n bytes has 4 times n/3 rounded up characters. |
| `Base64.EncodedPadding` | DCServer/server/base64.c:53-66 | The encoding ends in exactly the padding signs that its length asks for. |
| `Base64.EncodedPayload` | DCServer/server/base64.c:8-72 | The characters before the padding are in the alphabet and stand for the sextets of the bytes. |
| `Base64.ShortVectors` | DCServer/server/base64.c:35-67 | Illustration: the test vectors of section 10 of RFC 4648 for texts of one group. |
| `Base64.LongVectors` | DCServer/server/base64.c:35-67 | Illustration: the test vectors for texts of two groups. |
| `Base64.LastCharacters` | DCServer/server/base64.c:35-67 | Illustration: texts whose encodings use the last two places, "+" and "/". |
| `Base64.GroupRoundTrip` | DCServer/server/base64.c:35-150 | A group comes back, followed by a zero byte if it was not full. |
| `Base64.RoundTrip` | DCServer/server/base64.c:8-154 | Decoding an encoding gives the bytes back, followed by one zero byte when their number is no multiple of three; text without a zero byte comes back as the same C string. |

## Left out

- ConfigHeap.Load: files and memory; the text of the file is a parameter, a tree that is given up is not freed, and items without a name, printed as "(Unnamed)", are not part of the model.
- ConfigHeap.Save: opening, flushing and closing the file; printing never fails.
- HttpParser.HttpRequest.Parse: octets are characters and pointers are indices; the content pointers, the packet headers of `http_parser_level_1` and the state for ignored lines, which no step enters, are not used.
- HttpParserFacts.PrintThenParse: header values that hold CR are outside the printer; `HttpParserFacts.ParseSound` and `HttpParserFacts.Incremental` hold for every payload.
- PageHash.GetHash: the words of the table, which `user_clean_init_ip_ua_url_crypt_table` fills, are a parameter.
- UserClean.UserClean.Handle: calls after one that went beyond the arena of a period, until that generation is cleared (`UserClean.ReuseExact` describes its chains); one thread, no timer; a sent message is an entry of a log. The arena of the message texts, whose size overflows an int, is not part of the model.
- Recombine.Recombiner.Recombine: a text chunk is a pair of indices; its rendering as HTML, tabs and non-breaking spaces are left out, and positions are sorted and inside the source, as the callers provide them.
- CaseFold.CaseFoldCharset: the set is given as its ranges, each from its lower to its upper end; cutting the pattern text into escapes and printing the result are left out. The array's sort is an insertion sort by the same comparator.
- Stacking.StackData: rows instead of a flat array of columns, real numbers instead of floating point, no adjoining points with equal keys, for which the code divides by zero, and no steps, horizontal bars or search for the series below.
- Checksum.CalSum: `cal_sum` on an odd number of bytes would read one byte more; it is only called on the pseudo-header. `cal_sum2` has no caller.
- PacketSender.ForgeTcpPacket: sending the frame; the content fits the 16-bit total length.
- Md5.Context.Update: the block function of section 3.4 of RFC 1321 is a parameter of the context.
- PopFilter.Filter.IsSend: one machine with its limits stands for the four copies; the counters per advertisement, splitting of messages, the choice of a thread and overflow of int counters are left out.
- PopFilter.Filter.PassBack: the clock of the confirmations is past zero.
- Base64.Decode: characters that the search does not find, for which the code subtracts the alphabet from NULL, and texts of less than three characters, in front of which it reads.
- Allocation failures, logging, ZeroMQ, Redis, packet capture, configuration loaders and the user interface are not part of this model.
- The chained hash table of `tool_hash_map.c` would add an easier variant of the tables above; the range search of `ip2address.c` is left out.
