# Privoxy: verified models of its algorithmic cores

Privoxy is a filtering HTTP proxy written in C. This project models seven of
its cores in Dafny and proves what they are for. A method follows the loops and
in-place updates of the C function it models and is proved equal to a
mathematical function; the main theorems are about those functions.

Check everything with `dafny verify dfyconfig.toml`.

## The cores

**The action algebra** (`StringLists`, `Bits`, `Actions`, `ActionObjects`,
`ActionTable`, `ActionConstants`, `ActionParser`, `ActionTokens`, `ActionSyntax`,
`ActionReading`, `ActionAcceptance`, `ActionEffects`, `ActionAliases`, `ActionText`). An action specification is a partial update of the actions in
force: mask and add bits, optional strings, and for each multi action a "remove
all" flag, a remove list and an add list. Composing specifications is
associative and agrees exactly, including the order of every list, with
applying them one after another. An alias is a macro: a parsed line does what
its tokens do one by one with all aliases written out. Which lines are accepted, and
what each action does to the actions in force, is said for every line and action. What `actions_to_text`
prints is read back; the exact conditions on values and lists are given. Lists
and specifications are heap objects, as in the source.

**Actions files** (`ActionsFileText`, `ActionsFileDisagreement`, `ActionsFileMeaning`,
`ActionsFileEdits`, `ActionsFileEffects`, `EditableFiles`). The editor's parser and the loader are two readers of one
format. They agree on the rules of a file wherever they parse the same text, and two
files show that they differ where they do not; every sequence of edits leaves a file
that the parser accepts with the line types the editor tracks; swapping two
sections is pointer surgery on a linked list that loses no line and is its own
inverse. A section of an accepted file means its actions with the aliases of the
file written out.

**Chunked transfer coding** (`Chunked`, `ChunkedResume`, `ChunkedStream`; section 4.1
of RFC 7230). The scan for completeness and the in-place decoder walk in step, and
decoding undoes encoding. A complete buffer stays complete, and a resumed scan agrees
with one from the start, as long as later bytes cannot change a number that has been
read; `sscanf` reads on behind a blank size line, so they sometimes can. `chat` sees
the end of data that arrives in parts unless it empties its buffer too early. Sizes
of 2^31 and more break the lockstep of scan and decoder. The conditions are given,
each with an input on which the property fails.

**GIF de-animation** (`Gif`, `GifBuffers`, `GifFormat`; sections 17 to 27 of the GIF89a
specification). For every GIF written out by the standard the output is the
GIF with the chosen image only; for all other data it has the documented shape, and
de-animating it again in either mode gives the same bytes.

**The connection pool** (`Connections`, `ConnectionSharing`). The table of
reusable connections, one method per critical section, and a state machine of any
number of threads whose steps are those sections in any order. Environment
assumptions: a new socket number is not one that is open, a thread remembers or
forgets only its own socket, and it forgets a socket before it closes it. The last
one is not kept by `chat` for an inspected HTTPS connection (jcc.c:4595-4612), which
closes the server socket without forgetting it; a run that shows what then goes wrong
is given.

**The SOCKS5 client** (`Socks5`; RFC 1928 and RFC 1929). A server that reads what
the client sent finds the method list, the credentials and the target; the client
reads exactly one whole reply and never writes past its buffer.

**Access control and encoders** (`Acl`, `Encode`). The octet loop compares exactly
the leading bits of two numbers. URL and HTML encoding lose nothing, and percent
encoding needs one pass only.

Where the code and its documentation differ, the code is followed. A comment in
`edit_parse_actions_file` says that blank lines occur at the end of a file only,
while the parser accepts them anywhere: so does the model. The description of
`gif_deanimate` names the last image only, while the graphic control extensions
before it are kept too, and an extension behind the last image makes it fail.
RFC 1928 allows domain names of any length in a reply, while the client gives up
on some. `sscanf("%x")` on "0x" without a digit is taken to fail, as the C
standard has it, and `char` is taken to be signed where the SOCKS5 client widens it.

## Model

| member | source | states |
|---|---|---|
| Text.EqualsIgnoreCase | miscutil.c:281-296 | `strcmpic` is zero exactly when the lengths are equal and all characters agree up to case |
| Text.ChompIsSlice | miscutil.c:348-384 | `chomp` keeps a slice that contains every character other than whitespace |
| Text.ChompFixpoint | miscutil.c:348-384 | `chomp` changes a string exactly when it has whitespace at an end, and its result never does |
| StringLists.StringList.Enlist | list.c:219-256 | the list afterwards is the list before with the string at its end; links and `last` stay correct |
| StringLists.StringList.EnlistUnique | list.c:332-369 | the string is appended exactly if no equal one is in the list, or none with the same first characters if their number is given |
| StringLists.StringList.RemoveAll | list.c:455-473 | the list is empty afterwards |
| StringLists.StringList.RemoveItem | list.c:569-613 | all equal strings disappear, the others keep their order, the count is the number removed |
| StringLists.StringList.RemoveList | list.c:631-653 | all strings of the other list disappear, in one pass per string, with the total count |
| StringLists.StringList.Duplicate | list.c:672-750 | the copy has the same strings in the same order, in fresh entries |
| StringLists.StringList.AppendListUnique | list.c:770-797 | the strings of the other list that are missing are appended in their order |
| StringLists.WithoutAllDistributes | list.c:631-653 | removing a list after appending uniquely equals appending uniquely after removing from both parts |
| StringLists.AddAllUniqueAssociative | list.c:770-797 | unique appending is associative, order included |
| StringLists.WithoutAllTwice | list.c:631-653 | removing one list and then another is removing their unique union |
| Bits.OnMerge | actions.c:149-151 | merging, flag by flag: kept by the mask or set by the add word |
| Bits.SameFlags | project.h:538-606 | a word of flags is determined by its flags |
| ActionTable.NamesDiffer | actionlist.h:53-150 | the names of any two standard actions differ, in any case |
| ActionTable.AboutTheLine | actionlist.h:53-150 | each standard action has a printable name of its own, its own bit or its own list |
| ActionConstants.FlagsAreNamed | project.h:546-606 | each flag of project.h belongs to the action of that name |
| ActionConstants.StringsAreNamed | project.h:609-647 | each string belongs to the action of that name |
| ActionConstants.ListsAreNamed | project.h:657-675 | each list belongs to the action of that name |
| ActionConstants.SpellingsMean | actionlist.h:141-148 | the four alternative spellings do what the actions do that they stand for |
| Actions.ApplyMerge | actions.c:143-197 | applying two specifications in turn equals applying their merge, exactly, with the order of every list |
| Actions.MergeAssociative | actions.c:143-197 | merging is associative |
| Actions.ApplyAllIsOneMerge | actions.c:742-784 | any number of specifications applied in turn is one application of their merge |
| Actions.ActionsAreOneMerge | filters.c:2839-2905 | starting from nothing said, all matching rules together are one specification |
| ActionEffects.RuleCounts | filters.c:2879-2905 | a rule counts once if its pattern matches the URL and once more if it matches a client tag, in order |
| Actions.FilesInTurn | filters.c:2839-2863 | file by file is the same as all rules in one list, up to the first missing file |
| ActionObjects.ActionSpec.MergeActions | actions.c:143-197 | the mutable specification becomes the merge of its old value and the source |
| ActionObjects.ActionSpec.CopyAction | actions.c:214-245 | the destination takes the source's value and shares no list entry with it |
| ActionObjects.MergeCurrentAction | actions.c:742-784 | the current actions become the old ones with the specification applied |
| ActionObjects.ApplyUrlActions | filters.c:2879-2905 | every rule that matches by URL or client tag is applied, in order |
| ActionObjects.GetUrlActions | filters.c:2839-2863 | over any rule files, the actions for a request are one application of the merge of all matching rules in order |
| ActionTokens.GetActionToken | actions.c:337-423 | the walk over the line finds exactly the next token, or reports the end or an error |
| ActionSyntax.NameIsRead | actions.c:337-423 | a name is read up to the end of the line or the next blank; a closing brace behind it is an error |
| ActionSyntax.ValueIsRead | actions.c:370-423 | a value is read up to the first closing brace that no backslash precedes, trimmed and without the escaping backslashes |
| ActionSyntax.UnclosedIsBad | actions.c:388-408 | a value without such a brace is an error |
| ActionTokens.GetActionsOfTokens | actions.c:480-679 | parsing a line is parsing its tokens one by one |
| ActionAcceptance.SameInAnyCase | miscutil.c:281-296 | names count as equal if every letter is the same, or one the capital of the other |
| ActionAcceptance.TokenOutcome | actions.c:503-673 | the same for a single token |
| ActionAcceptance.WhenAccepted | actions.c:480-679 | for every line and aliases: the line is accepted exactly if it has no syntax error and every token is a standard action with a value it takes, an alias, or one of the seven obsolete actions; it ends the program exactly if a renamed action comes before anything else that is wrong |
| ActionEffects.ActionDoes | actions.c:510-634 | what every standard action does to the actions in force: its own flag goes on or off, its string is replaced, its list gains a value, loses one or is emptied, and nothing else changes |
| ActionReading.FindActionName | actions.c:503-509 | the search through the table finds the first name that is equal up to case |
| ActionReading.PerformEntry | actions.c:510-634 | the `switch` over the value type updates bits, strings and lists in place as the algebra says, or fails |
| ActionReading.ReadActions | actions.c:480-679 | `get_actions` on a mutable specification, aliases included, ends as the function does with the same value; ActionAcceptance.WhenAccepted says with which ending |
| ActionParser.FoundEntryOk | actions.c:93-119 | an entry of the table touches no string flag but its own, and only in the direction of its sign |
| ActionAliases.PerformIsCoherent | actions.c:510-634 | parsing keeps the invariant: an add bit has its string, a string has its add bit or a cleared mask bit |
| ActionAliases.MergeIsCoherent | actions.c:143-197 | merging keeps the same invariant |
| ActionAliases.PerformIsApply | actions.c:510-634 | performing one more action on a specification is applying it afterwards |
| ActionAliases.ApplyRespectsSimilar | actions.c:742-784 | states that cannot be told apart stay so under every specification |
| ActionAliases.AliasesAreMacros | actions.c:480-679 | for every token list and alias table, the parsed line equals its tokens one by one with aliases, nested ones too, written out |
| ActionText.ValueRoundTrip | actions.c:400-420 | a value printed between braces is read back exactly if it is trimmed and has no brace or backslash where they are taken for syntax |
| ActionText.PrintThenParse | actions.c:1662-1730 | printing, joining continued lines and parsing gives the specification with its mask widened, unused strings dropped and lists normalised |
| ActionText.ReadBackHasSameEffect | actions.c:1662-1730 | what is read back has the same effect on every state, and on each orderly list that adds nothing it removes also with the same order |
| ActionText.ReadBackIsExact | actions.c:1662-1730 | an orderly list update is read back unchanged exactly if nothing is both removed and added |
| ActionText.ReadBackKeepsEffect | actions.c:1662-1730 | an orderly list update has the same effect after printing and reading, order included, on all lists exactly if nothing is both removed and added |
| ActionText.ParsedIsOrderly | actions.c:480-679 | every list of a parsed specification is orderly, whatever aliases it uses; without aliases it removes nothing it adds and is read back exactly |
| ActionText.PerformKeepsOrder | actions.c:575-628 | parsing standard actions keeps lists orderly and disjoint |
| ActionText.OverlapLosesItsOrder | actions.c:177-190 | a merge can leave a value both removed and added; printing it then loses where the value belongs |
| ActionsFileEffects.WhenSplit | cgiedit.c:1033-1086 | a line is split exactly if it has an equals sign that is not its first character |
| ActionsFileEffects.SplitMeans | cgiedit.c:1033-1086 | it is cut at the first equals sign, without the blanks on both sides |
| ActionsFileEffects.EntryMeans | cgiedit.c:1111-1374 | in every block, which lines without a brace at their start are accepted, and as what |
| ActionsFileEffects.HeaderMeans | cgiedit.c:1111-1374 | which headers are accepted: of blocks that may still come, and of sections whose actions are accepted |
| ActionsFileEffects.BlockNameMeans | cgiedit.c:969-1011 | the name of a block in double braces, in any case and with blanks around it, is its header |
| ActionsFileText.LoadOneActionsFile | actions.c:1282-1620 | the loop with its mode variable ends with the rules, aliases and mode of the line-by-line function, or fails exactly if that does |
| ActionsFileText.HeaderIsBlock | cgiedit.c:969-1011 | a block header for the editor is one for the loader |
| ActionsFileText.ChompIsTrimBlanks | cgiedit.c:1309-1318 | the editor's trimming equals `chomp` exactly where it leaves no whitespace at the ends |
| ActionsFileText.SameTextIsParsed | actions.c:1559-1563 | editor and loader give the same text to `get_actions` exactly if that holds of a header and an alias fits the loader's buffer |
| ActionsFileText.LoaderAgrees | actions.c:1282-1620 | where both readers parse the same text, a file the editor accepts is loaded exactly if its patterns compile, its settings are supported and no alias is empty, with the same patterns and actions in the same order |
| ActionsFileDisagreement.LongAliasIsReadDifferently | actions.c:1559-1563 | a file with an alias longer than the loader's buffer: both readers accept it and give its only pattern different actions |
| ActionsFileDisagreement.TabbedNameIsReadDifferently | cgiedit.c:1309-1318 | a file with a vertical tab behind the actions of a header: both readers accept it and give its only pattern different actions |
| ActionsFileText.ModeNeverDecreases | actions.c:1235-1255 | the loader's mode never decreases |
| ActionsFileMeaning.AliasesAreDefined | cgiedit.c:1209-1276 | the aliases known at a line are those defined above it, newest first |
| ActionsFileMeaning.SectionMeansItsExpansion | cgiedit.c:1278-1369 | applying a section of an accepted file is performing its actions one by one with the file's aliases written out |
| ActionsFileEdits.UrlSpecIsPatternText | cgiedit.c:1818-1922 | a pattern from the user is trimmed, non-empty, on one line, no header and no continued line |
| ActionsFileEffects.UrlSpecMeans | cgiedit.c:1818-1922 | which parameters are taken as patterns, and how one that ends with a backslash is completed |
| ActionsFileEffects.AddUrlMeans | cgiedit.c:3671-3684 | the pattern is added right behind the header with the number, or nothing is done |
| ActionsFileEffects.RemoveUrlMeans | cgiedit.c:3764-3797 | exactly the pattern with the number is dropped |
| ActionsFileEffects.AddSectionMeans | cgiedit.c:3998-4080 | the empty section goes in front of the next header, or to the end |
| ActionsFileEffects.RemoveSectionMeans | cgiedit.c:3874-3919 | exactly the header with the number is dropped, if no pattern follows it |
| ActionsFileEffects.SwapMeans | cgiedit.c:4180-4284 | two whole sections, given the numbers of their headers in any order, change places |
| ActionsFileEffects.PatternStandsForNext | cgiedit.c:4180-4284 | the number of a pattern in the first section stands for the section behind it |
| ActionsFileEdits.TracksIsParse | cgiedit.c:1111-1374 | tracked types are right exactly if the parser accepts the texts with these types |
| ActionsFileEdits.AddUrlKeepsGrammar | cgiedit.c:3671-3684 | a pattern added behind a header keeps the file in the grammar |
| ActionsFileEdits.RemoveUrlKeepsGrammar | cgiedit.c:3764-3797 | removing a pattern does |
| ActionsFileEdits.AddSectionKeepsGrammar | cgiedit.c:3998-4080 | adding an empty section in front of a header or at the end does |
| ActionsFileEdits.RemoveSectionKeepsGrammar | cgiedit.c:3874-3919 | removing a header without patterns does, also when blank lines stay behind |
| ActionsFileEdits.SwapKeepsGrammar | cgiedit.c:4180-4284 | swapping two sections does |
| ActionsFileEdits.EditsKeepGrammar | cgiedit.c:1111-1374 | after any sequence of edits the parser accepts the file again with exactly the tracked types |
| ActionsFileEdits.SwapTwice | cgiedit.c:4180-4284 | swapping again at the lines where the two sections now start restores the file |
| EditableFiles.EditableFile.EditParseActionsFile | cgiedit.c:1111-1374 | the parser's loops mark every line with the type and actions the grammar gives it, and fail exactly if the grammar does |
| EditableFiles.EditableFile.AddUrl | cgiedit.c:3646-3684 | the new line is linked in behind the header with the given number, or nothing changes |
| EditableFiles.EditableFile.RemoveUrl | cgiedit.c:3764-3797 | the pattern with the given number is unlinked, or nothing changes |
| EditableFiles.EditableFile.AddSection | cgiedit.c:3998-4080 | an empty section is linked in behind a section or before all of them, or nothing changes |
| EditableFiles.EditableFile.RemoveSection | cgiedit.c:3874-3919 | the header of a section without patterns is unlinked, or nothing changes |
| EditableFiles.EditableFile.SwapSections | cgiedit.c:4180-4284 | pre, S1, mid, S2, post becomes pre, S2, mid, S1, post by relinking, with every node kept, also for an empty mid or pre |
| Chunked.NumberIsRead | filters.c:2187-2206 | `%x` reads spaces, a sign, a prefix and digits of either case, written as indexes into the literal digits, as their value: negated behind a minus sign, cut at 2^64, kept modulo 2^32 |
| Chunked.WhenNumberIsRead | filters.c:2187-2206 | a number is read exactly if the text has these parts |
| Chunked.PrintedSizeIsRead | filters.c:2187-2206 | every size below 2^32 printed in base 16, in either case, is read back |
| Chunked.GetBytesMissingFromChunkedData | filters.c:2248-2279 | the scanning loop returns 0, a valid offset or -1 as the recursive walk does |
| Chunked.RemoveChunkedTransferCoding | filters.c:2324-2438 | in place, for every input: outcome and bytes are those of a decoder on an untouched copy, so nothing is overwritten before it is read |
| Chunked.CompleteIsDecoded | filters.c:2324-2438 | when the scan returns 0, the decoder succeeds exactly if every size the scan meets is below 2^31, and then yields exactly the chunk data, of the summed size |
| Chunked.WellChunkedIsComplete | filters.c:2157-2225 | the scan reports completeness for all well-formed data |
| Chunked.HugeSizeMisleadsTheScan | filters.c:2199-2206 | an input whose size field is 0xFFFFFFFF: complete for the scan, an error for the decoder |
| ChunkedResume.Answer | filters.c:2248-2279 | where the scan stops it answers 0 at a last chunk, the end of a chunk that reaches past the buffer, or the line passed last |
| ChunkedResume.CompleteStays | filters.c:2248-2303 | a complete buffer stays complete whatever is appended, exactly if the number of the last size line the scan meets ends before the buffer does |
| ChunkedResume.BlankLineUndoesComplete | filters.c:2173-2224 | a complete buffer with blank lines in front of its last number, which one more digit makes incomplete |
| ChunkedResume.ResumeIsSound | filters.c:2248-2279 | whatever is appended, the scan gives the same verdict from the offset it returned and from its start, if later bytes can change no number passed before that offset; and only if, where each number they can change is below 2^32 |
| ChunkedResume.LargeNumbersMayGrow | filters.c:2189-2224 | a buffer that ends inside a number above 2^32, for which both scans agree whatever is appended: there the condition is not necessary |
| ChunkedResume.BlankLineMisleadsResume | filters.c:2173-2188 | a buffer with a blank size line: from the returned offset an extension is complete, from the start it is not |
| ChunkedStream.StreamedScan | jcc.c:3815-3868 | however data without blank size lines is split, and whenever the buffer is emptied, `chat` sees the end exactly if a scan of all data does and the buffer was never emptied with a chunk offset below the bytes in it |
| ChunkedStream.EarlyDiscardLosesTheEnd | jcc.c:3815-3831 | well-formed data in two parts: the buffer is emptied while the last size line arrives, the chunk offset wraps around, and the end is not seen |
| Chunked.DecodeUndoesEncode | filters.c:2324-2438 | for all non-empty chunks whose size is written in base 16 in either case and with any leading zeros, extensions and trailers, the scan returns 0 and the decoder yields the concatenated data |
| Gif.OutputShape | deanimate.c:327-491 | the output is header, global colour table, the graphic control extensions since the previous image, the first or last image, and a trailer; exact condition for failure |
| Gif.Idempotent | deanimate.c:327-491 | de-animating an output in either mode gives the same bytes |
| Gif.ImageIsLocal | deanimate.c:255-305 | an image is read the same, whatever follows it |
| GifFormat.MapIsTable | deanimate.c:362-376 | the flags of a colour table announce exactly three bytes for each of its 2^(N+1) entries |
| GifFormat.DataAtTheEnd | deanimate.c:215-238 | sub-blocks at the very end of the data are read but not skipped |
| GifFormat.LastPictureIsKept | deanimate.c:327-491 | for every GIF written out by the standard: the last picture with the graphic control extensions since the one before it, the head with its colour table of 2^(N+1) entries, and a trailer |
| GifFormat.FirstPictureIsKept | deanimate.c:327-491 | for every such GIF: the first picture with the graphic control extensions before it |
| GifFormat.NothingIsKept | deanimate.c:327-491 | there is no output exactly if there is no picture, or the last one is wanted and a graphic control extension without a picture follows |
| GifBuffers.BinBuffer.Extend | deanimate.c:91-113 | room for the bytes, in steps of 1024, with what was written kept |
| GifBuffers.BinBuffer.CopyFrom | deanimate.c:132-169 | copies exactly the next bytes and advances both offsets, or changes nothing; the offset never passes the size |
| GifBuffers.BinBuffer.SkipDataBlock | deanimate.c:215-238 | skips to behind the empty sub-block, or fails when it would come too near the end |
| GifBuffers.ExtractImage | deanimate.c:255-305 | appends exactly one image, trims and rewinds; fails exactly if the image is not all there |
| GifBuffers.OneBlock | deanimate.c:386-467 | one turn of the loop, with discarding of the buffered image |
| GifBuffers.GifDeanimate | deanimate.c:327-491 | fails exactly if the function on bytes does, and otherwise appends its result to the destination |
| Connections.MatchesMeans | gateway.c:394-482 | a connection matches exactly if host, port, forwarder type, gateway host and port, both credentials, and forward host and port agree: numbers are equal, texts unset in both or equal up to case at every index |
| Connections.MatchesIsEquivalence | gateway.c:394-482 | matching destinations is an equivalence, though strings are compared without regard to case |
| Connections.Pool.MarkConnectionUnused | gateway.c:620-650 | only the in-use flag and the time of the socket's slot change, outright; the source's assertion holds |
| Connections.Pool.StoreConnection | gateway.c:197-278 | the first free slot, fully cleared before, holds exactly the connection, not in use; the source's assertions hold |
| Connections.Pool.ForgetConnection | gateway.c:330-355 | the slot of the socket is cleared, all others stay |
| Connections.UnusableMeans | gateway.c:499-549 | an idle connection is closed exactly if its socket is dead, or its idle time and half its latency exceed the time the server keeps it open |
| Connections.Pool.CloseUnusableConnections | gateway.c:499-549 | closes exactly the idle connections that timed out or died, clears their slots and counts the idle ones left |
| Connections.IdleCountMeans | gateway.c:499-549 | the number returned is that of the open connections not in use |
| Connections.Pool.TakeReusable | gateway.c:575-604 | hands out the first idle connection for which those nine details agree and marks only it, or changes nothing if there is none |
| ConnectionSharing.StepKeepsInv | gateway.c:182-355 | every critical section and every step between them keeps the invariant |
| ConnectionSharing.OneHome | gateway.c:499-650 | over every run, each open socket is held by exactly one thread and offered by no slot, or held by none and offered by exactly one slot |
| ConnectionSharing.NothingElse | gateway.c:295-315 | over every run, slots and threads name open sockets only, and a slot without one is fully cleared |
| ConnectionSharing.AssertionsHold | gateway.c:182-355 | over every run, the assertions of the critical sections hold when a thread enters one |
| ConnectionSharing.PoolClosesOnlyIdle | gateway.c:499-549 | over every run, the pool closes only sockets no thread holds |
| ConnectionSharing.SocketsServeTheirDestination | gateway.c:567-604 | over every run, a thread serves a request only through a socket that was opened for a request with the same nine details |
| ConnectionSharing.HistoryIsHonest | jcc.c:4581-4619 | what a socket was opened for is set when it is connected and never changes |
| ConnectionSharing.UnforgottenSocketMisroutes | jcc.c:4595-4612 | a run on which a thread closes a pooled socket without forgetting it: the table then names a socket that is not open, and later hands out a socket opened for another destination |
| Socks5.ConvertIpv4AddressToBytes | gateway.c:1053-1083 | writes the four octets and nothing before them, or fails |
| Socks5.DottedIsConverted | gateway.c:1053-1083 | numbers in dotted form become their bytes, or are refused if one of them is above 255 |
| Socks5.AuthIsRead | gateway.c:1293-1301 | credentials reach the server as they are exactly if both are at most 255 bytes long |
| Socks5.RequestIsRead | gateway.c:1342-1377 | host and port reach the server, within the 300 bytes of the buffer |
| Socks5.WhenConnected | gateway.c:1153-1518 | the client gets through exactly if the host can be sent, the server answers 5 and no authentication, or 5 and the method of credentials that are there, fit and are answered with status 0, every message is written, and the reply grants the request and is found by two reads |
| Socks5.ServerUnderstands | gateway.c:1153-1518 | after success the messages sent parse back to method list, credentials and target; credentials are sent exactly if the server chose that method |
| Socks5.OneWholeReply | gateway.c:1438-1507 | after the request exactly one whole reply is consumed, for each address type |
| Socks5.WhichRepliesAreUnderstood | gateway.c:1438-1507 | a granting reply, however it is split, is understood exactly if the first read finds ten bytes, one more read finds all the rest, and a domain name in it has 4 to 127 bytes |
| Socks5.ReadsNoMore | gateway.c:1230-1507 | in all, the server's choice, its answer to the credentials and one reply are consumed, and nothing else |
| Socks5.Client.Socks5Connect | gateway.c:1153-1518 | the client with its two buffers carries out exactly this dialogue; Socks5.WhenConnected says when it gets through |
| Acl.FillMask | filters.c:477-494 | the loop fills in the mask of the prefix |
| Acl.MatchSockaddr | filters.c:167-229 | the octet loop decides as the recursive comparison does, with the IPv4-mapped cases, the port, and the bytes that are compared when the families differ otherwise |
| Acl.MaskComparesLeadingBits | filters.c:218-226 | with the mask of a prefix, two addresses match exactly if their leading bits are equal as numbers |
| Acl.MatchMeans | filters.c:167-229 | with the mask of a prefix, an address matches exactly if the port does where it matters and the leading bits are the same numbers, in all combinations of families |
| Acl.LongerPrefixMatchesLess | filters.c:477-494 | a longer prefix matches a subset of what a shorter one matches |
| Acl.MappedMatchesTheSame | filters.c:193-209 | an IPv4 address and its IPv4-mapped form match the same IPv4 and IPv4-mapped networks |
| Acl.BlockAcl | filters.c:249-315 | a client is let through exactly if there are no rules or the first matching rule permits |
| Encode.EncodeWith | encode.c:124-163 | every write of an encoder stays within its 3x or 6x buffer, and the result is the encoded string |
| Encode.UrlEncodedByte | encode.c:47-75 | each byte but letters, digits and five marks becomes its code |
| Encode.DigitsMean | encode.c:273-322 | codes have two upper-case hexadecimal digits, and digits of either case are read |
| Encode.UrlDecodedByte | encode.c:339-378 | a plus sign is read as a space, a percent sign with two digits that are not zero as a byte, everything else as itself |
| Encode.UrlDecode | encode.c:339-378 | the decoding loop stays within its buffer and yields the decoded string |
| Encode.DecodeUndoesEncode | encode.c:219-258 | `url_decode(url_encode(s))` is `s` |
| Encode.AllowedMeans | encode.c:401-415 | what is allowed is what can be printed, without spaces and nine delimiters |
| Encode.FixedPoints | encode.c:399-455 | a URL is left alone exactly if all its characters are allowed |
| Encode.EncodingOnceIsEnough | encode.c:399-455 | a second pass changes nothing, and only allowed characters are emitted |
| Encode.EncodingKeepsMeaning | encode.c:399-455 | encoding a URL does not change what it decodes to |
| Encode.HtmlEncodedByte | encode.c:77-105 | each of five characters becomes its entity and no other changes |
| Encode.HtmlIsHarmless | encode.c:124-163 | HTML encoding can be read back and leaves no angle bracket or quote |

## Left out

- Sockets, name resolution, clocks and files: arrivals, clock readings, socket liveness and lines of text are parameters.
- Allocation failure: every allocation succeeds.
- Regular expressions and pattern compilation: `url_match`, tag matching and `create_pattern_spec` are arbitrary predicates.
- StringLists.StringList.Enlist: does not store a null string, which the source allows; the lists here hold strings.
- Bits of an `unsigned long` above the 31 that stand for actions.
- Reading lines (`edit_read_line`, `read_config_line`): comments, escapes and continuations are resolved before the model starts; joining printed lines is modelled.
- Writing a file back with prefixes and raw text: edits are modelled on the lines in memory.
- ActionText.PrintThenParse: `actions_to_text` is a function on values; its string appends in place are not modelled.
- ActionObjects.GetUrlActions: rules and files are sequences instead of linked lists, as are the rules of `block_acl` and the aliases of `get_actions`.
- ActionTokens.GetActionToken: the line is a string that is cut and rewritten as a value; writing NULs into the caller's buffer is not modelled.
- `match_actions_file_header_line`, `split_line_on_equals`, `strstr`, `sscanf` and `chomp` are functions on strings instead of pointer loops.
- `gif_deanimate_response`, statistics and log messages.
- Chunked.CompleteIsDecoded: buffers are below 2^31 bytes, which the return type `int` of the scan needs.
- ChunkedResume.ResumeIsSound: for a number from 2^32 up to 2^64 that runs to the end of the buffer, the condition is sufficient only; ChunkedResume.LargeNumbersMayGrow shows that it is not necessary there.
- ChunkedStream.StreamedScan: no size line the scan meets is blank, since parts may end inside a number, and all data together is below 2^31 bytes, which the scan of all of it needs; the flush behind the server's headers that keeps a chunk offset below the flushed bytes (jcc.c:4176-4187), and the switch to non-filtering mode with a chunk offset of zero (jcc.c:3755), are not modelled.
- ActionsFileText.LoaderAgrees: does not cover files whose headers or aliases reach `get_actions` as different texts; ActionsFileDisagreement has two that both readers accept and read differently.
- ActionsFileEdits.RemoveSectionKeepsGrammar: patterns follow their header without blank lines between them.
- `remember_connection` as one call: its two critical sections are separate steps of the state machine, since other threads can come between them.
- The SOCKS5T early send, SOCKS4 and the check of the gateway's name and port.
- `acl_addr` apart from its mask: parsing and resolving the address.
- Client tags and `unmap`: the natural statements about them do not hold of the code.
