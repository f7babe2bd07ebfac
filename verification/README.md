# LEPD, modelled and proved

LEPD is a small daemon that answers JSON-RPC requests about a Linux machine: its memory, its processes, its
accounts. This project models the parts of it that compute something intricate and proves what they promise.

- **The JSON codec** (`src/cJSON.c`): the recursive parser, the two-pass printer and the surgery on chains of nodes.
  `JsonText` is a specification of the parser for every memory image; `JsonParser`, `JsonPrinter` and `JsonChain`
  are the code itself on a heap of nodes, proved against it. Printing followed by parsing is the identity, string
  literals are decoded to UTF-8, and an accepted text that is cut anywhere makes the parser stop exactly at the cut,
  except for the cuts that `JsonPlace` names (`JsonCut` and `JsonPrefix` prove it, token by token and value by value);
  what follows an accepted array or object does not matter (`JsonAppend`). `JsonNumber`, `JsonStringLiteral` and
  `JsonGrammar` say what a numeral, a literal and a whole text are worth without reference to the parser; it reads every
  text of the grammar as that, and the printer (`JsonLayout`) writes nothing but such texts. `JsonAccepted` says just
  which arrays and objects are accepted, `JsonNumber` which numbers.
- **The JSON-RPC engine** (`src/jsonrpc-c.c`): `Connection` is the growing read buffer that parses on every read,
  `Stream` what becomes of many requests in any reads, `Dispatch` the accepting thread and the five workers as
  interleaved atomic steps, `Rpc` the table of procedures and the reply to a request. `Session` puts these and the codec
  together: the callback as a whole, and what any client gets back: each request answered once, in order, readably.
- **The account files** (`pwd_grp.c`): `GroupEntry` and `PasswdEntry` split a line in place, down to the pointer table
  stored in the line's own buffer; `AccountFiles` stitches fixed-size reads into lines and looks entries up;
  `GroupList` collects a user's groups with the growing vector of `Vector`.
- **Four smaller algorithms**: `GetOpt`, `OptionFlags`, `Exclusions`, `Demands`, `Implications` and `Df` (the condition
  language of getopt32, its mask algebra, and what it makes of whole command lines, with `Bits` for 32-bit masks),
  `Procrank` (proportional memory shares), `Top` (a search that resumes where it last hit), `Caches` and `HumanReadable` (id-to-name caches,
  sizes in a few characters).

`Json` holds the values and their printed text, `CMemory` C strings, numbers and pointers in a buffer, `Arithmetic`
and `Sequences` what is needed of quotients, powers and sequences.

## Conventions

A `char` stands for a byte. Text handed to the parser is a memory image that ends in NUL. `Undefined` (in `Connection`:
`Lost`) is the outcome of runs in which the C code reads past its memory or uses a number that sscanf did not set;
theorems say exactly when it is avoided. A JSON number is the exact decimal its digits spell. `Oddities` holds single
inputs on which a law fails.

Some behaviour differs from what the documentation or a standard leads one to expect; the model follows the code:

- A numeric id outside the range of int, or not whole, comes back as another number.
- A lone first half of a surrogate pair swallows the four-digit escape after it.
- A condition a--b refuses a after b, not b after a; and an option in between that clears b's bit makes it forgotten.
- After a trailing comma, a closing bracket is consumed and a second one asked for, so `[1,]]` is an array and `[1,]` is not.
- The literals are matched one after another without going back, so `nufalse` is read as false.
- Surrogate halves are combined with `|`, which loses a bit whenever 0x40 is set in the first half.
- One read serves at most one request; a second complete request in the buffer waits for the next read.
- A request without an id is answered like any other, and the reply to an invalid request carries no id member at all.
- Deregistering a name takes its oldest entry, while dispatch uses the newest; an unknown name is an error only when
  the table is empty.
- When accept fails for good, the accepting thread still dispatches the value -1 as a connection.
- A page counts as swapped only if its entry is marked present as well.
- smart_ulltoa4 shows a leading 0 before the point for less than one unit.

## Model

| member | source | states |
|---|---|---|
| JsonRoundTrip.PrintThenParse | src/cJSON.c:291-566 | Printing any tree with NUL-free strings and int-range integers, formatted or not, and parsing the text with anything after it gives back the tree and stops exactly at the end of the print. A container needs no separator; any other value needs one more byte that cannot continue it. |
| JsonRoundTrip.ValueReads | src/cJSON.c:320-508 | The same for a value printed at any depth and standing anywhere in a text. |
| JsonRoundTrip.QuoteRead | src/cJSON.c:162-256 | Unescaping undoes escaping: the literal print_string_ptr writes for a NUL-free string is read back as that string, up to and including its closing quote. |
| JsonRoundTrip.LiteralAlone | src/cJSON.c:308-317 | null, false and true are read if and only if another byte follows; as the last thing in the memory the comparison runs past the terminator. |
| JsonRoundTrip.ParsePrintParse | src/cJSON.c:291-566 | Whatever tree the parser returned for any text, if its numbers are ints: printing it and parsing that gives the same tree. |
| JsonRoundTrip.ParsedNulFree | src/cJSON.c:162-220 | No string or name in a parsed tree holds a NUL. |
| JsonAppend.ContainerIsLocal | src/cJSON.c:291-508 | A text that is read as an array or object is read as that, through its last byte, whatever bytes follow it in the memory. |
| JsonStringLiteral.EncodingDecodes | src/cJSON.c:199-206 | The one to four bytes written for a code point decode to it by the rules of section 3 of RFC 3629. |
| JsonStringLiteral.CombineExactly | src/cJSON.c:196 | Or-ing the halves of a surrogate pair gives the code point of UTF-16 if and only if bit 0x40 of the first half is clear. |
| JsonStringLiteral.LiteralRead | src/cJSON.c:162-220 | Every literal that the grammar of section 7 of RFC 8259 allows, U+0000 and halves of surrogate pairs included, is read to its own closing quote. What is written: each unit's bytes, nothing for U+0000 and for a second half alone, and nothing for a first half alone together with any four-digit escape that follows it. |
| JsonStringLiteral.LiteralStored | src/cJSON.c:162-220 | What parse_string stores is the UTF-8 text of the literal if and only if it has no U+0000, no half of a pair without the other half, and bit 0x40 clear in every first half. |
| JsonStringLiteral.LostEscape | src/cJSON.c:189-197 | Of the escapes ud800 and u0041 in a row nothing is stored: the A is lost with the lone half before it. |
| JsonStringLiteral.HexDigits | src/cJSON.c:182-197 | The sixteen digits of a four-digit escape, in either case, stand for 0 to 15, and no other character is one. |
| JsonNumber.NumeralRead | src/cJSON.c:92-135 | A numeral (optional minus, digits, a point and digits, e or E with a sign and digits) at any place and followed by a byte that cannot continue it is read to its own end as the number it spells: mantissa whole * 10^k plus the k digits after the point, exponent as written less k. |
| JsonNumber.DecimalRead | src/cJSON.c:92-135 | The same for a decimal a written out, any digits after the point and any power: the value read is a * 10^k plus those digits, negated after a minus, with the written power less k. |
| JsonNumber.NumeralThere | src/cJSON.c:92-135 | Conversely, wherever the parser reads a number, such a numeral stands there and ends where the reading ends. |
| JsonGrammar.DocReads | src/cJSON.c:269-508 | Any text that the grammar of RFC 8259 allows, with any blanks between its tokens, at any place and depth, is read as what it means, to its own end. |
| JsonGrammar.TextIsRead | src/cJSON.c:291-508 | The same from the start of a stream, leading blanks and whatever follows included. |
| JsonAccepted.ArrayExactly | src/cJSON.c:366-404 | A bracketed text is accepted as the array of given values, up to a given byte, if and only if each value is accepted at its place and between them stand a comma with any spaces around it, and at the end the closing bracket, or a comma, spaces and the bracket twice in a row. |
| JsonAccepted.ObjectExactly | src/cJSON.c:458-508 | The same for objects and their members. |
| JsonAccepted.MemberExactly | src/cJSON.c:473-500 | A member is accepted if and only if its name is, its value is, and only spaces and one colon stand between them. |
| JsonLayout.Conforms | src/cJSON.c:305-566 | Every print of a tree with NUL-free strings and int numbers is a text of that grammar that means the tree. Compact, it has no blank between tokens; formatted, a space after each comma of an array, a line of its own for each member, indented by tabs to its depth, a tab after each colon, and the closing brace on a line of its own. |
| JsonPrefix.BeginningsWait | src/cJSON.c:291-508 | An accepted object or array cut at any byte: at its end or later it is read as before; earlier the parser stops exactly at the cut if and only if the cut is clean (not inside an escape, not after a decimal point, not after null, false or true), and it is never accepted. |
| JsonPrefix.ValueCut | src/cJSON.c:320-343 | The same dichotomy for a value of any kind at any place of the text, with the place of the cut tracked across it. |
| JsonPrefix.ItemsCut | src/cJSON.c:378-403 | An array's remaining entries, cut: read as before, refused exactly at the cut, or stuck elsewhere when the cut is not clean. |
| JsonPrefix.MembersCut | src/cJSON.c:471-507 | The same for an object's remaining members. |
| JsonPrefix.FollowCut | src/cJSON.c:383-401 | What follows an entry, cut: spaces, comma, closing bracket, and the closing bracket asked for again after a trailing comma. |
| JsonCut.NumberCut | src/cJSON.c:96-127 | A number that is cut is read up to the cut, or up to the point when the point is the last byte. |
| JsonCut.BodyCut | src/cJSON.c:167-215 | A string that is cut is read up to the cut, unless the cut is inside an escape. |
| JsonCut.EscapeSplit | src/cJSON.c:177-212 | An escape split by the cut leaves the memory, or goes one byte too far; a pair cut between its halves is no such split. |
| JsonCut.LiteralCut | src/cJSON.c:308-317 | A literal that ends at the cut is compared past it; a partial one leaves the cursor at the cut. |
| JsonPlain.PlainPrint | src/cJSON.c:346-566 | The print of numbers, strings that need no escapes, arrays and objects has no byte at which a cut would be unclean. |
| JsonPlain.PlainIsClean | src/cJSON.c:291-508 | Every cut of such a text is clean. |
| JsonParser.Cursor.SkipSpace | src/cJSON.c:269-275 | The cursor moves to the first byte that is not a space. |
| JsonParser.Cursor.Matches | src/cJSON.c:308-317 | stream_cmp: true exactly when the literal is there and another byte follows; the cursor stays behind the common beginning otherwise. |
| JsonParser.ParseNumber | src/cJSON.c:92-135 | On the memory: the node gets the number that JsonNumber is about and the cursor its end; valueint is the function Rpc.ValueInt of that decimal. |
| JsonParser.PassesAgree | src/cJSON.c:167-213 | The counting pass of parse_string finds the closing quote that the writing pass stops at, and counts at least the bytes that are written. |
| JsonParser.CountUnits | src/cJSON.c:167 | The counting pass itself, on the memory. |
| JsonParser.WriteUtf8 | src/cJSON.c:199-207 | The backward stores put the encoding of the code point in place and nothing elsewhere. |
| JsonParser.CopyBody | src/cJSON.c:172-213 | The writing pass fills the counted buffer with the literal's bytes without leaving it. |
| JsonParser.ParseString | src/cJSON.c:162-220 | parse_string on the memory: value, cursor, and failure without moving. |
| JsonParser.ParseValue | src/cJSON.c:320-343 | The recursive parser builds exactly the tree of the value read, and leaves the cursor where the specification says, on success and on failure. The allocator's live nodes grow by exactly those that the item owns afterwards, on success and on failure. |
| JsonParser.ParseItems | src/cJSON.c:378-403 | The loop over entries: child, next and prev linked, trailing comma included. |
| JsonParser.ParseMembers | src/cJSON.c:471-507 | The loop over members: names moved from valuestring to string, values linked in order. |
| JsonParser.ParseObject | src/cJSON.c:458-508 | parse_object, empty object included. |
| JsonParser.ParseStreamInto | src/cJSON.c:291-302 | cJSON_Parse_Stream: on success a tree that stands for the value, and the nodes live afterwards are those of before and exactly the ones the tree owns, all new; on failure no node, and just the nodes of before are live. |
| JsonNode.SuffixObject | src/cJSON.c:574 | A node joins the end of a chain: contents appended, next and prev mutually inverse, ownership disjoint. |
| JsonChain.Delete | src/cJSON.c:77-89 | Each owned node of the chain and of all below it is given back, each while it is live and so only once, and nothing below a reference. |
| JsonChain.GetArrayItem | src/cJSON.c:570 | The item at the index, the first for negative ones, none past the end. |
| JsonChain.GetArraySize | src/cJSON.c:569 | The number of children. |
| JsonChain.AddItemToArray | src/cJSON.c:579 | Append on sequences; a null item changes nothing. |
| JsonChain.DetachItemFromArray | src/cJSON.c:584-585 | Remove-at on sequences; the detached item is well formed, unlinked, and shares nothing with what stays. |
| JsonChain.WithoutShown | src/cJSON.c:584-585 | After a detach the chain stands for the values without the one at the index. |
| JsonChain.ReplaceItemInArray | src/cJSON.c:591-593 | Update on sequences; the replaced item and all it owns is freed, nothing else; past the end nothing changes. |
| JsonChain.CreateReference | src/cJSON.c:576 | A copy of kind, string and number that points at the same children, has no name, and owns itself only. |
| JsonChain.AddItemReferenceToArray | src/cJSON.c:581 | Append of such a copy; the item it refers to is not touched. |
| JsonChain.DeleteItemFromArray | src/cJSON.c:586 | Remove-at, and exactly what the item owned is freed; for a reference that is the reference alone. |
| JsonPrinter.CountIsExact | src/cJSON.c:228 | The length print_string_ptr computes is exactly what it writes. |
| JsonPrinter.CountChars | src/cJSON.c:228 | The counting loop computes that length. |
| JsonPrinter.PrintStringPtr | src/cJSON.c:223-256 | Both passes together: the quoted, escaped text in a buffer filled to its last byte; a null string gives the empty text. |
| JsonPrinter.ItemsFit | src/cJSON.c:411-453 | The length print_array allocates is enough for what it writes, for every entry count and format. |
| JsonPrinter.MembersFit | src/cJSON.c:514-564 | The length print_object allocates is enough for what it writes, at every depth, entry count and format. |
| JsonPrinter.PrintArray | src/cJSON.c:407-455 | The two passes of print_array give the array's text, every store inside the buffer. |
| JsonPrinter.PrintObject | src/cJSON.c:511-566 | The two passes of print_object give the object's text, every store inside the buffer. |
| JsonPrinter.PrintTree | src/cJSON.c:305-361 | cJSON_Print and cJSON_PrintUnformatted of a tree give the text of the value it stands for. |
| Connection.ShiftKeeps | src/jsonrpc-c.c:409-413 | Dropping a request leaves pos inside the buffer and zeros from pos on, if and only if memmove does not bring in a non-zero byte from past the end (a one-byte value at the head of a full buffer). |
| Connection.ShiftLength | src/jsonrpc-c.c:409-411 | The exact number of remaining bytes kept, whatever bytes were received: the remainder ends at its first NUL and is measured at its old place after the move. |
| Connection.RemainderKept | src/jsonrpc-c.c:409-413 | What is kept of a remainder without NUL is a beginning of it, and all of it if and only if it is empty, or at least two bytes shorter than the request, or one byte shorter with the buffer full and a non-zero byte past its end. |
| Connection.StepKeeps | src/jsonrpc-c.c:365-433 | Every step keeps: size 1500 times a power of two, doubled exactly when the buffer was full; pos at most size - 1; zeros from pos on; a terminator for the parser. It fails exactly for the overrun above. |
| Connection.StepDecides | src/jsonrpc-c.c:382-431 | What a readable connection leads to: no more bytes or an error close it. Otherwise the parser is given exactly the bytes received and not served, and zeros: accepted, that value is served; refused behind the last byte, the connection waits with all of them kept; refused before, it is refused. |
| Connection.RunKeeps | src/jsonrpc-c.c:365-433 | The same over every run of reads. |
| Connection.NulBehind | src/jsonrpc-c.c:409-411 | There is no such overrun in any run of reads while a NUL stands past the end of the buffer. |
| Connection.ReadMore | src/jsonrpc-c.c:390-431 | A read that brings more of a request but not its end: all bytes so far are kept, and the connection waits if and only if the request is now cut at a clean place; otherwise it ends, without a reply to the request. |
| Connection.ReadLast | src/jsonrpc-c.c:393-415 | The read that brings the last byte serves the request and leaves an empty buffer. |
| Connection.AnyReads | src/jsonrpc-c.c:365-433 | Any accepted request in any sequence of non-empty reads that fit, across any number of doublings: it waits at all reads but the last and is served exactly once by that one, if and only if every earlier read ends at a clean place; otherwise it is never served. |
| Connection.PrintedRequestServed | src/jsonrpc-c.c:365-433 | For a printed request of numbers, strings without escapes, arrays and objects no condition is left: every way of reading it serves it exactly once. |
| Stream.StreamExact | src/jsonrpc-c.c:365-433 | Any number of requests (arrays or objects, without NUL bytes) one after another, cut into reads in any way, reads that straddle several requests included: after every read the connection is open, the requests served so far are the first ones, in order, each once, and the buffer holds exactly the bytes received and not served, if and only if every read either leaves the first unserved request cut at a clean place, or completes it and brings a remainder that is kept whole. |
| Stream.LockstepServed | src/jsonrpc-c.c:365-433 | A client that sends the next request only when the one before has been served, in reads that end at clean places: all its requests are served, once, in order, and the buffer is empty at the end. |
| Stream.PrintedIsClean | src/jsonrpc-c.c:365-433 | Printed requests of numbers, strings without escapes, arrays and objects meet every condition on the text. |
| Session.HarmlessReadsAnswered | src/jsonrpc-c.c:259-433 | From end to end for any client, several requests under way included: as long as every read is harmless in the sense of Stream.StreamExact, what the server has written is parsed by the same parser as exactly the replies to the first requests, in order, and the buffer holds exactly the bytes not answered yet. |
| Session.EveryRequestAnswered | src/jsonrpc-c.c:259-433 | From end to end for a client that sends the next request only when the one before has been served, in reads that end at clean places: the bytes the server writes are parsed by the same parser as exactly one reply to each request object, in the order of the requests, and nothing else. |
| Session.ParseErrorRead | src/jsonrpc-c.c:259-431 | What a client reads back when its text is refused: an error of code -32700 with its text, and no id. |
| Connection.Reader.constructor | src/jsonrpc-c.c:463-466 | A new connection's buffer: 1500 zero bytes, nothing received. |
| Connection.Reader.MakeRoom | src/jsonrpc-c.c:372-381 | A full buffer doubles, keeps its bytes and is zero after them. |
| Connection.Reader.Take | src/jsonrpc-c.c:382-398 | The bytes read stand after those received before. |
| Connection.Reader.Drop | src/jsonrpc-c.c:408-413 | memmove, strlen and memset on the array do what the specification of a shift says. |
| Connection.Reader.OnReadable | src/jsonrpc-c.c:365-415 | The reading part of connection_cb on its array, with the real parser: new state and event are those of the step function, and the tree handed out, all of it new, is the request. |
| Session.OnReadable | src/jsonrpc-c.c:365-433 | connection_cb as a whole, on the array, the tree and the procedure table: state and event of the step function, exactly the reply or the parse error of that event is written, the connection is closed exactly after a final event, and every node made for the request is freed. |
| Dispatch.Queue.Push | src/jsonrpc-c.c:77-88 | The linked queue's contents grow by the item at the end; the list stays well formed. |
| Dispatch.Queue.Pop | src/jsonrpc-c.c:59-71 | The first item leaves, or null; head and tail stay consistent. |
| Dispatch.Queue.Drain | src/jsonrpc-c.c:446-478 | async_cb's loop empties the queue in order. |
| Dispatch.InitialInv | src/jsonrpc-c.c:113-228 | The invariant of the next row holds when the threads are set up. |
| Dispatch.StepKeeps | src/jsonrpc-c.c:113-228 | Every atomic step of the accepting thread and of each worker keeps the invariant: what a worker has adopted and queued is exactly its share, in order, and a non-empty queue has its wake-up signalled, its worker draining, or the accepting thread between push and send. |
| Dispatch.RunKeeps | src/jsonrpc-c.c:113-228 | The same over every interleaving. |
| Dispatch.ExactlyOnce | src/jsonrpc-c.c:206-228 | Every accepted connection is in exactly one place: the accepting thread's hand, one queue, or one worker. |
| Dispatch.InOrder | src/jsonrpc-c.c:206-228 | A worker adopts the connections of its share in the order of acceptance: of the five, worker w gets numbers w, w + 5, w + 10 and so on. |
| Dispatch.Balanced | src/jsonrpc-c.c:222-227 | Counts of any two workers differ by at most one. |
| Dispatch.Quiet | src/jsonrpc-c.c:446-478 | When no worker can move and the accepting thread is between connections, every accepted connection has been adopted by its worker, and worker w has a fifth of them, rounded up or down. |
| Dispatch.WorkersRest | src/jsonrpc-c.c:446-478 | Left alone, the workers reach such a state in a bounded number of steps. |
| Rpc.CompareNames | src/cJSON.c:35-40 | Names are the same exactly when they differ in case at most. |
| Rpc.CaseIgnored | src/cJSON.c:35-40 | Two characters count as the same exactly if they are, or are the two cases of a letter of the alphabet. |
| Rpc.GetObjectItem | src/cJSON.c:571 | The node of the first member of that name, or null. |
| Rpc.Server.RegisterProcedure | src/jsonrpc-c.c:606-624 | The entry joins the end of the table. |
| Rpc.Server.DeregisterProcedure | src/jsonrpc-c.c:626-658 | The shifting loop removes the first entry of the name and keeps the order; -1 if and only if the table was empty. |
| Rpc.NamedRemoved | src/jsonrpc-c.c:626-658 | Removal takes the oldest entry of its own name and none of any other. |
| Rpc.TableAfter | src/jsonrpc-c.c:300-325 | After any sequence of changes, the entries of a name are its registrations without as many of the oldest as were deregistered, and dispatch picks the newest left. |
| Rpc.Server.InvokeProcedure | src/jsonrpc-c.c:300-325 | The search from the end, the handler's answer, and exactly one reply written. |
| Rpc.Server.EvalRequest | src/jsonrpc-c.c:327-355 | On the parsed tree: its three members are looked up by GetObjectItem, their node types decide, and exactly one reply is written, that of the request's value, with the code's three ways to refuse. |
| Rpc.ReplyShape | src/jsonrpc-c.c:268-355 | A reply never has both result and error, has one of them unless the procedure returned nothing without an error, and has an id exactly when a valid request had one (section 5 of the JSON-RPC 2.0 specification). |
| Rpc.AnswerDelivered | src/jsonrpc-c.c:268-355 | What a client reads back for a valid request whose method is registered: the code registered last under that name is run with the params and the copied id, and the reply's result is the value it returned, or its error holds just the code and the message it set. |
| Rpc.RefusalDelivered | src/jsonrpc-c.c:300-355 | What it reads back otherwise: for a method that is not registered an error of code -32601 and the text Method not found.; for a request of the wrong form one of code -32600 with its text, and no id. |
| Rpc.IdIsTruncated | src/jsonrpc-c.c:341-345 | A numeric id is copied as the same number if and only if it is whole and in the range of int; outside that range valueint is whatever the conversion gives, and no such value is the number. |
| Rpc.CutTowardsZero | src/cJSON.c:127-133 | The conversion to int of a number in range cuts its fraction off, towards 0 for either sign. |
| Rpc.ReplyId | src/jsonrpc-c.c:327-355 | The id of the reply to a valid request that has one stands last in it, and is the request's own if and only if that is a string or a whole number in the range of int. |
| Rpc.BigIdLost | src/jsonrpc-c.c:341-345 | The request with method m and id 3000000000 never gets its id back, whatever the conversion gives. |
| Rpc.SilentProcedure | src/jsonrpc-c.c:285-325 | A procedure that reports no error and returns nothing: a request without an id is answered by an empty object. |
| Rpc.ReplyReadsBack | src/jsonrpc-c.c:259-355 | The bytes written are parsed back as exactly that reply, whatever the request's params are, and the id read back is the request's own if and only if it is a string or a whole number in the range of int. |
| Rpc.ParsedRequestAnswered | src/jsonrpc-c.c:259-355 | For every request object that the parser returned, nothing else is asked of the request: the bytes written are parsed back as its reply. |
| GroupEntry.SplitMembers | src/modules/busybox-lite/src/pwd_grp.c:864-886 | Every comma becomes a terminator and the names are counted; it fails if and only if some name is empty or starts with a space. |
| GroupEntry.FillTable | src/modules/busybox-lite/src/pwd_grp.c:898-909 | The pointers to the names, in order, and the null, without touching what is before the table. |
| GroupEntry.ParseMembers | src/modules/busybox-lite/src/pwd_grp.c:860-909 | The member field and its table: aligned, behind the last terminator, inside the buffer; or failure, exactly when a name is wrong or the table does not fit. |
| GroupEntry.ParseGrent | src/modules/busybox-lite/src/pwd_grp.c:824-913 | bb__parsegrent succeeds if and only if the line has its separators, a number, proper names and room, and then the record's pointers lead to exactly its fields and members. |
| GroupEntry.WrittenGroup | src/modules/busybox-lite/src/pwd_grp.c:824-913 | A group written as a line is read back as itself if and only if its members are names and their table fits; otherwise it is refused, except that a single empty member is read as no members. |
| PasswdEntry.ParsePwent | src/modules/busybox-lite/src/pwd_grp.c:770-813 | bb__parsepwent succeeds if and only if all six separators and both numbers are there, and then the pointers lead to exactly the seven fields, uid the third and gid the fourth. |
| PasswdEntry.LineRead | src/modules/busybox-lite/src/pwd_grp.c:770-813 | A line of seven fields, the third and fourth digits and no separator inside the first six, is read as those fields; the ids are what the digits spell modulo 2^32, where 2^64 and more counts as 2^64 - 1. |
| PasswdEntry.FieldsDescribed | src/modules/busybox-lite/src/pwd_grp.c:760-768 | What it means that a record describes a user: each of its seven members is, or points to, the field of its own name. |
| PasswdEntry.WrittenUser | src/modules/busybox-lite/src/pwd_grp.c:770-813 | A user with ids below 2^32, written as name:passwd:uid:gid:gecos:dir:shell, is read back as itself; the shell may hold separators. |
| PasswdEntry.AcceptedLine | src/modules/busybox-lite/src/pwd_grp.c:770-813 | Conversely, every accepted line is seven fields with separators between them, and its text fields are what stands there. |
| CMemory.StrToUlReads | src/modules/busybox-lite/src/pwd_grp.c:789-800 | How strtoul reads an id: spaces, a sign or none, and digits give what the digits spell, at most 2^64 - 1, negated modulo 2^64 after a minus, and the rest of the line begins behind them. |
| CMemory.StrToUlNothing | src/modules/busybox-lite/src/pwd_grp.c:789-796 | Without a digit behind the spaces and the sign, strtoul reads nothing and stays where it was, so that the line is refused. |
| AccountFiles.EndPiece | src/modules/busybox-lite/src/pwd_grp.c:1001-1011 | What one fgets brought: a whole line, its newline dropped, or a piece of a line of more than buflen - 2 bytes. |
| AccountFiles.PgsReader | src/modules/busybox-lite/src/pwd_grp.c:976-1039 | Whatever the buffer size, the reader returns the next line that fits, is not empty, a comment or space-led, and parses; it leaves the stream just behind it; ENOENT if there is none, ERANGE for a buffer under 256. |
| AccountFiles.Lookup | src/modules/busybox-lite/inc/pwd_grp_internal.c:24-53 | The first entry of the file with that name or id; 0 without a result if there is none. |
| AccountFiles.Pick | src/modules/busybox-lite/inc/pwd_grp_internal.c:37-50 | The first fitting entry, and none exactly when none fits. |
| AccountFiles.FileReadsBack | src/modules/busybox-lite/src/pwd_grp.c:976-1039 | A file of groups, or of users, whose fields hold no separators, written one a line, is read as exactly those entries, in order, if and only if each line fits the buffer and neither looks like a comment nor starts with a space, and every group's members are names whose table fits. |
| AccountFiles.LookupFinds | src/modules/busybox-lite/inc/pwd_grp_internal.c:24-53 | In such a file a search by name finds the first entry written under that name, a search by number the first with that uid or gid, and nothing is found exactly if no entry has it. |
| AccountFiles.LinePassedOver | src/modules/busybox-lite/src/pwd_grp.c:1000-1030 | A line that is empty, a comment, starts with a blank or is longer than buflen - 2 leaves no entry and does not disturb those after it. |
| Vector.XreallocVector | src/modules/busybox-lite/src/xrealloc_vector.c:36-46 | Growth at multiples of the step, earlier elements kept, zeros after them. |
| Vector.ConsecutiveUse | src/modules/busybox-lite/src/xrealloc_vector.c:20-46 | Used with consecutive indices from 0, all earlier elements stay, and v[idx] and v[idx+1] are there and zero. |
| GroupList.IsMember | src/modules/busybox-lite/src/pwd_grp.c:597-606 | The walk over the pointer table finds the user exactly when it is a member. |
| GroupList.GroupsAreListing | src/modules/busybox-lite/src/pwd_grp.c:594-608 | The gids collected are those of the entries that list the user under another gid than the given one: each such entry once, in file order, and no others. |
| GroupList.GroupListInternal | src/modules/busybox-lite/src/pwd_grp.c:576-610 | The given gid, then the gid of each other group that lists the user, in file order, never past the vector's capacity. |
| GroupList.GetGroupList | src/modules/busybox-lite/src/pwd_grp.c:620-634 | The list is copied if it fits, -1 and no copy otherwise; its length is told either way. |
| GetOpt.BuildTable | src/modules/busybox-lite/src/getopt32.c:374-396 | One row per option letter, at most 32, each with its own bit. |
| GetOpt.ReadConditions | src/modules/busybox-lite/src/getopt32.c:442-524 | The loop over opt_complementary computes the function that the next rows are about. |
| GetOpt.RulesRead | src/modules/busybox-lite/src/getopt32.c:442-524 | Any list of documented conditions, written with colons between them, is read as exactly what it declares. |
| GetOpt.PairsRead | src/modules/busybox-lite/src/getopt32.c:507-522 | Letters of a group or their masks into the column that the dashes or question mark chose. |
| OptionFlags.ReadOptions | src/modules/busybox-lite/src/getopt32.c:564-623 | The loop over getopt and the checks after it compute the specified flags, counters and errors. |
| OptionFlags.LettersRead | src/modules/busybox-lite/src/getopt32.c:365-396 | The k-th option letter of a program's string, after the marks it may begin with, has row k and bit k, and takes an argument exactly if a colon follows; letters after the thirty-second have no row. |
| OptionFlags.GetOpt32 | src/modules/busybox-lite/src/getopt32.c:336-624 | The three loops together compute the function CommandLine of option letters, conditions, options given and number of arguments, that the rows about whole command lines speak of. |
| OptionFlags.LastWins | src/modules/busybox-lite/src/getopt32.c:586-589 | Over any options given: the flags of a set that switches each other off are those of the last of them given. |
| OptionFlags.NeverTwo | src/modules/busybox-lite/src/getopt32.c:586-589 | They are never those of two of them. |
| Df.UnitsSwitchEachOther | src/modules/busybox-lite/src/df.c:101 | The conditions df uses make its k, m and B such a set, in any table that has them. |
| Df.LastUnitWins | src/modules/busybox-lite/src/df.c:101-108 | For df's own option letters and conditions and any options given: of the flags of k, m and B exactly that of the last one given is set. |
| OptionFlags.ExclusionExact | src/modules/busybox-lite/src/getopt32.c:584-589 | As far as no option clears a bit that a given option excludes, whatever else is switched off: the options go through if and only if none comes after one that it excludes, itself included. |
| Exclusions.OnlyExclusions | src/modules/busybox-lite/src/getopt32.c:220-234 | With any list of a--b conditions as the only ones, a command line is accepted if and only if its options are known and none stands after one that it is declared to exclude, itself included. |
| Exclusions.ExcludedTogether | src/modules/busybox-lite/src/getopt32.c:220-231 | a--c among any other conditions: no command line with a after c is accepted, if no option clears c's own bit. |
| Exclusions.AtMostOne | src/modules/busybox-lite/src/getopt32.c:220-231 | Options that are declared to exclude each other, among any other conditions that do not clear their bits: at most one of them in any accepted command line. |
| Exclusions.AtMostOnce | src/modules/busybox-lite/src/getopt32.c:233-234 | x--x among any other conditions that do not clear its bit: x at most once in any accepted command line. |
| Exclusions.OneSided | src/modules/busybox-lite/src/getopt32.c:220-231 | a--b alone refuses b and then a, but accepts a and then b. |
| Exclusions.Forgotten | src/modules/busybox-lite/src/getopt32.c:584-589 | With a--b:b--a:c-a, a and then b is refused, but a, c, b is accepted: c clears the bit that b excludes. |
| Demands.OnlyDemandsDecide | src/modules/busybox-lite/src/getopt32.c:442-623 | With required options, a?b groups and -N, =N or ?N as the only conditions: a command line is accepted if and only if its options are known, one of the required ones is given, each option that asks for others has one of them, and the number of arguments is within the limits; the flags are then the bits of exactly the options given. |
| Implications.BroughtAlong | src/modules/busybox-lite/src/getopt32.c:118-148 | abc among any other conditions: every accepted command line with a has c's flag, if no option clears c's own bit. |
| Implications.UsageRefused | src/modules/busybox-lite/src/getopt32.c:188-191 | V- among any other conditions: no command line with V is accepted, if no option clears V's own bit. |
| Implications.CountsDeclared | src/modules/busybox-lite/src/getopt32.c:119-127 | An option has a counter exactly if some condition starts with its letter twice. |
| OptionFlags.Toggles | src/modules/busybox-lite/src/getopt32.c:586-588 | x-x toggles: its bit is set exactly after an odd number of times. |
| Procrank.MemUsage.Zero | src/modules/procrank/src/pm_memusage.c:19-21 | All five figures are 0. |
| Procrank.MemUsage.Add | src/modules/procrank/src/pm_memusage.c:23-29 | Each figure grows by the other's. |
| Procrank.MapUsageFlags | src/modules/procrank/src/pm_map.c:30-82 | The loop over a map's entries computes their sum, which the next four rows are about; on a read error the result is left alone. |
| Procrank.EntryBits | src/modules/procrank/src/pm_map.c:50-53 | Bit 63 of an entry says present, bit 62 swapped, and bits 0 to 54 are the frame. |
| Procrank.MapFigures | src/modules/procrank/src/pm_map.c:46-73 | By counting entries: VSS is a page for each entry, RSS one for each present, unswapped, accepted entry whose frame's count is at least 1, USS one for each whose count is 1, swap one for each present and swapped entry, and PSS the sum of the pages divided by their counts. |
| Procrank.ProcessFigures | src/modules/procrank/src/pm_process.c:73-97 | The same for all entries of all maps of a process. |
| Procrank.MapUnreadable | src/modules/procrank/src/pm_map.c:54-65 | The figures fail exactly if some present, unswapped entry has flags that are asked for and cannot be read, or a count that cannot. |
| Procrank.ProcessUsageFlags | src/modules/procrank/src/pm_process.c:73-97 | The sum over a process's maps, or an error with the result left alone. |
| Procrank.MapOrdered | src/modules/procrank/src/pm_map.c:46-73 | For every map USS <= PSS <= RSS and RSS + swap <= VSS, which is the page size times the entries. |
| Procrank.ProcessOrdered | src/modules/procrank/src/pm_process.c:73-97 | The same for every process. |
| Procrank.SharesConserved | src/modules/procrank/src/pm_map.c:68-70 | Shares of frames whose count is the number of entries naming them add up to at most one page per frame, and fall short by less than the number of entries. |
| Procrank.Conservation | src/modules/procrank/src/pm_process.c:85-91 | The same for the total PSS of all processes. |
| Top.Search | src/modules/busybox-lite/src/top.c:372-382 | The resumed search ends at the first entry of the pid from where it started, around the end, or back there when there is none; the next search begins where it ended. |
| Top.ResumedIsLinear | src/modules/busybox-lite/src/top.c:372-382 | The figure found from every starting place is that of a fresh linear search if and only if all entries of the pid give the same figure. |
| Top.DistinctAgrees | src/modules/busybox-lite/src/top.c:372-382 | They agree when no pid is saved twice. |
| Top.Stats.DoStats | src/modules/busybox-lite/src/top.c:342-392 | Each process gets the figure of the entry that the search resumed from the process before it ends at, or 0, and nothing else of it changes; their sum modulo 2^32; the new history. The rows on two passes say what the figure is. |
| Top.FigureIsUsed | src/modules/busybox-lite/src/top.c:352-385 | In the second of two passes, distinct pids in the first: a process that has used d more ticks since the first, d below 2^32, gets exactly d, one that was not there gets 0, and nothing else of it changes. |
| Top.TwoPasses | src/modules/busybox-lite/src/top.c:342-392 | So for all processes of the second pass at once, and the total is the sum of those d modulo 2^32. |
| Top.PassedAt | src/modules/busybox-lite/src/top.c:352-385 | In such a pass every process's figure is that of the resumed search, duplicate entries or not, and that of a fresh linear search when its entries agree. |
| Caches.PwCache.Get | src/modules/ps/src/pwcache.c:44-64 | Whatever was asked before: the account's name if there is one of at most 32 bytes, else the digits of the id; and the bucket unchanged or longer by the new id; every id at most once, in bucket id mod 64. |
| Caches.IdCache.Get | src/modules/busybox-lite/src/procps.c:54-67 | The uncached answer cut to 27 bytes, and the cache unchanged or longer by the new id; every id at most once. |
| Caches.IdCache.Clear | src/modules/busybox-lite/src/procps.c:26-31 | Back to the empty cache. |
| HumanReadable.PickUnit | src/modules/busybox-lite/src/human_readable.c:55-65 | At most six divisions; the value is the size divided by 1024^u. |
| HumanReadable.RoundedWithin | src/modules/busybox-lite/src/human_readable.c:62-69 | The rounded tenth keeps the printed value within 0.051 units of the size. |
| HumanReadable.MakeHumanReadableStr | src/modules/busybox-lite/src/human_readable.c:33-90 | All arguments of 64 bits: the size in a fixed unit; else digits alone below 1024, and above, one of six units, whole part at most 1024 and a tenth, within 0.051 units; for a block size of 0 whole units, within 0.551. |
| HumanReadable.TextSays | src/modules/busybox-lite/src/human_readable.c:33-90 | What is shown read as a number and a unit, K for 1024 up to E for 1024^6: the size itself below 1024, and above it tenths of the unit that are within 0.051 units of it. |
| HumanReadable.WholeSays | src/modules/busybox-lite/src/human_readable.c:33-90 | The same for whole units: within 0.551 of one. |
| HumanReadable.SizeIs | src/modules/busybox-lite/src/human_readable.c:48-49 | The size shown is the product of number and block size whenever that is below 2^64. |
| HumanReadable.NearestUnits | src/modules/busybox-lite/src/human_readable.c:51-53 | The number shown in a fixed unit is the nearest whole one if and only if adding half a unit does not wrap around. |
| HumanReadable.ScaleDown | src/modules/busybox-lite/src/human_readable.c:103-109 | The first unit in which ten times the number is below the limit. |
| HumanReadable.ScaledBounds | src/modules/busybox-lite/src/human_readable.c:103-109 | What is shown then is cut: at most the number, less than a tenth of the shown unit below it, and the unit before would have been at or above the limit. |
| HumanReadable.SmartUlltoa5 | src/modules/busybox-lite/src/human_readable.c:97-149 | Exactly five characters, space-padded without leading zeros, that read as the number or as its truncated scaled value, and nothing after them touched; from 2^64/10 on, what is scaled is ten times the number modulo 2^64. |
| HumanReadable.SmartUlltoa4 | src/modules/busybox-lite/src/human_readable.c:154-199 | The same in four characters; below 10 units one digit, a point and a tenth. |
| Oddities.NuFalse | src/cJSON.c:320-332 | The text nufalse is read as false. |
| Oddities.DoubleBracket | src/cJSON.c:387-402 | The text [1,]] is read, to its end, as an array of one entry. |
| Oddities.SingleBracket | src/cJSON.c:387-402 | The text [1,] without a second bracket is refused. |
| Oddities.CutBehindPoint | src/jsonrpc-c.c:393-431 | A first read of [1. closes the connection. |
| Oddities.CutBehindLiteral | src/jsonrpc-c.c:393-431 | On a first read of [null the parser leaves its memory. |
| Oddities.SecondDropped | src/jsonrpc-c.c:393-415 | Of {}{} in one read, the first is served, and the second is dropped with it without having been read. |
| Oddities.DigitAndFullBuffer | src/jsonrpc-c.c:408-413 | A digit at the head of a buffer filled with other text: afterwards the buffer is not well formed. |

## Left out

- Floating point: numbers are exact decimals, so the rounding of the parser's double and the `%f`, `%e` and `%.0f` formats of the printer are not modelled; printing covers the `%d` path.
- JsonParser.ParseNumber: the rounding of the stored double; valueint is not a field of the node but a function of the decimal (Rpc.ValueInt).
- Rpc.IdIsTruncated: about the exact decimal; the double that the code truncates may differ from it when the id is written with a fraction, a negative exponent or more than 15 digits.
- Connection.RemainderKept: a remainder with a NUL in it; Connection.ShiftLength says how many of its bytes are kept.
- Allocation failure and process exit: every allocation succeeds, usage messages are an error result.
- Freeing of strings: nodes are freed explicitly, the strings they hold are values.
- Integer width where it does not matter to the result: buffer sizes, positions, round_robin and the memory figures do not wrap around.
- JsonParser.ParseStreamInto: says nothing about the tree when the outcome is Undefined, because the code has then left its memory.
- JsonPrinter.PrintTree: trees that contain references or unnamed object members are not printed; JsonPrinter.PrintArray and JsonPrinter.PrintObject neither.
- Malformed hexadecimal escapes: sscanf may accept fewer digits, signs or spaces; all of that is Undefined here.
- Session.OnReadable: a debug level above 0 is not modelled, and the replies go to a text that grows instead of a socket. Connection.Reader.OnReadable is its reading part and leaves evaluating and freeing the tree to it.
- Sockets, libev, pthread locks, reads of /proc: step inputs. A wake-up is a flag that a send sets and the callback finds cleared.
- Dispatch: the workers' serving of connections they have adopted; the accepting thread's address bookkeeping.
- Rpc: replies are values, whose text the JSON modules cover; handlers are arbitrary functions of the values of params and id, so a handler that changes its params is not modelled.
- Handlers in `src/server.c`: glue around OS calls.
- AccountFiles.PgsReader: read errors other than the end of the file and files with NUL bytes; AccountFiles.Lookup: a file that cannot be opened.
- GroupEntry.ParseGrent: addresses are 64-bit and little-endian; another layout of pointers changes the table's size only.
- Shadow passwords (`bb__parsespent`): compiled out.
- OptionFlags.ReadOptions: the stored option arguments (strings, lists, integers) and long options; getopt itself delivers the letters.
- Caches: the group half of pwcache is the same code as the user half and is modelled once.
- llist, strlcpy, full_read, full_write, iopp's list and iotop's sort.
- Terminal display, headers and column output of the tools.
