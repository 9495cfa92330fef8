# Verified models of lwip_windows

This project models, in Dafny 4.11, the parts of the repository whose behaviour is
hardest to see from the code: its codecs, its in-place transforms, its hash, and its
session and queue state machines. `dafny verify dfyconfig.toml` checks all of it.

## What is modelled

**Integer JSON** (`edp_c-master/c/cJSON.c`). `JsonStrings` and `Json` give the parser and
the printer as functions on text: a pointer into NUL-terminated text is the suffix it
points to. `JsonParser` holds the pointer-moving parser and `JsonPrinter` the printer with
its sizing passes and the buffers it fills, both proved against those functions.
`JsonNumbers` says what a number literal is worth and when that is what is read,
`JsonMeasure` when the pass that counts room for a string counts enough, `JsonEscapes` that
it does in every text whose escapes are valid, so in every printed document.
`JsonRoundTrip` proves that the parser undoes the printer, formatted or compact, for every
tree and every 32-bit number. `JsonLiterals` says how every string literal of the standard
is read, those included that stand for no text. `JsonSyntax` and `JsonGrammar` hold the
texts of section 2 of RFC 8259 as trees that keep every blank and every spelling: the parser
reads each as its value, and accepts nothing that such a tree does not spell. `JsonMinify`
proves that the in-place minifier turns the formatted print into the compact one,
`JsonComments` that it reduces any text with blanks and comments to its tokens;
`JsonDocument` puts the calls together. String literals are judged against section 7 of
RFC 8259 and section 3 of RFC 3629.

**The EDP protocol** (`edp_c-master/c-old/EdpKit.c`, `Openssl.c`). `EdpWire` defines the
length field and framing, `EdpStream` the reassembly of packets from chunks, `EdpBuffer`
the growable buffer with its readers and writers, `EdpPackets` and `EdpUnpack` the
constructors and their inverses, `EdpReaders` the packets for which the source has no
unpacker, read with the buffer's readers one after another, `EdpCrypto` the in-place
encryption that can widen the length field and shift the body. The block cipher is any pair of inverse functions on
16-byte blocks.

**SHA-1 and HMAC** (`aliyun_iot_common_sha1.c`, `aliyun_iot_common_hmac.c`). `Sha1Spec`
is sections 4.1.1, 5.1.1, 6.1.2 and 6.1.3 of FIPS 180-4 and section 2 of RFC 2104;
`Sha1Compress`, `Sha1Stream` and `Hmac` are the code, proved against it. `Sha1Numbers`
says which numbers its words, bytes and constants stand for; `Sha1Fast` is the compression
with literal shifts, with which `Sha1Vectors` and `HmacVectors` work out the digest of "abc"
that FIPS 180 gives and the first value of RFC 2202 from the definitions.

**The SMTP client** (`contrib/apps/smtp/smtp.c`). `SmtpText` holds what the client reads
and writes, `Smtp` the state machine over the stack's callbacks, `SmtpSession` the session
structure and the callbacks proved against it, `SmtpSafety` what holds over every sequence
of callbacks and write failures, `SmtpProgress` what moves it on, `SmtpDelivery` when a mail
gets through although replies come in pieces and writes fail, `SmtpData` what the server
makes of the message and `SmtpServer` what one that reads commands as the standards say
hears of the whole session. The connection is a parameter: each callback is told
which of its writes succeed, how much room there is and whether closing works. `Base64`,
`Base64Bits` and `Base64Shift` are section 4 of RFC 4648 and the repository's two encoders.

**The CCP client** (`aliyun-iot-device-sdk-c/src/ccp`, `aliyun_iot_common_list.c`).
`LinkedList` is the doubly linked list on the heap, `CcpNodes` what the queues do with its
nodes. `CcpRepublish` and `CcpUnack` are the
two shared queues as state machines whose steps are the stretches of code between taking
and releasing a mutex, so that every interleaving of the threads is a sequence of steps;
`CcpClient` holds the code of those steps on linked nodes and an iterator, proved to take
them, the `Safety` modules what every sequence keeps, the `History` modules what the
sequence says about each entry: what it was pushed with, what settled it, when its timer
was last started. `CcpRepublishTimers` is one sequence
that resends an entry early, `CcpFailedSend` says when the node of a failed send is still there.
`CcpPacket` and `CcpPublish` are the byte codec. The clock is a number that does not
decrease; memory, connection state and the platform's answers are parameters of a step.

`Octets`, `Sequences`, `Bits` and `Arithmetic` hold what several of these share.

Integers are unbounded in the model. Widths that matter are written out: 32-bit
accumulation in JSON numbers and in the buffer's capacity doubling, the 64-bit bit count of
SHA-1, the 16-bit string lengths of EDP, the 32-bit accumulator and signed characters of
the HTTP client's Base64, the sequence counter of CCP.

## What turned out not to hold as one would expect

- A number is read as its integer part modulo 2^32 (`cJSON.c:97-139`): `1e2` as 1. What is
  read is its value exactly when the integer part fits 32 bits and fraction and exponent
  change nothing.
- The pass that counts a string's bytes stops at a quote among the four characters a
  malformed `\u` escape skips (`cJSON.c:186-218`): it counts one byte for `\u"aaabbbb"`,
  where four are written. It counts enough whenever decoding stops no later than counting,
  and so in every text in which each backslash begins a valid escape.
- A block comment whose text starts with a slash is taken to end at that slash
  (`cJSON.c:627-627`); the minifier drops every other comment whole.
- A high surrogate followed by an escape that is no low surrogate swallows that escape
  (`cJSON.c:213-219`).
- `CheckCapacity` (`EdpKit.c:297-320`) makes room exactly when position plus length is at most
  2^31; beyond that its doubling wraps to zero and it may report success without room.
- A string of 65536 bytes or more is written with its length modulo 2^16
  (`EdpKit.c:522-529`). Each EDP round trip below is an if-and-only-if with that condition;
  the guard of the binary packet (`EdpKit.c:791-836`) lets a description of exactly 65536
  bytes through.
- A command response without text is sent without the text's length (`EdpKit.c:837-855`), so
  a reader of commands (`EdpKit.c:1042-1062`) reads it back exactly when the text is not empty.
- `ReadDataTime` (`EdpKit.c:396-452`) refuses the year 2000, which the writer accepts.
- Encrypting a packet whose length field is longer than necessary does not move the body
  left (`Openssl.c:149-221`); the round trip holds exactly when the field is the shortest one
  or the body is empty, which neither call touches. A body of one byte behind the field
  81 00 does not come back.
- One `update` of 2^32 bytes or more loses the high part of its length
  (`aliyun_iot_common_sha1.c:230-276`). The hash is then taken over a padding with the counted
  length, which is the standard's padding exactly when no such call was made.
- `smtp_verify` is documented to admit no single CR, but with line breaks allowed it admits a
  CR before any other character (`smtp.c:708-744`), as in a line with a CR in its middle. No
  call in the repository allows line breaks: the body, too, is checked with line breaks
  disallowed, unlike the comment at `smtp.c:497-500` says.
- The AUTH line of a reply is copied into the 256-byte transmit buffer unchecked
  (`smtp.c:1048-1051`); the copy leaves the buffer exactly when the line, from the keyword to its
  CRLF, is longer than 255 bytes.
- A thread whose send fails marks its queue entry through a pointer it kept
  (`CCPPublish.c:231-247`). The entry is linked as long as it was not marked (for requests: nor
  reported); published, acknowledged and swept before the send fails, it is gone.
- A reply whose first fragment is shorter than three bytes loses that fragment
  (`smtp.c:945-968`); cut in two, a reply that moves the client on still does so exactly when
  the first piece holds the code.
- The retransmitting sweep restarts timers from tail to head, so its timers are not in order and
  its flag makes it resend entries before their own time (`CCPClientInternal.c:902-933`),
  exactly when a newer entry of the same sweep was due; for the unacknowledged requests the
  same flag is exact.
- A body that starts with a dot does not arrive as it was sent (`smtp.c:1197-1242`).
- The HTTP client's Base64 encoder sign-extends characters; its text is Base64 exactly when
  every byte from 128 up starts a group of three or follows one whose shared bits are all
  ones.
- CCP numbers from 2^28 up take five bytes and come back modulo 2^28 (`CCPPacket.c:49-89`).

## Model

| member | source | states |
|---|---|---|
| JsonStrings.Utf8Inverse | edp_c-master/c/cJSON.c:208-230 | the bytes produced for a code point are the UTF-8 encoding that decodes to it, lead byte and continuation bytes in place |
| Bits.ContinuationBits | edp_c-master/c/cJSON.c:223-228 | the source's mask arithmetic yields a continuation byte carrying the low six bits |
| JsonParser.FirstByte | edp_c-master/c/cJSON.c:227-227 | the mark of a first byte and the bits under it do not overlap |
| JsonStrings.DecodeMeaning | edp_c-master/c/cJSON.c:184-242 | decoding any valid literal of section 7 of RFC 8259, surrogate pairs included, yields the text it denotes and stops at the closing quote |
| JsonStrings.EscapeRoundTrip | edp_c-master/c/cJSON.c:184-279 | reading the escaped form of any C string gives the string back |
| JsonLiterals.DecodeLiteral | edp_c-master/c/cJSON.c:194-237 | every literal of section 7 of RFC 8259, whatever its \u escapes, is read to its closing quote; what each escape and each two of them become |
| JsonLiterals.ReadingIsMeaning | edp_c-master/c/cJSON.c:208-230 | on a literal that stands for text this reading is the text |
| JsonLiterals.HexNumber | edp_c-master/c/cJSON.c:169-180 | four hexadecimal digits, in either case and the highest first, are read as the number they spell |
| JsonLiterals.CombineInverse | edp_c-master/c/cJSON.c:213-219 | the two surrogates of any code point above 0xFFFF combine to it |
| JsonMeasure.PassTells | edp_c-master/c/cJSON.c:189-189 | what the counting pass does with the next characters decides the whole count |
| JsonMeasure.Within | edp_c-master/c/cJSON.c:186-242 | the counting pass counts at least as many bytes as decoding writes, for every text on which decoding stops no later than counting |
| JsonMeasure.SameEnd | edp_c-master/c/cJSON.c:186-242 | both passes stop at the same place when counting neither stops among the characters an escape skips nor pairs the last of them with the next |
| JsonMeasure.MeasureBoundsDecode | edp_c-master/c/cJSON.c:186-242 | so on such text, malformed escapes included, decoding stays within the room counted |
| JsonMeasure.OrderlyIsRoomy | edp_c-master/c/cJSON.c:184-242 | a text has room for every literal in it when on each of them both passes agree |
| JsonMeasure.TooLittleRoom | edp_c-master/c/cJSON.c:186-218 | a literal for which one byte is counted and four are written |
| JsonEscapes.OrderlyLiteral | edp_c-master/c/cJSON.c:186-242 | on every literal of section 7 of RFC 8259 both passes agree, whatever follows |
| JsonEscapes.LiteralFits | edp_c-master/c/cJSON.c:186-242 | what such a literal denotes is no longer than the first pass counts, and the pass stops at the closing quote |
| JsonEscapes.WellEscapedIsRoomy | edp_c-master/c/cJSON.c:184-242 | in a text in which every backslash begins a valid escape no literal, wherever it starts, overruns its buffer |
| JsonEscapes.PrintWellEscaped | edp_c-master/c/cJSON.c:245-540 | every print of every tree is such a text |
| JsonEscapes.PrintRoomy | edp_c-master/c/cJSON.c:245-540 | so no literal of a print overruns its buffer, and the print holds no NUL |
| JsonNumbers.NumberRead | edp_c-master/c/cJSON.c:97-139 | every number literal, with any fraction and exponent, is read to its end as its integer part modulo 2^32 |
| JsonNumbers.ReadIsValue | edp_c-master/c/cJSON.c:97-139 | that is the value of the literal exactly when the integer part fits and fraction and exponent change nothing |
| JsonNumbers.HundredReadAsOne | edp_c-master/c/cJSON.c:129-135 | 1e2 is read as 1 |
| JsonRoundTrip.NumberRoundTrip | edp_c-master/c/cJSON.c:97-167 | every 32-bit integer, INT_MIN included, is read back from its print, whatever non-number text follows |
| JsonRoundTrip.StringRoundTrip | edp_c-master/c/cJSON.c:184-279 | a printed string parses back and leaves the rest |
| JsonRoundTrip.RoundTrip | edp_c-master/c/cJSON.c:97-540 | parsing the print of any tree, formatted or compact, at any depth and followed by any text that cannot extend a number, gives the tree and consumes exactly the print |
| JsonRoundTrip.ItemsRoundTrip | edp_c-master/c/cJSON.c:351-434 | the same for the rest of an array, from any place in it |
| JsonRoundTrip.MembersRoundTrip | edp_c-master/c/cJSON.c:437-540 | the same for the rest of an object |
| JsonRoundTrip.DocumentRoundTrip | edp_c-master/c/cJSON.c:295-316 | a printed document parses back with or without the end-of-text requirement |
| JsonSyntax.ReadsBack | edp_c-master/c/cJSON.c:318-470 | the text of any tree, with any blanks before and after each value and around each of the six structural characters, is read to its end and gives the tree, whatever follows that cannot extend a number |
| JsonSyntax.ItemsReadBack | edp_c-master/c/cJSON.c:351-376 | the same for the rest of an array, from any place in it |
| JsonSyntax.EntriesReadBack | edp_c-master/c/cJSON.c:437-470 | the same for the rest of an object |
| JsonGrammar.StandardGood | edp_c-master/c/cJSON.c:97-139 | in a text of RFC 8259 no number inside an array or an object is continued by what follows it |
| JsonGrammar.DocumentRead | edp_c-master/c/cJSON.c:295-309 | any text of section 2 of RFC 8259 with blanks before it and anything behind it gives its tree; with the end demanded it fails exactly when something other than blanks follows, at the first such character |
| JsonGrammar.StandardBlanks | edp_c-master/c/cJSON.c:292-292 | space, tab, line feed and carriage return are skipped |
| JsonGrammar.Spelled | edp_c-master/c/cJSON.c:318-470 | conversely, every text that is accepted is spelled by a tree with the value found |
| JsonGrammar.DocumentSpelled | edp_c-master/c/cJSON.c:295-309 | the parser stops at a place with a value exactly when the text before it is blanks and the spelling of a tree with that value |
| JsonMinify.MinifyInPlace | edp_c-master/c/cJSON.c:617-632 | the buffer ends up holding the minified text and its NUL, the write position never passing the read position, and nothing behind the old NUL changed |
| JsonMinify.MinifyNext | edp_c-master/c/cJSON.c:622-630 | one turn of the loop takes the buffer and both pointers on as the minifier's automaton does |
| JsonMinify.MinifyValue | edp_c-master/c/cJSON.c:617-632 | minifying a print inside any token context yields the compact print |
| JsonMinify.MinifyPrint | edp_c-master/c/cJSON.c:617-632 | minifying the formatted print of any tree gives its compact print |
| JsonComments.FillersDropped | edp_c-master/c/cJSON.c:622-627 | any run of blanks, line comments and block comments between tokens is dropped, whatever follows |
| JsonComments.SlashEndsComment | edp_c-master/c/cJSON.c:627-627 | a block comment that starts with a slash is taken to end there |
| JsonComments.Bares | edp_c-master/c/cJSON.c:617-632 | a text with blanks and comments in it is reduced to its tokens, in any context |
| JsonComments.MinifiedText | edp_c-master/c/cJSON.c:617-632 | any text of RFC 8259 with blanks and comments between its tokens is minified to its tokens, and parsing those gives its tree with nothing left |
| JsonParser.SkipBlanks | edp_c-master/c/cJSON.c:292-292 | the loop stops at the first character above space |
| JsonParser.EncodeUtf8 | edp_c-master/c/cJSON.c:221-229 | the fall-through switch writes the code point's bytes |
| JsonParser.ParseHex4 | edp_c-master/c/cJSON.c:169-180 | four hexadecimal digits, or zero |
| JsonParser.ParseUnicode | edp_c-master/c/cJSON.c:208-230 | one escape or a surrogate pair, with the source's rejections |
| JsonParser.MeasureLiteral | edp_c-master/c/cJSON.c:189-189 | the counting loop |
| JsonParser.DecodeNext | edp_c-master/c/cJSON.c:196-235 | one character or escape, and where the next one starts |
| JsonParser.DecodeLiteral | edp_c-master/c/cJSON.c:194-237 | the decoding loop |
| JsonParser.DecodeInto | edp_c-master/c/cJSON.c:191-239 | the decoding loop into a buffer: the text and its NUL, or an overrun exactly when the text does not fit |
| JsonParser.ParseStringText | edp_c-master/c/cJSON.c:184-242 | parse_string as the grammar function, filling a buffer of the counted size; exactly when it would write behind that buffer |
| JsonParser.ParseNumberText | edp_c-master/c/cJSON.c:97-139 | parse_number with 32-bit wrap-around as the grammar function |
| JsonParser.ParseValue | edp_c-master/c/cJSON.c:318-330 | parse_value as the grammar function, errors included |
| JsonParser.ParseItemText | edp_c-master/c/cJSON.c:361-372 | one item and the blanks around it |
| JsonParser.ParseArrayText | edp_c-master/c/cJSON.c:351-376 | parse_array as the grammar function |
| JsonParser.ParseMemberText | edp_c-master/c/cJSON.c:437-470 | one name and value of an object |
| JsonParser.ParseObjectText | edp_c-master/c/cJSON.c:437-470 | parse_object as the grammar function |
| JsonParser.ParseWithOpts | edp_c-master/c/cJSON.c:295-309 | the document function, errors included, which JsonGrammar proves to give the tree of every text of RFC 8259 with any blanks, and to fail with the end demanded exactly when something else follows; no literal overruns its buffer when the text has room for each, which JsonEscapes proves of every text with valid escapes |
| JsonDocument.PrintThenParse | edp_c-master/c/cJSON.c:295-348 | printing any tree and parsing the text gives the tree back and overruns no buffer |
| JsonDocument.ParseStandard | edp_c-master/c/cJSON.c:295-309 | the call on any such text gives its tree, or fails exactly when something other than blanks follows and the end is demanded |
| JsonDocument.MinifyPrinted | edp_c-master/c/cJSON.c:617-632 | minifying a buffer that holds either print of any tree leaves the compact print and its NUL in it |
| JsonDocument.MinifyText | edp_c-master/c/cJSON.c:617-632 | minifying a buffer that holds a text with blanks and comments leaves its tokens and their NUL, a document of the same tree |
| JsonPrinter.StrCpy | edp_c-master/c/cJSON.c:422-432 | a copy into the output buffer with its NUL, nothing behind it changed |
| JsonPrinter.MeasureEscaped | edp_c-master/c/cJSON.c:250-250 | the counting pass returns exactly the length of the escaped text |
| JsonPrinter.PrintStringPtr | edp_c-master/c/cJSON.c:245-279 | the string printer fills its buffer exactly |
| JsonPrinter.PrintNumberText | edp_c-master/c/cJSON.c:142-167 | the decimal text, within the 20 bytes allocated |
| JsonPrinter.ItemsFit | edp_c-master/c/cJSON.c:379-434 | the array allocation bounds what is composed |
| JsonPrinter.MembersFit | edp_c-master/c/cJSON.c:473-540 | the object allocation bounds what is composed |
| JsonPrinter.CollectItems | edp_c-master/c/cJSON.c:399-412 | first pass of print_array: the texts and the size to allocate |
| JsonPrinter.ComposeArray | edp_c-master/c/cJSON.c:422-434 | second pass of print_array, inside that allocation |
| JsonPrinter.PrintArrayText | edp_c-master/c/cJSON.c:379-434 | print_array as the printing function |
| JsonPrinter.CollectMembers | edp_c-master/c/cJSON.c:500-512 | first pass of print_object |
| JsonPrinter.ComposeObject | edp_c-master/c/cJSON.c:522-540 | second pass of print_object |
| JsonPrinter.PrintObjectText | edp_c-master/c/cJSON.c:473-540 | print_object as the printing function |
| JsonPrinter.PrintEmptyObject | edp_c-master/c/cJSON.c:482-491 | the special case of an object without members |
| JsonPrinter.PrintValue | edp_c-master/c/cJSON.c:333-348 | print_value as the printing function |
| EdpWire.LengthRoundTrip | edp_c-master/c-old/EdpKit.c:454-475 | every length below 2^28 is read back, whatever follows, from at most four bytes |
| EdpWire.LengthStable | edp_c-master/c-old/EdpKit.c:887-929 | what was decided about a length field is not changed by later bytes |
| EdpWire.LengthBelowLimit | edp_c-master/c-old/EdpKit.c:454-475 | no length read reaches 2^28 |
| EdpWire.RemainlenDigits | edp_c-master/c-old/EdpKit.c:530-550 | the field is the length in base 128, lowest digit first, no digit too many, the top bit set on all bytes but the last |
| EdpWire.FrameDelimited | edp_c-master/c-old/EdpKit.c:887-929 | a frame is found whole exactly when its declared length is right |
| EdpWire.FrameIncomplete | edp_c-master/c-old/EdpKit.c:887-929 | every proper prefix of a frame asks for more bytes |
| EdpStream.ChunkIndependence | edp_c-master/c-old/Main.c:221-240 | appending and extracting chunk by chunk equals extracting from the whole stream |
| EdpStream.DrainConserves | edp_c-master/c-old/EdpKit.c:870-885 | extracted bytes followed by buffered bytes are the bytes received |
| EdpStream.DrainPackets | edp_c-master/c-old/EdpKit.c:870-885 | a concatenation of well-formed packets yields exactly those packets |
| EdpStream.Reassembly | edp_c-master/c-old/Main.c:221-240 | for any packets cut into any chunks the loop yields them in order and keeps nothing |
| EdpStream.PartialReassembly | edp_c-master/c-old/Main.c:221-240 | a packet still incomplete at the end stays buffered as it is |
| EdpBuffer.Buffer.constructor | edp_c-master/c-old/EdpKit.c:281-288 | a new buffer is empty |
| EdpBuffer.Buffer.CheckCapacity | edp_c-master/c-old/EdpKit.c:297-320 | contents kept; room is made exactly up to 2^31; exactly when an error is reported, doubling wrapping to zero |
| EdpBuffer.Buffer.WriteByte | edp_c-master/c-old/EdpKit.c:477-484 | appends one byte |
| EdpBuffer.Buffer.WriteBytes | edp_c-master/c-old/EdpKit.c:486-493 | appends the bytes |
| EdpBuffer.Buffer.WriteUint16 | edp_c-master/c-old/EdpKit.c:495-499 | appends two bytes, high first |
| EdpBuffer.Buffer.WriteUint32 | edp_c-master/c-old/EdpKit.c:501-508 | appends four bytes, high first |
| EdpBuffer.Buffer.WriteStr | edp_c-master/c-old/EdpKit.c:522-528 | appends length modulo 2^16 and that many bytes |
| EdpBuffer.Buffer.WriteRemainlen | edp_c-master/c-old/EdpKit.c:530-550 | appends the length field, nothing behind it changed |
| EdpBuffer.Buffer.ReadByte | edp_c-master/c-old/EdpKit.c:322-328 | takes one unread byte or fails and moves nothing |
| EdpBuffer.Buffer.ReadBytes | edp_c-master/c-old/EdpKit.c:330-337 | takes count bytes or fails, with the source's 32-bit sum |
| EdpBuffer.Buffer.ReadUint16 | edp_c-master/c-old/EdpKit.c:339-349 | inverse of WriteUint16 |
| EdpBuffer.Buffer.ReadUint32 | edp_c-master/c-old/EdpKit.c:351-363 | inverse of WriteUint32 |
| EdpBuffer.Buffer.ReadStr | edp_c-master/c-old/EdpKit.c:378-394 | takes a counted string, or fails behind the count if there was one |
| EdpBuffer.Buffer.ReadRemainlen | edp_c-master/c-old/EdpKit.c:454-475 | the loop reads the same length field as the framing functions, or fails behind at most five bytes |
| EdpBuffer.Buffer.IsPkgComplete | edp_c-master/c-old/EdpKit.c:887-929 | the first packet's whole length, 0 for more bytes, -1 for a bad field |
| EdpBuffer.Buffer.GetEdpPacket | edp_c-master/c-old/EdpKit.c:870-885 | takes exactly the first packet off the front, or nothing |
| EdpBuffer.Buffer.ReceiveChunk | edp_c-master/c-old/Main.c:221-240 | one turn of the receive loop yields the packets and the rest that the stream function gives |
| EdpPackets.FieldLength | edp_c-master/c-old/EdpKit.c:522-528 | a field takes its nominal size exactly when its string fits 16 bits |
| EdpPackets.BodyLength | edp_c-master/c-old/EdpKit.c:553-622 | the declared length is the body's exactly when all strings fit |
| EdpPackets.SelfDelimiting | edp_c-master/c-old/EdpKit.c:887-929 | a constructed packet is found whole exactly when all strings fit |
| EdpPackets.PacketConnect1 | edp_c-master/c-old/EdpKit.c:553-575 | the packet's fields in order, which EdpReaders.Connect1RoundTrip reads back |
| EdpPackets.PacketConnect2 | edp_c-master/c-old/EdpKit.c:577-604 | the packet's fields in order, which EdpReaders.Connect2RoundTrip reads back |
| EdpPackets.PacketPushdata | edp_c-master/c-old/EdpKit.c:606-622 | the packet's fields in order |
| EdpPackets.PacketSavedataSimpleString | edp_c-master/c-old/EdpKit.c:1077-1112 | the packet's fields, with and without destination and message id |
| EdpPackets.PacketSavedataSimpleStringWithTime | edp_c-master/c-old/EdpKit.c:1121-1182 | the same with a time, or zeros for none |
| EdpPackets.PacketSavedataBinStr | edp_c-master/c-old/EdpKit.c:791-835 | the packet, or none exactly when a size guard fails |
| EdpPackets.PacketCmdResp | edp_c-master/c-old/EdpKit.c:837-855 | the packet's fields in order, which EdpReaders.CmdRespRoundTrip reads back |
| EdpPackets.PacketPing | edp_c-master/c-old/EdpKit.c:857-868 | the bytes C0 00 |
| EdpPackets.MeasureVersions | edp_c-master/c-old/EdpKit.c:1302-1310 | the length of the list's fields, unless a name is empty |
| EdpPackets.PacketUpdateReq | edp_c-master/c-old/EdpKit.c:1293-1321 | the packet, or none exactly when a name is empty; EdpReaders.UpdateReqRoundTrip reads it back |
| EdpUnpack.UnpackPushdata | edp_c-master/c-old/EdpKit.c:952-965 | the reader as a function of the unread bytes, errors included |
| EdpUnpack.UnpackSavedata | edp_c-master/c-old/EdpKit.c:967-997 | the reader as a function of the unread bytes, errors included |
| EdpUnpack.ReadDataTime | edp_c-master/c-old/EdpKit.c:396-452 | the reader with its range checks |
| EdpUnpack.UnpackSimpleString | edp_c-master/c-old/EdpKit.c:1114-1119 | the reader as a function of the unread bytes |
| EdpUnpack.UnpackStringWithTime | edp_c-master/c-old/EdpKit.c:1184-1190 | the reader as a function of the unread bytes |
| EdpUnpack.UnpackBinStr | edp_c-master/c-old/EdpKit.c:1030-1040 | the reader as a function of the unread bytes |
| EdpUnpack.PushdataRoundTrip | edp_c-master/c-old/EdpKit.c:606-622 | destination and data come back exactly when the destination is shorter than 2^16 |
| EdpUnpack.SimpleStringRoundTrip | edp_c-master/c-old/EdpKit.c:1077-1119 | destination and text come back exactly when each is shorter than 2^16 |
| EdpUnpack.StringWithTimeRoundTrip | edp_c-master/c-old/EdpKit.c:1121-1190 | the same with the time, exactly when the reader's ranges admit it |
| EdpUnpack.BinStrRoundTrip | edp_c-master/c-old/EdpKit.c:791-835 | description and data come back exactly when the description is not 65536 bytes long |
| EdpReaders.StrsBack | edp_c-master/c-old/EdpKit.c:378-394 | strings written in a row come back in order, each cut to its length modulo 2^16, and what follows is untouched |
| EdpReaders.Connect1RoundTrip | edp_c-master/c-old/EdpKit.c:553-575 | read field by field, the packet is 10, the length, "EDP", 1, 40, 300, device and key in that order with nothing left, exactly when both strings are shorter than 2^16 |
| EdpReaders.Connect2RoundTrip | edp_c-master/c-old/EdpKit.c:577-604 | the same with C0, 128, an empty device name, user and secret |
| EdpReaders.SavedRoundTrip | edp_c-master/c-old/EdpKit.c:1077-1112 | destination and message id of any saved data come back, kind and data left, exactly when the destination is shorter than 2^16 |
| EdpReaders.UnpackCmdReq | edp_c-master/c-old/EdpKit.c:1042-1062 | the reader as a function of the unread bytes, errors included |
| EdpReaders.CmdRespRoundTrip | edp_c-master/c-old/EdpKit.c:837-1062 | read as a command is read, identifier and text come back exactly when the text is not empty |
| EdpReaders.CmdRespEmpty | edp_c-master/c-old/EdpKit.c:837-855 | a response without text is its identifier behind a length, and nothing else |
| EdpReaders.UpdateReqRoundTrip | edp_c-master/c-old/EdpKit.c:1293-1321 | names and versions come back in order with nothing left, behind a length that counts them, exactly when every string is shorter than 2^16 |
| EdpCrypto.MapInverse | edp_c-master/c-old/Openssl.c:222-272 | decrypting block by block undoes encrypting |
| EdpCrypto.StripPadded | edp_c-master/c-old/Openssl.c:174-251 | removing the padding undoes adding it |
| EdpCrypto.PaddingBytes | edp_c-master/c-old/Openssl.c:174-194 | one to sixteen bytes, each the character that many behind '0' |
| EdpCrypto.CryptRoundTrip | edp_c-master/c-old/Openssl.c:149-272 | for the encryption proper, which the guarded calls below run on non-empty bodies: decryption restores the packet's bytes exactly when its length field is the shortest one |
| EdpCrypto.CryptBlocks | edp_c-master/c-old/Openssl.c:190-194 | the block loop in place, nothing else changed |
| EdpCrypto.PadAndEncrypt | edp_c-master/c-old/Openssl.c:165-194 | the body becomes the encryption of its padded form, the header untouched |
| EdpCrypto.MakeRoom | edp_c-master/c-old/Openssl.c:200-212 | the body is shifted right by the growth of the length field |
| EdpCrypto.AesEncrypt | edp_c-master/c-old/Openssl.c:149-220 | the whole packet afterwards, length field rewritten |
| EdpCrypto.SymmEncrypt | edp_c-master/c-old/Openssl.c:276-301 | an empty body is left alone, any other is encrypted |
| EdpCrypto.DecryptBlocks | edp_c-master/c-old/Openssl.c:234-240 | whole blocks are decrypted in place, a partial one is left |
| EdpCrypto.CloseGap | edp_c-master/c-old/Openssl.c:251-271 | the body is shifted left by the shrinkage of the length field |
| EdpCrypto.AesDecrypt | edp_c-master/c-old/Openssl.c:222-272 | the packet with its padding removed, or an error when the last byte is no padding byte |
| EdpCrypto.SymmDecrypt | edp_c-master/c-old/Openssl.c:303-328 | an empty body is left alone, any other is decrypted |
| EdpCrypto.EncryptThenDecrypt | edp_c-master/c-old/Openssl.c:276-328 | the two calls in sequence, on any packet, restore every byte exactly when the body is empty or the length field is the shortest one, also when the field changes width |
| EdpCrypto.NeverSame | edp_c-master/c-old/Openssl.c:222-251 | a packet left with its padding on is not the packet that was encrypted |
| EdpCrypto.EmptyBodyKept | edp_c-master/c-old/Openssl.c:276-328 | an empty body behind a longer length field, which the two calls keep |
| EdpCrypto.LongerFieldLost | edp_c-master/c-old/Openssl.c:149-272 | a framed packet of one byte behind a longer length field, which no cipher brings back |
| Sha1Compress.ChRewritten | aliyun-iot-device-sdk-c/common/src/aliyun_iot_common_sha1.c:112-112 | the rewritten choice function is Ch |
| Sha1Compress.MajRewritten | aliyun-iot-device-sdk-c/common/src/aliyun_iot_common_sha1.c:166-166 | the rewritten majority function is Maj |
| Sha1Compress.HoldsStep | aliyun-iot-device-sdk-c/common/src/aliyun_iot_common_sha1.c:94-99 | overwriting one slot of the 16-word ring keeps it equal to the last sixteen words of the 80-word schedule |
| Sha1Compress.ScheduleWord | aliyun-iot-device-sdk-c/common/src/aliyun_iot_common_sha1.c:94-99 | the ring yields word t of the schedule |
| Sha1Compress.LoadBlock | aliyun-iot-device-sdk-c/common/src/aliyun_iot_common_sha1.c:75-90 | the block's sixteen words, high byte first |
| Sha1Compress.GetWord | aliyun-iot-device-sdk-c/common/src/aliyun_iot_common_sha1.c:18-26 | the code's own shifts give the word the four bytes spell |
| Sha1Numbers.WordAtNumber | aliyun-iot-device-sdk-c/common/src/aliyun_iot_common_sha1.c:18-26 | as a number the word is its four bytes in base 256, the first the highest |
| Sha1Compress.Step | aliyun-iot-device-sdk-c/common/src/aliyun_iot_common_sha1.c:101-104 | the two-register update is a round of FIPS 180-4 with the registers renamed |
| Sha1Compress.FiveSteps | aliyun-iot-device-sdk-c/common/src/aliyun_iot_common_sha1.c:115-119 | five renamed steps are five rounds and bring the registers back to their places |
| Sha1Compress.Process | aliyun-iot-device-sdk-c/common/src/aliyun_iot_common_sha1.c:71-225 | the compression function of section 6.1.2 of FIPS 180-4, for every state and block |
| Sha1Numbers.Roots | aliyun-iot-device-sdk-c/common/src/aliyun_iot_common_sha1.c:113-194 | the four constants are the square roots of 2, 3, 5 and 10 times 2^30, rounded down |
| Sha1Fast.FastIs | aliyun-iot-device-sdk-c/common/src/aliyun_iot_common_sha1.c:71-225 | compression with literal rotations and the schedule in groups of four is the compression function |
| Sha1Stream.CounterAdd | aliyun-iot-device-sdk-c/common/src/aliyun_iot_common_sha1.c:241-245 | the two-word counter with its carry counts modulo 2^64 what was not lost |
| Sha1Stream.Context.constructor | aliyun-iot-device-sdk-c/common/src/aliyun_iot_common_sha1.c:37-40 | a context of the empty message |
| Sha1Stream.Context.Starts | aliyun-iot-device-sdk-c/common/src/aliyun_iot_common_sha1.c:59-69 | back to the empty message |
| Sha1Stream.Context.Count | aliyun-iot-device-sdk-c/common/src/aliyun_iot_common_sha1.c:241-245 | the counter after an update |
| Sha1Stream.Context.FillBlock | aliyun-iot-device-sdk-c/common/src/aliyun_iot_common_sha1.c:247-254 | the buffered block is completed and compressed |
| Sha1Stream.Context.Keep | aliyun-iot-device-sdk-c/common/src/aliyun_iot_common_sha1.c:264-265 | the tail is buffered |
| Sha1Stream.Context.Absorb | aliyun-iot-device-sdk-c/common/src/aliyun_iot_common_sha1.c:247-265 | all whole blocks are compressed in order, the rest is buffered |
| Sha1Stream.Context.Update | aliyun-iot-device-sdk-c/common/src/aliyun_iot_common_sha1.c:230-266 | the context now stands for the message with the input appended |
| Sha1Stream.Context.LengthField | aliyun-iot-device-sdk-c/common/src/aliyun_iot_common_sha1.c:284-289 | the counted bits in eight bytes |
| Sha1Numbers.BigEndian64Number | aliyun-iot-device-sdk-c/common/src/aliyun_iot_common_sha1.c:284-289 | the eight bytes are the number in base 256, the first the highest |
| Sha1Stream.Context.Padding | aliyun-iot-device-sdk-c/common/src/aliyun_iot_common_sha1.c:268-294 | one bit and zeros up to eight bytes before a block's end |
| Sha1Stream.Context.Finish | aliyun-iot-device-sdk-c/common/src/aliyun_iot_common_sha1.c:278-302 | the hash of the message padded with the counted length, its bytes written word by word with the code's own shifts |
| Sha1Stream.PutWord | aliyun-iot-device-sdk-c/common/src/aliyun_iot_common_sha1.c:28-34 | the four bytes of a word, highest first, and nothing else changed |
| Sha1Numbers.WordNumber | aliyun-iot-device-sdk-c/common/src/aliyun_iot_common_sha1.c:28-34 | as a number the four bytes are the word |
| Sha1Numbers.DigestNumber | aliyun-iot-device-sdk-c/common/src/aliyun_iot_common_sha1.c:296-301 | as one number in base 256 the twenty bytes are a 2^128 + b 2^96 + c 2^64 + d 2^32 + e |
| Sha1Vectors.DigestAbc | aliyun-iot-device-sdk-c/common/src/aliyun_iot_common_sha1.c:308-317 | the digest of "abc" is the one FIPS 180 gives |
| Hmac.PaddingRight | aliyun-iot-device-sdk-c/common/src/aliyun_iot_common_sha1.c:230-302 | the padding is that of section 5.1.1 of FIPS 180-4 exactly when no update lost part of its length |
| Hmac.HashChunks | aliyun-iot-device-sdk-c/common/src/aliyun_iot_common_sha1.c:230-302 | any split of a message into updates gives the hash of the whole padded with the counted length, and the FIPS 180-4 digest when every update is below 2^32 bytes |
| Hmac.ChunksPadded | aliyun-iot-device-sdk-c/common/src/aliyun_iot_common_sha1.c:230-302 | for any split, that padding is the one of section 5.1.1 of FIPS 180-4 exactly when every update is below 2^32 bytes |
| Hmac.LostWhen | aliyun-iot-device-sdk-c/common/src/aliyun_iot_common_sha1.c:241-245 | the counter misses nothing exactly then |
| Hmac.FinishExact | aliyun-iot-device-sdk-c/common/src/aliyun_iot_common_sha1.c:278-302 | the digest of the message absorbed so far |
| Hmac.Sha1Of | aliyun-iot-device-sdk-c/common/src/aliyun_iot_common_sha1.c:308-317 | the one-call form: the hash under the counted length, and the FIPS 180-4 digest below 2^32 bytes |
| Hmac.HmacBytes | aliyun-iot-device-sdk-c/common/src/aliyun_iot_common_hmac.c:54-87 | the value of section 2 of RFC 2104 |
| HmacVectors.MacHiThere | aliyun-iot-device-sdk-c/common/src/aliyun_iot_common_hmac.c:54-87 | the value of test case 1 of RFC 2202 |
| Hmac.TwoPart | aliyun-iot-device-sdk-c/common/src/aliyun_iot_common_hmac.c:75-87 | one pass: the digest of pad and text |
| Hmac.UnhexHex | aliyun-iot-device-sdk-c/common/src/aliyun_iot_common_hmac.c:89-93 | the hexadecimal text determines the bytes |
| Hmac.HmacSha1 | aliyun-iot-device-sdk-c/common/src/aliyun_iot_common_hmac.c:54-94 | the hexadecimal text of the RFC 2104 value |
| Base64.DecodeEncode | contrib/apps/smtp/smtp.c:892-936 | decoding undoes encoding for every byte string |
| Base64.Alphabet | contrib/apps/smtp/smtp.c:892-936 | the sixty-four letters in the order of table 1 of RFC 4648 |
| Base64Bits.QuantumBits | contrib/apps/smtp/smtp.c:919-930 | 24 bits taken six at a time are the four indices of section 4 of RFC 4648 |
| Base64Bits.SextetsAreQuanta | contrib/apps/smtp/smtp.c:919-930 | a padded text's bits, six at a time, are its groups of three bytes |
| Base64Bits.PaddedQuanta | contrib/apps/smtp/smtp.c:912-935 | overwriting the last letters with signs gives the encoding of the unpadded text |
| Base64Bits.RegisterStep | contrib/apps/smtp/smtp.c:922-930 | the six-bit register after one more bit |
| Base64Bits.PushBit | contrib/apps/smtp/smtp.c:922-930 | one turn of the inner loop |
| Base64Bits.PushByte | contrib/apps/smtp/smtp.c:919-931 | one byte through the register |
| Base64Bits.EncodeBits | contrib/apps/smtp/smtp.c:905-936 | the buffer holds the encoding of section 4 of RFC 4648, for every byte string, nothing behind it changed |
| Base64Shift.GroupRight | aliyun-iot-device-sdk-c/common/src/aliyun_iot_common_httpclient.c:49-72 | a group of three comes out right exactly when sign extension spoils none of its bits |
| Base64Shift.WrittenRight | aliyun-iot-device-sdk-c/common/src/aliyun_iot_common_httpclient.c:49-72 | the text written is Base64 exactly on the byte strings the condition describes |
| Base64Shift.AsciiRight | aliyun-iot-device-sdk-c/common/src/aliyun_iot_common_httpclient.c:49-72 | so it is for every 7-bit string |
| Base64Shift.NotBase64 | aliyun-iot-device-sdk-c/common/src/aliyun_iot_common_httpclient.c:54-57 | a two-byte input on which it is not |
| Base64Shift.PushByte | aliyun-iot-device-sdk-c/common/src/aliyun_iot_common_httpclient.c:54-61 | one byte through the wrapping accumulator |
| Base64Shift.PushAll | aliyun-iot-device-sdk-c/common/src/aliyun_iot_common_httpclient.c:54-61 | the loop over the bytes: the letters written and what the accumulator still holds |
| Base64Shift.Base64Enc | aliyun-iot-device-sdk-c/common/src/aliyun_iot_common_httpclient.c:49-72 | what the call leaves in the buffer, and exactly when that is Base64 |
| SmtpText.Find | lwip/src/core/pbuf.c:1392-1406 | the first match at or after a place, or none anywhere |
| SmtpText.ReplyComplete | contrib/apps/smtp/smtp.c:977-1010 | every reply of section 4.2.1 of RFC 5321 is recognised, however many lines it has |
| SmtpText.ReplyIncomplete | contrib/apps/smtp/smtp.c:977-1010 | no proper prefix of a reply is |
| SmtpText.CodeOfReply | contrib/apps/smtp/smtp.c:945-968 | the code read is the code written |
| SmtpText.AuthOffered | contrib/apps/smtp/smtp.c:1039-1052 | the mechanisms are read off the line after the first "AUTH " of any reply or, without one, the first "AUTH=" |
| SmtpText.AuthNotOffered | contrib/apps/smtp/smtp.c:1039-1085 | without either word the client does not authenticate |
| SmtpSafety.FreeInv | contrib/apps/smtp/smtp.c:748-760 | freeing a session keeps the session invariant |
| SmtpSafety.BodyInv | contrib/apps/smtp/smtp.c:1197-1242 | so does sending part of the body, with any failures |
| SmtpSafety.ReactWritten | contrib/apps/smtp/smtp.c:1303-1389 | a reply that moves the client on appends exactly the next piece of the script |
| SmtpSafety.AnswerInv | contrib/apps/smtp/smtp.c:1285-1420 | handling a reply keeps the session invariant |
| SmtpSafety.NextInv | contrib/apps/smtp/smtp.c:785-850 | so does every callback |
| SmtpSafety.RunInv | contrib/apps/smtp/smtp.c:1247-1420 | so does every sequence of callbacks |
| SmtpSafety.Safety | contrib/apps/smtp/smtp.c:748-833 | whatever happens, the bytes written are a prefix of the script, the callback hears at most once, and hears of success exactly when the script was written to its end |
| SmtpSafety.SuccessAccepted | contrib/apps/smtp/smtp.c:1303-1389 | success implies the server accepted every step in order |
| SmtpSafety.HeaderAfterConsent | contrib/apps/smtp/smtp.c:1365-1371 | no byte of the message is written before the 354 reply |
| SmtpSafety.RunMonotone | contrib/apps/smtp/smtp.c:1247-1420 | nothing written or reported is taken back; a freed session does nothing any more |
| SmtpProgress.FragmentsDoNotMatter | contrib/apps/smtp/smtp.c:1266-1301 | a reply cut anywhere after its code acts like the whole reply |
| SmtpProgress.ShortPieceLost | contrib/apps/smtp/smtp.c:945-968 | a first piece shorter than the code is thrown away |
| SmtpProgress.CutInCode | contrib/apps/smtp/smtp.c:945-1301 | whatever the reply, what is left of it does not move the client on |
| SmtpProgress.TwoPieces | contrib/apps/smtp/smtp.c:945-1301 | a reply that moves the client on does so in two pieces exactly when the first holds the code |
| SmtpProgress.GreetingCut | contrib/apps/smtp/smtp.c:945-1301 | a greeting that is accepted whole and lost when cut after its first byte |
| SmtpProgress.TimesOut | contrib/apps/smtp/smtp.c:796-808 | in silence the session ends with a timeout at the timer's last tick and not before |
| SmtpProgress.BytesInOrder | contrib/apps/smtp/smtp.c:1197-1242 | whatever fails and however little room there is, the body leaves byte after byte, each once, and its end right behind the last |
| SmtpDelivery.MessageOut | contrib/apps/smtp/smtp.c:1197-1242 | whatever fails in between, the message is out once the connection has taken enough of it and, last, its end |
| SmtpProgress.RepliesAgree | contrib/apps/smtp/smtp.c:1303-1389 | well-formed replies with the expected codes are a server that agrees |
| SmtpDelivery.Retried | contrib/apps/smtp/smtp.c:1247-1420 | a command whose write failed is written again: the first callback whose write succeeds once the reply is there writes it and moves the client on, and nothing before that does anything |
| SmtpDelivery.Delivered | contrib/apps/smtp/smtp.c:1247-1420 | whatever pieces the replies come in, whichever writes fail before they succeed and whichever callbacks come in between, with a server that agrees the whole script is written, in order and nothing else, and success reported, for each way to authenticate |
| SmtpDelivery.DeliveredIntact | contrib/apps/smtp/smtp.c:1157-1242 | and a server that reads commands and data as the standards say has heard who the client is and the whole mail, and nothing else, if and only if the body does not start with a dot; the codes were the ones it gives |
| SmtpServer.HeardScript | contrib/apps/smtp/smtp.c:1157-1389 | what a server of RFC 5321 and RFC 4954 hears in the whole script, byte for byte |
| SmtpServer.ServerHears | contrib/apps/smtp/smtp.c:1157-1389 | it hears greeting, login, sender, recipient, mail and farewell exactly when the body does not start with a dot |
| SmtpServer.CodesAgree | contrib/apps/smtp/smtp.c:1303-1389 | the codes the client goes on are those such a server gives |
| SmtpData.Verify | contrib/apps/smtp/smtp.c:708-744 | accepts exactly the described texts |
| SmtpData.PromiseKept | contrib/apps/smtp/smtp.c:708-744 | with line breaks allowed the documented texts are exactly the accepted ones in which every CR is followed by LF |
| SmtpData.LoneCrAccepted | contrib/apps/smtp/smtp.c:708-744 | a text with a single CR that is accepted |
| SmtpData.CheckData | contrib/apps/smtp/smtp.c:496-517 | a mail is sent exactly when all four fields are 7-bit text without CR and LF |
| SmtpData.MessageReceived | contrib/apps/smtp/smtp.c:1157-1242 | what the receiver of section 4.5.2 of RFC 5321 makes of header, body and terminator, and what it leaves unread |
| SmtpData.Transparent | contrib/apps/smtp/smtp.c:1157-1242 | it gets the mail back exactly when the body does not start with a dot |
| SmtpData.EndOnce | contrib/apps/smtp/smtp.c:1157-1242 | CRLF.CRLF stands in the message once, at its very end, exactly when the body is not a lone dot |
| SmtpSession.Session.constructor | contrib/apps/smtp/smtp.c:535-537 | a session waits for the greeting |
| SmtpSession.Session.PrepareHelo | contrib/apps/smtp/smtp.c:1013-1029 | the transmit buffer holds the command |
| SmtpSession.Session.PrepareAuthPlain | contrib/apps/smtp/smtp.c:1054-1069 | the transmit buffer holds the command with both credentials in Base64 |
| SmtpText.SpanHasWord | contrib/apps/smtp/smtp.c:1045-1050 | the line that is copied holds the keyword behind which the mechanisms are searched |
| SmtpSession.Session.CopyAuthLine | contrib/apps/smtp/smtp.c:1039-1051 | the transmit buffer holds the AUTH line and its NUL; the copy leaves the buffer exactly when the line is longer than 255 bytes |
| SmtpSession.Session.PrepareAuthOrMail | contrib/apps/smtp/smtp.c:1036-1086 | PLAIN before LOGIN before none, read from that copy; exactly when it overran |
| SmtpSession.Session.PrepareUname | contrib/apps/smtp/smtp.c:1090-1104 | the transmit buffer holds the line |
| SmtpSession.Session.PreparePass | contrib/apps/smtp/smtp.c:1106-1120 | the transmit buffer holds the line |
| SmtpSession.Session.PrepareMail | contrib/apps/smtp/smtp.c:1123-1137 | the transmit buffer holds the command |
| SmtpSession.Session.PrepareRcpt | contrib/apps/smtp/smtp.c:1140-1154 | the transmit buffer holds the command |
| SmtpSession.Session.PrepareHeader | contrib/apps/smtp/smtp.c:1157-1182 | the transmit buffer holds the three header lines and the blank one |
| SmtpSession.Session.IsResponseFinished | contrib/apps/smtp/smtp.c:977-1010 | the loop over the reply's lines |
| SmtpSession.Session.Prepare | contrib/apps/smtp/smtp.c:1303-1389 | next state and text for every state and code, and exactly when the transmit buffer is overrun |
| SmtpSession.Session.FreeSession | contrib/apps/smtp/smtp.c:748-760 | the callback is told once, if there is one |
| SmtpSession.Session.CloseSession | contrib/apps/smtp/smtp.c:763-783 | a failed close leaves the session as it was |
| SmtpSession.Session.SendBody | contrib/apps/smtp/smtp.c:1197-1242 | the step of the state machine |
| SmtpSession.Session.Respond | contrib/apps/smtp/smtp.c:1285-1420 | the step of the state machine: a write that fails leaves reply and state as they were, so that the next callback writes again (SmtpDelivery.Retried) |
| SmtpSession.Session.Process | contrib/apps/smtp/smtp.c:1247-1420 | the step of the state machine |
| SmtpSession.Session.TcpPoll | contrib/apps/smtp/smtp.c:796-808 | the step of the state machine |
| SmtpSession.Session.TcpSent | contrib/apps/smtp/smtp.c:810-819 | the step of the state machine |
| SmtpSession.Session.TcpRecv | contrib/apps/smtp/smtp.c:821-833 | the step of the state machine |
| SmtpSession.Session.TcpRecvClosed | contrib/apps/smtp/smtp.c:828-831 | the step of the state machine |
| SmtpSession.Session.TcpErr | contrib/apps/smtp/smtp.c:785-793 | the step of the state machine |
| SmtpSession.Session.TcpConnected | contrib/apps/smtp/smtp.c:835-848 | the step of the state machine |
| LinkedList.List.constructor | aliyun-iot-device-sdk-c/common/src/aliyun_iot_common_list.c:7-18 | an empty list |
| LinkedList.List.RPush | aliyun-iot-device-sdk-c/common/src/aliyun_iot_common_list.c:44-63 | the sequence with the node appended, NULL ignored, links and values intact |
| LinkedList.List.RPop | aliyun-iot-device-sdk-c/common/src/aliyun_iot_common_list.c:68-86 | the last node, detached, or NULL |
| LinkedList.List.LPop | aliyun-iot-device-sdk-c/common/src/aliyun_iot_common_list.c:91-109 | the first node, detached, or NULL |
| LinkedList.List.LPush | aliyun-iot-device-sdk-c/common/src/aliyun_iot_common_list.c:115-134 | the sequence with the node in front |
| LinkedList.List.Find | aliyun-iot-device-sdk-c/common/src/aliyun_iot_common_list.c:139-166 | the first matching node, or NULL when none matches |
| LinkedList.List.ListAt | aliyun-iot-device-sdk-c/common/src/aliyun_iot_common_list.c:171-191 | the node at an index from the head or, below zero, from the tail, or NULL |
| LinkedList.List.Remove | aliyun-iot-device-sdk-c/common/src/aliyun_iot_common_list.c:196-206 | the sequence without the node |
| LinkedList.Iterator.constructor | aliyun-iot-device-sdk-c/common/src/aliyun_iot_common_list.c:212-230 | starts at either end |
| LinkedList.Iterator.Next | aliyun-iot-device-sdk-c/common/src/aliyun_iot_common_list.c:236-244 | yields a node and moves past it in its direction |
| LinkedList.KeptMembers | aliyun-iot-device-sdk-c/src/ccp/CCPClientInternal.c:955-981 | what is kept is what was not selected |
| LinkedList.Advance | aliyun-iot-device-sdk-c/src/ccp/CCPClientInternal.c:957-963 | stepping on, then removing the node behind, leaves the iterator on a linked node |
| LinkedList.Sweep | aliyun-iot-device-sdk-c/src/ccp/CCPClientInternal.c:955-981 | visits every node once from the tail and leaves exactly the nodes not selected, in order |
| CcpRepublishSafety.MarkInv | aliyun-iot-device-sdk-c/src/ccp/CCPClientInternal.c:1146-1181 | marking keeps the queue invariant |
| CcpRepublishSafety.AppendInv | aliyun-iot-device-sdk-c/src/ccp/CCPPublish.c:310-364 | so does appending |
| CcpRepublishSafety.TurnInv | aliyun-iot-device-sdk-c/src/ccp/CCPClientInternal.c:866-922 | so does a turn of the sweep |
| CcpRepublishSafety.ResumeInv | aliyun-iot-device-sdk-c/src/ccp/CCPClientInternal.c:932-933 | so does taking the mutex again after a resend |
| CcpRepublishSafety.RunInv | aliyun-iot-device-sdk-c/src/ccp/CCPClientInternal.c:851-943 | so does every interleaving |
| CcpRepublishSafety.Safety | aliyun-iot-device-sdk-c/src/ccp/CCPClientInternal.c:851-943 | at most twenty entries in publish order, nothing gone that was not marked, every node the sweep holds still linked |
| CcpRepublishSafety.LeavesMarked | aliyun-iot-device-sdk-c/src/ccp/CCPClientInternal.c:868-900 | only the sweep unlinks, and only a node it found marked |
| CcpRepublishSafety.ResendsUnmarked | aliyun-iot-device-sdk-c/src/ccp/CCPClientInternal.c:896-923 | only a node found unmarked is resent |
| CcpRepublishSafety.OlderAlsoDue | aliyun-iot-device-sdk-c/src/ccp/CCPClientInternal.c:902-904 | within a sweep, once an entry was due, every older one still unmarked is treated as due whatever its own timer says |
| CcpRepublishSafety.FlagIsNewerDue | aliyun-iot-device-sdk-c/src/ccp/CCPClientInternal.c:902-904 | the flag is set exactly when a newer entry of this sweep was due |
| CcpRepublishSafety.ResendsDue | aliyun-iot-device-sdk-c/src/ccp/CCPClientInternal.c:896-923 | a visit resends exactly an unmarked entry, memory being there, whose timer has expired or before which a newer one was due |
| CcpRepublishSafety.ResentBeforeTime | aliyun-iot-device-sdk-c/src/ccp/CCPClientInternal.c:902-923 | so an entry goes out before its own time exactly when a newer entry of this sweep was due |
| CcpRepublishTimers.ResentEarly | aliyun-iot-device-sdk-c/src/ccp/CCPClientInternal.c:902-933 | a reachable state in which an entry due at 11 is being resent at time 10 |
| CcpRepublishSafety.NeverAgain | aliyun-iot-device-sdk-c/src/ccp/CCPClientInternal.c:851-943 | after an acknowledgement or failed send marked an entry, no continuation resends it |
| CcpRepublishSafety.SweepCompletes | aliyun-iot-device-sdk-c/src/ccp/CCPClientInternal.c:858-936 | a finished sweep visited each linked entry it started with exactly once, tail first, and unlinked those marked at its start |
| CcpRepublishHistory.NextTells | aliyun-iot-device-sdk-c/src/ccp/CCPClientInternal.c:851-943 | what each step does to one entry's identifier, mark, number and timer: only an acknowledgement with the entry's own number or its own failed send marks it |
| CcpRepublishHistory.History | aliyun-iot-device-sdk-c/src/ccp/CCPClientInternal.c:851-1181 | over every sequence of events the entry carries the number it was published with, is marked exactly when it was acknowledged by that number or its send failed, and its timer is the one last started |
| CcpRepublishHistory.LeavesSettled | aliyun-iot-device-sdk-c/src/ccp/CCPClientInternal.c:868-900 | an entry that was published is linked or was acknowledged or failed |
| CcpRepublishHistory.SettledNotResent | aliyun-iot-device-sdk-c/src/ccp/CCPClientInternal.c:896-923 | once that happened it is never resent |
| CcpRepublishHistory.ResentInTime | aliyun-iot-device-sdk-c/src/ccp/CCPClientInternal.c:896-923 | what a visit resends was neither acknowledged nor failed, and twice the timeout has passed since it was published or last resent, unless a newer entry of the sweep was due; exactly such an entry is resent |
| CcpUnackSafety.MarkInv | aliyun-iot-device-sdk-c/src/ccp/CCPClientInternal.c:1183-1258 | marking keeps the queue invariant |
| CcpUnackSafety.AppendInv | aliyun-iot-device-sdk-c/src/ccp/CCPRPCRequest.c:176-248 | so does appending, with the new deadline at the end of the order |
| CcpUnackSafety.TurnInv | aliyun-iot-device-sdk-c/src/ccp/CCPClientInternal.c:955-1082 | so does a turn of the sweep |
| CcpUnackSafety.RunInv | aliyun-iot-device-sdk-c/src/ccp/CCPClientInternal.c:945-1087 | so does every interleaving |
| CcpUnackSafety.Safety | aliyun-iot-device-sdk-c/src/ccp/CCPClientInternal.c:945-1087 | at most ten entries, deadlines never decreasing from head to tail, nothing gone that was neither marked nor reported, every node the sweep holds still linked |
| CcpUnackSafety.TurnExact | aliyun-iot-device-sdk-c/src/ccp/CCPClientInternal.c:983-985 | with and without the timeout flag a turn does the same |
| CcpUnackSafety.ShortcutExact | aliyun-iot-device-sdk-c/src/ccp/CCPClientInternal.c:945-1087 | in every interleaving the flagged sweep does exactly what asking every timer would do |
| CcpUnackSafety.ReportsExpired | aliyun-iot-device-sdk-c/src/ccp/CCPClientInternal.c:977-1081 | a visit reports an entry exactly when it is unmarked, its own timer has expired and memory is there |
| CcpUnackSafety.SweepCompletes | aliyun-iot-device-sdk-c/src/ccp/CCPClientInternal.c:955-1082 | a finished sweep missed no entry that had expired when it started, except where memory ran out |
| CcpUnackHistory.NextTells | aliyun-iot-device-sdk-c/src/ccp/CCPClientInternal.c:945-1087 | what each step does to one request's identifier, mark, kind, number and timer |
| CcpUnackHistory.History | aliyun-iot-device-sdk-c/src/ccp/CCPClientInternal.c:945-1258 | over every sequence of events the entry carries the kind and number it was pushed with, is marked exactly when one of that kind and number was acknowledged or its send failed, and its timer runs from then |
| CcpUnackHistory.LeavesSettled | aliyun-iot-device-sdk-c/src/ccp/CCPClientInternal.c:955-1082 | a request that was pushed is linked, settled or reported |
| CcpUnackHistory.ReportedInTime | aliyun-iot-device-sdk-c/src/ccp/CCPClientInternal.c:977-1081 | a visit reports exactly a request that was neither answered nor failed and was made at least twice the timeout ago, memory being there |
| CcpNodes.PushNode | aliyun-iot-device-sdk-c/src/ccp/CCPPublish.c:345-364 | a fresh node at the tail, every other node and value as it was |
| CcpNodes.SetEntry | aliyun-iot-device-sdk-c/src/ccp/CCPPublish.c:235-245 | one node's value changes and no link; through a pointer to a node that has left the list nothing in the list |
| CcpNodes.MarkNodes | aliyun-iot-device-sdk-c/src/ccp/CCPClientInternal.c:1153-1176 | the tail-to-head walk sets the flag in exactly the picked nodes and moves none |
| CcpNodes.StepPast | aliyun-iot-device-sdk-c/src/ccp/CCPClientInternal.c:868-873 | the iterator steps on, then exactly the node behind it is unlinked |
| CcpNodes.PlaceBefore | aliyun-iot-device-sdk-c/src/ccp/CCPClientInternal.c:868-873 | the node to be unlinked is the neighbour of the one the iterator is on |
| CcpNodes.StepAndDrop | aliyun-iot-device-sdk-c/src/ccp/CCPClientInternal.c:868-873 | the entries without the dropped one, and the iterator on a node that is linked |
| CcpNodes.Pass | aliyun-iot-device-sdk-c/src/ccp/CCPClientInternal.c:868-878 | the node to look at is linked, holds its entry, and the iterator is on its predecessor |
| CcpClient.RepublishList.constructor | aliyun-iot-device-sdk-c/common/src/aliyun_iot_common_list.c:7-18 | no node, and the initial state |
| CcpClient.RepublishList.PushPubReq | aliyun-iot-device-sdk-c/src/ccp/CCPPublish.c:310-364 | a node is linked at the tail and the machine takes its step; refused exactly at twenty entries |
| CcpClient.RepublishList.RemoveRepublishListNode | aliyun-iot-device-sdk-c/src/ccp/CCPClientInternal.c:1146-1181 | the walk over the nodes is the machine's marking step, which CcpRepublishHistory.History shows to mark exactly the entries published with that number; no node moves |
| CcpClient.RepublishList.MarkFailed | aliyun-iot-device-sdk-c/src/ccp/CCPPublish.c:235-245 | a linked node is marked in place, which is the machine's step; one the sweep has freed is written to and the queue stays as it was |
| CcpClient.RepublishList.StartSweep | aliyun-iot-device-sdk-c/src/ccp/CCPClientInternal.c:858-864 | an iterator on the tail node is the machine's new sweep |
| CcpClient.RepublishList.Pass | aliyun-iot-device-sdk-c/src/ccp/CCPClientInternal.c:866-878 | the first half of a turn: what is dropped, and the linked node to look at |
| CcpClient.RepublishList.Look | aliyun-iot-device-sdk-c/src/ccp/CCPClientInternal.c:890-923 | the second half: marked, let be, starved of memory or resent |
| CcpClient.RepublishList.Turn | aliyun-iot-device-sdk-c/src/ccp/CCPClientInternal.c:866-922 | stepping the iterator, unlinking the node behind and judging the node reached is the machine's turn; list, iterator and held nodes stay linked |
| CcpClient.RepublishList.Resume | aliyun-iot-device-sdk-c/src/ccp/CCPClientInternal.c:932-933 | restarting the timer in the node, looked up by pointer, is the machine's step, the node being still linked |
| CcpClient.UnackList.constructor | aliyun-iot-device-sdk-c/common/src/aliyun_iot_common_list.c:7-18 | no node, and the initial state |
| CcpClient.UnackList.PushReq | aliyun-iot-device-sdk-c/src/ccp/CCPSubscribe.c:167-217 | a node is linked at the tail and the machine takes its step; refused exactly at ten entries |
| CcpClient.UnackList.RemoveUnackListNode | aliyun-iot-device-sdk-c/src/ccp/CCPClientInternal.c:1183-1258 | the walk over the nodes is the machine's marking step, which CcpUnackHistory.History shows to mark exactly the requests of that kind and number; no node moves |
| CcpClient.UnackList.MarkFailed | aliyun-iot-device-sdk-c/src/ccp/CCPRPCRequest.c:153-170 | a linked node is marked in place, which is the machine's step; one the sweep has freed is written to and the queue stays as it was |
| CcpClient.UnackList.StartSweep | aliyun-iot-device-sdk-c/src/ccp/CCPClientInternal.c:947-953 | an iterator on the tail node is the machine's new sweep |
| CcpClient.UnackList.Pass | aliyun-iot-device-sdk-c/src/ccp/CCPClientInternal.c:955-968 | the first half of a turn: what is dropped, and the linked node to look at |
| CcpClient.UnackList.Look | aliyun-iot-device-sdk-c/src/ccp/CCPClientInternal.c:970-1082 | the second half: marked, let be, starved of memory or reported |
| CcpClient.UnackList.Turn | aliyun-iot-device-sdk-c/src/ccp/CCPClientInternal.c:955-1082 | stepping the iterator, unlinking the node behind and judging the node reached is the machine's turn; list, iterator and held nodes stay linked |
| CcpClient.UnackList.Resume | aliyun-iot-device-sdk-c/src/ccp/CCPClientInternal.c:1018-1029 | taking the mutex again is the machine's step, with every held node still linked |
| CcpFailedSend.RepublishLinked | aliyun-iot-device-sdk-c/src/ccp/CCPPublish.c:231-247 | in every interleaving the node of a publish is linked as long as it was not marked |
| CcpFailedSend.RepublishFreed | aliyun-iot-device-sdk-c/src/ccp/CCPPublish.c:231-247 | published, acknowledged, swept: the send can still fail and its node is gone |
| CcpFailedSend.UnackLinked | aliyun-iot-device-sdk-c/src/ccp/CCPRPCRequest.c:153-170 | the node of a request is linked as long as it was neither marked nor reported |
| CcpFailedSend.UnackFreed | aliyun-iot-device-sdk-c/src/ccp/CCPRPCRequest.c:153-170 | sent, answered, swept: the send can still fail and its node is gone |
| CcpPacket.NumberRoundTrip | aliyun-iot-device-sdk-c/src/ccp/CCPPacket.c:49-89 | every 32-bit number comes back modulo 2^28 and the reader advances by exactly the bytes written |
| CcpPacket.EncodeVariableNumber | aliyun-iot-device-sdk-c/src/ccp/CCPPacket.c:49-64 | the digits at their place, nothing around them changed |
| CcpPacket.DecodeVariableNumber | aliyun-iot-device-sdk-c/src/ccp/CCPPacket.c:66-89 | value and width, a fifth byte counted but not read |
| Octets.UpToNulIs | aliyun-iot-device-sdk-c/src/ccp/CCPPacket.c:42-47 | what strncpy leaves is the text up to the first NUL or the end |
| Octets.UpToNulWhole | aliyun-iot-device-sdk-c/src/ccp/CCPPacket.c:42-47 | a string without NUL survives it whole |
| CcpPacket.EncodeString | aliyun-iot-device-sdk-c/src/ccp/CCPPacket.c:35-40 | length and bytes appended at the cursor |
| CcpPacket.PadInPlace | aliyun-iot-device-sdk-c/src/ccp/CCPAuth.c:224-231 | padding as in section 6.3 of RFC 5652 |
| CcpPacket.PkcsBytes | aliyun-iot-device-sdk-c/src/ccp/CCPAuth.c:224-231 | one to sixteen bytes, each their number |
| CcpPacket.EcbEncrypt | aliyun-iot-device-sdk-c/src/ccp/CCPAuth.c:207-247 | the padded body block by block, a whole block of padding when it fits exactly |
| CcpPacket.EcbDecrypt | aliyun-iot-device-sdk-c/src/ccp/CCPAuth.c:249-279 | the blocks decrypted, and the length the last byte leaves |
| CcpPublish.BodyLength | aliyun-iot-device-sdk-c/src/ccp/CCPPublish.c:24-57 | the body fits the buffer of payload plus 128 bytes, padding included |
| CcpPublish.MessageBytes | aliyun-iot-device-sdk-c/src/ccp/CCPPublish.c:24-57 | a message with one-byte numbers byte by byte: C9 in front, then id, topic behind its length, alive time, payload |
| CcpPublish.MessageParsed | aliyun-iot-device-sdk-c/src/ccp/CCPPublish.c:8-183 | reading a serialized publish gives topic and payload, and both numbers modulo 2^28 |
| CcpPublish.RoundTrip | aliyun-iot-device-sdk-c/src/ccp/CCPPublish.c:8-183 | it comes back as it was exactly when id and alive time are below 2^28 |
| CcpPublish.Client.constructor | aliyun-iot-device-sdk-c/src/ccp/CCPClient.c:32-32 | the counter starts at one |
| CcpPublish.Client.WriteBody | aliyun-iot-device-sdk-c/src/ccp/CCPPublish.c:31-57 | the body in its buffer |
| CcpPublish.Client.Serialize | aliyun-iot-device-sdk-c/src/ccp/CCPPublish.c:8-103 | the message in the write buffer, the id taken, the counter advanced; refused exactly when the payload is too long |
| CcpPublish.Deserialize | aliyun-iot-device-sdk-c/src/ccp/CCPPublish.c:105-183 | the reader as a function of the bytes, errors included |
| CcpPublish.ReadBody | aliyun-iot-device-sdk-c/src/ccp/CCPPublish.c:150-180 | the decrypted part of it |

## Left out

- EdpKit float packets: the declared length counts four bytes a value while eight are written, so there is nothing to invert.
- EdpKit JSON data-point packets: they wrap the JSON codec in the same field lists.
- JSON trees with null names and the floating-point variants of cJSON: same grammar, different number type.
- JsonGrammar.DocumentRead: which texts beyond the standard's are accepted is said of their structure (JsonGrammar.DocumentSpelled); for strings and numbers that the standard does not allow, such as `1e` or `01`, it refers to the string and number parsers.
- JSON building and editing calls (add, detach, replace, duplicate): thin wrappers.
- JsonMeasure.MeasureBoundsDecode: its condition is not necessary. Behind an escape on which the two passes part, whether the count suffices depends on all the text either pass reads from there on; JsonParser.ParseStringText states the overrun exactly, in terms of the two passes.
- JsonParser.ParseStringText: where the source would write behind its buffer the model reports it and decodes on values.
- JSON escapes cut off by the end of the text: the source's pointer passes the NUL, the model's stops at it.
- JsonMinify.MinifyInPlace: excludes text that ends inside a string or a block comment, where the source reads past the end.
- EdpBuffer.Buffer.WriteRemainlen: excludes lengths from 2^28 up, which the source asserts against.
- EdpBuffer.Buffer.WriteByte: excludes contents beyond 2^31 bytes, where CheckCapacity makes no room and exactly when it says so is stated there. The same goes for WriteBytes, WriteUint16, WriteUint32, WriteStr and ReceiveChunk.
- EdpCrypto.SymmEncrypt: needs two spare blocks behind the packet, since the source's loop goes one block too far.
- Hmac.HmacSha1: keys longer than 64 bytes, which the source copies unhashed into a 64-byte buffer, are outside the precondition.
- Hmac.ChunksPadded: messages of 2^61 bytes and more, for which SHA-1 is not defined.
- SMTP name lookup, connection set-up, a missing user name or password, and the body data handler, which is off by default.
- SMTP replies of nearly 64 KiB, where 16-bit offsets wrap.
- SmtpSession.Session.CopyAuthLine: where the copy would leave the buffer the model reports it and searches the line where it was received.
- SmtpSession.Session.PrepareAuthPlain: encodes into a buffer of its own and copies, because Dafny has no pointers into arrays.
- CcpClient.RepublishList.MarkFailed: what the write through a pointer to a freed node does to memory given out again. The same goes for CcpClient.UnackList.MarkFailed.
- CcpPacket.EcbDecrypt: excludes lengths that are no multiple of the block, on which the source runs past the end.
- CCP payload ownership (which thread frees which copy) and failing AES key set-up.
- CcpPublish.Deserialize: excludes messages on which the source would read or write outside its buffers.
- CcpPublish.Client.Serialize: needs a write buffer that holds the message; the source's own check counts the header only.
- CCP subscribe, unsubscribe and RPC byte codecs, which repeat the publish codec, and the network read loop.
- HTTP transport, authentication flows, RSA, X.509, MD5, the lwIP stack, WinPcap headers and the demo programs.
