# A verified model of the event library and its example programs

The repository is a small C++ network library in the style of muduo (event loop, buffers, connections, timers, thread
pool, HTTP) with example programs that bring their own JSON library, PNG writer and load generator. This project models
its seven components with the most intricate behaviour and proves what each of them is for. Code that changes state in
place is modelled by classes whose methods are proved equal to a step of a specification; the properties are then proved
of the specification, for every input or every run.

## Components

| files | component | main results |
|---|---|---|
| `JsonNumber`, `JsonParser`, `JsonStream`, `JsonText`, `JsonTokens`, `JsonReject` | the permissive JSON stream parser | every text that renders a tree, with any blanks, `//` comments, escapes, duplicate names and trailing commas, is read back to exactly that tree, and the parser stops right behind it (`JsonText.ParseTree`); where it stops and fails (`JsonReject`) |
| `JsonPrinter`, `JsonLayout`, `JsonRoundTrip`, `JsonFaithful`, `JsonReformat`, `JsonDocument`, `JsonSample` | `json()`, `reformat` | both are undone by the parser, with the exact condition (`JsonFaithful.RoundTripExactly`, `JsonReformat.ReformatIdempotentExactly`) |
| `JsonOstream` | `operator<<` | undone by the parser, with the exact condition (`JsonOstream.StreamRoundTripExactly`) |
| `JsonXml`, `JsonXmlKinds` | the four XML printers | one balanced element with the shape of the value, with the exact condition (`JsonXml.ReadXmlExactly`) |
| `CrcRegister`, `PngChecksum`, `PngFormat`, `PngRoundTrip`, `PngBytes`, `PngEncoder` | the PNG writer | a reference decoder gets back every pixel, with the exact condition (`PngRoundTrip.DecodesExactlyWhenItFits`) |
| `TimerSpec`, `TimerInvariant`, `TimerProperties`, `TimerHistory`, `TimerQueue` | the timer queue | ownership of every timer, exact batches, every timer's life told from the calls alone (`TimerHistory.EveryTimerLives`), no missed deadline, over every run |
| `PoolSpec`, `PoolProperties`, `PoolHistory`, `ThreadPool` | the thread pool | no lost wakeup, refinement of a plain bounded queue of the tasks handed to `run` (`PoolHistory.PoolIsFifo`), every schedule of its threads drains it, orderly stop and its exact limits, over every run of any number of workers and producers |
| `Buffer` | the byte buffer | refines a plain byte sequence (`Buffers.RefinesBytes`) |
| `TcpConnection` | the output path of a connection | conservation of the output stream through every partial and failed write; when the write side is shut cleanly and once, with the exact conditions |
| `HttpSpec`, `HttpContext`, `HttpLines`, `HttpResponse`, `HttpFailures` | HTTP parsing and printing | incremental parsing equals one-shot parsing; which request lines are accepted, exactly; when a call returns, hangs or aborts, exactly; when a response's header block reads back, exactly |
| `LoadPacing` | the open-loop load generator | even pacing of every window |
| `Text`, `Option` | shared text functions, a missing value | |

## How the source is represented

- A character stands for a byte. Input streams are the characters not yet consumed; a failing parser step says where it
  leaves the stream, because later alternatives go on from there.
- JSON numbers are exact decimals in canonical form. Printing rounds to the printer's precision (19 significant digits
  in `json()` and the XML printers, the stream's default of 6 in `operator<<`), half to even, in the `%g` layouts;
  reading takes the characters `num_get` accumulates.
- `std::map<std::string, ...>` is a map iterated in lexicographic order of its keys.
- The PNG writer's `unsigned` arithmetic wraps at 2^32 where it can.
- Timers are numbered in order of creation, and equal times are ordered by that number. There is one clock, in
  microseconds. The timer file descriptor is disarmed, armed with a deadline, or fired.
- The thread pool's atomic steps are the regions executed with the mutex held, the unlocked test of `running_`, and
  wakeups without cause. A wait ends a region; a woken thread starts a new one and tests again.
- `write` and `readv` return whatever they are allowed to return. The callbacks of a timer or of a connection do
  whatever a caller may do.

## Where the code does less than it seems to promise

Each of these is proved, with a concrete input, beside the condition under which the promise holds.

- `operator<<` loses everything beyond six significant digits (`JsonOstream.SeventhDigitIsLost`), and a byte of 128 or
  more, compared as a signed `char`, is written as an eight-digit escape that does not read back
  (`JsonOstream.HighByteIsLost`).
- `json()` drops a member's name when it is empty, and then the text is not read back (`JsonFaithful.EmptyNameIsLost`)
  and reformatting twice differs from reformatting once (`JsonReformat.NamelessReformat`).
- `svpng` writes one stored deflate block per row; a row of more than 65534 bytes does not fit
  (`PngRoundTrip.WideRowIsRejected`), and the one data chunk may not pass 2^31 - 1 bytes
  (`PngRoundTrip.TallImageIsRejected`); `PngRoundTrip.DecodesExactlyWhenItFits` is the exact condition.
- A write-complete callback that sends while the connection is shutting down can have its bytes cut off
  (`TcpConnections.ReentrantSendIsCutOff`, exactly when: `TcpConnections.ShutsCleanExactly`), and one that asks for the
  shutdown has the write side shut twice (`TcpConnections.CallbackShutsTwice`, exactly when:
  `TcpConnections.ShutOnceExactly`).
- `parseRequest` never returns when the headers are complete and the declared body is not, although the buffer cannot
  grow meanwhile (`HttpFailures.MissingBodyHangs`, exactly when: `HttpSpec.ReturnsExactly`).
- A call of `parseRequest` after one that rejected its request line meets the assertion in `setMethod`, when the method
  had been recognised: the line is still unread (`HttpFailures.SecondCallAborts`, exactly when:
  `HttpSpec.SecondCallAbortsExactly`). Builds without assertions take the line a second time.
- A response field with a colon in its name, a line end, or a blank at an end of its value does not read back
  (`HttpResponses.ColonIsLost`, exactly when: `HttpResponses.KeepAliveRoundTrip`, `HttpResponses.CloseRoundTrip`).
- `handleRead` asserts that its read of the timerfd succeeds. A handler called before it in the same round can arm the
  timerfd anew by adding a timer for an earlier time (`TimerProperties.ReadFails`, exactly when:
  `TimerProperties.ReadFailsExactly`). Builds without assertions go on, and all else that is proved holds of those runs
  too.
- A member without a value before the closing bracket is dropped (`JsonReject.DanglingMember`), and an array broken off
  before an object is skipped (`JsonReject.BrokenArray`).
- At the end of the input, "nul" is taken for null (`JsonText.NulIsNull`, exactly when: `JsonText.MatchAtEnd`).
- `ThreadPool::stop` wakes nobody on `notFull_`: a caller waiting inside `run` stays there for ever, and queued tasks
  are dropped (`PoolProperties.CallerStranded`, exactly when: `PoolProperties.CallersLeaveExactly`).

## Model

| member | source | states |
|---|---|---|
| Text.NatText | http/HttpResponse.cpp:22 | the printed length is all digits and denotes the length |
| Text.SortedKeysStep | http/HttpResponse.cpp:27-32 | iterating a map visits the least key, then goes on with the others |
| JsonNumber.TakeLiteralSplits | examples/procmon/jsonxx.cc:184-194 | reading a numeral splits the input: nothing is lost or reordered |
| JsonNumber.TakeLiteralExact | examples/procmon/jsonxx.cc:184-194 | every valid numeral is read whole, and what follows it is left |
| JsonNumber.CanonKeepsValue | examples/procmon/jsonxx.cc:187 | the canonical decimal kept for a numeral is the numeral's number: scaled to its exponent it is its mantissa |
| JsonNumber.RoundedProperties | examples/procmon/jsonxx.cc:611-615 | printing at a precision leaves at most that many digits, is off by at most half a unit of the last one, and at exactly half a unit that digit is even |
| JsonNumber.RoundedExact | examples/procmon/jsonxx.cc:611-615 | for exact decimals: printing keeps a number if and only if it has no more digits than the precision, and printing twice rounds once |
| JsonNumber.GeneralLiteralValue | examples/procmon/jsonxx.cc:611-615 | in both layouts the printed numeral is valid and denotes the number printed |
| JsonNumber.NumberRoundTrip | examples/procmon/jsonxx.cc:184-194 | parse_number reads back exactly the rounded number and leaves the rest |
| JsonLayout.NatTextExact | http/HttpResponse.cpp:22 | decimal text is the usual one: each digit by its own character, most significant first, no leading zero |
| JsonLayout.LayoutExactly | examples/procmon/jsonxx.cc:611-615 | a number is printed without an exponent if and only if it is below the precision's power of ten and not below 0.0001 |
| JsonLayout.NothingToSpare | examples/procmon/jsonxx.cc:611-615 | in either layout no digit could be left out, and an exponent has a sign and at least two digits |
| JsonLayout.IntegerText | examples/procmon/jsonxx.cc:611-615 | an integer below the precision's power of ten prints as a sign and its plain digits |
| JsonText.SkipGap | examples/procmon/jsonxx.cc:226-259 | any run of blanks and comments is passed over as if it were not there |
| JsonText.MatchToken | examples/procmon/jsonxx.cc:55-75 | a token behind any gap is matched and consumed with the gap, nothing more |
| JsonText.MatchOther | examples/procmon/jsonxx.cc:55-75 | a text that differs from the pattern anywhere, with no comment there, fails, and everything behind the gap is given back |
| JsonText.MatchAtEnd | examples/procmon/jsonxx.cc:60-74 | an input that ends inside the pattern leaves nothing to read, and fails unless the one character missing equals the one before it |
| JsonText.NulIsNull | examples/procmon/jsonxx.cc:208-211 | so "nul" at the end of the input is accepted as null |
| JsonText.MatchAcrossComment | examples/procmon/jsonxx.cc:62-73 | a comment inside a word is passed over as well |
| JsonText.UnicodeForms | examples/procmon/jsonxx.cc:117-126 | the four characters behind \u are converted like a stream's hexadecimal number, with leading blanks, a sign or 0x, and cut to one byte |
| JsonTokens.HexDigitsExactly | examples/procmon/jsonxx.cc:117-126 | a hexadecimal digit is read by its place in 0 to f or 0 to F, and no other character is one; the digit written is the lower-case one |
| JsonTokens.UnicodeExactly | examples/procmon/jsonxx.cc:117-126 | four hexadecimal digits of either case behind \u denote their low byte, most significant digit first |
| JsonTokens.UnicodeShort | examples/procmon/jsonxx.cc:117-126 | two digits before something else denote their value |
| JsonTokens.NoHexDigits | examples/procmon/jsonxx.cc:117-126 | without a digit to begin with, \u and its four characters contribute nothing |
| JsonTokens.EscapesExactly | examples/procmon/jsonxx.cc:93-136 | behind a backslash seven characters stand for one character each, the delimiter for itself, and anything else keeps its backslash |
| JsonTokens.ClassesExactly | examples/procmon/jsonxx.cc:243-256 | the blanks are the codes 9 to 13 and 32, and a comment ends at code 10 or 13 |
| JsonTokens.BeforeExactly | examples/procmon/jsonxx.cc:605 | names are ordered by their first difference, a prefix before what it begins |
| JsonText.ParseStringExact | examples/procmon/jsonxx.cc:77-143 | either quoting with any plain, escaped and \u pieces denotes the pieces' meaning, and stops behind the delimiter |
| JsonText.ParseScalarExact | examples/procmon/jsonxx.cc:353-371 | trying string, number, bool, null in turn reads every scalar token as itself |
| JsonText.ParseWordExact | examples/procmon/jsonxx.cc:196-216 | true, false and null are told apart although the failed attempts consume blanks |
| JsonText.ParseScalarOther | examples/procmon/jsonxx.cc:353-371 | at a bracket all scalar attempts fail and leave the bracket to be read |
| JsonText.ParseTree | examples/procmon/jsonxx.cc:349-387 | every rendering of a tree is accepted, yields exactly its meaning, and the parser stops right behind it |
| JsonText.ParseArrayTree | examples/procmon/jsonxx.cc:395-418 | the same for arrays, with an optional trailing comma |
| JsonText.ParseObjectTree | examples/procmon/jsonxx.cc:272-330 | the same for objects, a later duplicate name replacing the earlier value |
| JsonReject.NothingElse | examples/procmon/jsonxx.cc:349-387 | a text that does not start like a value is none, and is left unread |
| JsonReject.MissingIsNull | examples/procmon/jsonxx.cc:208-216 | a value missing before a comma is null |
| JsonReject.Unterminated | examples/procmon/jsonxx.cc:88-142 | a string without its delimiter is read to the end of the input and fails |
| JsonReject.BareExponent | examples/procmon/jsonxx.cc:184-194 | an exponent mark without digits makes the numeral fail, and the stream is rewound |
| JsonReject.ArrayStops | examples/procmon/jsonxx.cc:405-417 | behind an element of a valid array anything but a comma or the bracket, and the end of the input, makes the array fail, left unread |
| JsonReject.BrokenArray | examples/procmon/jsonxx.cc:373-387 | as a value such a text is what an object there makes of it: an array broken off before an object is skipped |
| JsonReject.ObjectStops | examples/procmon/jsonxx.cc:319-325 | the same as for arrays behind a member of a valid object |
| JsonReject.DanglingMember | examples/procmon/jsonxx.cc:302-306 | a last member without a value is dropped, and the object is accepted |
| JsonReject.MissingColon | examples/procmon/jsonxx.cc:298-300 | a name without a colon makes the object fail, whatever members came before |
| JsonReject.NameMustBeString | examples/procmon/jsonxx.cc:289-297 | so does a name that is no string |
| JsonStream.Stream.constructor | examples/procmon/jsonxx.cc:924-927 | a stream over a text starts with all of it unread |
| JsonStream.Stream.SkipBlanks | examples/procmon/jsonxx.cc:58 | std::ws consumes exactly the leading blanks |
| JsonStream.Stream.ParseComment | examples/procmon/jsonxx.cc:226-259 | exactly one comment and the blanks behind it, or nothing |
| JsonStream.Stream.SkipGap | examples/procmon/jsonxx.cc:57-66 | the retry loop of match passes over all blanks and comments |
| JsonStream.Stream.Match | examples/procmon/jsonxx.cc:55-75 | the character loop is the specified matching: comments anywhere in the pattern, putback, failing putback across a comment, and the character read last at the end of the input |
| JsonStream.Stream.ScanBody | examples/procmon/jsonxx.cc:88-142 | the loop over a string body with its escapes is the recursive reading |
| JsonStream.Stream.ParseString | examples/procmon/jsonxx.cc:77-143 | the stream parser of strings equals the specification in result, value and position |
| JsonStream.Stream.ParseNumber | examples/procmon/jsonxx.cc:184-194 | the same for numbers, a failure rewinding the stream |
| JsonStream.Stream.ParseBool | examples/procmon/jsonxx.cc:196-206 | the same for true and false |
| JsonStream.Stream.ParseNull | examples/procmon/jsonxx.cc:208-216 | the same for null and for a value missing before a comma |
| JsonStream.Stream.ParseScalar | examples/procmon/jsonxx.cc:353-371 | the same for the scalar alternatives in turn |
| JsonStream.Stream.ParseValue | examples/procmon/jsonxx.cc:349-387 | the same for values; it terminates because the unread input shrinks |
| JsonStream.Stream.ParseArray | examples/procmon/jsonxx.cc:395-418 | the element loop equals the specification |
| JsonStream.Stream.ParseObject | examples/procmon/jsonxx.cc:272-330 | the member loop with replacement of duplicates equals the specification |
| JsonRoundTrip.EscapePieceExact | examples/procmon/jsonxx.cc:529-551 | each entry of the escape table is one piece that reads back as its byte, for all bytes |
| JsonRoundTrip.EscapeStringExact | examples/procmon/jsonxx.cc:527-559 | an escaped string is a valid string body that denotes the string |
| JsonTokens.EscapeCharExactly | examples/procmon/jsonxx.cc:529-551 | what is written for each byte: a backslash before quote, backslash and slash, a letter for five control characters, two lower-case digits for the others, the rest as they are |
| JsonRoundTrip.LastComma | examples/procmon/jsonxx.cc:564-571 | the comma that ends the last entry becomes a blank and nothing else changes |
| JsonRoundTrip.ContainerText | examples/procmon/jsonxx.cc:593-609 | a container is its entries between brackets, the in-place edit leaving only a blank, also when it is empty |
| JsonRoundTrip.TagText | examples/procmon/jsonxx.cc:573-617 | without empty names a tag is its head, the text of a valid tree, and a separator |
| JsonRoundTrip.TreeMeaning | examples/procmon/jsonxx.cc:573-617 | that tree denotes the value with numbers rounded and unset parts null |
| JsonRoundTrip.JsonIsTreeText | examples/procmon/jsonxx.cc:845-856 | json() writes the tree's text, a blank and a line break |
| JsonRoundTrip.ParseJson | examples/procmon/jsonxx.cc:872-883 | the parser reads back what printing keeps |
| JsonSample.JsonSampleText | examples/procmon/jsonxx.cc:573-617 | the text of an object of one array, for any name and string: one entry a line, indented by tabs, a blank in place of the last comma |
| JsonSample.JsonPairText | examples/procmon/jsonxx.cc:605 | of two members the lesser name is written first |
| JsonSample.IntegersPlain | examples/procmon/jsonxx.cc:611-615 | a whole number below 10^19, and below 10^6 in operator<<, is written as its plain digits |
| JsonSample.DigitsKept | examples/procmon/jsonxx.cc:611-615 | with numbers as exact decimals: a number comes back from json() if and only if it has at most nineteen digits, and from operator<< if and only if it has at most six |
| JsonFaithful.KeptExactly | examples/procmon/jsonxx.cc:582-616 | with numbers as exact decimals: printing keeps a value if and only if every part was set and no number has more than nineteen digits |
| JsonFaithful.ParsedIsSet | examples/procmon/jsonxx.cc:349-387 | an accepted value has no unset part, whatever the text |
| JsonFaithful.UnnamedValue | examples/procmon/jsonxx.cc:349-387 | from a text with no empty string before a colon the parser never makes an empty name, wherever it gets to |
| JsonFaithful.UnnamedJson | examples/procmon/jsonxx.cc:577-580 | json() never writes an empty string before a colon, for any value |
| JsonFaithful.RoundTripExactly | examples/procmon/jsonxx.cc:845-883 | with numbers as exact decimals: parse(json(v)) = v if and only if no member has an empty name, every part was set and no number has more than nineteen digits; nothing is said of which binary fractions come back |
| JsonFaithful.EmptyNameIsLost | examples/procmon/jsonxx.cc:577-580 | an object with an empty name does not come back |
| JsonFaithful.TagOfKept | examples/procmon/jsonxx.cc:573-617 | what printing forgets, printing again would not show |
| JsonReformat.SameBody | examples/procmon/jsonxx.cc:573-617 | a printed text determines where it ends, and two values with one text have either both or neither lost a name |
| JsonReformat.ReformatIdempotentExactly | examples/procmon/jsonxx.cc:929-952 | reformatting twice is reformatting once if and only if the text is rejected or what it is read as has no empty name |
| JsonReformat.NamelessReformat | examples/procmon/jsonxx.cc:929-952 | an object whose only name is empty is accepted, and reformatting its text twice differs from once |
| JsonDocument.DocumentAccepted | examples/procmon/jsonxx.cc:899-952 | behind any characters up to the blank every rendering of an array or object is read whole, what follows is left, and reformat prints its meaning |
| JsonDocument.DocumentRejected | examples/procmon/jsonxx.cc:899-952 | anything else in front, and nothing at all, is turned down, and reformat gives an empty text |
| JsonOstream.GarbledLength | examples/procmon/jsonxx.cc:450-457 | a string with a byte of 128 or more comes back longer; a 7-bit string comes back as it is |
| JsonOstream.StreamStringExact | examples/procmon/jsonxx.cc:420-462 | what stream_string writes is a valid string body for every string, and what it denotes |
| JsonSample.StreamCharExactly | examples/procmon/jsonxx.cc:450-457 | a byte of 128 or more is written as ffffff and its two digits, any other as in json() |
| JsonSample.StreamSampleText | examples/procmon/jsonxx.cc:490-518 | the line of an object of one array, for any name and string: a blank behind colon and comma |
| JsonSample.StreamPairText | examples/procmon/jsonxx.cc:504-517 | of two members the lesser name is written first |
| JsonOstream.EchoExactly | examples/procmon/jsonxx.cc:466-518 | with numbers as exact decimals: what comes back from operator<< is the value if and only if numbers have at most six digits and strings are 7-bit |
| JsonOstream.StreamTreeExact | examples/procmon/jsonxx.cc:466-518 | what operator<< writes is a valid text of the value that comes back |
| JsonOstream.ParseStream | examples/procmon/jsonxx.cc:466-518 | the parser reads that value back and stops behind it |
| JsonOstream.StreamRoundTripExactly | examples/procmon/jsonxx.cc:466-518 | with numbers as exact decimals: parse(operator<<(v)) = v if and only if every part was set, numbers have at most six digits, and all strings and names are 7-bit; nothing is said of which binary fractions come back |
| JsonOstream.SeventhDigitIsLost | examples/procmon/jsonxx.cc:468-469 | 1234567 does not come back |
| JsonOstream.HighByteIsLost | examples/procmon/jsonxx.cc:451-454 | no byte of 128 or more comes back |
| JsonXml.CloseTagName | examples/procmon/jsonxx.cc:731-759 | the closing tag is the element's name in each format |
| JsonXml.HeadExact | examples/procmon/jsonxx.cc:672-729 | an opening tag has no bracket inside, is not self-closing, and starts with the name the closing tag repeats |
| JsonXml.EscapeTagPlain | examples/procmon/jsonxx.cc:642-670 | escaped text has no bracket |
| JsonXml.TextExact | examples/procmon/jsonxx.cc:642-670 | undoing the entities gives back exactly the string |
| JsonXml.LeafExact | examples/procmon/jsonxx.cc:766-781 | a scalar reads back as one element holding its text |
| JsonXml.ReadBody | examples/procmon/jsonxx.cc:761-807 | in each format a value is one balanced element of the value's shape, whatever follows it |
| JsonXml.ReadPlainTags | examples/procmon/jsonxx.cc:761-807 | a reader that goes by brackets never takes one into a tag |
| JsonXml.ShapeShowsNames | examples/procmon/jsonxx.cc:672-729 | every member name is written, brackets and all, into an opening tag of the shape |
| JsonXml.ReadXmlExactly | examples/procmon/jsonxx.cc:858-897 | behind its header a document is one balanced element of the value's shape if and only if no name has an angle bracket |
| JsonXmlKinds.KindShows | examples/procmon/jsonxx.cc:672-729 | in every format the kind of a value can be read off its opening tag, by its letter or its word |
| JsonXmlKinds.ContentShows | examples/procmon/jsonxx.cc:761-807 | what an element holds: a boolean's word, a string behind its entities, a numeral of nineteen digits, nothing for null, one child for each element or member in order |
| JsonXmlKinds.HeadsExactly | examples/procmon/jsonxx.cc:672-729 | the opening tag of a named element in the four formats, spelled out |
| JsonXmlKinds.UnnamedHeadsExactly | examples/procmon/jsonxx.cc:672-729 | the same without a name |
| JsonXmlKinds.AttributeExactly | examples/procmon/jsonxx.cc:622-640 | in an attribute name ASCII letters and digits stand for themselves and everything else is _ |
| JsonXmlKinds.XmlSampleText | examples/procmon/jsonxx.cc:761-807 | the document of an object of one array: an element a line, indented by tabs |
| CrcRegister.NibbleIsFourBits | examples/procmon/Imagepng.cpp:11-16 | one table lookup is four bit-serial steps for every 32-bit register (RFC 2083 section 3.4) |
| PngChecksum.TwoLookups | examples/procmon/Imagepng.cpp:16 | two lookups per byte are the bit-serial CRC-32 step |
| PngChecksum.AdlerStep | examples/procmon/Imagepng.cpp:20 | reducing both sums at every byte gives the Adler-32 of RFC 1950 section 2.2 |
| PngChecksum.BigEndianExact | examples/procmon/Imagepng.cpp:15 | four bytes, highest first, hold a number modulo 2^32 |
| PngBytes.CrcOfEnd | examples/procmon/Imagepng.cpp:40 | the CRC-32 of the type IEND is 0xae426082 |
| PngBytes.AdlerExactly | examples/procmon/Imagepng.cpp:20 | the Adler-32 in its closed form: the bytes weighted by their distance from the end, and their sum, modulo 65521 |
| PngBytes.HighestFirst | examples/procmon/Imagepng.cpp:15 | a number of four bytes is written highest byte first |
| PngBytes.FileStart | examples/procmon/Imagepng.cpp:23-28 | the first bytes of every file: signature, header length and type, the two dimensions, 8, 6 or 2, and three zeros |
| PngBytes.FileRest | examples/procmon/Imagepng.cpp:29-40 | the data chunk starts with 0x78 0x01, and every file ends with the same twelve bytes |
| PngRoundTrip.ReadChunkExact | examples/procmon/Imagepng.cpp:21-22 | a chunk whose declared length is right and at most 2^31 - 1 reads back with a matching CRC (RFC 2083 section 3.2) |
| PngRoundTrip.RowBlocksLength | examples/procmon/Imagepng.cpp:29-37 | the row loop writes six bytes and a row's pixels for every row |
| PngRoundTrip.InflateRows | examples/procmon/Imagepng.cpp:31-37 | inflating the stored blocks gives the filtered image, the final flag standing on the last row only |
| PngRoundTrip.UnfilterExact | examples/procmon/Imagepng.cpp:34-36 | removing the filter bytes gives back the pixels |
| PngRoundTrip.UnzipExact | examples/procmon/Imagepng.cpp:30-38 | the zlib stream unpacks and its Adler-32 matches |
| PngRoundTrip.DecodeExact | examples/procmon/Imagepng.cpp:23-40 | when the sizes fit, decoding gives back size, colour type and every pixel byte |
| PngRoundTrip.AcceptedFits | examples/procmon/Imagepng.cpp:29-33 | a file that decodes at all has fitting sizes: no wrapped length or pitch is ever accepted |
| PngRoundTrip.DecodesExactlyWhenItFits | examples/procmon/Imagepng.cpp:9-41 | decoding inverts the encoder if and only if both dimensions are positive, a row fits one stored block and the data chunk is at most 2^31 - 1 bytes |
| PngRoundTrip.WideRowIsRejected | examples/procmon/Imagepng.cpp:33 | one row of 21845 RGB pixels is not decoded |
| PngRoundTrip.TallImageIsRejected | examples/procmon/Imagepng.cpp:29 | a column of 300000000 RGB pixels is not decoded, its data chunk being too long |
| PngEncoder.Emitter.constructor | examples/procmon/Imagepng.cpp:23 | the magic number stands outside any chunk |
| PngEncoder.Emitter.PutC | examples/procmon/Imagepng.cpp:16 | a byte written is a byte of the chunk and enters its CRC |
| PngEncoder.Emitter.PutAllC | examples/procmon/Imagepng.cpp:17 | the same for a run of bytes, in order |
| PngEncoder.Emitter.PutAdler | examples/procmon/Imagepng.cpp:20 | the byte also enters the running Adler-32 |
| PngEncoder.Emitter.Begin | examples/procmon/Imagepng.cpp:21 | length, then a fresh CRC that covers the type |
| PngEncoder.Emitter.End | examples/procmon/Imagepng.cpp:22 | the CRC written is that of type and data |
| PngEncoder.Emitter.PutRow | examples/procmon/Imagepng.cpp:32-36 | a row is one stored block, and filter byte and pixels enter the Adler-32 |
| PngEncoder.PutHeader | examples/procmon/Imagepng.cpp:24-28 | the header chunk |
| PngEncoder.PutRows | examples/procmon/Imagepng.cpp:31-37 | the row loop writes every row's block, and the Adler-32 is that of the whole filtered image |
| PngEncoder.PutImage | examples/procmon/Imagepng.cpp:29-39 | the data chunk |
| PngEncoder.SvPng | examples/procmon/Imagepng.cpp:9-41 | the bytes emitted are the specified file |
| PngEncoder.Imagepng.constructor | examples/procmon/Imagepng.cpp:43-57 | all channels of all pixels start at 255 |
| PngEncoder.Imagepng.Pack | examples/procmon/Imagepng.cpp:81-98 | the packing loop fills the byte array with the pixels' channels |
| PngEncoder.Imagepng.Save | examples/procmon/Imagepng.cpp:79-100 | the file grows by the encoding of the pixels, which stay as they are |
| PngEncoder.PackedAt | examples/procmon/Imagepng.cpp:84-97 | channel j of pixel i is byte i * channels + j |
| PngEncoder.SavedImageDecodes | examples/procmon/Imagepng.cpp:79-100 | a saved image decodes to its pixels if and only if the sizes fit |
| PoolProperties.StepKeeps | base/ThreadPool.cpp:23-96 | every step keeps the pool's invariant |
| PoolProperties.RunKeeps | base/ThreadPool.cpp:23-96 | so does every run |
| PoolProperties.NoLostWakeup | base/ThreadPool.cpp:48-81 | while the pool runs and a worker sleeps, the queue is no longer than the workers that do not; when a producer sleeps, the free slots are no more than the signalled producers |
| PoolProperties.SomeThreadCanStep | base/ThreadPool.cpp:48-81 | a queued task or a sleeping producer always leaves some thread able to take a step of its own |
| PoolProperties.HeadGetsTaken | base/ThreadPool.cpp:48-66 | a worker that does not sleep can take the head of the queue by its own steps |
| PoolProperties.QueueCanDrain | base/ThreadPool.cpp:48-66 | from every state of a running pool the workers' own steps can empty the queue, and then all pushed tasks were taken in order |
| PoolProperties.PoolConserves | base/ThreadPool.cpp:48-81 | what was pushed is what was taken followed by the queue; the bound holds; each taken task is with the one worker that took it until finished |
| PoolHistory.EveryTaskHandedOver | base/ThreadPool.cpp:68-81 | over every run: the tasks put in the queue, taken ones first, are those of the calls of run whose caller has left, one for each in order of leaving, through every wait and wakeup; the tasks run by callers are those of the calls made without threads |
| PoolHistory.PoolIsFifo | base/ThreadPool.cpp:23-81 | every run, with its waits, signals and wakeups without cause, is the run of a plain bounded queue: same queue, same tasks taken and run by callers, same callers inside, as many threads as were ordered |
| PoolProperties.AfterStop | base/ThreadPool.cpp:23-36 | after a stop no worker sleeps and each takes at most one more task |
| PoolProperties.WorkerLeaves | base/ThreadPool.cpp:88-96 | after a stop a worker's own steps alone bring it out of its loop |
| PoolProperties.AllCanLeave | base/ThreadPool.cpp:30-32 | after a stop the workers' own steps can make every join return |
| PoolProperties.CallersCanLeave | base/ThreadPool.cpp:68-81 | from every state of a running pool the threads' own steps can bring every caller out of run |
| PoolProperties.SomethingToDo | base/ThreadPool.cpp:48-81 | as long as a task is queued or a caller is inside run, some thread has a step of its own |
| PoolProperties.ScheduleEnds | base/ThreadPool.cpp:48-81 | however the threads are scheduled and whoever is woken, their own steps are bounded by a count of work and waiting threads |
| PoolProperties.EveryScheduleDrains | base/ThreadPool.cpp:48-81 | every schedule that cannot go on has emptied the queue, taken every task in order, and let every caller out of run |
| PoolProperties.Stranded | base/ThreadPool.cpp:68-81 | once all threads have left, no task is taken again, and with a full queue every caller inside run stays inside |
| PoolProperties.CallersLeaveExactly | base/ThreadPool.cpp:23-36 | once all threads have left, some run leaves nobody inside run if and only if the queue is unbounded or has room for all callers inside |
| PoolProperties.CallerStranded | base/ThreadPool.cpp:23-96 | a run of a one-thread, one-place pool after which a caller stays inside run, and its task in the queue, whatever happens next |
| ThreadPools.ThreadPool.constructor | base/ThreadPool.cpp:6-14 | a new pool is stopped, empty and without threads |
| ThreadPools.ThreadPool.BeginStart | base/ThreadPool.cpp:40 | one step: the flag is set before any thread exists |
| ThreadPools.ThreadPool.Spawn | base/ThreadPool.cpp:43-46 | one step: one more thread, which may run before the next is created |
| ThreadPools.ThreadPool.Start | base/ThreadPool.cpp:38-47 | undisturbed, start is the run of those steps, the threads created in order |
| ThreadPools.ThreadPool.Stop | base/ThreadPool.cpp:25-29 | the flag falls and every sleeping worker is woken |
| ThreadPools.ThreadPool.Notify | base/ThreadPool.cpp:79 | exactly one waiter is woken if there is any |
| ThreadPools.ThreadPool.NotifyFull | base/ThreadPool.cpp:61 | one sleeping producer, if any, is signalled |
| ThreadPools.ThreadPool.NotifyEmpty | base/ThreadPool.cpp:79 | one sleeping worker, if any, is woken |
| ThreadPools.ThreadPool.TestRunning | base/ThreadPool.cpp:90 | the unlocked test sends the worker on or out |
| ThreadPools.ThreadPool.PopFront | base/ThreadPool.cpp:58-59 | the head of the queue goes to the worker |
| ThreadPools.ThreadPool.Take | base/ThreadPool.cpp:48-66 | the region of take is one step of the transition system and returns the head, or nothing from an empty queue |
| ThreadPools.ThreadPool.Finish | base/ThreadPool.cpp:92-94 | a finished task's worker is back at its test |
| ThreadPools.ThreadPool.Run | base/ThreadPool.cpp:70-73 | without threads the caller runs the task, else it goes for the mutex |
| ThreadPools.ThreadPool.Enqueue | base/ThreadPool.cpp:73-80 | the region of run is one step of the transition system |
| TimerSpec.InsertedSorted | src/TimerQueue.cpp:158-171 | an insertion keeps the order and adds exactly the entry |
| TimerSpec.RemovedSorted | src/TimerQueue.cpp:97-99 | an erasure keeps the order and removes exactly the entry |
| TimerSpec.DueExactly | src/TimerQueue.cpp:123-133 | the sentry splits the set exactly at the current time, entries of that very time included |
| TimerSpec.SplitExact | src/TimerQueue.cpp:20-31 | seconds and nanoseconds are exact, normalised, and never the zero that would disarm the timer |
| TimerSpec.ArmedExactly | src/TimerQueue.cpp:20-31 | the deadline armed is the expiration or 100 microseconds from now, whichever is later |
| TimerInvariant.StepKeeps | src/TimerQueue.cpp:82-171 | every operation keeps the queue's invariant, also when called back during a batch |
| TimerInvariant.EveryRun | src/TimerQueue.cpp:82-171 | it holds in every state of every run |
| TimerProperties.LiveExactly | src/TimerQueue.cpp:82-171 | a timer is live if and only if it is scheduled or in flight, never both; it is freed if and only if it was created and is not live, and only once |
| TimerHistory.EveryTimerLives | src/TimerQueue.cpp:82-156 | over every run each timer is where its own life, told from the calls alone, says: created or not, with that expiration and interval or freed, in flight or scheduled, cancelled or not |
| TimerHistory.AddedAsAsked | src/TimerQueue.cpp:82-92 | the timer an addTimer creates is the one numbered by the calls before it; while live it has the interval asked for and expires at the time asked for, or one interval after its latest batch; with an interval it is live unless cancel named it |
| TimerProperties.DestructorFreesTheRest | src/TimerQueue.cpp:73-80 | after destruction every timer ever created was freed exactly once |
| TimerProperties.InsertNeverCollides | src/TimerQueue.cpp:158-171 | insert never meets its own key, from addTimer or from any turn of reset |
| TimerProperties.BatchExactly | src/TimerQueue.cpp:123-133 | a batch is exactly the live timers due, each once, by time and then pointer, none of them cancelled; all others stay scheduled |
| TimerProperties.CallbacksInOrder | src/TimerQueue.cpp:114-118 | callbacks run in batch order whatever they add or cancel |
| TimerProperties.HandleReadCallsTheBatch | src/TimerQueue.cpp:107-121 | one handleRead calls back exactly its batch |
| TimerProperties.EndExactly | src/TimerQueue.cpp:135-156 | afterwards a repeating uncancelled timer of the batch is scheduled at now + interval, every other one of it is freed, and all other timers are untouched |
| TimerProperties.CancelledForGood | src/TimerQueue.cpp:94-105 | a timer cancelled before or during a batch is in no later batch |
| TimerHistory.NeverCalledAgain | src/TimerQueue.cpp:94-105 | from the call of cancel on, before or during a batch, the timer is in no batch |
| TimerProperties.NoMissedDeadline | src/TimerQueue.cpp:45-59 | at rest with timers scheduled the kernel timer has fired or is armed no later than the earliest expiration, or 100 microseconds after arming |
| TimerProperties.ReadFailsExactly | src/TimerQueue.cpp:34-43 | between the poll and handleRead other handlers may add, cancel and take time: the read fails if and only if one armed the timerfd anew for a deadline that has not come |
| TimerProperties.ReadFails | src/TimerQueue.cpp:34-43 | a run in which it fails |
| TimerQueues.TimerQueue.constructor | src/TimerQueue.cpp:61-71 | a new queue is empty and its timer disarmed |
| TimerQueues.TimerQueue.ResetTimerfd | src/TimerQueue.cpp:45-59 | the deadline armed is the expiration, or the shortest delay from now |
| TimerQueues.TimerQueue.Insert | src/TimerQueue.cpp:158-171 | the entry is put in its place, and the result tells whether it is strictly the earliest |
| TimerQueues.TimerQueue.Add | src/TimerQueue.cpp:82-92 | one step of the state machine; arms only when the earliest changed |
| TimerQueues.TimerQueue.Erase | src/TimerQueue.cpp:97-100 | removes the entry if present and tells how many were removed |
| TimerQueues.TimerQueue.CancelTimer | src/TimerQueue.cpp:94-105 | a scheduled timer is removed and freed, one in flight is marked |
| TimerQueues.TimerQueue.GetExpired | src/TimerQueue.cpp:123-133 | the due entries leave the set and are returned in order |
| TimerQueues.TimerQueue.ResetTimer | src/TimerQueue.cpp:140-146 | one turn of reset with Timer::restart |
| TimerQueues.TimerQueue.Reset | src/TimerQueue.cpp:135-156 | the whole batch is settled and the timer armed for the earliest entry left |
| TimerQueues.TimerQueue.ArmEarliest | src/TimerQueue.cpp:149-155 | arms exactly when there is an earliest entry with a valid time |
| TimerQueues.TimerQueue.CallBack | src/TimerQueue.cpp:115-117 | a callback is entered in the log and its actions are steps of the state machine |
| TimerQueues.TimerQueue.ReadTimerfd | src/TimerQueue.cpp:34-43 | an expired timerfd is emptied, one armed anew stays armed |
| TimerQueues.TimerQueue.MoveExpired | src/TimerQueue.cpp:113-114 | what is due leaves the set and is in flight |
| TimerQueues.TimerQueue.TakeBatch | src/TimerQueue.cpp:109-114 | the start of handleRead |
| TimerQueues.TimerQueue.SettleBatch | src/TimerQueue.cpp:118-120 | the end of handleRead |
| TimerQueues.TimerQueue.HandleRead | src/TimerQueue.cpp:107-121 | the whole of handleRead is the run of the state machine its callbacks describe, and keeps the invariant |
| Buffers.FindCrlf | src/Buffer.h:109-114 | the result is a line end with none before it, or there is none |
| Buffers.FirstCrlf | src/Buffer.h:109-114 | that determines the result |
| Buffers.RefinesBytes | src/Buffer.h:142-243 | under every run of operations the indices stay in order and the content is that of a plain byte sequence |
| Buffers.NeverRefused | src/Buffer.h:142-243 | a run that prepends no more than the cheap prefix holds is never refused by an assert where the plain sequence allows it, and what is left of the prefix stays available |
| Buffers.NeverGrows | src/Buffer.h:405-424 | what was read makes room again: while what is to be held fits behind a prefix of 8 bytes the vector keeps its size over any run, and it never shrinks |
| Buffers.GrowsExactly | src/Buffer.h:405-424 | it grows if and only if that fits neither behind the reader index nor behind the prefix; where the reader index goes in every operation |
| Buffers.Buffer.constructor | src/Buffer.h:77-85 | empty, with the cheap prefix in front |
| Buffers.Buffer.FindCRLF | src/Buffer.h:109-114 | the search loop finds the first line end of the content |
| Buffers.Buffer.Retrieve | src/Buffer.h:142-153 | drops a prefix; dropping everything resets the indices |
| Buffers.Buffer.RetrieveAll | src/Buffer.h:182-186 | empties the buffer and resets the indices |
| Buffers.Buffer.Peek | src/Buffer.h:106-107 | the first bytes of the content |
| Buffers.Buffer.RetrieveAsString | src/Buffer.h:193-199 | returns a prefix and drops it |
| Buffers.Buffer.Append | src/Buffer.h:206-211 | the content is followed by the data, and nothing else changes |
| Buffers.Buffer.EnsureWritableBytes | src/Buffer.h:218-225 | there is room afterwards, the assert included, and the content is the same |
| Buffers.Buffer.MakeSpace | src/Buffer.h:405-424 | grows or moves the content down, with kCheapPrepend < readerIndex_ where it is asserted |
| Buffers.Buffer.Resize | src/Buffer.h:410 | a larger vector with the same contents |
| Buffers.Buffer.MoveDown | src/Buffer.h:416-421 | the overlapping copy keeps the content |
| Buffers.Buffer.Unwrite | src/Buffer.h:239-243 | drops a suffix |
| Buffers.Buffer.Prepend | src/Buffer.h:378-384 | the data precedes the content |
| Buffers.Buffer.ReadFd | src/Buffer.cpp:28-60 | appends precisely the bytes received, also when they spill into the overflow area; a failure changes nothing |
| Buffers.Buffer.Scatter | src/Buffer.cpp:28-60 | bytes put into the writable area follow the content |
| TcpConnections.StepKeeps | src/TcpConnection.cpp:52-100 | every step keeps wire followed by buffer equal to the accepted bytes, and writing in step with the buffer |
| TcpConnections.OutputConserved | src/TcpConnection.cpp:52-90 | in every run, through partial and failed writes, wire followed by buffer is the data of all sends but those refused at once with nothing waiting, in order; the wire is as long as what the socket took; until disconnection the channel is writing if and only if the buffer is non-empty |
| TcpConnections.AcceptedRun | src/TcpConnection.cpp:52-71 | the same from any state on |
| TcpConnections.CallsAcceptExactly | src/TcpConnection.cpp:60-62 | the same for the sends made in callbacks, nested ones included |
| TcpConnections.HandleWriteAccepts | src/TcpConnection.cpp:73-90 | the same for a whole write event |
| TcpConnections.GracefulShutdown | src/TcpConnection.cpp:73-100 | without re-entry and without sends after shutdown, the write side is shut at most once, only with every accepted byte on the wire, and always once the buffer is empty |
| TcpConnections.ShutsCleanExactly | src/TcpConnection.cpp:80-98 | over every run: the write side is shut only with every accepted byte on the wire, if and only if no write-complete callback leaves bytes over in a handleWrite that goes on while shutting down |
| TcpConnections.ShutOnceExactly | src/TcpConnection.cpp:80-98 | over every run: the write side is shut at most once, if and only if no handleWrite finishes that emptied the buffer after the first shut, or whose callback shut it with nothing waiting |
| TcpConnections.DrainedIsShut | src/TcpConnection.cpp:73-100 | over every run: outside callbacks a connection shutting down with an empty buffer has been shut |
| TcpConnections.ReentrantSendIsCutOff | src/TcpConnection.cpp:81-86 | a callback that sends during shutdown has a byte still buffered when the write side is shut |
| TcpConnections.CallbackShutsTwice | src/TcpConnection.cpp:81-98 | a callback that asks for the shutdown has the write side shut twice |
| TcpConnections.CallbackShutsOnce | src/TcpConnection.cpp:81-98 | with bytes waiting the same request has it shut once |
| TcpConnections.HandleWriteIsRun | src/TcpConnection.cpp:73-90 | a write event with its callback, nested callbacks included, is a run of the steps |
| TcpConnections.CallsAreRun | src/TcpConnection.cpp:60-62 | so is whatever a callback does |
| TcpConnections.TcpConnection.constructor | src/TcpConnection.cpp:5-15 | a fresh connection |
| TcpConnections.TcpConnection.Send | src/TcpConnection.cpp:52-71 | written at once, buffered in part, or dropped whole when the immediate write fails; when it is taken whole the callback runs inside |
| TcpConnections.TcpConnection.Callback | src/TcpConnection.cpp:60-62 | the callback's calls in order |
| TcpConnections.TcpConnection.Shutdown | src/TcpConnection.cpp:92-100 | one step: shuts at once only when nothing is waiting |
| TcpConnections.TcpConnection.HandleClose | src/TcpConnection.cpp:36-43 | disconnected, the channel off |
| TcpConnections.TcpConnection.Drain | src/TcpConnection.cpp:75-80 | the write event up to its callback is one step; a failed write changes nothing |
| TcpConnections.TcpConnection.HandleWrite | src/TcpConnection.cpp:73-90 | a write event with any calls from its callback is the steps in order |
| HttpSpec.ReturnsExactly | http/HttpContext.cpp:12-63 | parseRequest returns if and only if the request was not complete before, no second method is to be set, and a body whose headers are complete is there in full |
| HttpSpec.AbortsExactly | http/HttpRequest.cpp:15 | the assertion fails if and only if a request line with a blank is read on a context that has a method |
| HttpSpec.SecondCallAbortsExactly | http/HttpContext.cpp:71-94 | after a first call, the next aborts if and only if the first rejected its request line with the method recognised |
| HttpSpec.TurnParse | http/HttpContext.cpp:16-60 | a turn of the loop makes progress towards the outcome, ends with it, aborts, or changes nothing at all |
| HttpSpec.HangsForEver | http/HttpContext.cpp:16-60 | where no outcome is specified the loop is still going after any number of turns |
| HttpSpec.StopsInTime | http/HttpContext.cpp:16-60 | otherwise it stops after some number of turns with the specified outcome |
| HttpFailures.IncompleteBodyHangs | http/HttpContext.cpp:46-59 | from a fresh context, a request that declares more body than has arrived keeps the call going for ever |
| HttpFailures.MissingBodyHangs | http/HttpContext.cpp:46-59 | so does a concrete request of 38 bytes |
| HttpFailures.SecondCallAborts | http/HttpContext.cpp:65-98 | a request line without a version, parsed twice, aborts |
| HttpSpec.Incremental | http/HttpContext.cpp:12-63 | parsing A and then B on the same context is parsing A+B at once, in flag, state, request and leftover, for every split |
| HttpSpec.AnySplit | http/HttpContext.cpp:12-63 | the same for any number of pieces |
| HttpLines.LineRead | http/HttpContext.cpp:65-98 | a line of one of the five names, a target with or without a query, and one of the two versions is read into exactly these parts |
| HttpLines.LineAcceptedExactly | http/HttpContext.cpp:65-98 | a request line is accepted if and only if it is such a line, and there is one way only to take it apart |
| HttpLines.LineRejected | http/HttpContext.cpp:65-98 | what a rejected line leaves behind when its method is known |
| HttpLines.UnknownMethod | http/HttpRequest.cpp:13-32 | what it leaves behind when the method is unknown, or there is no blank |
| HttpLines.LineConsumed | http/HttpContext.cpp:17-31 | on a fresh context an accepted line is consumed with its line end, and the headers are next |
| HttpLines.FieldRead | http/HttpRequest.cpp:59-71 | a header line, with any blanks around its value, enters the value without them under the name before its first colon |
| HttpLines.NoColonEnds | http/HttpContext.cpp:35-43 | any line without a colon ends the headers and changes nothing else |
| HttpLines.AtoiExactly | http/HttpContext.cpp:46-59 | a length is read past blanks and a sign up to the first character that is no digit |
| HttpContexts.HttpRequest.constructor | http/HttpRequest.cpp:6-11 | an empty request |
| HttpContexts.HttpRequest.SetMethod | http/HttpRequest.cpp:13-32 | on a request without a method, as asserted: the five methods, anything else invalid |
| HttpContexts.HttpRequest.SetHeader | http/HttpRequest.cpp:59-71 | the trim loops give the value without blanks at its ends, and it replaces an earlier one |
| HttpContexts.HttpContext.constructor | http/HttpContext.cpp:6-10 | a context that expects a request line |
| HttpContexts.HttpContext.ProcessRequestLine | http/HttpContext.cpp:65-98 | unless the assertion fails: accepts exactly the specified lines, and leaves what was set before a failure |
| HttpContexts.HttpContext.SetTarget | http/HttpContext.cpp:75-81 | path and query are split at the first question mark |
| HttpContexts.HttpContext.SetVersion | http/HttpContext.cpp:84-94 | the two versions, anything else fails and sets nothing |
| HttpContexts.HttpContext.RequestLineTurn | http/HttpContext.cpp:17-31 | one turn of the loop leaves flag, context and buffer as specified |
| HttpContexts.HttpContext.HeaderTurn | http/HttpContext.cpp:32-45 | the same for a header line |
| HttpContexts.HttpContext.BodyTurn | http/HttpContext.cpp:46-59 | the same for the body; while it is incomplete the turn goes round with everything unchanged |
| HttpContexts.HttpContext.ParseRequest | http/HttpContext.cpp:12-63 | the loop over the buffer gives the specified flag, context and leftover, and terminates |
| HttpResponses.HttpResponse.constructor | http/HttpResponse.cpp:4-9 | an empty response |
| HttpResponses.HttpResponse.AppendStatusLine | http/HttpResponse.cpp:13-17 | the status line is appended |
| HttpResponses.HttpResponse.AppendGenerated | http/HttpResponse.cpp:19-25 | the generated fields are appended |
| HttpResponses.HttpResponse.AppendField | http/HttpResponse.cpp:28-31 | one field is appended |
| HttpResponses.HttpResponse.AppendFields | http/HttpResponse.cpp:27-32 | the loop appends all fields in map order |
| HttpResponses.HttpResponse.AppendToBuffer | http/HttpResponse.cpp:11-36 | the buffer grows by exactly status line, header block and body |
| HttpResponses.HeaderRead | http/HttpContext.cpp:36-38 | a printed field enters the header map under its name with its value |
| HttpResponses.BlockRead | http/HttpResponse.cpp:19-35 | the header loop ends at the body with the caller's fields over the generated ones |
| HttpResponses.AtoiOfNat | http/HttpResponse.cpp:22-23 | the printed length reads back |
| HttpResponses.ParsedReadable | http/HttpContext.cpp:32-45 | whatever the bytes, only fields with a colon-free name, no line end and a trimmed value get into the header map |
| HttpResponses.KeepAliveRoundTrip | http/HttpResponse.cpp:11-36 | in keep-alive mode the parser gets the header map, exactly the body and nothing left over, if and only if all fields are such and a length given by the caller is the body's |
| HttpResponses.CloseRoundTrip | http/HttpResponse.cpp:11-36 | in closing mode it gets the header map, and the body is left over, if and only if all fields are such and the caller announces no body |
| HttpResponses.ColonIsLost | http/HttpResponse.cpp:27-32 | a name with a colon does not read back |
| HttpLines.StatusRead | http/HttpResponse.cpp:13-17 | a reader of status lines gets the code and the message back, and leaves what follows |
| HttpLines.BlockText | http/HttpResponse.cpp:19-35 | the header block of a response with two fields of its own, spelled out: the lesser name first |
| LoadPacing.ErrorIsDistance | examples/dummyload/dummyload.cpp:87-102 | the accumulator is the distance of the busy count from the ideal line, and stays within one step of it |
| LoadPacing.EvenPacing | examples/dummyload/dummyload.cpp:87-112 | after i slots the busy count c satisfies 2pi - n <= 2nc < 2pi + n |
| LoadPacing.FullCycle | examples/dummyload/dummyload.cpp:113 | a full cycle has exactly p busy slots and leaves the accumulator where it started |
| LoadPacing.CyclesJoin | examples/dummyload/dummyload.cpp:81-114 | calls one after the other go on as one unending cycle |
| LoadPacing.EveryWindow | examples/dummyload/dummyload.cpp:87-112 | every window of w slots has pw/n busy slots rounded down or up |
| LoadPacing.Load | examples/dummyload/dummyload.cpp:81-114 | every slot published is the specified one, and the final count is the percentage where that is 0 to n, and the nearer bound where it is not |

## Left out

- JsonNumber.NumberRoundTrip: does not model the binary `long double` (its rounding, range and negative zero); numbers are exact decimals, so what is proved of printing is about decimal rounding only.
- JsonNumber.RoundedExact: exact decimals, as above; a binary fraction with a long decimal expansion can come back although its expansion does not.
- JsonFaithful.KeptExactly: exact decimals, as above.
- JsonFaithful.RoundTripExactly: exact decimals, as above; the only-if half covers no binary fraction.
- JsonOstream.EchoExactly: exact decimals, as above.
- JsonOstream.StreamRoundTripExactly: exact decimals, as above; the only-if half covers no binary fraction.
- JsonText.ParseTree: renderings have no comments inside the letters of true, false and null; the parser's passing over them is specified, and stated by `JsonText.MatchAcrossComment`.
- JsonStream.Stream.Match: streams are read-only, so that a putback of other characters than were read fails; a stream that has failed or ended is modelled as one with nothing left to read.
- JsonXml.ReadXmlExactly: attributes given by the caller are taken to be well formed (a blank, then no bracket and no final slash), because they are the caller's own markup.
- PngRoundTrip.DecodesExactlyWhenItFits: the reference decoder knows files of one header, one data and one end chunk with stored blocks and filter type 0; a decoder that also inflates compressed blocks might accept a wrapped length by accident.
- PngEncoder.Imagepng.Save: the file is the sequence of bytes written; opening, closing and write errors are left out, and the constructor is called with sizes whose byte counts fit an int.
- PoolProperties.NoLostWakeup: `maxQueue_` is fixed before the start, and the unsynchronised reads of `running_` and of the list of threads are atomic steps.
- ThreadPools.ThreadPool.Start: a stop comes after start has returned, and a second start after a stop is left out.
- TimerInvariant.EveryRun: cancel is taken at its intent, removing and freeing a live timer (the code reads the erased iterator once more); times are positive, intervals are whole microseconds, and all calls come from the loop's thread.
- TimerQueues.TimerQueue.CancelTimer: models the intent; the code's use of the iterator after erasing it has no defined meaning.
- TimerQueues.TimerQueue.HandleRead: a callback's actions are given as a script of additions, cancellations and passing time; the function objects themselves are left out.
- TcpConnections.ShutOnceExactly: the socket may take bytes after its write side was shut, which a real one refuses; the theorem holds of those runs too.
- HttpContexts.HttpContext.ParseRequest: is called only when it would return; `HttpSpec.ReturnsExactly` says exactly when that is.
- HttpSpec.Incremental: integer overflow in atoi is left out; the length is an unbounded number.
- `parse_identifier` and the strict parser are switched off by the library's settings.
- Raw pointers, unions and ownership inside JSON values; values are trees.
- Sockets, epoll, address handling, acceptor, connector, servers and clients, and the event loop's dispatch: plumbing around system calls. Of a channel only its interest in write events is kept.
- Reading a connection (handleRead) beyond `Buffers.Buffer.ReadFd`.
- The integer accessors of the buffer in network order and findEOL: fixed-width cases of the operations modelled.
- The process scanner, its file reading, and the mains of the examples: input and output.
- The other load shapes, which use floating point, and the processor-usage calculation.
- Mutexes, conditions and threads themselves; shared pointers and destruction order.
- Getters, setters and enumerations turned into text: one-branch facts.
